/** Which key an eviction takes, in true time (src/core/store.cpp).

    An entry keeps only the low 32 bits of the clock at its last use. Beside the store runs a
    ghost map of true last uses; the theorems compare the two. */
module Lru {
  import opened Bits
  import opened Entries
  import opened TableModel
  import opened StoreRuns
  import Spec = StoreSpec

  /** A set that stores its key. */
  ghost predicate Stores(step: Step) {
    step.op.Set? && step.op.ok && !Spec.PastDeadline(step.op.at, step.now)
  }

  /** The step reads or writes the value or the deadline of a live key: it counts as a use. */
  ghost predicate Uses(s: Spec.St, step: Step, k: string) {
    match step.op
    case Find(key, touch) => k == key && touch && key in Spec.Lookup(s, key, step.now).m
    case Set(key, _, at, _, _, ok) => k == key && Stores(step)
    case ExpireAt(key, at) => k == key && at >= step.now && key in Spec.Lookup(s, key, step.now).m
    case _ => false
  }

  ghost function UsedNext(s: Spec.St, used: map<string, int>, step: Step): map<string, int> {
    if (step.op.Find? || step.op.Set? || step.op.ExpireAt?) && Uses(s, step, step.op.key)
    then used[step.op.key := step.now] else used
  }

  ghost predicate StampOk(m: map<string, Rec>, used: map<string, int>, k: string) {
    k in m ==> k in used && m[k].lru == Spec.Clock32(used[k])
  }

  /** Every entry's clock is that of its true last use. */
  ghost predicate Stamped(m: map<string, Rec>, used: map<string, int>) {
    forall k {:trigger StampOk(m, used, k)} :: StampOk(m, used, k)
  }

  lemma StampedFewer(m: map<string, Rec>, used: map<string, int>, gone: set<string>)
    requires Stamped(m, used)
    ensures Stamped(m - gone, used)
  {
    var m' := m - gone;
    forall k ensures StampOk(m', used, k) {
      assert StampOk(m, used, k);
    }
  }

  lemma StampedPut(m: map<string, Rec>, used: map<string, int>, key: string, r: Rec, now: int)
    requires Stamped(m, used) && r.lru == Spec.Clock32(now)
    ensures Stamped(m[key := r], used[key := now])
  {
    var m', used' := m[key := r], used[key := now];
    forall k ensures StampOk(m', used', k) {
      assert StampOk(m, used, k);
    }
  }

  lemma LookupStamped(s: Spec.St, used: map<string, int>, key: string, now: int)
    requires Stamped(s.m, used)
    ensures Stamped(Spec.Lookup(s, key, now).m, used)
  {
    StampedFewer(s.m, used, {key});
  }

  lemma SetStamped(cfg: Spec.Config, t: Spec.St, used: map<string, int>, op: Op, now: int)
    requires op.Set? && Stamped(t.m, used)
    requires op.ok == (!Spec.PastDeadline(op.at, now) && op.key !in t.m ==> Spec.RoomOk(cfg, t))
    requires !Spec.PastDeadline(op.at, now) && op.key !in t.m && |t.m| < cfg.maxKeys ==> op.gone == {}
    ensures Stamped(SetOn(cfg, t, op, now), if Stores(Step(now, op)) then used[op.key := now] else used)
  {
    if Spec.PastDeadline(op.at, now) {
      StampedFewer(t.m, used, {op.key});
    } else if op.key in t.m {
      StampedPut(t.m, used, op.key,
                 Rec(op.value, if op.at == Spec.KEEP_TTL then t.m[op.key].expiresAt else op.at, Spec.Clock32(now)),
                 now);
    } else if op.ok {
      SetNewIs(cfg, t, op.key, op.value, op.at, now, op.gone);
      StampedFewer(t.m, used, op.gone);
      StampedPut(t.m - op.gone, used, op.key,
                 Rec(op.value, if op.at == Spec.KEEP_TTL then NO_EXPIRY else op.at, Spec.Clock32(now)), now);
    }
  }

  lemma StepStamped(h: string -> nat, cfg: Spec.Config, s: Spec.St, used: map<string, int>, last: int, step: Step)
    requires IsPow2(s.buckets) && Stamped(s.m, used) && Allowed(cfg, s, last, step)
    ensures Stamped(Next(h, cfg, s, step).m, UsedNext(s, used, step))
  {
    var now := step.now;
    match step.op
    case Find(key, touch) =>
      LookupStamped(s, used, key, now);
      var t := Spec.Lookup(s, key, now);
      if key in t.m {
        StampedPut(t.m, used, key, t.m[key].(lru := Spec.Clock32(now)), now);
      }
    case Set(key, _, _, _, _, _) =>
      LookupStamped(s, used, key, now);
      SetStamped(cfg, Spec.Lookup(s, key, now), used, step.op, now);
    case Erase(key) =>
      LookupStamped(s, used, key, now);
      StampedFewer(Spec.Lookup(s, key, now).m, used, {key});
    case ExpireAt(key, at) =>
      LookupStamped(s, used, key, now);
      var t := Spec.Lookup(s, key, now);
      StampedFewer(t.m, used, {key});
      if key in t.m {
        StampedPut(t.m, used, key, Rec(t.m[key].value, at, Spec.Clock32(now)), now);
      }
    case Ttl(key) =>
      LookupStamped(s, used, key, now);
    case Cycle(limit) =>
      var gone := CycleReaps(h, now, limit, Spec.Cycle(s, 0, 0));
      StampedFewer(s.m, used, gone);
    case Clear =>
  }

  ghost function UsedAfter(h: string -> nat, cfg: Spec.Config, s: Spec.St, used: map<string, int>, last: int,
                           run: seq<Step>): map<string, int>
    requires Legal(h, cfg, s, last, run)
    decreases |run|
  {
    if run == [] then used
    else UsedAfter(h, cfg, Next(h, cfg, s, run[0]), UsedNext(s, used, run[0]), run[0].now, run[1..])
  }

  lemma {:induction false} RunStamped(h: string -> nat, cfg: Spec.Config, s: Spec.St, used: map<string, int>, last: int,
                                      run: seq<Step>)
    requires Stamped(s.m, used) && Legal(h, cfg, s, last, run)
    ensures Stamped(Final(h, cfg, s, last, run).m, UsedAfter(h, cfg, s, used, last, run))
    decreases |run|
  {
    if run == [] {
    } else {
      StepStamped(h, cfg, s, used, last, run[0]);
      RunStamped(h, cfg, Next(h, cfg, s, run[0]), UsedNext(s, used, run[0]), run[0].now, run[1..]);
    }
  }

  /** The wrapped difference is the true age modulo 2^32, so it is the age exactly when that is below 2^32. */
  lemma IdleIsAge(r: Rec, used: int, now: int)
    requires r.lru == Spec.Clock32(used)
    ensures Spec.Idle(r, now) == (now - used) % U32
    ensures Spec.Idle(r, now) == now - used <==> 0 <= now - used < U32
  {
    assert now == U32 * (now / U32) + now % U32 && used == U32 * (used / U32) + used % U32;
    var a := now - used;
    assert a == U32 * (now / U32 - used / U32) + (now % U32 - used % U32);
  }

  ghost predicate Recent(used: map<string, int>, k: string, now: int) {
    k in used && 0 <= now - used[k] < U32
  }

  /** When the sample covers the table, nothing in it is expired and every age is below 2^32
      milliseconds, what a set evicts is one true least recently used key. */
  lemma EvictsTrueLru(cfg: Spec.Config, s: Spec.St, used: map<string, int>, last: int, step: Step) returns (v: string)
    requires step.op.Set? && Allowed(cfg, s, last, step) && Spec.NeedsSlot(s, step.op.key, step.op.at, step.now)
    requires cfg.policy.AllKeysLru? && Stamped(s.m, used)
    requires var t := Spec.Lookup(s, step.op.key, step.now);
             && |t.m| >= cfg.maxKeys && |t.m| <= cfg.lruSamples && t.buckets <= 10 * cfg.lruSamples
             && forall k {:trigger Spec.Dead(t.m, k, step.now)} {:trigger Recent(used, k, step.now)} ::
                  k in t.m ==> !Spec.Dead(t.m, k, step.now) && Recent(used, k, step.now)
    ensures var t := Spec.Lookup(s, step.op.key, step.now);
            && step.op.gone == {v} && v in t.m && v in used
            && forall k :: k in t.m ==> k in used && used[v] <= used[k]
  {
    var now := step.now;
    var t := Spec.Lookup(s, step.op.key, now);
    LookupStamped(s, used, step.op.key, now);
    assert Dropped(t.m, step.op.sample, Spec.Stale(now)) == {} by {
      forall k | k in t.m ensures !Spec.Stale(now)(t.m[k]) {
        assert !Spec.Dead(t.m, k, now);
      }
    }
    v :| step.op.gone == {v} && Spec.Victim(t.m, now, step.op.sample, v);
    assert StampOk(t.m, used, v);
    forall k | k in t.m ensures k in used && used[v] <= used[k] {
      assert StampOk(t.m, used, k) && Recent(used, k, now) && Recent(used, v, now);
      IdleIsAge(t.m[k], used[k], now);
      IdleIsAge(t.m[v], used[v], now);
    }
  }
}
