/** Whole runs of store operations (src/core/store.h, src/core/store.cpp).

    A run is a sequence of operations, each with its clock reading, from any reachable state.
    The eviction sampler's choice is part of the step, so a theorem over all runs is a theorem
    over every choice. */
module StoreRuns {
  import opened Bits
  import opened Entries
  import Spec = StoreSpec

  /** `ok` and `gone` of a set are its outcome: its result and the keys it evicted. */
  datatype Op =
    | Find(key: string, touch: bool)
    | Set(key: string, value: string, at: int, sample: set<string>, gone: set<string>, ok: bool)
    | Erase(key: string)
    | ExpireAt(key: string, at: int)
    | Ttl(key: string)
    | Cycle(limit: nat)
    | Clear

  datatype Step = Step(now: int, op: Op)

  datatype Answer = Hit(value: string) | Missing | Did(yes: bool) | Ms(ms: int) | Done

  ghost predicate Good(cfg: Spec.Config, s: Spec.St) {
    IsPow2(s.buckets) && s.cursor < s.buckets && |s.m| <= cfg.maxKeys && 1 <= cfg.maxKeys
  }

  /** What the source asks of a call, the clock never going back, and the outcome being one it can have. */
  ghost predicate Allowed(cfg: Spec.Config, s: Spec.St, last: int, step: Step) {
    && last <= step.now
    && match step.op {
         case Set(key, _, at, sample, gone, ok) =>
           ok == Spec.SetOk(cfg, s, key, at, step.now) && Spec.ChoiceOk(cfg, s, key, at, step.now, sample, gone)
         case ExpireAt(_, at) => at != NO_EXPIRY && at != Spec.KEEP_TTL
         case _ => true
       }
  }

  ghost function Next(h: string -> nat, cfg: Spec.Config, s: Spec.St, step: Step): Spec.St
    requires IsPow2(s.buckets)
  {
    match step.op
    case Find(key, touch) => Spec.Find(s, key, step.now, touch)
    case Set(key, value, at, _, gone, _) => Spec.Set(cfg, s, key, value, at, step.now, gone)
    case Erase(key) => Spec.Erase(s, key, step.now)
    case ExpireAt(key, at) => Spec.SetExpireAt(s, key, at, step.now)
    case Ttl(key) => Spec.Lookup(s, key, step.now)
    case Cycle(limit) => Spec.ExpireCycle(h, s, step.now, limit).s
    case Clear => Spec.Clear(s)
  }

  ghost function Reply(s: Spec.St, step: Step): Answer {
    match step.op
    case Find(key, _) =>
      var t := Spec.Lookup(s, key, step.now);
      if key in t.m then Hit(t.m[key].value) else Missing
    case Set(_, _, _, _, _, ok) => Did(ok)
    case Erase(key) => Did(key in Spec.Lookup(s, key, step.now).m)
    case ExpireAt(key, _) => Did(key in Spec.Lookup(s, key, step.now).m)
    case Ttl(key) => Ms(Spec.TtlOf(s, key, step.now))
    case Cycle(_) => Done
    case Clear => Done
  }

  ghost predicate Legal(h: string -> nat, cfg: Spec.Config, s: Spec.St, last: int, run: seq<Step>)
    decreases |run|
  {
    run == [] || (&& IsPow2(s.buckets) && Allowed(cfg, s, last, run[0])
                  && Legal(h, cfg, Next(h, cfg, s, run[0]), run[0].now, run[1..]))
  }

  ghost function Final(h: string -> nat, cfg: Spec.Config, s: Spec.St, last: int, run: seq<Step>): Spec.St
    requires Legal(h, cfg, s, last, run)
    decreases |run|
  {
    if run == [] then s else Final(h, cfg, Next(h, cfg, s, run[0]), run[0].now, run[1..])
  }

  ghost function Replies(h: string -> nat, cfg: Spec.Config, s: Spec.St, last: int, run: seq<Step>): seq<Answer>
    requires Legal(h, cfg, s, last, run)
    decreases |run|
  {
    if run == [] then []
    else [Reply(s, run[0])] + Replies(h, cfg, Next(h, cfg, s, run[0]), run[0].now, run[1..])
  }

  // ---- what an expire cycle removes -------------------------------------------------------------

  ghost predicate AllDead(m: map<string, Rec>, gone: set<string>, now: int) {
    forall k {:trigger Spec.Dead(m, k, now)} :: k in gone ==> Spec.Dead(m, k, now)
  }

  /** `t` is `s` without some expired keys, `count` of them. */
  ghost predicate Reaps(s: Spec.St, t: Spec.St, now: int, gone: set<string>, count: nat) {
    && t.m == s.m - gone && AllDead(s.m, gone, now) && count == |gone|
    && t.buckets == s.buckets && t.evictions == s.evictions
  }

  lemma ReapsOn(s: Spec.St, t: Spec.St, u: Spec.St, now: int, gone: set<string>, more: set<string>, n: nat, k: nat)
    requires Reaps(s, t, now, gone, n) && Reaps(t, u, now, more, k)
    ensures Reaps(s, u, now, gone + more, n + k)
  {
    assert s.m - gone - more == s.m - (gone + more);
    forall x | x in more ensures x !in gone && Spec.Dead(s.m, x, now) {
      assert Spec.Dead(t.m, x, now);
    }
    assert |gone + more| == |gone| + |more|;
  }

  /** The rest of a pass frees expired keys only, and counts each. */
  lemma {:induction false} PassReaps(h: string -> nat, now: int, limit: nat, p: Spec.Pass) returns (gone: set<string>)
    requires IsPow2(p.s.buckets)
    ensures var r := Spec.RunPass(h, now, limit, p);
            r.expired >= p.expired && r.s.expired == p.s.expired && Reaps(p.s, r.s, now, gone, r.expired - p.expired)
            && (p.s.cursor < p.s.buckets ==> r.s.cursor < r.s.buckets)
            && (p.buckets <= limit * 20 ==> r.buckets <= limit * 20)
    decreases limit * 20 - p.buckets
  {
    if p.wrapped || p.sampled >= limit || p.buckets >= limit * 20 {
      gone := {};
      assert p.s.m - {} == p.s.m;
    } else {
      var q := Spec.PassStep(h, now, p);
      var here := Spec.DeadHere(h, p.s, now);
      assert Reaps(p.s, q.s, now, here, |here|);
      var more := PassReaps(h, now, limit, q);
      var r := Spec.RunPass(h, now, limit, p);
      ReapsOn(p.s, q.s, r.s, now, here, more, |here|, r.expired - q.expired);
      gone := here + more;
    }
  }

  /** A cycle frees expired keys only, and the counters count each of them. */
  lemma {:induction false} CycleReaps(h: string -> nat, now: int, limit: nat, c: Spec.Cycle) returns (gone: set<string>)
    requires IsPow2(c.s.buckets)
    ensures var d := Spec.RunCycle(h, now, limit, c);
            && d.reaped >= c.reaped && d.s.expired == c.s.expired + (d.reaped - c.reaped)
            && Reaps(c.s, d.s, now, gone, d.reaped - c.reaped)
            && (c.s.cursor < c.s.buckets ==> d.s.cursor < d.s.buckets)
            && (c.passes <= Spec.MAX_PASSES ==> d.passes <= Spec.MAX_PASSES)
    decreases Spec.MAX_PASSES - c.passes
  {
    if c.passes >= Spec.MAX_PASSES {
      gone := {};
      assert c.s.m - {} == c.s.m;
    } else {
      var p := Spec.RunPass(h, now, limit, Spec.Pass(c.s, 0, 0, 0, false));
      gone := PassReaps(h, now, limit, Spec.Pass(c.s, 0, 0, 0, false));
      var d := Spec.AfterPass(c, p);
      if !p.wrapped && p.expired * 10 > p.sampled {
        var more := CycleReaps(h, now, limit, d);
        var e := Spec.RunCycle(h, now, limit, d);
        ReapsOn(c.s, d.s, e.s, now, gone, more, p.expired, e.reaped - d.reaped);
        gone := gone + more;
      }
    }
  }

  // ---- the plain map ----------------------------------------------------------------------------

  /** A map with deadlines that nothing ever reaps: an item is visible until its deadline passes. */
  datatype Item = Item(value: string, expiresAt: int)

  type Plain = map<string, Item>

  ghost predicate Visible(p: Plain, k: string, now: int) {
    k in p && !Expired(p[k].expiresAt, now)
  }

  ghost function PlainSet(p: Plain, key: string, value: string, at: int, now: int, gone: set<string>, ok: bool): Plain {
    if Spec.PastDeadline(at, now) then p - {key}
    else if !ok then p
    else
      var kept := if Visible(p, key, now) then p[key].expiresAt else NO_EXPIRY;
      (p - gone)[key := Item(value, if at == Spec.KEEP_TTL then kept else at)]
  }

  /** An eviction shows as the removal of its keys. */
  ghost function PlainNext(p: Plain, step: Step): Plain {
    match step.op
    case Set(key, value, at, _, gone, ok) => PlainSet(p, key, value, at, step.now, gone, ok)
    case Erase(key) => p - {key}
    case ExpireAt(key, at) =>
      if !Visible(p, key, step.now) then p
      else if at < step.now then p - {key}
      else p[key := Item(p[key].value, at)]
    case Clear => map[]
    case _ => p
  }

  ghost function PlainReply(p: Plain, step: Step): Answer {
    match step.op
    case Find(key, _) => if Visible(p, key, step.now) then Hit(p[key].value) else Missing
    case Set(_, _, _, _, _, ok) => Did(ok)
    case Erase(key) => Did(Visible(p, key, step.now))
    case ExpireAt(key, _) => Did(Visible(p, key, step.now))
    case Ttl(key) =>
      Ms(if !Visible(p, key, step.now) then Spec.TTL_MISSING
         else if p[key].expiresAt == NO_EXPIRY then NO_EXPIRY
         else p[key].expiresAt - step.now)
    case _ => Done
  }

  ghost function PlainReplies(p: Plain, run: seq<Step>): seq<Answer>
    decreases |run|
  {
    if run == [] then [] else [PlainReply(p, run[0])] + PlainReplies(PlainNext(p, run[0]), run[1..])
  }

  ghost function PlainAfter(p: Plain, run: seq<Step>): Plain
    decreases |run|
  {
    if run == [] then p else PlainAfter(PlainNext(p, run[0]), run[1..])
  }

  /** The store holds `k` with the plain map's item, or lacks it because it is absent or expired there. */
  ghost predicate AgreesAt(m: map<string, Rec>, p: Plain, now: int, k: string) {
    if k in m then k in p && p[k] == Item(m[k].value, m[k].expiresAt)
    else k in p ==> Expired(p[k].expiresAt, now)
  }

  ghost predicate Agrees(m: map<string, Rec>, p: Plain, now: int) {
    forall k {:trigger AgreesAt(m, p, now, k)} :: AgreesAt(m, p, now, k)
  }

  lemma AgreesLater(m: map<string, Rec>, p: Plain, last: int, now: int)
    requires Agrees(m, p, last) && last <= now
    ensures Agrees(m, p, now)
  {
    forall k ensures AgreesAt(m, p, now, k) {
      assert AgreesAt(m, p, last, k);
    }
  }

  /** Freeing expired keys does not show. */
  lemma AgreesWithout(m: map<string, Rec>, p: Plain, now: int, gone: set<string>)
    requires Agrees(m, p, now) && AllDead(m, gone, now)
    ensures Agrees(m - gone, p, now)
  {
    forall k ensures AgreesAt(m - gone, p, now, k) {
      assert AgreesAt(m, p, now, k);
      if k in gone {
        assert Spec.Dead(m, k, now);
      }
    }
  }

  lemma AgreesRemoved(m: map<string, Rec>, p: Plain, now: int, gone: set<string>)
    requires Agrees(m, p, now)
    ensures Agrees(m - gone, p - gone, now)
  {
    forall k ensures AgreesAt(m - gone, p - gone, now, k) {
      assert AgreesAt(m, p, now, k);
    }
  }

  lemma AgreesPut(m: map<string, Rec>, p: Plain, now: int, key: string, r: Rec)
    requires Agrees(m, p, now)
    ensures Agrees(m[key := r], p[key := Item(r.value, r.expiresAt)], now)
  {
    var m', p' := m[key := r], p[key := Item(r.value, r.expiresAt)];
    forall k ensures AgreesAt(m', p', now, k) {
      assert AgreesAt(m, p, now, k);
    }
  }

  lemma LookupAgrees(s: Spec.St, p: Plain, now: int, key: string)
    requires Agrees(s.m, p, now)
    ensures var t := Spec.Lookup(s, key, now);
            && Agrees(t.m, p, now) && (key in t.m <==> Visible(p, key, now))
            && (key in t.m ==> p[key] == Item(t.m[key].value, t.m[key].expiresAt))
  {
    assert AgreesAt(s.m, p, now, key);
    AgreesWithout(s.m, p, now, if Spec.Dead(s.m, key, now) then {key} else {});
    assert s.m - {} == s.m;
  }

  /** One operation: the same answer, and still agreeing. */
  lemma StepAgrees(h: string -> nat, cfg: Spec.Config, s: Spec.St, p: Plain, last: int, step: Step)
    requires IsPow2(s.buckets) && Agrees(s.m, p, last) && Allowed(cfg, s, last, step)
    ensures Reply(s, step) == PlainReply(p, step)
    ensures Agrees(Next(h, cfg, s, step).m, PlainNext(p, step), step.now)
  {
    var now := step.now;
    AgreesLater(s.m, p, last, now);
    match step.op
    case Find(key, touch) =>
      LookupAgrees(s, p, now, key);
      var t := Spec.Lookup(s, key, now);
      if key in t.m {
        AgreesPut(t.m, p, now, key, t.m[key].(lru := Spec.Clock32(now)));
        assert p[key := p[key]] == p;
      }
    case Set(key, value, at, _, gone, ok) =>
      LookupAgrees(s, p, now, key);
      SetAgrees(cfg, Spec.Lookup(s, key, now), p, now, step.op);
    case Erase(key) =>
      LookupAgrees(s, p, now, key);
      AgreesRemoved(Spec.Lookup(s, key, now).m, p, now, {key});
    case ExpireAt(key, at) =>
      LookupAgrees(s, p, now, key);
      var t := Spec.Lookup(s, key, now);
      if key in t.m {
        AgreesRemoved(t.m, p, now, {key});
        AgreesPut(t.m, p, now, key, Rec(t.m[key].value, at, Spec.Clock32(now)));
      }
    case Ttl(key) =>
      LookupAgrees(s, p, now, key);
    case Cycle(limit) =>
      var gone := CycleReaps(h, now, limit, Spec.Cycle(s, 0, 0));
      AgreesWithout(s.m, p, now, gone);
    case Clear =>
  }

  ghost function SetOn(cfg: Spec.Config, t: Spec.St, op: Op, now: int): map<string, Rec>
    requires op.Set?
  {
    if Spec.PastDeadline(op.at, now) then t.m - {op.key}
    else if op.key in t.m then
      t.m[op.key := Rec(op.value, if op.at == Spec.KEEP_TTL then t.m[op.key].expiresAt else op.at, Spec.Clock32(now))]
    else Spec.SetNew(cfg, t, op.key, op.value, op.at, now, op.gone).m
  }

  /** A new key goes in after the evicted ones have gone. */
  lemma SetNewIs(cfg: Spec.Config, t: Spec.St, key: string, value: string, at: int, now: int, gone: set<string>)
    requires Spec.RoomOk(cfg, t) && (|t.m| < cfg.maxKeys ==> gone == {})
    ensures Spec.SetNew(cfg, t, key, value, at, now, gone).m
         == (t.m - gone)[key := Rec(value, if at == Spec.KEEP_TTL then NO_EXPIRY else at, Spec.Clock32(now))]
  {
    if |t.m| < cfg.maxKeys {
      WithoutNone(t.m);
    }
  }

  lemma WithoutNone(m: map<string, Rec>)
    ensures m - {} == m
  {
  }

  /** A set after its lookup `t`. */
  lemma SetAgrees(cfg: Spec.Config, t: Spec.St, p: Plain, now: int, op: Op)
    requires op.Set? && Agrees(t.m, p, now)
    requires op.key in t.m <==> Visible(p, op.key, now)
    requires op.key in t.m ==> p[op.key] == Item(t.m[op.key].value, t.m[op.key].expiresAt)
    requires op.ok == (!Spec.PastDeadline(op.at, now) && op.key !in t.m ==> Spec.RoomOk(cfg, t))
    requires op.gone != {} ==>
               !Spec.PastDeadline(op.at, now) && op.key !in t.m && |t.m| >= cfg.maxKeys && cfg.policy.AllKeysLru?
    ensures Agrees(SetOn(cfg, t, op, now), PlainSet(p, op.key, op.value, op.at, now, op.gone, op.ok), now)
  {
    var m, q := SetOn(cfg, t, op, now), PlainSet(p, op.key, op.value, op.at, now, op.gone, op.ok);
    var kept := if op.key in t.m then t.m[op.key].expiresAt else NO_EXPIRY;
    var r := Rec(op.value, if op.at == Spec.KEEP_TTL then kept else op.at, Spec.Clock32(now));
    if Spec.PastDeadline(op.at, now) {
      AgreesRemoved(t.m, p, now, {op.key});
    } else if op.key in t.m {
      assert p - {} == p;
      AgreesPut(t.m, p, now, op.key, r);
      assert m == t.m[op.key := r] && q == p[op.key := Item(r.value, r.expiresAt)];
    } else if op.ok {
      AgreesRemoved(t.m, p, now, op.gone);
      AgreesPut(t.m - op.gone, p - op.gone, now, op.key, r);
      SetNewIs(cfg, t, op.key, op.value, op.at, now, op.gone);
      assert q == (p - op.gone)[op.key := Item(r.value, r.expiresAt)];
    } else {
      assert m == t.m && q == p;
    }
  }

  /** Expiry is transparent: whatever cycles are interleaved, every operation answers as the
      plain map does, an eviction showing as a removal. */
  lemma {:induction false} RunAgrees(h: string -> nat, cfg: Spec.Config, s: Spec.St, p: Plain, last: int,
                                     run: seq<Step>)
    requires Agrees(s.m, p, last) && Legal(h, cfg, s, last, run)
    ensures Replies(h, cfg, s, last, run) == PlainReplies(p, run)
    decreases |run|
  {
    if run == [] {
    } else {
      StepAgrees(h, cfg, s, p, last, run[0]);
      RunAgrees(h, cfg, Next(h, cfg, s, run[0]), PlainNext(p, run[0]), run[0].now, run[1..]);
    }
  }

  // ---- the table under a run --------------------------------------------------------------------

  /** The cursor stays and the table is as big as it was, or twice as big. */
  ghost predicate Grows(s: Spec.St, t: Spec.St) {
    t.cursor == s.cursor && (t.buckets == s.buckets || t.buckets == 2 * s.buckets)
  }

  lemma PutGrows(s: Spec.St, key: string, value: string, at: int, now: int)
    ensures Grows(s, Spec.Put(s, key, value, at, now))
  {
  }

  lemma EvictGrows(s: Spec.St, now: int, gone: set<string>)
    ensures var t := Spec.Evict(s, now, gone); t.cursor == s.cursor && t.buckets == s.buckets
  {
  }

  lemma SetNewGrows(cfg: Spec.Config, t: Spec.St, key: string, value: string, at: int, now: int, gone: set<string>)
    ensures Grows(t, Spec.SetNew(cfg, t, key, value, at, now, gone))
  {
    EvictGrows(t, now, gone);
    PutGrows(t, key, value, at, now);
    PutGrows(Spec.Evict(t, now, gone), key, value, at, now);
  }

  lemma SetGrows(cfg: Spec.Config, s: Spec.St, key: string, value: string, at: int, now: int, gone: set<string>)
    ensures Grows(s, Spec.Set(cfg, s, key, value, at, now, gone))
  {
    SetNewGrows(cfg, Spec.Lookup(s, key, now), key, value, at, now, gone);
  }

  /** An operation other than a cycle or a clear leaves the cursor alone and at most doubles the table. */
  lemma OpGrows(h: string -> nat, cfg: Spec.Config, s: Spec.St, step: Step)
    requires IsPow2(s.buckets) && !step.op.Cycle? && !step.op.Clear?
    ensures Grows(s, Next(h, cfg, s, step))
  {
    match step.op
    case Set(key, value, at, _, gone, _) => SetGrows(cfg, s, key, value, at, step.now, gone);
    case _ =>
  }
}
