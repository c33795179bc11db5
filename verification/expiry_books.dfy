/** The expired counter and the shape of an expire cycle (src/core/store.h, src/core/store.cpp). */
module ExpiryBooks {
  import opened Bits
  import opened Entries
  import opened TableModel
  import opened StoreRuns
  import opened FirstStop
  import Spec = StoreSpec

  // ---- every expired entry is counted once, when it goes ----------------------------------------

  ghost function DeadKeys(m: map<string, Rec>, now: int): set<string> {
    set k | k in m && Expired(m[k].expiresAt, now)
  }

  /** Entries already freed for their deadline, and entries still to be. */
  ghost function Overdue(s: Spec.St, now: int): nat {
    s.expired + |DeadKeys(s.m, now)|
  }

  lemma DeadGone(m: map<string, Rec>, gone: set<string>, now: int)
    requires gone <= DeadKeys(m, now)
    ensures |DeadKeys(m - gone, now)| == |DeadKeys(m, now)| - |gone|
  {
    assert DeadKeys(m - gone, now) == DeadKeys(m, now) - gone;
  }

  lemma OthersGone(m: map<string, Rec>, gone: set<string>, now: int)
    requires gone !! DeadKeys(m, now)
    ensures DeadKeys(m - gone, now) == DeadKeys(m, now)
  {
  }

  lemma LiveAdded(m: map<string, Rec>, key: string, r: Rec, now: int)
    requires key !in DeadKeys(m, now) && !Expired(r.expiresAt, now)
    ensures DeadKeys(m[key := r], now) == DeadKeys(m, now)
  {
  }

  lemma LookupCounts(s: Spec.St, key: string, now: int)
    ensures var t := Spec.Lookup(s, key, now); Overdue(t, now) == Overdue(s, now) && key !in DeadKeys(t.m, now)
  {
    if Spec.Dead(s.m, key, now) {
      DeadGone(s.m, {key}, now);
    }
  }

  lemma EvictCounts(cfg: Spec.Config, s: Spec.St, now: int, sample: set<string>, gone: set<string>)
    requires Spec.EvictionOk(cfg, s, now, sample, gone)
    ensures Overdue(Spec.Evict(s, now, gone), now) == Overdue(s, now)
  {
    var dead := Dropped(s.m, sample, Spec.Stale(now));
    if dead != {} {
      assert Dropped(s.m, gone, Spec.Stale(now)) == gone;
      DeadGone(s.m, gone, now);
    } else {
      var v :| gone == {v} && Spec.Victim(s.m, now, sample, v);
      assert v !in dead;
      assert Dropped(s.m, gone, Spec.Stale(now)) == {};
      OthersGone(s.m, gone, now);
    }
  }

  lemma PutCounts(s: Spec.St, key: string, value: string, at: int, now: int)
    requires key !in DeadKeys(s.m, now) && !Spec.PastDeadline(at, now)
    ensures Overdue(Spec.Put(s, key, value, at, now), now) == Overdue(s, now)
  {
    LiveAdded(s.m, key, Rec(value, if at == Spec.KEEP_TTL then NO_EXPIRY else at, Spec.Clock32(now)), now);
  }

  lemma NewCounts(cfg: Spec.Config, t: Spec.St, key: string, value: string, at: int, now: int, sample: set<string>,
                  gone: set<string>)
    requires key !in t.m && !Spec.PastDeadline(at, now) && Spec.RoomChoiceOk(cfg, t, now, sample, gone)
    ensures Overdue(Spec.SetNew(cfg, t, key, value, at, now, gone), now) == Overdue(t, now)
  {
    if |t.m| < cfg.maxKeys {
      PutCounts(t, key, value, at, now);
    } else if cfg.policy.AllKeysLru? {
      EvictCounts(cfg, t, now, sample, gone);
      PutCounts(Spec.Evict(t, now, gone), key, value, at, now);
    }
  }

  lemma OverCounts(t: Spec.St, key: string, r: Rec, now: int)
    requires key !in DeadKeys(t.m, now) && !Expired(r.expiresAt, now)
    ensures Overdue(t.(m := t.m[key := r]), now) == Overdue(t, now) == Overdue(t.(m := t.m - {key}), now)
  {
    LiveAdded(t.m, key, r, now);
    OthersGone(t.m, {key}, now);
  }

  lemma SetCounts(cfg: Spec.Config, s: Spec.St, key: string, value: string, at: int, now: int, sample: set<string>,
                  gone: set<string>)
    requires Spec.ChoiceOk(cfg, s, key, at, now, sample, gone)
    ensures Overdue(Spec.Set(cfg, s, key, value, at, now, gone), now) == Overdue(s, now)
  {
    var t := Spec.Lookup(s, key, now);
    LookupCounts(s, key, now);
    if Spec.PastDeadline(at, now) {
      OverCounts(t, key, Rec(value, NO_EXPIRY, 0), now);
    } else if key in t.m {
      OverCounts(t, key, Rec(value, if at == Spec.KEEP_TTL then t.m[key].expiresAt else at, Spec.Clock32(now)), now);
    } else {
      NewCounts(cfg, t, key, value, at, now, sample, gone);
    }
  }

  lemma CycleCounts(h: string -> nat, s: Spec.St, now: int, limit: nat)
    requires IsPow2(s.buckets)
    ensures Overdue(Spec.ExpireCycle(h, s, now, limit).s, now) == Overdue(s, now)
  {
    var gone := CycleReaps(h, now, limit, Spec.Cycle(s, 0, 0));
    assert gone <= DeadKeys(s.m, now) by {
      forall k | k in gone ensures Spec.Dead(s.m, k, now) {
      }
    }
    DeadGone(s.m, gone, now);
  }

  /** Whatever the operation, the expired entries it frees are what it adds to the expired counter: an eviction
      of a live entry, a deletion and an overwrite add nothing. A flush is the one exception. */
  lemma StepCounts(h: string -> nat, cfg: Spec.Config, s: Spec.St, last: int, step: Step)
    requires IsPow2(s.buckets) && Allowed(cfg, s, last, step) && !step.op.Clear?
    ensures Overdue(Next(h, cfg, s, step), step.now) == Overdue(s, step.now)
  {
    var now := step.now;
    match step.op
    case Find(key, touch) =>
      LookupCounts(s, key, now);
      var t := Spec.Lookup(s, key, now);
      if key in t.m && touch {
        LiveAdded(t.m, key, t.m[key].(lru := Spec.Clock32(now)), now);
      }
    case Set(key, value, at, sample, gone, ok) =>
      SetCounts(cfg, s, key, value, at, now, sample, gone);
    case Erase(key) =>
      LookupCounts(s, key, now);
      OthersGone(Spec.Lookup(s, key, now).m, {key}, now);
    case ExpireAt(key, at) =>
      var t := Spec.Lookup(s, key, now);
      LookupCounts(s, key, now);
      OthersGone(t.m, {key}, now);
      if key in t.m && at >= now {
        LiveAdded(t.m, key, Rec(t.m[key].value, at, Spec.Clock32(now)), now);
      }
    case Ttl(key) =>
      LookupCounts(s, key, now);
    case Cycle(limit) =>
      CycleCounts(h, s, now, limit);
  }

  // ---- passes and cycles, step by step ----------------------------------------------------------

  /** A pass after scanning `n` buckets, whether or not it would have stopped before. */
  ghost function Scanning(h: string -> nat, s: Spec.St, now: int, n: nat): (p: Spec.Pass)
    requires IsPow2(s.buckets)
    ensures p.s.buckets == s.buckets && p.buckets == n
  {
    if n == 0 then Spec.Pass(s, 0, 0, 0, false) else Spec.PassStep(h, now, Scanning(h, s, now, n - 1))
  }

  /** The sample is full, twenty buckets for each of it are scanned, or the cursor is back at 0. */
  predicate Full(p: Spec.Pass, limit: nat) {
    p.sampled >= limit || p.buckets >= 20 * limit || p.wrapped
  }

  ghost predicate FullAt(h: string -> nat, s: Spec.St, now: int, limit: nat, n: nat)
    requires IsPow2(s.buckets)
  {
    Full(Scanning(h, s, now, n), limit)
  }

  lemma PassLoops(h: string -> nat, s: Spec.St, now: int, limit: nat, n: nat)
    requires IsPow2(s.buckets)
    ensures Spec.RunPass(h, now, limit, Scanning(h, s, now, n))
         == if FullAt(h, s, now, limit, n) then Scanning(h, s, now, n)
            else Spec.RunPass(h, now, limit, Scanning(h, s, now, n + 1))
  {
  }

  ghost function PassFrom(h: string -> nat, s: Spec.St, now: int, limit: nat): (p: Spec.Pass)
    requires IsPow2(s.buckets)
    ensures p.s.buckets == s.buckets
  {
    Spec.RunPass(h, now, limit, Spec.Pass(s, 0, 0, 0, false))
  }

  /** A pass scans bucket after bucket and stops the first time it is full. */
  lemma PassShape(h: string -> nat, s: Spec.St, now: int, limit: nat)
    requires IsPow2(s.buckets)
    ensures var r := PassFrom(h, s, now, limit);
            && r == Scanning(h, s, now, r.buckets) && FullAt(h, s, now, limit, r.buckets)
            && forall j: nat :: j < r.buckets ==> !FullAt(h, s, now, limit, j)
  {
    var at := (n: nat) => Scanning(h, s, now, n);
    var run := (n: nat) => Spec.RunPass(h, now, limit, Scanning(h, s, now, n));
    var stop := (n: nat) => FullAt(h, s, now, limit, n);
    forall j: nat ensures Loops(at, run, stop, j) {
      PassLoops(h, s, now, limit, j);
    }
    var r := StopsFirst(at, run, stop, 0, 20 * limit);
    forall j: nat | j < r ensures !FullAt(h, s, now, limit, j) {
      assert !stop(j);
    }
  }

  /** A cycle after `n` passes, whether or not it would have stopped before. */
  ghost function Passing(h: string -> nat, s: Spec.St, now: int, limit: nat, n: nat): (c: Spec.Cycle)
    requires IsPow2(s.buckets)
    ensures c.s.buckets == s.buckets && c.passes == n
  {
    if n == 0 then Spec.Cycle(s, 0, 0)
    else
      var c := Passing(h, s, now, limit, n - 1);
      Spec.AfterPass(c, PassFrom(h, c.s, now, limit))
  }

  /** Pass number `n` ends the cycle: it wrapped, or at most a tenth of what it met had expired. */
  ghost predicate Enough(h: string -> nat, s: Spec.St, now: int, limit: nat, n: nat)
    requires IsPow2(s.buckets)
  {
    n > 0 && var p := PassFrom(h, Passing(h, s, now, limit, n - 1).s, now, limit);
             p.wrapped || p.expired * 10 <= p.sampled
  }

  ghost function CycleOn(h: string -> nat, s: Spec.St, now: int, limit: nat, n: nat): Spec.Cycle
    requires IsPow2(s.buckets)
  {
    Spec.CycleFrom(h, now, limit, Passing(h, s, now, limit, n), Enough(h, s, now, limit, n))
  }

  lemma CycleLoops(h: string -> nat, s: Spec.St, now: int, limit: nat, n: nat)
    requires IsPow2(s.buckets)
    ensures CycleOn(h, s, now, limit, n)
         == if n >= 16 || Enough(h, s, now, limit, n) then Passing(h, s, now, limit, n)
            else CycleOn(h, s, now, limit, n + 1)
  {
  }

  /** A cycle ends with its first pass that is enough, or after sixteen. */
  lemma CycleShape(h: string -> nat, s: Spec.St, now: int, limit: nat)
    requires IsPow2(s.buckets)
    ensures var r := Spec.ExpireCycle(h, s, now, limit);
            && 1 <= r.passes <= 16 && r == Passing(h, s, now, limit, r.passes)
            && (r.passes == 16 || Enough(h, s, now, limit, r.passes))
            && forall j: nat :: j < r.passes ==> !Enough(h, s, now, limit, j)
  {
    var at := (n: nat) => Passing(h, s, now, limit, n);
    var run := (n: nat) => CycleOn(h, s, now, limit, n);
    var stop := (n: nat) => n >= 16 || Enough(h, s, now, limit, n);
    forall j: nat ensures Loops(at, run, stop, j) {
      CycleLoops(h, s, now, limit, j);
    }
    var r := StopsFirst(at, run, stop, 0, 16);
    forall j: nat | j < r ensures !Enough(h, s, now, limit, j) {
      assert !stop(j);
    }
  }
}
