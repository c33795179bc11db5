/** What the key cap does to a run (src/core/store.h, src/core/store.cpp): nothing below it,
    missing keys and one lost deadline above it, and the books that always balance. */
module StoreLimits {
  import opened Basics
  import opened Bits
  import opened Entries
  import opened TableModel
  import opened StoreRuns
  import Spec = StoreSpec

  /** The step as a map without a cap sees it. */
  ghost function Uncapped(step: Step): Step {
    if step.op.Set? then step.(op := step.op.(gone := {}, ok := true)) else step
  }

  ghost function UncappedRun(run: seq<Step>): (r: seq<Step>)
    ensures |r| == |run|
    decreases |run|
  {
    if run == [] then [] else [Uncapped(run[0])] + UncappedRun(run[1..])
  }

  // ---- below the cap ----------------------------------------------------------------------------

  /** The client never keeps more than `cap` keys set and not removed, expired ones included. */
  ghost predicate Fits(p: Plain, run: seq<Step>, cap: nat)
    decreases |run|
  {
    run == [] || (&& (run[0].op.Set? ==> |p.Keys + {run[0].op.key}| <= cap)
                  && Fits(PlainNext(p, Uncapped(run[0])), run[1..], cap))
  }

  /** A set whose keys fit evicts nothing and succeeds. */
  lemma FittingStep(cfg: Spec.Config, s: Spec.St, p: Plain, last: int, step: Step)
    requires Agrees(s.m, p, last) && Allowed(cfg, s, last, step)
    requires step.op.Set? ==> |p.Keys + {step.op.key}| <= cfg.maxKeys
    ensures step == Uncapped(step)
  {
    if step.op.Set? {
      var key := step.op.key;
      var t := Spec.Lookup(s, key, step.now);
      forall k | k in t.m ensures k in p {
        assert AgreesAt(s.m, p, last, k);
      }
      if key !in t.m {
        assert |t.m.Keys + {key}| == |t.m.Keys| + 1 == |t.m| + 1;
        Smaller(t.m.Keys + {key}, p.Keys + {key});
      }
    }
  }

  /** Below the cap the store is the plain map, whatever the policy and the sampler. */
  lemma {:induction false} BelowTheCap(h: string -> nat, cfg: Spec.Config, s: Spec.St, p: Plain, last: int,
                                       run: seq<Step>)
    requires Agrees(s.m, p, last) && Legal(h, cfg, s, last, run) && Fits(p, run, cfg.maxKeys)
    ensures run == UncappedRun(run)
    ensures Replies(h, cfg, s, last, run) == PlainReplies(p, UncappedRun(run))
    decreases |run|
  {
    if run == [] {
    } else {
      FittingStep(cfg, s, p, last, run[0]);
      StepAgrees(h, cfg, s, p, last, run[0]);
      BelowTheCap(h, cfg, Next(h, cfg, s, run[0]), PlainNext(p, run[0]), run[0].now, run[1..]);
      assert UncappedRun(run)[1..] == UncappedRun(run[1..]);
    }
  }

  // ---- above the cap ----------------------------------------------------------------------------

  ghost predicate HitAgrees(m: map<string, Rec>, p: Plain, k: string, t: int) {
    k in m && !Expired(m[k].expiresAt, t) ==> Visible(p, k, t) && p[k].value == m[k].value
  }

  /** From `now` on, every key the store finds has the plain map's value. */
  ghost predicate HitsAgree(m: map<string, Rec>, p: Plain, now: int) {
    forall k, t {:trigger HitAgrees(m, p, k, t)} :: t >= now ==> HitAgrees(m, p, k, t)
  }

  /** A set that keeps the deadline of a key the store has already evicted: there is none left to keep. */
  ghost predicate LosesDeadline(s: Spec.St, p: Plain, step: Step) {
    && step.op.Set? && step.op.at == Spec.KEEP_TTL && step.op.key !in Spec.Lookup(s, step.op.key, step.now).m
    && Visible(p, step.op.key, step.now) && p[step.op.key].expiresAt != NO_EXPIRY
  }

  lemma HitsLater(m: map<string, Rec>, p: Plain, last: int, now: int)
    requires HitsAgree(m, p, last) && last <= now
    ensures HitsAgree(m, p, now)
  {
    forall k, t | t >= now ensures HitAgrees(m, p, k, t) {
    }
  }

  /** What the store loses cannot be hit. */
  lemma HitsFewer(m: map<string, Rec>, p: Plain, now: int, gone: set<string>, removed: set<string>)
    requires HitsAgree(m, p, now) && removed <= gone
    ensures HitsAgree(m - gone, p - removed, now)
  {
    var m', p' := m - gone, p - removed;
    forall k, t | t >= now ensures HitAgrees(m', p', k, t) {
      assert HitAgrees(m, p, k, t);
    }
  }

  /** A key the store lacks may change in the plain map. */
  lemma HitsAbsent(m: map<string, Rec>, p: Plain, now: int, key: string, q: Plain)
    requires HitsAgree(m, p, now) && key !in m
    requires q == p - {key} || (key in q && q == p[key := q[key]])
    ensures HitsAgree(m, q, now)
  {
    forall k, t | t >= now ensures HitAgrees(m, q, k, t) {
      assert HitAgrees(m, p, k, t);
    }
  }

  /** From `now` on, the deadline `d` passes no sooner than `e` does. */
  ghost predicate Outlasts(d: int, e: int, now: int) {
    forall t {:trigger Expired(d, t)} :: t >= now && !Expired(e, t) ==> !Expired(d, t)
  }

  lemma OutlastsForever(d: int, now: int)
    ensures Outlasts(d, NO_EXPIRY, now) <==> d == NO_EXPIRY
  {
    if d != NO_EXPIRY {
      assert Expired(d, if d + 1 >= now then d + 1 else now);
    }
  }

  lemma HitsPut(m: map<string, Rec>, p: Plain, now: int, key: string, r: Rec, item: Item)
    requires HitsAgree(m, p, now) && r.value == item.value
    ensures HitsAgree(m[key := r], p[key := item], now) <==> Outlasts(item.expiresAt, r.expiresAt, now)
  {
    var m', p' := m[key := r], p[key := item];
    if Outlasts(item.expiresAt, r.expiresAt, now) {
      forall k, t | t >= now ensures HitAgrees(m', p', k, t) {
        assert HitAgrees(m, p, k, t);
      }
    }
    if HitsAgree(m', p', now) {
      forall t | t >= now && !Expired(r.expiresAt, t) ensures !Expired(item.expiresAt, t) {
        assert HitAgrees(m', p', key, t);
      }
    }
  }

  lemma HitsLookup(s: Spec.St, p: Plain, now: int, key: string)
    requires HitsAgree(s.m, p, now)
    ensures var t := Spec.Lookup(s, key, now);
            && HitsAgree(t.m, p, now)
            && (key in t.m ==>
                  && Visible(p, key, now) && p[key].value == t.m[key].value
                  && Outlasts(p[key].expiresAt, t.m[key].expiresAt, now))
  {
    HitsFewer(s.m, p, now, if Spec.Dead(s.m, key, now) then {key} else {}, {});
    assert s.m - {} == s.m && p - {} == p;
    assert HitAgrees(s.m, p, key, now);
    var t := Spec.Lookup(s, key, now);
    if key in t.m {
      forall u | u >= now && !Expired(t.m[key].expiresAt, u) ensures !Expired(p[key].expiresAt, u) {
        assert HitAgrees(s.m, p, key, u);
      }
    }
  }

  /** A set of a key the store does not find, after its lookup `t`. */
  lemma HitsSetNew(cfg: Spec.Config, t: Spec.St, p: Plain, now: int, op: Op)
    requires op.Set? && !Spec.PastDeadline(op.at, now) && op.key !in t.m && HitsAgree(t.m, p, now)
    requires Spec.RoomOk(cfg, t) && (|t.m| < cfg.maxKeys ==> op.gone == {})
    ensures HitsAgree(Spec.SetNew(cfg, t, op.key, op.value, op.at, now, op.gone).m,
                      PlainSet(p, op.key, op.value, op.at, now, {}, true), now)
       <==> !(op.at == Spec.KEEP_TTL && Visible(p, op.key, now) && p[op.key].expiresAt != NO_EXPIRY)
  {
    SetNewIs(cfg, t, op.key, op.value, op.at, now, op.gone);
    HitsFewer(t.m, p, now, op.gone, {});
    var kept := if Visible(p, op.key, now) then p[op.key].expiresAt else NO_EXPIRY;
    var r := Rec(op.value, if op.at == Spec.KEEP_TTL then NO_EXPIRY else op.at, Spec.Clock32(now));
    HitsPut(t.m - op.gone, p - {}, now, op.key, r, Item(op.value, if op.at == Spec.KEEP_TTL then kept else op.at));
    OutlastsForever(kept, now);
  }

  /** A set that succeeds, after its lookup `t`. */
  lemma HitsSet(cfg: Spec.Config, t: Spec.St, p: Plain, now: int, op: Op)
    requires op.Set? && HitsAgree(t.m, p, now)
    requires op.key in t.m ==> Visible(p, op.key, now) && Outlasts(p[op.key].expiresAt, t.m[op.key].expiresAt, now)
    requires !Spec.PastDeadline(op.at, now) && op.key !in t.m ==>
               Spec.RoomOk(cfg, t) && (|t.m| < cfg.maxKeys ==> op.gone == {})
    ensures HitsAgree(SetOn(cfg, t, op, now), PlainSet(p, op.key, op.value, op.at, now, {}, true), now)
       <==> !(op.at == Spec.KEEP_TTL && op.key !in t.m && Visible(p, op.key, now) && p[op.key].expiresAt != NO_EXPIRY)
  {
    if Spec.PastDeadline(op.at, now) {
      HitsFewer(t.m, p, now, {op.key}, {op.key});
    } else if op.key in t.m {
      var item := Item(op.value, if op.at == Spec.KEEP_TTL then p[op.key].expiresAt else op.at);
      var r := Rec(op.value, if op.at == Spec.KEEP_TTL then t.m[op.key].expiresAt else op.at, Spec.Clock32(now));
      HitsPut(t.m, p, now, op.key, r, item);
      assert p - {} == p;
    } else {
      HitsSetNew(cfg, t, p, now, op);
    }
  }

  /** One operation: a hit has the plain map's value, and later hits still will have it exactly
      when the operation keeps no deadline of an evicted key. */
  lemma StepHits(h: string -> nat, cfg: Spec.Config, s: Spec.St, p: Plain, last: int, step: Step)
    requires IsPow2(s.buckets) && HitsAgree(s.m, p, last) && Allowed(cfg, s, last, step)
    requires step.op.Set? ==> step.op.ok
    ensures Reply(s, step).Hit? ==> PlainReply(p, step) == Reply(s, step)
    ensures HitsAgree(Next(h, cfg, s, step).m, PlainNext(p, Uncapped(step)), step.now) <==> !LosesDeadline(s, p, step)
  {
    var now := step.now;
    HitsLater(s.m, p, last, now);
    match step.op
    case Find(key, touch) =>
      HitsLookup(s, p, now, key);
      var t := Spec.Lookup(s, key, now);
      if key in t.m {
        HitsPut(t.m, p, now, key, t.m[key].(lru := Spec.Clock32(now)), p[key]);
        assert p[key := p[key]] == p;
      }
    case Set(key, value, at, _, gone, _) =>
      HitsLookup(s, p, now, key);
      HitsSet(cfg, Spec.Lookup(s, key, now), p, now, step.op);
    case Erase(key) =>
      HitsLookup(s, p, now, key);
      HitsFewer(Spec.Lookup(s, key, now).m, p, now, {key}, {key});
    case ExpireAt(key, at) =>
      HitsLookup(s, p, now, key);
      var t := Spec.Lookup(s, key, now);
      if key !in t.m {
        HitsAbsent(t.m, p, now, key, PlainNext(p, step));
      } else if at < now {
        HitsFewer(t.m, p, now, {key}, {key});
      } else {
        HitsPut(t.m, p, now, key, Rec(t.m[key].value, at, Spec.Clock32(now)), Item(p[key].value, at));
      }
    case Ttl(key) =>
      HitsLookup(s, p, now, key);
    case Cycle(limit) =>
      var gone := CycleReaps(h, now, limit, Spec.Cycle(s, 0, 0));
      HitsFewer(s.m, p, now, gone, {});
      assert p - {} == p;
    case Clear =>
  }

  /** Every set of the run succeeds and none keeps the deadline of an evicted key. */
  ghost predicate KeepsDeadlines(h: string -> nat, cfg: Spec.Config, s: Spec.St, p: Plain, last: int, run: seq<Step>)
    requires Legal(h, cfg, s, last, run)
    decreases |run|
  {
    run == [] || (&& (run[0].op.Set? ==> run[0].op.ok) && !LosesDeadline(s, p, run[0])
                  && KeepsDeadlines(h, cfg, Next(h, cfg, s, run[0]), PlainNext(p, Uncapped(run[0])), run[0].now,
                                    run[1..]))
  }

  ghost predicate SameHits(a: seq<Answer>, b: seq<Answer>) {
    |a| == |b| && forall i :: 0 <= i < |a| && a[i].Hit? ==> a[i] == b[i]
  }

  /** With eviction on, every hit still has the value of the map that never evicts. */
  lemma {:induction false} RunHits(h: string -> nat, cfg: Spec.Config, s: Spec.St, p: Plain, last: int, run: seq<Step>)
    requires HitsAgree(s.m, p, last) && Legal(h, cfg, s, last, run) && KeepsDeadlines(h, cfg, s, p, last, run)
    ensures SameHits(Replies(h, cfg, s, last, run), PlainReplies(p, UncappedRun(run)))
    decreases |run|
  {
    if run == [] {
    } else {
      StepHits(h, cfg, s, p, last, run[0]);
      var t, q := Next(h, cfg, s, run[0]), PlainNext(p, Uncapped(run[0]));
      RunHits(h, cfg, t, q, run[0].now, run[1..]);
      assert UncappedRun(run)[1..] == UncappedRun(run[1..]);
      SameHitsOn(Reply(s, run[0]), PlainReply(p, Uncapped(run[0])), Replies(h, cfg, t, run[0].now, run[1..]),
                 PlainReplies(q, UncappedRun(run[1..])));
    }
  }

  lemma SameHitsOn(x: Answer, y: Answer, a: seq<Answer>, b: seq<Answer>)
    requires SameHits(a, b) && (x.Hit? ==> x == y)
    ensures SameHits([x] + a, [y] + b)
  {
  }

  const TIGHT: Spec.Config := Spec.Config(1, 1, Spec.AllKeysLru)

  /** A store of eight buckets with one key at most. */
  function Tiny(m: map<string, Rec>, evictions: nat): Spec.St {
    Spec.St(m, 8, 0, evictions, 0)
  }

  /** A key set with a deadline, evicted, and set again keeping its deadline outlives it:
      from the empty store, `SET a 1` until 10, `SET b 2`, `SET a 3 KEEPTTL`, then `GET a` at 11. */
  lemma OutlivesItsDeadline(h: string -> nat, a: Step, b: Step, c: Step)
    returns (s1: Spec.St, s2: Spec.St, s3: Spec.St)
    requires a == Step(0, Set("a", "1", 10, {}, {}, true))
    requires b == Step(1, Set("b", "2", NO_EXPIRY, {"a"}, {"a"}, true))
    requires c == Step(2, Set("a", "3", Spec.KEEP_TTL, {"b"}, {"b"}, true))
    ensures Goes(h, Tiny(map[], 0), 0, a, s1) && Goes(h, s1, 0, b, s2) && Goes(h, s2, 1, c, s3)
    ensures Reply(s3, Step(11, Find("a", true))) == Hit("3")
    ensures PlainReply(PlainNext(PlainNext(PlainNext(map[], Uncapped(a)), Uncapped(b)), Uncapped(c)),
                       Step(11, Find("a", true))) == Missing
  {
    s1 := FirstIn(h, a);
    s2 := ReplacedBy(h, s1, "a", b);
    s3 := ReplacedBy(h, s2, "b", c);
    PlainForgets();
  }

  ghost predicate Goes(h: string -> nat, s: Spec.St, last: int, step: Step, t: Spec.St) {
    IsPow2(s.buckets) && Allowed(TIGHT, s, last, step) && t == Next(h, TIGHT, s, step)
  }

  lemma Eight()
    ensures IsPow2(8)
  {
    assert IsPow2(2) && IsPow2(4);
  }

  lemma FirstIn(h: string -> nat, a: Step) returns (t: Spec.St)
    requires a == Step(0, Set("a", "1", 10, {}, {}, true))
    ensures t == Tiny(map["a" := Rec("1", 10, 0)], 0) && Goes(h, Tiny(map[], 0), 0, a, t)
  {
    Eight();
    PutFirst(Tiny(map[], 0), "a", "1", 10, 0);
    t := Tiny(map["a" := Rec("1", 10, 0)], 0);
  }

  lemma ReplacedBy(h: string -> nat, s: Spec.St, key: string, step: Step) returns (t: Spec.St)
    requires s.m.Keys == {key} && !Expired(s.m[key].expiresAt, step.now) && s == Tiny(s.m, s.evictions)
    requires 0 <= step.now < U32
    requires step.op.Set? && step.op.key !in s.m
    requires step.op == Set(step.op.key, step.op.value, step.op.at, {key}, {key}, true)
    requires step.op.at == NO_EXPIRY || step.op.at == Spec.KEEP_TTL
    ensures t == Tiny(map[step.op.key := Rec(step.op.value, NO_EXPIRY, step.now)], s.evictions + 1)
    ensures Goes(h, s, step.now - 1, step, t)
  {
    Eight();
    Replaces(s, key, step.op.key, step.op.value, step.op.at, step.now);
    t := Tiny(map[step.op.key := Rec(step.op.value, NO_EXPIRY, step.now)], s.evictions + 1);
  }

  lemma PlainForgets()
    ensures var p := PlainSet(PlainSet(PlainSet(map[], "a", "1", 10, 0, {}, true), "b", "2", NO_EXPIRY, 1, {}, true),
                              "a", "3", Spec.KEEP_TTL, 2, {}, true);
            "a" in p && p["a"].expiresAt == 10
  {
  }

  lemma EvictsOnly(s: Spec.St, key: string, now: int)
    requires s.m.Keys == {key} && !Expired(s.m[key].expiresAt, now) && s.buckets == 8
    ensures Spec.EvictionOk(TIGHT, s, now, {key}, {key})
    ensures Spec.Evict(s, now, {key}) == s.(m := map[], evictions := s.evictions + 1)
  {
    assert Spec.Victim(s.m, now, {key}, key);
    assert |s.m| == |s.m.Keys| == 1;
    assert Dropped(s.m, {key}, Spec.Stale(now)) == {} && s.m - {key} == map[];
  }

  /** With a cap of one, a new key takes the place of the only one. */
  lemma Replaces(s: Spec.St, key: string, key': string, value: string, at: int, now: int)
    requires s.m.Keys == {key} && !Expired(s.m[key].expiresAt, now) && s.buckets == 8 && key' !in s.m && 0 <= now < U32
    requires at == NO_EXPIRY || at == Spec.KEEP_TTL
    ensures && Allowed(TIGHT, s, now - 1, Step(now, Set(key', value, at, {key}, {key}, true)))
            && Spec.Set(TIGHT, s, key', value, at, now, {key})
            == s.(m := map[key' := Rec(value, NO_EXPIRY, now)], evictions := s.evictions + 1)
  {
    EvictsOnly(s, key, now);
    assert |s.m| == |s.m.Keys| == 1;
    PutFirst(s.(m := map[], evictions := s.evictions + 1), key', value, at, now);
  }

  lemma PutFirst(t: Spec.St, key: string, value: string, at: int, now: int)
    requires t.m == map[] && t.buckets == 8 && 0 <= now < U32
    ensures Spec.Put(t, key, value, at, now)
              == t.(m := map[key := Rec(value, if at == Spec.KEEP_TTL then NO_EXPIRY else at, now)])
  {
    assert map[][key := Rec(value, if at == Spec.KEEP_TTL then NO_EXPIRY else at, now)].Keys == {key};
  }

  // ---- the cap and the books ----------------------------------------------------------------------

  /** 1 when the step inserts a new key. */
  ghost function Inserted(s: Spec.St, step: Step): nat {
    if step.op.Set? && Spec.NeedsSlot(s, step.op.key, step.op.at, step.now) && step.op.ok then 1 else 0
  }

  /** 1 when the step removes a live key at the caller's word: an erase, or a deadline in the past. */
  ghost function Deleted(s: Spec.St, step: Step): nat {
    match step.op
    case Erase(key) => if key in Spec.Lookup(s, key, step.now).m then 1 else 0
    case ExpireAt(key, at) => if at < step.now && key in Spec.Lookup(s, key, step.now).m then 1 else 0
    case Set(key, _, at, _, _, _) =>
      if Spec.PastDeadline(at, step.now) && key in Spec.Lookup(s, key, step.now).m then 1 else 0
    case _ => 0
  }

  ghost function Cleared(s: Spec.St, step: Step): nat {
    if step.op.Clear? then |s.m| else 0
  }

  lemma SizeWithout(m: map<string, Rec>, gone: set<string>)
    requires gone <= m.Keys
    ensures |m - gone| == |m| - |gone|
  {
    assert (m - gone).Keys == m.Keys - gone;
    assert |m - gone| == |(m - gone).Keys| && |m| == |m.Keys|;
  }

  lemma SizePut(m: map<string, Rec>, key: string, r: Rec)
    ensures |m[key := r]| == |m| + if key in m then 0 else 1
  {
    assert m[key := r].Keys == m.Keys + {key};
    assert |m[key := r]| == |m[key := r].Keys| && |m| == |m.Keys|;
    assert key in m ==> m.Keys + {key} == m.Keys;
  }

  /** What a state owes: the keys it holds and those it counts as gone. */
  ghost function Owed(s: Spec.St): nat {
    |s.m| + s.evictions + s.expired
  }

  lemma LookupOwed(s: Spec.St, key: string, now: int)
    ensures Owed(Spec.Lookup(s, key, now)) == Owed(s) && |Spec.Lookup(s, key, now).m| <= |s.m|
  {
    if Spec.Dead(s.m, key, now) {
      SizeWithout(s.m, {key});
    }
  }

  lemma EvictOwed(cfg: Spec.Config, t: Spec.St, now: int, sample: set<string>, gone: set<string>)
    requires Spec.EvictionOk(cfg, t, now, sample, gone)
    ensures Owed(Spec.Evict(t, now, gone)) == Owed(t) && |Spec.Evict(t, now, gone).m| < |t.m|
  {
    if Dropped(t.m, sample, Spec.Stale(now)) != {} {
      assert Dropped(t.m, gone, Spec.Stale(now)) == gone;
      var x :| x in gone;
    } else {
      var v :| gone == {v} && Spec.Victim(t.m, now, sample, v);
      assert v in Dropped(t.m, gone, Spec.Stale(now)) ==> v in Dropped(t.m, sample, Spec.Stale(now));
      assert Dropped(t.m, gone, Spec.Stale(now)) == {};
    }
    SizeWithout(t.m, gone);
  }

  /** From `s` to `t`, `put` new keys went in and `taken` were taken out at the caller's word;
      the cap holds, and a table presized for it has not grown. */
  ghost predicate Balanced(cfg: Spec.Config, s: Spec.St, t: Spec.St, put: nat, taken: nat) {
    && Good(cfg, t) && (cfg.maxKeys <= s.buckets ==> t.buckets == s.buckets)
    && Owed(s) + put == Owed(t) + taken
  }

  lemma RemoveOne(m: map<string, Rec>, key: string)
    ensures |m - {key}| == |m| - if key in m then 1 else 0
  {
    if key in m {
      SizeWithout(m, {key});
    } else {
      assert m - {key} == m;
    }
  }

  lemma PutBalances(cfg: Spec.Config, t: Spec.St, key: string, value: string, at: int, now: int)
    requires key !in t.m && Good(cfg, t) && |t.m| < cfg.maxKeys
    ensures Balanced(cfg, t, Spec.Put(t, key, value, at, now), 1, 0)
  {
    SizePut(t.m, key, Rec(value, if at == Spec.KEEP_TTL then NO_EXPIRY else at, Spec.Clock32(now)));
    assert (2 * t.buckets) / 2 == t.buckets;
  }

  /** A new key: one more key owed, never past the cap, and no growth of a presized table. */
  lemma SetNewBalances(cfg: Spec.Config, t: Spec.St, key: string, value: string, at: int, now: int, sample: set<string>,
                       gone: set<string>)
    requires key !in t.m && Good(cfg, t) && Spec.RoomOk(cfg, t) && Spec.RoomChoiceOk(cfg, t, now, sample, gone)
    ensures Balanced(cfg, t, Spec.SetNew(cfg, t, key, value, at, now, gone), 1, 0)
  {
    if |t.m| < cfg.maxKeys {
      PutBalances(cfg, t, key, value, at, now);
    } else {
      EvictOwed(cfg, t, now, sample, gone);
      PutBalances(cfg, Spec.Evict(t, now, gone), key, value, at, now);
    }
  }

  lemma FindBalances(cfg: Spec.Config, s: Spec.St, key: string, now: int, touch: bool)
    requires Good(cfg, s)
    ensures Balanced(cfg, s, Spec.Find(s, key, now, touch), 0, 0) && Balanced(cfg, s, Spec.Lookup(s, key, now), 0, 0)
  {
    LookupOwed(s, key, now);
    var t := Spec.Lookup(s, key, now);
    if key in t.m {
      SizePut(t.m, key, t.m[key].(lru := Spec.Clock32(now)));
    }
  }

  lemma EraseBalances(cfg: Spec.Config, s: Spec.St, key: string, now: int)
    requires Good(cfg, s)
    ensures Balanced(cfg, s, Spec.Erase(s, key, now), 0, Deleted(s, Step(now, Erase(key))))
  {
    LookupOwed(s, key, now);
    RemoveOne(Spec.Lookup(s, key, now).m, key);
  }

  lemma ExpireAtBalances(cfg: Spec.Config, s: Spec.St, key: string, at: int, now: int)
    requires Good(cfg, s)
    ensures Balanced(cfg, s, Spec.SetExpireAt(s, key, at, now), 0, Deleted(s, Step(now, ExpireAt(key, at))))
  {
    LookupOwed(s, key, now);
    var t := Spec.Lookup(s, key, now);
    RemoveOne(t.m, key);
    if key in t.m {
      SizePut(t.m, key, Rec(t.m[key].value, at, Spec.Clock32(now)));
    }
  }

  lemma CycleBalances(h: string -> nat, cfg: Spec.Config, s: Spec.St, now: int, limit: nat)
    requires Good(cfg, s)
    ensures Balanced(cfg, s, Spec.ExpireCycle(h, s, now, limit).s, 0, 0)
  {
    var gone := CycleReaps(h, now, limit, Spec.Cycle(s, 0, 0));
    forall k | k in gone ensures k in s.m {
      assert Spec.Dead(s.m, k, now);
    }
    SizeWithout(s.m, gone);
  }

  lemma SetBalances(cfg: Spec.Config, s: Spec.St, last: int, step: Step)
    requires step.op.Set? && Good(cfg, s) && Allowed(cfg, s, last, step)
    ensures var op := step.op;
            Balanced(cfg, s, Spec.Set(cfg, s, op.key, op.value, op.at, step.now, op.gone), Inserted(s, step),
                     Deleted(s, step))
  {
    var op, now := step.op, step.now;
    FindBalances(cfg, s, op.key, now, false);
    var t := Spec.Lookup(s, op.key, now);
    if Spec.PastDeadline(op.at, now) {
      RemoveOne(t.m, op.key);
    } else if op.key in t.m {
      SizePut(t.m, op.key,
              Rec(op.value, if op.at == Spec.KEEP_TTL then t.m[op.key].expiresAt else op.at, Spec.Clock32(now)));
    } else if op.ok {
      SetNewBalances(cfg, t, op.key, op.value, op.at, now, op.sample, op.gone);
    }
  }

  /** One operation: every new key is later held, evicted, expired, deleted or cleared. */
  lemma StepBalances(h: string -> nat, cfg: Spec.Config, s: Spec.St, last: int, step: Step)
    requires Good(cfg, s) && Allowed(cfg, s, last, step)
    ensures Balanced(cfg, s, Next(h, cfg, s, step), Inserted(s, step), Deleted(s, step) + Cleared(s, step))
  {
    match step.op
    case Find(key, touch) => FindBalances(cfg, s, key, step.now, touch);
    case Set(key, value, at, sample, gone, ok) => SetBalances(cfg, s, last, step);
    case Erase(key) => EraseBalances(cfg, s, key, step.now);
    case ExpireAt(key, at) => ExpireAtBalances(cfg, s, key, at, step.now);
    case Ttl(key) => FindBalances(cfg, s, key, step.now, false);
    case Cycle(limit) => CycleBalances(h, cfg, s, step.now, limit);
    case Clear =>
  }

  /** Totals over a run of what each step inserts and takes out. */
  ghost function TotalIn(h: string -> nat, cfg: Spec.Config, s: Spec.St, last: int, run: seq<Step>): nat
    requires Legal(h, cfg, s, last, run)
    decreases |run|
  {
    if run == [] then 0 else Inserted(s, run[0]) + TotalIn(h, cfg, Next(h, cfg, s, run[0]), run[0].now, run[1..])
  }

  ghost function TotalOut(h: string -> nat, cfg: Spec.Config, s: Spec.St, last: int, run: seq<Step>): nat
    requires Legal(h, cfg, s, last, run)
    decreases |run|
  {
    if run == [] then 0
    else Deleted(s, run[0]) + Cleared(s, run[0]) + TotalOut(h, cfg, Next(h, cfg, s, run[0]), run[0].now, run[1..])
  }

  /** Over every run: inserts are what is held plus evictions, expiries, deletions and clears,
      the cap holds, and a presized table keeps its bucket count. */
  lemma {:induction false} BooksBalance(h: string -> nat, cfg: Spec.Config, s: Spec.St, last: int, run: seq<Step>)
    requires Good(cfg, s) && Legal(h, cfg, s, last, run)
    ensures Balanced(cfg, s, Final(h, cfg, s, last, run), TotalIn(h, cfg, s, last, run), TotalOut(h, cfg, s, last, run))
    decreases |run|
  {
    if run == [] {
    } else {
      StepBalances(h, cfg, s, last, run[0]);
      BooksBalance(h, cfg, Next(h, cfg, s, run[0]), run[0].now, run[1..]);
    }
  }
}
