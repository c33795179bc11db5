/** The store as a class over the table, each method proved against its function in `StoreSpec`
    (src/core/store.h, src/core/store.cpp). */
module Stores {
  import opened Basics
  import opened Bits
  import opened SplitMix
  import opened Entries
  import opened TableModel
  import opened Tables
  import opened Sampling
  import Spec = StoreSpec

  const RNG_SALT: Word := 0x9e3779b97f4a7c15

  class Store {
    const table: Table
    const maxKeys: nat
    const lruSamples: nat
    const policy: Spec.Policy
    var rngState: Word
    var expireCursor: nat
    var evictions: nat
    var expiredKeys: nat

    ghost predicate Valid()
      reads this, table
    {
      && table.Valid()
      && expireCursor < table.BucketCount()
      && |table.shape.index| <= maxKeys <= table.capacity
      && 1 <= maxKeys && 1 <= lruSamples <= 64
    }

    ghost function Cfg(): Spec.Config {
      Spec.Config(maxKeys, lruSamples, policy)
    }

    ghost function Abs(): Spec.St
      reads this, table
    {
      Spec.St(table.Contents(), table.BucketCount(), expireCursor, evictions, expiredKeys)
    }

    /** `maxKeys` 0 asks for the pool's capacity, and only a set cap presizes the table. */
    constructor (initialBuckets: nat, maxKeys: nat, lruSamples: nat, policy: Spec.Policy,
                 seed: Word, hashOf: string -> nat, poolCapacity: nat)
      requires maxKeys <= poolCapacity && 1 <= poolCapacity && 1 <= lruSamples <= 64
      ensures Valid() && fresh(table) && table.hashOf == hashOf
      ensures Cfg() == Spec.Config(if maxKeys == 0 then poolCapacity else maxKeys, lruSamples, policy)
      ensures Abs() == Spec.St(map[], table.BucketCount(), 0, 0, 0) && rngState == XorOf(RNG_SALT, seed)
      ensures maxKeys > 0 ==> table.BucketCount() >= maxKeys
    {
      this.maxKeys := if maxKeys == 0 then poolCapacity else maxKeys;
      this.lruSamples, this.policy := lruSamples, policy;
      rngState := XorOf(RNG_SALT, seed);
      expireCursor, evictions, expiredKeys := 0, 0, 0;
      table := new Table(if maxKeys == 0 then initialBuckets else Max(initialBuckets, maxKeys), hashOf, poolCapacity);
    }

    function Size(): nat
      reads this, table
    {
      table.mem.live
    }

    /** Frees one entry. */
    method Free(e: nat)
      requires Valid() && e in table.shape.keyOf
      modifies table
      ensures Valid() && Abs() == old(Abs()).(m := old(Abs()).m - {old(table.shape).keyOf[e]})
      ensures table.shape.index == old(table.shape).index - {old(table.shape).keyOf[e]}
    {
      ghost var at := table.Remove(e);
    }

    /** Finds a live entry; an expired one is freed and counted instead. */
    method Lookup(key: string, now: int) returns (p: Ptr)
      requires Valid()
      modifies this`expiredKeys, table
      ensures Valid() && Abs() == Spec.Lookup(old(Abs()), key, now)
      ensures p == if key in table.shape.index then Ref(table.shape.index[key]) else Null
    {
      p := table.Find(key);
      if p == Null {
        return;
      }
      if Expired(table.Record(p.block).expiresAt, now) {
        expiredKeys := expiredKeys + 1;
        Free(p.block);
        p := Null;
      }
    }

    method Find(key: string, now: int, touch: bool) returns (p: Ptr)
      requires Valid()
      modifies this`expiredKeys, table
      ensures Valid() && Abs() == Spec.Find(old(Abs()), key, now, touch)
      ensures p == if key in table.shape.index then Ref(table.shape.index[key]) else Null
    {
      p := Lookup(key, now);
      if p != Null && touch {
        table.Stamp(p.block, table.Record(p.block).expiresAt, now % U32);
      }
    }

    method Erase(key: string, now: int) returns (existed: bool)
      requires Valid()
      modifies this`expiredKeys, table
      ensures Valid() && Abs() == Spec.Erase(old(Abs()), key, now)
      ensures existed <==> key in Spec.Lookup(old(Abs()), key, now).m
    {
      var p := Lookup(key, now);
      if p == Null {
        RemoveAbsent(Abs().m, key);
        return false;
      }
      Free(p.block);
      existed := true;
    }

    /** Never called with a sentinel for the deadline. */
    method SetExpireAt(key: string, at: int, now: int) returns (existed: bool)
      requires Valid() && at != Spec.KEEP_TTL && at != NO_EXPIRY
      modifies this`expiredKeys, table
      ensures Valid() && Abs() == Spec.SetExpireAt(old(Abs()), key, at, now)
      ensures existed <==> key in Spec.Lookup(old(Abs()), key, now).m
    {
      var p := Lookup(key, now);
      if p == Null {
        return false;
      }
      existed := true;
      if at < now {
        Free(p.block);
      } else {
        table.Stamp(p.block, at, now % U32);
      }
    }

    method TtlMs(key: string, now: int) returns (ms: int)
      requires Valid()
      modifies this`expiredKeys, table
      ensures Valid() && Abs() == Spec.Lookup(old(Abs()), key, now)
      ensures ms == Spec.TtlOf(old(Abs()), key, now)
    {
      var p := Lookup(key, now);
      if p == Null {
        return Spec.TTL_MISSING;
      }
      var r := table.Record(p.block);
      ms := if r.expiresAt == NO_EXPIRY then NO_EXPIRY else r.expiresAt - now;
    }

    /** Scans the bucket at the cursor, freeing its expired entries: one step of a pass. */
    method ScanOnce(now: int, sampleLimit: nat, ghost run: Spec.Pass -> Spec.Pass, ghost p: Spec.Pass)
      returns (visited: nat, dropped: nat, ghost q: Spec.Pass)
      requires Valid() && p.s == Abs() && !p.wrapped && p.sampled < sampleLimit && p.buckets < sampleLimit * 20
      requires Spec.Runs(table.hashOf, now, sampleLimit, run)
      modifies this`expireCursor, table
      ensures Valid() && q.buckets == p.buckets + 1 && run(q) == run(p)
      ensures Spec.PassResult(q, Abs(), p.sampled + visited, p.expired + dropped, expireCursor == 0)
    {
      ghost var handed;
      expireCursor, visited, dropped, handed := table.ScanBucket(expireCursor, Spec.Stale(now));
      q := Spec.PassStep(table.hashOf, now, p);
      Spec.PassGoesOn(table.hashOf, now, sampleLimit, run, p);
    }

    /** One pass: buckets until the sample limit, 20 buckets per sample, or the end of the cycle. */
    method RunPass(now: int, sampleLimit: nat, ghost run: Spec.Pass -> Spec.Pass)
      returns (sampled: nat, expired: nat, wrapped: bool)
      requires Valid() && Spec.Runs(table.hashOf, now, sampleLimit, run)
      modifies this`expireCursor, table
      ensures Valid()
      ensures Spec.PassResult(run(Spec.Pass(old(Abs()), 0, 0, 0, false)), Abs(), sampled, expired, wrapped)
    {
      ghost var p := Spec.Pass(Abs(), 0, 0, 0, false);
      var maxBuckets := sampleLimit * 20;
      var buckets := 0;
      sampled, expired, wrapped := 0, 0, false;
      while !wrapped && sampled < sampleLimit && buckets < maxBuckets
        invariant Valid() && buckets <= maxBuckets
        invariant p.buckets == buckets && Spec.PassResult(p, Abs(), sampled, expired, wrapped)
        invariant run(p) == run(Spec.Pass(old(Abs()), 0, 0, 0, false))
        decreases maxBuckets - buckets
      {
        var visited, dropped;
        visited, dropped, p := ScanOnce(now, sampleLimit, run, p);
        sampled, expired, buckets := sampled + visited, expired + dropped, buckets + 1;
        wrapped := expireCursor == 0;
      }
      Spec.PassStops(table.hashOf, now, sampleLimit, run, p);
    }

    method CountExpired(n: nat)
      requires Valid()
      modifies this`expiredKeys
      ensures Valid() && Abs() == old(Abs()).(expired := old(Abs()).expired + n)
    {
      expiredKeys := expiredKeys + n;
    }

    /** One pass of a cycle at `c` and whether it is the last. */
    method CyclePass(now: int, sampleLimit: nat, ghost c: Spec.Cycle)
      returns (expired: nat, done: bool, ghost d: Spec.Cycle)
      requires Valid() && c.s == Abs() && c.passes < Spec.MAX_PASSES
      modifies this`expireCursor, this`expiredKeys, table
      ensures Valid() && d.s == Abs() && d.reaped == c.reaped + expired && d.passes == c.passes + 1
      ensures IsPow2(c.s.buckets) && d.s.buckets == c.s.buckets
      ensures Spec.CycleFrom(table.hashOf, now, sampleLimit, c, false)
                == Spec.CycleFrom(table.hashOf, now, sampleLimit, d, done)
    {
      var sampled, wrapped;
      ghost var run := Spec.PassRunner(table.hashOf, now, sampleLimit);
      sampled, expired, wrapped := RunPass(now, sampleLimit, run);
      Spec.RunnerRuns(table.hashOf, now, sampleLimit, run, Spec.Pass(c.s, 0, 0, 0, false));
      CountExpired(expired);
      done := wrapped || expired * 10 <= sampled;
      d := Spec.Cycle(Abs(), c.reaped + expired, c.passes + 1);
      Spec.CycleGoesOn(table.hashOf, now, sampleLimit, c, Abs(), sampled, expired, wrapped);
    }

    /** The expire cycle: passes while more than a tenth of the last was expired. */
    method ActiveExpireCycle(now: int, sampleLimit: nat) returns (reaped: nat, passes: nat)
      requires Valid()
      modifies this`expireCursor, this`expiredKeys, table
      ensures Valid() && IsPow2(old(Abs()).buckets)
      ensures Spec.Cycle(Abs(), reaped, passes) == Spec.ExpireCycle(table.hashOf, old(Abs()), now, sampleLimit)
    {
      reaped, passes := 0, 0;
      var done := false;
      ghost var h, c := table.hashOf, Spec.Cycle(Abs(), 0, 0);
      ghost var end := Spec.CycleFrom(h, now, sampleLimit, c, false);
      while !done && passes < Spec.MAX_PASSES
        invariant Valid() && passes <= Spec.MAX_PASSES && IsPow2(c.s.buckets)
        invariant c.s == Abs() && c.reaped == reaped && c.passes == passes
        invariant Spec.CycleFrom(h, now, sampleLimit, c, done) == end
        decreases Spec.MAX_PASSES - passes
      {
        var expired;
        expired, done, c := CyclePass(now, sampleLimit, c);
        passes, reaped := passes + 1, reaped + expired;
      }
    }

    method Clear()
      requires Valid()
      modifies this`expireCursor, table
      ensures Valid() && Abs() == Spec.Clear(old(Abs()))
    {
      table.Clear();
      expireCursor := 0;
    }

    /** A set of a key that is there: its record changes and the key set does not. */
    method Overwrite(e: nat, value: string, at: int, now: int)
      requires Valid() && e in table.shape.keyOf && |table.shape.keyOf[e]| + |value| < U32
      modifies table
      ensures Valid() && HasRecord(old(table.shape), e)
      ensures var r := RecordOf(old(table.shape), e);
              var at' := if at == Spec.KEEP_TTL then r.expiresAt else at;
              Abs() == old(Abs()).(m := old(Abs()).m[old(table.shape).keyOf[e] := Rec(value, at', Spec.Clock32(now))])
    {
      table.Assign(e, value);
      var r := table.Record(e);
      table.Stamp(e, if at == Spec.KEEP_TTL then r.expiresAt else at, now % U32);
    }

    /** Inserts a new key; below the cap the pool always has a block. */
    method InsertNew(key: string, value: string, at: int, now: int)
      requires Valid() && key !in table.shape.index && |table.shape.index| < maxKeys && |key| + |value| < U32
      modifies table
      ensures Valid() && Abs() == Spec.Put(old(Abs()), key, value, at, now)
    {
      ghost var s := Abs();
      var p := table.Insert(key, value);
      ghost var t := Abs();
      table.Stamp(p.block, if at == Spec.KEEP_TTL then NO_EXPIRY else at, now % U32);
      SameSize(table.shape.contents, table.shape.index);
      PutInTwo(s, t, key, value, at, now, Abs());
    }

    /** Drops the entry a past deadline was set on, if there is one. */
    method Discard(p: Ptr, ghost key: string)
      requires Valid() && p == if key in table.shape.index then Ref(table.shape.index[key]) else Null
      modifies table
      ensures Valid() && Abs() == old(Abs()).(m := old(Abs()).m - {key})
    {
      if p != Null {
        Free(p.block);
      } else {
        RemoveAbsent(Abs().m, key);
      }
    }

    /** Inserts a new key into the room that an eviction has made. */
    method InsertEvicted(key: string, value: string, at: int, now: int, ghost s: Spec.St, ghost sample: set<string>,
                         ghost gone: set<string>)
      requires Valid() && Evicts(Cfg(), s, now, sample, gone, Abs())
      requires key !in s.m && |s.m| <= maxKeys && |key| + |value| < U32
      modifies table
      ensures Valid() && Abs() == Spec.Put(Spec.Evict(s, now, gone), key, value, at, now)
    {
      EvictionShrinks(Cfg(), s, now, sample, gone);
      SameSize(table.shape.contents, table.shape.index);
      InsertNew(key, value, at, now);
    }

    /** Sets an absent key, making room first when the store is at its cap. */
    method SetAbsent(key: string, value: string, at: int, now: int)
      returns (ok: bool, ghost sample: set<string>, ghost gone: set<string>)
      requires Valid() && key !in table.shape.index && |key| + |value| < U32
      modifies this`rngState, this`evictions, this`expiredKeys, table
      ensures Valid()
      ensures ok == Spec.RoomOk(Cfg(), old(Abs()))
      ensures Spec.RoomChoiceOk(Cfg(), old(Abs()), now, sample, gone)
      ensures Abs() == Spec.SetNew(Cfg(), old(Abs()), key, value, at, now, gone)
      ensures !ok ==> rngState == old(rngState)
    {
      ok, sample, gone := true, {}, {};
      SameSize(table.shape.contents, table.shape.index);
      if Size() < maxKeys {
        InsertNew(key, value, at, now);
        return;
      }
      match policy {
        case NoEviction => return false, {}, {};
        case AllKeysLru =>
          ghost var s := Abs();
          sample, gone := EvictOne(now);
          InsertEvicted(key, value, at, now, s, sample, gone);
      }
    }

    /** A set in its three branches; `sample` and `gone` are what an eviction for it met and freed. */
    method Set(key: string, value: string, at: int, now: int)
      returns (ok: bool, ghost sample: set<string>, ghost gone: set<string>)
      requires Valid() && |key| + |value| < U32
      modifies this`rngState, this`evictions, this`expiredKeys, table
      ensures Valid()
      ensures ok == Spec.SetOk(Cfg(), old(Abs()), key, at, now)
      ensures Spec.ChoiceOk(Cfg(), old(Abs()), key, at, now, sample, gone)
      ensures Abs() == Spec.Set(Cfg(), old(Abs()), key, value, at, now, gone)
      ensures !ok ==> rngState == old(rngState)
    {
      ok, sample, gone := true, {}, {};
      ghost var s := Abs();
      var p := Lookup(key, now);
      ghost var t := Abs();
      if at != NO_EXPIRY && at != Spec.KEEP_TTL && at < now {
        Discard(p, key);
      } else if p != Null {
        Overwrite(p.block, value, at, now);
      } else {
        ok, sample, gone := SetAbsent(key, value, at, now);
      }
      SetBranches(Cfg(), s, t, key, value, at, now, ok, sample, gone, Abs());
    }

    /** Draws samples until one is non-empty. The generator walks all 2^64 states, so sooner
        or later the walk starts at a bucket that holds an entry. */
    method DrawSample() returns (out: seq<nat>)
      requires Valid() && table.mem.live > 0
      modifies this`rngState
      ensures Sampled(table.shape.keyOf, table.BucketCount(), lruSamples, out)
      ensures Valid() && Abs() == old(Abs())
    {
      ghost var target := HitState(table);
      out := [];
      while |out| == 0
        invariant |out| > 0 ==> Sampled(table.shape.keyOf, table.BucketCount(), lruSamples, out)
        decreases |out| == 0, Distance(Advance(rngState), target)
      {
        ghost var before := rngState;
        out, rngState := table.SampleSome(lruSamples, rngState);
        SampleFacts(table, lruSamples, before, out, target);
        if Advance(before) != target {
          AdvanceCloser(Advance(before), target);
        }
      }
    }

    /** One sampled entry: freed when expired, else compared with the best so far. */
    method Consider(e: nat, hadExpired: bool, toEvict: Ptr, now: int) returns (hasExpired: bool, best: Ptr)
      requires Valid() && e in table.shape.keyOf && (toEvict.Ref? ==> toEvict.block in table.shape.keyOf)
      modifies this`expiredKeys, table
      ensures Valid()
      ensures table.shape == Over(Reap(old(table.shape), e, now), table.shape)
      ensures table.BucketCount() == old(table.BucketCount())
      ensures expiredKeys == old(expiredKeys) + StaleCount(old(table.shape), e, now)
      ensures hasExpired == (hadExpired || Stale(old(table.shape), e, now))
      ensures best == Better(old(table.shape), e, toEvict, now)
    {
      hasExpired, best := hadExpired, toEvict;
      var r := table.Record(e);
      if Expired(r.expiresAt, now) {
        ghost var at := table.Remove(e);
        expiredKeys := expiredKeys + 1;
        hasExpired := true;
      } else if toEvict == Null || Spec.Idle(r, now) > Spec.Idle(table.Record(toEvict.block), now) {
        best := Ref(e);
      }
    }

    /** The `i`th sampled entry. */
    method ConsiderNth(out: seq<nat>, i: nat, hadExpired: bool, toEvict: Ptr, now: int, ghost s0: Shape,
                       ghost at: nat -> Tally)
      returns (hasExpired: bool, best: Ptr)
      requires Valid() && i < |out| && Tallies(s0, out, now, at)
      requires Paired(s0.keyOf, s0.index) && s0.contents.Keys == s0.index.Keys
      requires Distinct(out) && forall e :: e in out ==> e in s0.keyOf
      requires Tallied(at(i), table.shape, toEvict, hadExpired)
      modifies this`expiredKeys, table
      ensures Valid() && table.BucketCount() == old(table.BucketCount())
      ensures Tallied(at(i + 1), table.shape, best, hasExpired)
      ensures expiredKeys + at(i).count == old(expiredKeys) + at(i + 1).count
    {
      TallyAt(s0, out, now, at, i);
      TallyAt(s0, out, now, at, i + 1);
      SampleStored(s0, out, i, now, table.shape);
      hasExpired, best := Consider(out[i], hadExpired, toEvict, now);
    }

    /** The loop over a sample. */
    method ConsiderAll(out: seq<nat>, now: int, ghost s0: Shape, ghost at: nat -> Tally)
      returns (hasExpired: bool, toEvict: Ptr)
      requires Valid() && table.shape == s0 && Tallies(s0, out, now, at) && at(0) == Tally(s0, 0, Null, false)
      requires Distinct(out) && forall e :: e in out ==> e in s0.keyOf
      modifies this`expiredKeys, table
      ensures Valid() && table.BucketCount() == old(table.BucketCount())
      ensures Tallied(at(|out|), table.shape, toEvict, hasExpired) && expiredKeys == old(expiredKeys) + at(|out|).count
    {
      hasExpired, toEvict := false, Null;
      for i := 0 to |out|
        invariant Valid() && table.BucketCount() == old(table.BucketCount())
        invariant Tallied(at(i), table.shape, toEvict, hasExpired) && expiredKeys == old(expiredKeys) + at(i).count
      {
        hasExpired, toEvict := ConsiderNth(out, i, hasExpired, toEvict, now, s0, at);
      }
    }

    /** Goes through a sample, freeing the expired entries and keeping the longest idle of the rest. */
    method ReapSample(out: seq<nat>, now: int) returns (hasExpired: bool, toEvict: Ptr, ghost t: Tally)
      requires Valid() && Sampled(table.shape.keyOf, table.BucketCount(), lruSamples, out)
      modifies this`expiredKeys, table
      ensures Valid() && table.BucketCount() == old(table.BucketCount())
      ensures t == TallyTo(old(table.shape), out, |out|, now)
      ensures Tallied(t, table.shape, toEvict, hasExpired) && expiredKeys == old(expiredKeys) + t.count
    {
      ghost var s0 := table.shape;
      ghost var at := Tallying(s0, out, now);
      hasExpired, toEvict := ConsiderAll(out, now, s0, at);
      TallyAt(s0, out, now, at, |out|);
      t := at(|out|);
    }

    /** Frees what has expired in a sample, and otherwise names the entry to free. */
    method ChooseVictim(out: seq<nat>, now: int)
      returns (hasExpired: bool, toEvict: Ptr, ghost sample: set<string>, ghost gone: set<string>)
      requires Valid() && Sampled(table.shape.keyOf, table.BucketCount(), lruSamples, out)
      modifies this`expiredKeys, table
      ensures Valid()
      ensures !hasExpired ==> toEvict.Ref? && toEvict.block in table.shape.keyOf
      ensures Evicts(Cfg(), old(Abs()), now, sample, gone,
                     if hasExpired then Abs() else WithoutVictim(Abs(), table.shape.keyOf[toEvict.block]))
    {
      ghost var s, s0 := Abs(), table.shape;
      sample := KeysUpTo(s0.keyOf, out, |out|);
      ghost var t;
      hasExpired, toEvict, t := ReapSample(out, now);
      gone := Settled(Cfg(), s, s0, out, now, Abs(), table.shape, toEvict, hasExpired);
    }

    /** Makes room: frees every expired entry of a sample, or else its longest-idle one. */
    method EvictOne(now: int) returns (ghost sample: set<string>, ghost gone: set<string>)
      requires Valid() && table.mem.live > 0
      modifies this`rngState, this`evictions, this`expiredKeys, table
      ensures Valid() && Evicts(Cfg(), old(Abs()), now, sample, gone, Abs())
    {
      var out := DrawSample();
      sample, gone := EvictFrom(out, now);
    }

    method EvictFrom(out: seq<nat>, now: int) returns (ghost sample: set<string>, ghost gone: set<string>)
      requires Valid() && Sampled(table.shape.keyOf, table.BucketCount(), lruSamples, out)
      modifies this`evictions, this`expiredKeys, table
      ensures Valid() && Evicts(Cfg(), old(Abs()), now, sample, gone, Abs())
    {
      var hasExpired, toEvict;
      hasExpired, toEvict, sample, gone := ChooseVictim(out, now);
      if !hasExpired {
        RemoveVictim(toEvict.block);
      }
    }

    method RemoveVictim(e: nat)
      requires Valid() && e in table.shape.keyOf
      modifies this`evictions, table
      ensures Valid()
      ensures Abs() == WithoutVictim(old(Abs()), old(table.shape.keyOf)[e])
    {
      evictions := evictions + 1;
      Free(e);
    }
  }

  lemma SameSize(a: map<string, Rec>, b: map<string, nat>)
    requires a.Keys == b.Keys
    ensures |a| == |b|
  {
    assert |a| == |a.Keys| && |b| == |b.Keys|;
  }

  /** An eviction frees at least one key and adds none. */
  lemma EvictionShrinks(cfg: Spec.Config, s: Spec.St, now: int, sample: set<string>, gone: set<string>)
    requires Spec.EvictionOk(cfg, s, now, sample, gone)
    ensures |Spec.Evict(s, now, gone).m| < |s.m| && Spec.Evict(s, now, gone).m.Keys <= s.m.Keys
  {
    var k :| k in gone;
    assert k in s.m;
    FewerWithout(s.m, gone, k);
  }

  lemma FewerWithout(m: map<string, Rec>, gone: set<string>, k: string)
    requires k in gone && k in m
    ensures |m - gone| < |m| && (m - gone).Keys <= m.Keys
  {
    assert (m - gone).Keys <= m.Keys - {k};
    Smaller((m - gone).Keys, m.Keys - {k});
    assert |m - gone| == |(m - gone).Keys| && |m| == |m.Keys|;
  }

  /** Inserting and then stamping is one put. */
  lemma PutInTwo(s: Spec.St, t: Spec.St, key: string, value: string, at: int, now: int, u: Spec.St)
    requires t == s.(m := s.m[key := Rec(value, NO_EXPIRY, 0)], buckets := t.buckets)
    requires u == t.(m := t.m[key := Rec(value, if at == Spec.KEEP_TTL then NO_EXPIRY else at, Spec.Clock32(now))])
    requires u.buckets == Grown(|u.m|, s.buckets)
    ensures u == Spec.Put(s, key, value, at, now)
  {
    assert u.m == s.m[key := Rec(value, if at == Spec.KEEP_TTL then NO_EXPIRY else at, Spec.Clock32(now))];
  }

  /** The three ways a set ends. */
  lemma SetBranches(cfg: Spec.Config, s: Spec.St, t: Spec.St, key: string, value: string, at: int, now: int,
                    ok: bool, sample: set<string>, gone: set<string>, u: Spec.St)
    requires t == Spec.Lookup(s, key, now)
    requires Spec.PastDeadline(at, now) ==> ok && sample == {} && gone == {} && u == t.(m := t.m - {key})
    requires !Spec.PastDeadline(at, now) && key in t.m ==>
               ok && sample == {} && gone == {}
               && var kept := if at == Spec.KEEP_TTL then t.m[key].expiresAt else at;
                  u == t.(m := t.m[key := Rec(value, kept, Spec.Clock32(now))])
    requires !Spec.PastDeadline(at, now) && key !in t.m ==>
               ok == Spec.RoomOk(cfg, t) && Spec.RoomChoiceOk(cfg, t, now, sample, gone)
               && u == Spec.SetNew(cfg, t, key, value, at, now, gone)
    ensures ok == Spec.SetOk(cfg, s, key, at, now) && Spec.ChoiceOk(cfg, s, key, at, now, sample, gone)
    ensures u == Spec.Set(cfg, s, key, value, at, now, gone)
  {
  }

  lemma RemoveAbsent(m: map<string, Rec>, key: string)
    requires key !in m
    ensures m - {key} == m
  {
  }

  lemma SampleIsOk(cfg: Spec.Config, s: Spec.St, s0: Shape, out: seq<nat>)
    requires Paired(s0.keyOf, s0.index) && s.m.Keys == s0.index.Keys && |s0.keyOf| == |s.m|
    requires Sampled(s0.keyOf, s.buckets, cfg.lruSamples, out)
    ensures Spec.SampleOk(cfg, s, KeysUpTo(s0.keyOf, out, |out|))
  {
    var sample := KeysUpTo(s0.keyOf, out, |out|);
    KeysUpToSize(s0.keyOf, s0.index, out, |out|);
    forall k | k in sample ensures k in s.m {
      KeysUpToHas(s0.keyOf, out, |out|, k);
    }
    if |s.m| <= cfg.lruSamples && s.buckets <= 10 * cfg.lruSamples {
      forall k | k in s.m ensures k in sample {
        assert s0.index[k] in out;
        var u :| 0 <= u < |out| && out[u] == s0.index[k];
        KeysUpToHas(s0.keyOf, out, |out|, k);
      }
    }
  }

  ghost function WithoutVictim(s: Spec.St, v: string): Spec.St {
    s.(m := s.m - {v}, evictions := s.evictions + 1)
  }

  /** `t` is `s` after an eviction that met `sample` and freed `gone`. */
  ghost predicate Evicts(cfg: Spec.Config, s: Spec.St, now: int, sample: set<string>, gone: set<string>, t: Spec.St) {
    Spec.EvictionOk(cfg, s, now, sample, gone) && t == Spec.Evict(s, now, gone)
  }

  /** `s`, chained and owned as `t` is. */
  ghost function Over(s: Shape, t: Shape): Shape {
    s.(chains := t.chains, owner := t.owner)
  }

  /** Block `e` holds an expired entry. */
  ghost predicate Stale(s: Shape, e: nat, now: int) {
    HasRecord(s, e) && Expired(RecordOf(s, e).expiresAt, now)
  }

  ghost function StaleCount(s: Shape, e: nat, now: int): nat {
    if Stale(s, e, now) then 1 else 0
  }

  ghost function Reap(s: Shape, e: nat, now: int): Shape {
    if Stale(s, e, now) then WithoutEntry(s, e) else s
  }

  /** What is listed once the first `i` sampled entries have been gone through. */
  ghost function ReapTo(s0: Shape, out: seq<nat>, i: nat, now: int): Shape
    requires i <= |out|
  {
    if i == 0 then s0 else Reap(ReapTo(s0, out, i - 1, now), out[i - 1], now)
  }

  ghost function ReapCount(s0: Shape, out: seq<nat>, i: nat, now: int): nat
    requires i <= |out|
  {
    if i == 0 then 0
    else ReapCount(s0, out, i - 1, now) + StaleCount(ReapTo(s0, out, i - 1, now), out[i - 1], now)
  }

  /** Some of the first `i` sampled entries was expired. */
  ghost predicate Reaps(s0: Shape, out: seq<nat>, i: nat, now: int)
    requires i <= |out|
  {
    i > 0 && (Reaps(s0, out, i - 1, now) || Stale(ReapTo(s0, out, i - 1, now), out[i - 1], now))
  }

  /** Where the walk over a sample stands. */
  datatype Tally = Tally(shape: Shape, count: nat, best: Ptr, has: bool)

  ghost function TallyTo(s0: Shape, out: seq<nat>, i: nat, now: int): Tally
    requires i <= |out|
  {
    Tally(ReapTo(s0, out, i, now), ReapCount(s0, out, i, now), BestUpTo(s0, out, i, now), Reaps(s0, out, i, now))
  }

  ghost predicate Tallied(t: Tally, s: Shape, best: Ptr, has: bool) {
    s == Over(t.shape, s) && best == t.best && has == t.has
  }

  ghost predicate TallyIs(s0: Shape, out: seq<nat>, now: int, at: nat -> Tally, i: nat) {
    i <= |out| ==> at(i) == TallyTo(s0, out, i, now)
  }

  /** `at` tells where the walk stands after every number of entries. */
  ghost predicate Tallies(s0: Shape, out: seq<nat>, now: int, at: nat -> Tally) {
    forall i {:trigger TallyIs(s0, out, now, at, i)} :: TallyIs(s0, out, now, at, i)
  }

  lemma Tallying(s0: Shape, out: seq<nat>, now: int) returns (at: nat -> Tally)
    ensures Tallies(s0, out, now, at) && at(0) == Tally(s0, 0, Null, false)
  {
    at := (i: nat) => if i <= |out| then TallyTo(s0, out, i, now) else Tally(s0, 0, Null, false);
  }

  lemma TallyAt(s0: Shape, out: seq<nat>, now: int, at: nat -> Tally, i: nat)
    requires Tallies(s0, out, now, at) && i <= |out|
    ensures at(i) == TallyTo(s0, out, i, now)
  {
    assert TallyIs(s0, out, now, at, i);
  }

  lemma {:induction false} ReapsCounts(s0: Shape, out: seq<nat>, i: nat, now: int)
    requires i <= |out|
    ensures Reaps(s0, out, i, now) <==> ReapCount(s0, out, i, now) > 0
  {
    if i > 0 {
      ReapsCounts(s0, out, i - 1, now);
    }
  }

  /** Going through a sample takes away exactly its expired keys. */
  lemma {:induction false} ReapToReaped(s0: Shape, out: seq<nat>, i: nat, now: int)
    requires Paired(s0.keyOf, s0.index) && s0.contents.Keys == s0.index.Keys
    requires Distinct(out) && i <= |out| && forall e :: e in out ==> e in s0.keyOf
    ensures var s := ReapTo(s0, out, i, now);
            Paired(s.keyOf, s.index)
            && Reaped(s0, ReapedKeys(s0, out, i, Spec.Stale(now)), s, ReapCount(s0, out, i, now))
  {
    if i == 0 {
      NothingReaped(s0, Spec.Stale(now));
    } else {
      ReapToReaped(s0, out, i - 1, now);
      var s, count := ReapTo(s0, out, i - 1, now), ReapCount(s0, out, i - 1, now);
      ReapOne(s0, out, i - 1, now, s, count);
    }
  }

  lemma ReapOne(s0: Shape, out: seq<nat>, i: nat, now: int, s: Shape, count: nat)
    requires Paired(s0.keyOf, s0.index) && s0.contents.Keys == s0.index.Keys && Paired(s.keyOf, s.index)
    requires Distinct(out) && i < |out| && forall e :: e in out ==> e in s0.keyOf
    requires Reaped(s0, ReapedKeys(s0, out, i, Spec.Stale(now)), s, count)
    ensures var s' := Reap(s, out[i], now);
            Paired(s'.keyOf, s'.index)
            && Reaped(s0, ReapedKeys(s0, out, i + 1, Spec.Stale(now)), s', count + StaleCount(s, out[i], now))
  {
    NotSeen(s0.keyOf, s0.index, out, i);
    StillStored(s0, ReapedKeys(s0, out, i, Spec.Stale(now)), s, count, out[i]);
    var expired := Stale(s, out[i], now);
    if expired {
      PairedRemove(s.keyOf, s.index, out[i]);
    }
    ScanStep(s0, out, i, Spec.Stale(now), s, Reap(s, out[i], now), count, expired);
  }

  /** What going through a sample comes to: done, or one named entry still to be freed. */
  lemma Chosen(cfg: Spec.Config, s: Spec.St, s0: Shape, out: seq<nat>, now: int) returns (gone: set<string>)
    requires Paired(s0.keyOf, s0.index) && s0.contents.Keys == s0.index.Keys && |s0.keyOf| == |s.m|
    requires s.m == s0.contents
    requires Sampled(s0.keyOf, s.buckets, cfg.lruSamples, out)
    ensures var p, s1 := BestUpTo(s0, out, |out|, now), ReapTo(s0, out, |out|, now);
            var t := s.(m := s1.contents, expired := s.expired + ReapCount(s0, out, |out|, now));
            if Reaps(s0, out, |out|, now)
            then Evicts(cfg, s, now, KeysUpTo(s0.keyOf, out, |out|), gone, t)
            else p.Ref? && p.block in s1.keyOf
                 && Evicts(cfg, s, now, KeysUpTo(s0.keyOf, out, |out|), gone, WithoutVictim(t, s1.keyOf[p.block]))
  {
    var sample := KeysUpTo(s0.keyOf, out, |out|);
    SampleIsOk(cfg, s, s0, out);
    ReapToReaped(s0, out, |out|, now);
    ReapsCounts(s0, out, |out|, now);
    if Reaps(s0, out, |out|, now) {
      EvictedDead(cfg, s, now, sample);
      gone := Dropped(s.m, sample, Spec.Stale(now));
    } else {
      EvictedOne(cfg, s, s0, out, now, ReapTo(s0, out, |out|, now));
      gone := {s0.keyOf[BestUpTo(s0, out, |out|, now).block]};
    }
  }

  lemma Settled(cfg: Spec.Config, s: Spec.St, s0: Shape, out: seq<nat>, now: int, t: Spec.St, s1: Shape, p: Ptr,
                has: bool)
    returns (gone: set<string>)
    requires Paired(s0.keyOf, s0.index) && s0.contents.Keys == s0.index.Keys && |s0.keyOf| == |s.m|
    requires s.m == s0.contents
    requires Sampled(s0.keyOf, s.buckets, cfg.lruSamples, out)
    requires s1 == Over(ReapTo(s0, out, |out|, now), s1)
    requires t == s.(m := s1.contents, expired := s.expired + ReapCount(s0, out, |out|, now))
    requires p == BestUpTo(s0, out, |out|, now) && has == Reaps(s0, out, |out|, now)
    ensures !has ==> p.Ref? && p.block in s1.keyOf
    ensures Evicts(cfg, s, now, KeysUpTo(s0.keyOf, out, |out|), gone,
                   if has then t else WithoutVictim(t, s1.keyOf[p.block]))
  {
    gone := Chosen(cfg, s, s0, out, now);
  }

  lemma EvictedDead(cfg: Spec.Config, s: Spec.St, now: int, sample: set<string>)
    requires Spec.SampleOk(cfg, s, sample) && Dropped(s.m, sample, Spec.Stale(now)) != {}
    ensures var gone := Dropped(s.m, sample, Spec.Stale(now));
            Spec.EvictionOk(cfg, s, now, sample, gone)
            && Spec.Evict(s, now, gone) == s.(m := s.m - gone, expired := s.expired + |gone|)
  {
    var gone := Dropped(s.m, sample, Spec.Stale(now));
    assert Dropped(s.m, gone, Spec.Stale(now)) == gone;
  }

  lemma EvictedOne(cfg: Spec.Config, s: Spec.St, s0: Shape, out: seq<nat>, now: int, s1: Shape)
    requires Spec.SampleOk(cfg, s, KeysUpTo(s0.keyOf, out, |out|)) && Sampled(s0.keyOf, s.buckets, cfg.lruSamples, out)
    requires s.m == s0.contents
    requires Paired(s0.keyOf, s0.index) && s0.contents.Keys == s0.index.Keys && Paired(s1.keyOf, s1.index)
    requires Reaped(s0, ReapedKeys(s0, out, |out|, Spec.Stale(now)), s1, 0)
    ensures var p := BestUpTo(s0, out, |out|, now);
            && p.Ref? && p.block in s0.keyOf && p.block in s1.keyOf && s1.keyOf[p.block] == s0.keyOf[p.block]
            && s1.contents == s.m
            && Spec.EvictionOk(cfg, s, now, KeysUpTo(s0.keyOf, out, |out|), {s0.keyOf[p.block]})
            && Spec.Evict(s, now, {s0.keyOf[p.block]}) == WithoutVictim(s, s0.keyOf[p.block])
  {
    var p, sample := BestUpTo(s0, out, |out|, now), KeysUpTo(s0.keyOf, out, |out|);
    NoneStale(s0, s1, sample, now);
    AllRecorded(s0, out);
    BestOfAll(s0, out, now);
    StillStored(s0, {}, s1, 0, p.block);
    EvictsVictim(cfg, s, now, sample, s0.keyOf[p.block]);
  }

  lemma NoneStale(s0: Shape, s1: Shape, sample: set<string>, now: int)
    requires Reaped(s0, Dropped(s0.contents, sample, Spec.Stale(now)), s1, 0)
    ensures Dropped(s0.contents, sample, Spec.Stale(now)) == {} && s1.contents == s0.contents
    ensures forall k :: k in sample ==> !Spec.Dead(s0.contents, k, now)
  {
    assert Dropped(s0.contents, sample, Spec.Stale(now)) == {} && s0.contents - {} == s0.contents;
    forall k | k in sample ensures !Spec.Dead(s0.contents, k, now) {
      assert k !in Dropped(s0.contents, sample, Spec.Stale(now));
    }
  }

  lemma EvictsVictim(cfg: Spec.Config, s: Spec.St, now: int, sample: set<string>, v: string)
    requires Spec.SampleOk(cfg, s, sample) && Spec.Victim(s.m, now, sample, v)
    requires forall k :: k in sample ==> !Spec.Dead(s.m, k, now)
    ensures Spec.EvictionOk(cfg, s, now, sample, {v})
    ensures Spec.Evict(s, now, {v}) == WithoutVictim(s, v)
  {
    assert Dropped(s.m, sample, Spec.Stale(now)) == {} && Dropped(s.m, {v}, Spec.Stale(now)) == {};
  }

  /** The best so far, with the next entry considered. */
  ghost function Better(s: Shape, e: nat, p: Ptr, now: int): Ptr {
    if !HasRecord(s, e) || Expired(RecordOf(s, e).expiresAt, now) then p
    else if p.Ref? && HasRecord(s, p.block)
         && Spec.Idle(RecordOf(s, e), now) <= Spec.Idle(RecordOf(s, p.block), now) then p
    else Ref(e)
  }

  /** The longest idle of the live entries among the first `i`, null when there are none. */
  ghost function BestUpTo(s0: Shape, out: seq<nat>, i: nat, now: int): Ptr
    requires i <= |out|
  {
    if i == 0 then Null else Better(s0, out[i - 1], BestUpTo(s0, out, i - 1, now), now)
  }

  /** The choice is one of the entries, live, and no live one has been idle longer. */
  lemma {:induction false} BestIsBest(s0: Shape, out: seq<nat>, i: nat, now: int)
    requires i <= |out| && forall e :: e in out ==> HasRecord(s0, e)
    ensures var p := BestUpTo(s0, out, i, now);
            && (p.Ref? ==> p.block in out && HasRecord(s0, p.block) && !Expired(RecordOf(s0, p.block).expiresAt, now))
            && (forall j :: 0 <= j < i && !Expired(RecordOf(s0, out[j]).expiresAt, now) ==>
                  p.Ref? && Spec.Idle(RecordOf(s0, out[j]), now) <= Spec.Idle(RecordOf(s0, p.block), now))
  {
    if i > 0 {
      BestIsBest(s0, out, i - 1, now);
      assert out[i - 1] in out;
    }
  }

  lemma BestOfAll(s0: Shape, out: seq<nat>, now: int)
    requires out != [] && forall e :: e in out ==> HasRecord(s0, e)
    requires forall k :: k in KeysUpTo(s0.keyOf, out, |out|) ==> !Spec.Dead(s0.contents, k, now)
    ensures var p := BestUpTo(s0, out, |out|, now);
            p.Ref? && HasRecord(s0, p.block)
            && Spec.Victim(s0.contents, now, KeysUpTo(s0.keyOf, out, |out|), s0.keyOf[p.block])
  {
    BestIsBest(s0, out, |out|, now);
    var p, sample := BestUpTo(s0, out, |out|, now), KeysUpTo(s0.keyOf, out, |out|);
    forall u | 0 <= u < |out|
      ensures HasRecord(s0, out[u]) && s0.keyOf[out[u]] in sample && !Expired(RecordOf(s0, out[u]).expiresAt, now)
    {
      assert out[u] in out;
      KeysUpToHas(s0.keyOf, out, |out|, s0.keyOf[out[u]]);
    }
    assert !Expired(RecordOf(s0, out[0]).expiresAt, now);
    forall k | k in sample ensures exists u :: 0 <= u < |out| && out[u] in s0.keyOf && s0.keyOf[out[u]] == k {
      KeysUpToHas(s0.keyOf, out, |out|, k);
    }
    assert p.block in out;
  }

  lemma AllRecorded(s0: Shape, out: seq<nat>)
    requires Paired(s0.keyOf, s0.index) && s0.contents.Keys == s0.index.Keys && forall e :: e in out ==> e in s0.keyOf
    ensures forall e :: e in out ==> HasRecord(s0, e)
  {
    forall e | e in out ensures HasRecord(s0, e) {
      assert s0.keyOf[e] in s0.index;
    }
  }

  /** The next sampled entry, and the best so far, are still stored with their records. */
  lemma SampleStored(s0: Shape, out: seq<nat>, i: nat, now: int, s: Shape)
    requires Paired(s0.keyOf, s0.index) && s0.contents.Keys == s0.index.Keys
    requires Distinct(out) && i < |out| && forall e :: e in out ==> e in s0.keyOf
    requires s == Over(ReapTo(s0, out, i, now), s)
    ensures HasRecord(s, out[i]) && HasRecord(ReapTo(s0, out, i, now), out[i])
    ensures var p := BestUpTo(s0, out, i, now);
            (p.Ref? ==> HasRecord(s, p.block)) && Better(s, out[i], p, now) == BestUpTo(s0, out, i + 1, now)
    ensures Reaps(s0, out, i + 1, now) == (Reaps(s0, out, i, now) || Stale(s, out[i], now))
    ensures ReapCount(s0, out, i + 1, now) == ReapCount(s0, out, i, now) + StaleCount(s, out[i], now)
    ensures forall t: Shape :: Over(ReapTo(s0, out, i + 1, now), t) == Over(Reap(s, out[i], now), t)
  {
    var p, r, count := BestUpTo(s0, out, i, now), ReapTo(s0, out, i, now), ReapCount(s0, out, i, now);
    var gone := ReapedKeys(s0, out, i, Spec.Stale(now));
    AllRecorded(s0, out);
    ReapToReaped(s0, out, i, now);
    NotSeen(s0.keyOf, s0.index, out, i);
    StillStored(s0, gone, r, count, out[i]);
    BestIsBest(s0, out, i, now);
    if p.Ref? {
      StillStored(s0, gone, r, count, p.block);
    }
  }

  /** What a non-empty sample is: distinct stored entries, at most `n`, and all of them when
      the walk covers the table. */
  ghost predicate Sampled(keyOf: map<nat, string>, buckets: nat, n: nat, out: seq<nat>) {
    && 0 < |out| <= n && Distinct(out)
    && (forall e :: e in out ==> e in keyOf)
    && (|keyOf| <= n && buckets <= 10 * n ==> forall e :: e in keyOf ==> e in out)
  }

  /** The start bucket after drawing from `state` holds an entry when `state` advances to this. */
  ghost predicate Hits(t: Table, state: Word)
    reads t
  {
    |t.shape.chains| == |t.mem.buckets| > 0 && t.shape.chains[Masked(Mix(state), |t.mem.buckets|)] != []
  }

  lemma HitState(t: Table) returns (state: Word)
    requires t.Valid() && t.mem.live > 0
    ensures Hits(t, state)
  {
    var k :| k in t.shape.index;
    var e := t.shape.index[k];
    assert Stored(t.hashOf, t.mem.slab, t.mem.heap, t.shape.keyOf, e) && HasBucket(t.mem.slab, t.shape.chains, e);
    var b := Masked(t.mem.slab[e].hash, |t.mem.buckets|);
    assert b < |t.mem.buckets|;
    MaskedSmaller(t.mem.slab[e].hash, |t.mem.buckets|);
    state := MixOnto(b);
  }

  lemma {:induction false} MaskedSmaller(v: nat, n: nat)
    requires n > 0
    ensures Masked(v, n) <= v
  {
    if v >= n {
      MaskedSmaller(v - n, n);
    }
  }

  lemma SampleFacts(t: Table, n: nat, rng: Word, out: seq<nat>, target: Word)
    requires t.Valid() && t.mem.live > 0 && n > 0 && Hits(t, target)
    requires var w := Walk(t.shape.chains, Masked(Mix(Advance(rng)), |t.mem.buckets|), Min(n * 10, |t.mem.buckets|));
             out == w[..Min(n, |w|)]
    ensures out != [] ==> Sampled(t.shape.keyOf, t.BucketCount(), n, out)
    ensures Advance(rng) == target ==> out != []
  {
    var idx := Masked(Mix(Advance(rng)), |t.mem.buckets|);
    SampleDistinct(t.mem.slab, t.mem.buckets, t.shape.chains, t.shape.keyOf.Keys, idx, n);
    if t.mem.live <= n && t.BucketCount() <= 10 * n {
      SampleCovers(t.mem.slab, t.mem.buckets, t.shape.chains, t.shape.keyOf.Keys, idx, n);
    }
  }
}
