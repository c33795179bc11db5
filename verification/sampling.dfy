/** What the eviction sampler can return (src/core/table.cpp, sampleSome). */
module Sampling {
  import opened Basics
  import opened Bits
  import opened Entries
  import opened TableModel
  import opened Tables

  /** How many buckets after `idx` bucket `b` comes, wrapping past the last of `n`. */
  function Offset(b: nat, idx: nat, n: nat): (o: nat)
    requires b < n && idx < n
    ensures o < n
  {
    if b >= idx then b - idx else b + n - idx
  }

  lemma OffsetNext(b: nat, idx: nat, n: nat)
    requires b < n && idx < n
    ensures Masked(idx + 1, n) == if idx + 1 < n then idx + 1 else 0
    ensures b != idx ==> Offset(b, idx, n) == Offset(b, Masked(idx + 1, n), n) + 1
    ensures b == idx ==> Offset(b, Masked(idx + 1, n), n) == n - 1
  {
    if idx + 1 == n {
      assert Masked(n, n) == Masked(0, n) == 0;
    }
  }

  /** Whatever a walk returns is stored, and lies in one of the buckets walked. */
  lemma {:induction false} WalkInside(slab: seq<Entry>, chains: seq<seq<nat>>, members: set<nat>, idx: nat, budget: nat,
                                      e: nat)
    requires |chains| > 0 && Placed(slab, chains, members) && idx < |chains| && budget <= |chains|
    requires e in Walk(chains, idx, budget)
    ensures e in members && e < |slab|
    ensures Offset(Masked(slab[e].hash, |chains|), idx, |chains|) < budget
    decreases budget
  {
    if e in chains[idx] {
      var i :| 0 <= i < |chains[idx]| && chains[idx][i] == e;
      assert InBucket(slab, chains, members, idx, i);
    } else {
      var next := Masked(idx + 1, |chains|);
      assert e in Walk(chains, next, budget - 1);
      WalkInside(slab, chains, members, next, budget - 1, e);
      OffsetNext(Masked(slab[e].hash, |chains|), idx, |chains|);
    }
  }

  /** A walk of at most every bucket returns no entry twice. */
  lemma {:induction false} WalkDistinct(slab: seq<Entry>, buckets: seq<Ptr>, chains: seq<seq<nat>>, members: set<nat>,
                                        idx: nat, budget: nat)
    requires Chained(slab, buckets, chains) && |chains| > 0 && Placed(slab, chains, members)
    requires idx < |chains| && budget <= |chains|
    ensures Distinct(Walk(chains, idx, budget))
    decreases budget
  {
    if budget > 0 {
      var n := |chains|;
      var next := Masked(idx + 1, n);
      var c, rest := chains[idx], Walk(chains, next, budget - 1);
      WalkDistinct(slab, buckets, chains, members, next, budget - 1);
      assert ChainAt(slab, buckets, chains, idx);
      forall i, j | 0 <= i < |c| && 0 <= j < |rest| ensures c[i] != rest[j] {
        assert InBucket(slab, chains, members, idx, i) && rest[j] in rest;
        WalkInside(slab, chains, members, next, budget - 1, rest[j]);
        OffsetNext(idx, idx, n);
      }
    }
  }

  /** A walk returns everything in the buckets it covers. */
  lemma {:induction false} WalkReaches(chains: seq<seq<nat>>, idx: nat, budget: nat, b: nat, e: nat)
    requires idx < |chains| && b < |chains| && e in chains[b] && Offset(b, idx, |chains|) < budget
    ensures e in Walk(chains, idx, budget)
    decreases budget
  {
    var next := Masked(idx + 1, |chains|);
    if b != idx {
      OffsetNext(b, idx, |chains|);
      WalkReaches(chains, next, budget - 1, b, e);
    }
  }

  /** A walk over all the buckets returns every entry. */
  lemma WalkCovers(slab: seq<Entry>, chains: seq<seq<nat>>, members: set<nat>, idx: nat, e: nat)
    requires |chains| > 0 && Placed(slab, chains, members) && idx < |chains| && e in members
    ensures e in Walk(chains, idx, |chains|)
  {
    assert HasBucket(slab, chains, e);
    WalkReaches(chains, idx, |chains|, Masked(slab[e].hash, |chains|), e);
  }

  /** The sampler's output is distinct and stored. */
  lemma SampleDistinct(slab: seq<Entry>, buckets: seq<Ptr>, chains: seq<seq<nat>>, members: set<nat>, idx: nat, n: nat)
    requires Chained(slab, buckets, chains) && |chains| > 0 && Placed(slab, chains, members) && idx < |chains|
    ensures var w := Walk(chains, idx, Min(n * 10, |chains|));
            var out := w[..Min(n, |w|)];
            Distinct(out) && forall e :: e in out ==> e in members
  {
    var budget := Min(n * 10, |chains|);
    var w := Walk(chains, idx, budget);
    WalkDistinct(slab, buckets, chains, members, idx, budget);
    forall e | e in w ensures e in members {
      WalkInside(slab, chains, members, idx, budget, e);
    }
  }

  /** It is everything when neither the sample size nor the bucket budget cuts the walk short. */
  lemma SampleCovers(slab: seq<Entry>, buckets: seq<Ptr>, chains: seq<seq<nat>>, members: set<nat>, idx: nat, n: nat)
    requires Chained(slab, buckets, chains) && |chains| > 0 && Placed(slab, chains, members) && idx < |chains|
    requires |members| <= n && |chains| <= 10 * n
    ensures var w := Walk(chains, idx, Min(n * 10, |chains|));
            forall e :: e in members ==> e in w[..Min(n, |w|)]
  {
    var w := Walk(chains, idx, |chains|);
    WalkDistinct(slab, buckets, chains, members, idx, |chains|);
    forall e | e in w ensures e in members {
      WalkInside(slab, chains, members, idx, |chains|, e);
    }
    DistinctFits(w, members);
    forall e | e in members ensures e in w {
      WalkCovers(slab, chains, members, idx, e);
    }
  }

  /** Distinct members of a set are no more than the set has. */
  lemma {:induction false} DistinctFits(w: seq<nat>, s: set<nat>)
    requires Distinct(w) && forall e :: e in w ==> e in s
    ensures |w| <= |s|
  {
    if w != [] {
      var last := |w| - 1;
      DistinctFits(w[..last], s - {w[last]});
    }
  }
}
