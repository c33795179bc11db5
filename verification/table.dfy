/** The chained hash table over a fixed pool (src/core/table.h, src/core/table.cpp).

    The pool is one slab of blocks, so an Entry* is a block's index. Spill blocks are the
    table's own heap, by address. The hash is any function of the key. */
module Tables {
  import opened Basics
  import opened Bits
  import opened Entries
  import opened TableModel
  import opened SplitMix

  const MIN_BUCKETS: nat := 4

  /** All the blocks of a pool. */
  function Blocks(n: nat): (s: set<nat>)
    ensures |s| == n && forall e: nat :: e in s <==> e < n
  {
    if n == 0 then {} else Blocks(n - 1) + {n - 1}
  }

  /** new[] can always hand out an address that is not in use. */
  lemma FreshAddress(heap: Heap)
    ensures exists a: nat :: a !in heap
  {
    assert Above(heap.Keys) !in heap;
  }

  /** An entry met on a chain is stored and links to the one after it. */
  lemma Met(h: string -> nat, capacity: nat, m: Mem, s: Shape, b: nat, i: nat)
    requires Wf(h, capacity, m, s) && b < |s.chains| && i < |s.chains[b]|
    ensures var e := s.chains[b][i];
            && e in s.keyOf && Stored(h, m.slab, m.heap, s.keyOf, e) && Masked(m.slab[e].hash, |m.buckets|) == b
            && m.slab[e].next == At(s.chains[b], i + 1) && s.keyOf[e] in s.index && s.index[s.keyOf[e]] == e
  {
    var e := s.chains[b][i];
    assert ChainAt(m.slab, m.buckets, s.chains, b) && LinkAt(m.slab, s.chains[b], i);
    assert InBucket(m.slab, s.chains, s.keyOf.Keys, b, i) && Stored(h, m.slab, m.heap, s.keyOf, e);
  }

  /** A stored entry is on the chain of the bucket its hash selects. */
  lemma Home(h: string -> nat, capacity: nat, m: Mem, s: Shape, e: nat) returns (pos: nat)
    requires Wf(h, capacity, m, s) && e in s.keyOf
    ensures Stored(h, m.slab, m.heap, s.keyOf, e)
    ensures var b := Masked(m.slab[e].hash, |m.buckets|);
            ChainAt(m.slab, m.buckets, s.chains, b) && pos < |s.chains[b]| && s.chains[b][pos] == e
  {
    assert Stored(h, m.slab, m.heap, s.keyOf, e) && HasBucket(m.slab, s.chains, e);
    var b := Masked(m.slab[e].hash, |m.buckets|);
    assert ChainAt(m.slab, m.buckets, s.chains, b);
    pos :| 0 <= pos < |s.chains[b]| && s.chains[b][pos] == e;
  }

  /** Where a lookup finds the key on its chain: nowhere, the chain's length, when it is not stored. */
  lemma Sought(h: string -> nat, capacity: nat, m: Mem, s: Shape, key: string) returns (pos: nat)
    requires Wf(h, capacity, m, s)
    ensures var c := s.chains[Masked(h(key) % U32, |m.buckets|)];
            At(c, pos) == if key in s.index then Ref(s.index[key]) else Null
  {
    var c := s.chains[Masked(h(key) % U32, |m.buckets|)];
    pos := |c|;
    if key in s.index {
      pos := Home(h, capacity, m, s, s.index[key]);
    }
  }

  /** The comparison of hash, length and bytes is true of the key's own entry alone. */
  lemma Probe(h: string -> nat, capacity: nat, m: Mem, s: Shape, key: string, b: nat, i: nat)
    requires Wf(h, capacity, m, s) && b < |s.chains| && i < |s.chains[b]|
    ensures var e := s.chains[b][i];
            && e < |m.slab| && Sound(m.slab[e], m.heap) && m.slab[e].next == At(s.chains[b], i + 1)
            && (m.slab[e].hash == h(key) % U32 && m.slab[e].keyLen == |key| && Key(m.slab[e], m.heap) == key <==>
                  key in s.index && s.index[key] == e)
  {
    Met(h, capacity, m, s, b, i);
  }

  /** A fresh entry: key and value copied into the inline bytes, or into a new block when
      they do not fit there. */
  method MakeEntry(heap: Heap, key: string, value: string, h32: nat, next: Ptr) returns (entry: Entry, heap': Heap)
    requires |key| + |value| < U32
    ensures entry == Entry(next, NO_EXPIRY, h32, 0, |key|, |value|, entry.buf)
    ensures HeapFor(entry, heap, heap') && Sound(entry, heap') && Key(entry, heap') == key
    ensures Value(entry, heap') == value
  {
    var keyLen, valLen := |key| % U32, |value| % U32;
    heap' := heap;
    var bytes := Zeros(if keyLen + valLen > INLINE_CAP then keyLen + valLen else INLINE_CAP);
    FilledReadsBack(bytes, key, value);
    bytes := CopyAt(bytes, 0, key);
    bytes := CopyAt(bytes, keyLen, value);
    if keyLen + valLen > INLINE_CAP {
      FreshAddress(heap);
      var a: nat :| a !in heap;
      heap' := heap[a := bytes];
      entry := Entry(next, NO_EXPIRY, h32, 0, keyLen, valLen, BufPtr(a));
    } else {
      entry := Entry(next, NO_EXPIRY, h32, 0, keyLen, valLen, InlineBuf(bytes));
    }
  }

  /** Pops each entry off its old chain and pushes it onto the new bucket its hash selects. */
  method Relink(buckets: seq<Ptr>, slab0: seq<Entry>, newBucketCount: nat, ghost chains: seq<seq<nat>>,
                ghost members: set<nat>)
    returns (next: seq<Ptr>, slab: seq<Entry>, ghost grown: seq<seq<nat>>)
    requires |buckets| > 0 && newBucketCount > 0 && Chained(slab0, buckets, chains) && Placed(slab0, chains, members)
    ensures |next| == newBucketCount && Chained(slab, next, grown) && Placed(slab, grown, members)
    ensures |slab| == |slab0| && forall e :: 0 <= e < |slab| ==> slab[e].(next := Null) == slab0[e].(next := Null)
  {
    slab, next, grown := slab0, seq(newBucketCount, _ => Null), seq(newBucketCount, _ => []);
    ghost var done: set<nat> := {};
    forall b | 0 <= b < |buckets| ensures Linked(slab, buckets[b], chains[b]) {
      assert ChainAt(slab, buckets, chains, b);
    }
    for i := 0 to |buckets|
      invariant Moving(slab0, buckets, chains, i, slab, next, grown, done)
      invariant |next| == newBucketCount && MovedUpTo(chains, i, 0, done) && done <= members
    {
      assert ChainAt(slab0, buckets, chains, i);
      var p := buckets[i];
      ghost var c, j := chains[i], 0;
      assert Linked(slab, p, c);
      while p.Ref?
        invariant 0 <= j <= |c| && p == At(c, j)
        invariant forall t :: j <= t < |c| ==> LinkAt(slab, c, t)
        invariant Moving(slab0, buckets, chains, i + 1, slab, next, grown, done)
        invariant |next| == newBucketCount && MovedUpTo(chains, i, j, done) && done <= members
        decreases |c| - j
      {
        var e := p.block;
        assert LinkAt(slab, c, j) && InBucket(slab0, chains, members, i, j);
        MoveOne(slab0, buckets, chains, members, i, j, slab, next, grown, done);
        ghost var before := slab;
        var after := slab[e].next;
        var b := Masked(slab[e].hash, newBucketCount);
        slab := slab[e := slab[e].(next := next[b])];
        next := next[b := Ref(e)];
        grown, done := grown[b := [e] + grown[b]], done + {e};
        p := after;
        j := j + 1;
        forall t | j <= t < |c| ensures LinkAt(slab, c, t) {
          assert LinkAt(before, c, t);
        }
      }
    }
    AllMoved(slab0, chains, members, grown, done);
  }

  /** Moves the key and a value to a new spill block and gives back the old one. */
  method MoveOut(heap: Heap, x: Entry, value: string) returns (y: Entry, heap': Heap)
    requires Sound(x, heap) && INLINE_CAP < x.keyLen + |value| < U32
    ensures y == x.(buf := y.buf)
    ensures var z := y.(valLen := |value|);
            Sound(z, heap') && Key(z, heap') == Key(x, heap) && Value(z, heap') == value && Repayload(x, heap, z, heap')
  {
    FreshAddress(heap);
    var a: nat :| a !in heap;
    var key := Key(x, heap);
    var room := Zeros(x.keyLen + |value|);
    FilledReadsBack(room, key, value);
    heap' := heap[a := CopyAt(CopyAt(room, 0, key), x.keyLen, value)];
    y := x.(buf := BufPtr(a));
    if Spilled(x) {
      heap' := heap' - {x.buf.addr};
    }
  }

  /** Moves the key and a value from a spill block, which is given back, to the inline bytes. */
  method MoveIn(heap: Heap, x: Entry, value: string) returns (y: Entry, heap': Heap)
    requires Sound(x, heap) && Spilled(x) && x.keyLen + |value| <= INLINE_CAP
    ensures y == x.(buf := y.buf)
    ensures var z := y.(valLen := |value|);
            Sound(z, heap') && Key(z, heap') == Key(x, heap) && Value(z, heap') == value && Repayload(x, heap, z, heap')
  {
    var key, room := Key(x, heap), Zeros(INLINE_CAP);
    FilledReadsBack(room, key, value);
    y := x.(buf := InlineBuf(CopyAt(CopyAt(room, 0, key), x.keyLen, value)));
    heap' := heap - {x.buf.addr};
  }

  /** Writes a value behind the key, where there is room for it. */
  method WriteOver(heap: Heap, x: Entry, value: string) returns (y: Entry, heap': Heap)
    requires Sound(x, heap) && x.keyLen + |value| < U32
    requires if Spilled(x) then x.keyLen + |value| > INLINE_CAP && |value| <= x.valLen
             else x.keyLen + |value| <= INLINE_CAP
    ensures y == x.(buf := y.buf)
    ensures var z := y.(valLen := |value|);
            Sound(z, heap') && Key(z, heap') == Key(x, heap) && Value(z, heap') == value && Repayload(x, heap, z, heap')
  {
    y, heap' := x, heap;
    if Spilled(x) {
      heap' := heap[x.buf.addr := CopyAt(heap[x.buf.addr], x.keyLen, value)];
    } else {
      y := x.(buf := InlineBuf(CopyAt(x.buf.bytes, x.keyLen, value)));
    }
  }

  /** Moves a value in, crossing between inline bytes and a spill block either way. The spill
      block is reused when the value does not grow; otherwise the key moves with it. */
  method Reassign(heap: Heap, x: Entry, value: string) returns (y: Entry, heap': Heap)
    requires Sound(x, heap) && x.keyLen + |value| < U32
    ensures Sound(y, heap') && Key(y, heap') == Key(x, heap) && Value(y, heap') == value
    ensures y.expiresAtMs == x.expiresAtMs && y.lruClock == x.lruClock
    ensures Repayload(x, heap, y, heap')
  {
    var valLen := |value| % U32;
    var wasSpilled := Spilled(x);
    var willSpill := (x.keyLen + valLen) % U32 > INLINE_CAP;
    if willSpill && (!wasSpilled || valLen > x.valLen) {
      y, heap' := MoveOut(heap, x, value);
    } else if !willSpill && wasSpilled {
      y, heap' := MoveIn(heap, x, value);
    } else {
      y, heap' := WriteOver(heap, x, value);
    }
    y := y.(valLen := valLen);
  }

  /** Takes block `e` out of the list of bucket `b`: the head moves on when `e` is first, and
      otherwise the block before it takes over its link. */
  method Unlink(buckets: seq<Ptr>, slab: seq<Entry>, b: nat, e: nat, ghost c: seq<nat>)
    returns (buckets': seq<Ptr>, slab': seq<Entry>, ghost at: nat)
    requires b < |buckets| && Linked(slab, buckets[b], c) && e in c
    ensures at < |c| && c[at] == e < |slab| && Unlinked(slab, buckets, c, b, at, slab', buckets')
  {
    buckets', slab', at := buckets, slab, 0;
    ghost var pos :| 0 <= pos < |c| && c[pos] == e;
    var prev, link := Null, buckets[b];
    while link != Ref(e)
      invariant 0 <= at <= pos && link == At(c, at)
      invariant at == 0 ==> prev == Null
      invariant at > 0 ==> prev == Ref(c[at - 1])
      decreases |c| - at
    {
      assert LinkAt(slab, c, at);
      prev := link;
      link := slab[link.block].next;
      at := at + 1;
    }
    assert LinkAt(slab, c, at);
    if prev == Null {
      buckets' := buckets[b := slab[e].next];
    } else {
      assert LinkAt(slab, c, at - 1);
      slab' := slab[prev.block := slab[prev.block].(next := slab[e].next)];
    }
  }

  /** The blocks still allocated are those of entries not in `done`. */
  ghost predicate OwnedBeyond(owner: map<nat, nat>, done: set<nat>, heap: Heap) {
    forall a :: a in heap <==> a in owner && owner[a] !in done
  }

  lemma FreeStep(slab: seq<Entry>, all: Heap, keyOf: map<nat, string>, owner: map<nat, nat>, heap: Heap, done: set<nat>,
                 e: nat)
    requires Owned(slab, all, keyOf, owner) && Owns(slab, owner, e) && OwnedBeyond(owner, done, heap)
    ensures OwnedBeyond(owner, done + {e}, heap - Freed(slab, e))
  {
    forall a | a in owner && owner[a] == e ensures a in Freed(slab, e) {
      assert HasOwner(slab, keyOf, owner, a);
    }
  }

  /** The entries before element `j` of chain `i` are free again, and so are their spill blocks. */
  ghost predicate FreedUpTo(m: Mem, s: Shape, i: nat, j: nat, done: set<nat>, free: set<nat>, heap: Heap) {
    MovedUpTo(s.chains, i, j, done) && done <= s.keyOf.Keys && free == m.free + done && OwnedBeyond(s.owner, done, heap)
  }

  lemma FreeOne(h: string -> nat, capacity: nat, m: Mem, s: Shape, i: nat, j: nat, done: set<nat>, free: set<nat>,
                heap: Heap)
    requires Wf(h, capacity, m, s) && i < |s.chains| && j < |s.chains[i]| && FreedUpTo(m, s, i, j, done, free, heap)
    ensures var e := s.chains[i][j];
            && e < |m.slab| && m.slab[e].next == At(s.chains[i], j + 1) && Owns(m.slab, s.owner, e)
            && FreedUpTo(m, s, i, j + 1, done + {e}, free + {e}, heap - Freed(m.slab, e))
  {
    var e := s.chains[i][j];
    Met(h, capacity, m, s, i, j);
    assert ChainAt(m.slab, m.buckets, s.chains, i) && Owns(m.slab, s.owner, e);
    MovedStep(m.slab, s.chains, s.keyOf.Keys, i, j, done);
    FreeStep(m.slab, m.heap, s.keyOf, s.owner, heap, done, e);
    UnionAssoc(m.free, done, e);
  }

  /** Frees one chain. */
  method FreeChain(ghost h: string -> nat, ghost capacity: nat, m: Mem, ghost s: Shape, i: nat, free: set<nat>,
                   heap: Heap, ghost done: set<nat>)
    returns (free': set<nat>, heap': Heap, ghost done': set<nat>)
    requires Wf(h, capacity, m, s) && i < |m.buckets| && FreedUpTo(m, s, i, 0, done, free, heap)
    ensures FreedUpTo(m, s, i + 1, 0, done', free', heap')
  {
    free', heap', done' := free, heap, done;
    assert ChainAt(m.slab, m.buckets, s.chains, i);
    var p := m.buckets[i];
    ghost var j := 0;
    while p.Ref?
      invariant 0 <= j <= |s.chains[i]| && p == At(s.chains[i], j)
      invariant FreedUpTo(m, s, i, j, done', free', heap')
      decreases |s.chains[i]| - j
    {
      var e := p.block;
      FreeOne(h, capacity, m, s, i, j, done', free', heap');
      p := m.slab[e].next;
      if Spilled(m.slab[e]) {
        heap' := heap' - {m.slab[e].buf.addr};
      }
      free', done', j := free' + {e}, done' + {e}, j + 1;
    }
  }

  /** Deletes every spill block and hands every block back to the pool, chain by chain. */
  method FreeAll(ghost h: string -> nat, ghost capacity: nat, m: Mem, ghost s: Shape)
    returns (free: set<nat>, heap: Heap)
    requires Wf(h, capacity, m, s)
    ensures free == Blocks(capacity) && heap == map[]
  {
    free, heap := m.free, m.heap;
    ghost var done: set<nat> := {};
    for i := 0 to |m.buckets|
      invariant FreedUpTo(m, s, i, 0, done, free, heap)
    {
      free, heap, done := FreeChain(h, capacity, m, s, i, free, heap, done);
    }
    AllFreed(h, capacity, m, s, done, heap);
  }

  lemma UnionAssoc(a: set<nat>, b: set<nat>, e: nat)
    ensures (a + b) + {e} == a + (b + {e})
  {
  }

  lemma AllFreed(h: string -> nat, capacity: nat, m: Mem, s: Shape, done: set<nat>, heap: Heap)
    requires Wf(h, capacity, m, s) && MovedUpTo(s.chains, |s.chains|, 0, done) && done <= s.keyOf.Keys
    requires OwnedBeyond(s.owner, done, heap)
    ensures m.free + done == Blocks(capacity) && heap == map[]
  {
    AllMoved(m.slab, s.chains, s.keyOf.Keys, s.chains, done);
    forall a | a in s.owner ensures a !in heap {
      assert HasOwner(m.slab, s.keyOf, s.owner, a);
    }
    forall e | e in done ensures e < capacity {
      assert Stored(h, m.slab, m.heap, s.keyOf, e);
    }
    WholePool(m.free, done, capacity);
  }

  /** Free and stored blocks, disjoint and as many as the pool has, are all its blocks. */
  lemma WholePool(free: set<nat>, members: set<nat>, capacity: nat)
    requires forall e :: e in free ==> e < capacity && e !in members
    requires forall e :: e in members ==> e < capacity
    requires |free| + |members| == capacity
    ensures free + members == Blocks(capacity)
  {
    var all := Blocks(capacity);
    assert |free + members| == |free| + |members|;
    Subset(free + members, all);
  }

  lemma Subset(a: set<nat>, b: set<nat>)
    requires a <= b && |a| == |b|
    ensures a == b
  {
    assert |b - a| == |b| - |a|;
  }

  /** The entries of `budget` consecutive buckets from `idx` on, wrapping past the last. */
  ghost function Walk(chains: seq<seq<nat>>, idx: nat, budget: nat): seq<nat>
    requires idx < |chains|
    decreases budget
  {
    if budget == 0 then [] else chains[idx] + Walk(chains, Masked(idx + 1, |chains|), budget - 1)
  }

  /** Appends a chain's entries until there are `n`. */
  method CollectChain(slab: seq<Entry>, head: Ptr, sofar: seq<nat>, n: nat, ghost c: seq<nat>) returns (out: seq<nat>)
    requires Linked(slab, head, c) && |sofar| <= n
    ensures out == (sofar + c)[..Min(n, |sofar + c|)]
  {
    out := sofar;
    var p := head;
    ghost var i := 0;
    while p.Ref? && |out| < n
      invariant 0 <= i <= |c| && p == At(c, i) && |out| == |sofar| + i <= n
      invariant out == sofar + c[..i]
      decreases |c| - i
    {
      assert LinkAt(slab, c, i);
      out := out + [p.block];
      p := slab[p.block].next;
      i := i + 1;
    }
  }

  /** Takes the first `n` entries of a walk. */
  method Collect(buckets: seq<Ptr>, slab: seq<Entry>, start: nat, budget: nat, n: nat, ghost chains: seq<seq<nat>>)
    returns (out: seq<nat>)
    requires Chained(slab, buckets, chains) && start < |buckets| && n > 0
    ensures var w := Walk(chains, start, budget); out == w[..Min(n, |w|)]
  {
    out := [];
    var idx: nat, step: nat := start, 0;
    ghost var w := Walk(chains, start, budget);
    while step < budget && |out| < n
      invariant 0 <= step <= budget && idx < |buckets| && |out| <= n
      invariant if |out| < n then out + Walk(chains, idx, budget - step) == w else out <= w
    {
      assert ChainAt(slab, buckets, chains, idx);
      ghost var rest := Walk(chains, Masked(idx + 1, |chains|), budget - step - 1);
      TakeMore(out, chains[idx], rest, n);
      out := CollectChain(slab, buckets[idx], out, n, chains[idx]);
      idx := Masked(idx + 1, |buckets|);
      step := step + 1;
    }
  }

  lemma TakeMore(out: seq<nat>, c: seq<nat>, rest: seq<nat>, n: nat)
    requires |out| < n
    ensures var w := out + (c + rest);
            var taken := (out + c)[..Min(n, |out + c|)];
            if |taken| < n then taken + rest == w else taken <= w
  {
    var w := out + (c + rest);
    assert w == (out + c) + rest;
  }

  /** What is left of the chain being scanned is still chained, in the same order. */
  ghost predicate Ahead(s: Shape, keyOf: map<nat, string>, b: nat, c: seq<nat>, t: nat) {
    && b < |s.chains| && t <= |c|
    && |c| - t <= |s.chains[b]|
    && s.chains[b][|s.chains[b]| - |c| + t..] == c[t..]
    && (forall u :: t <= u < |c| ==> c[u] in keyOf && c[u] in s.keyOf && s.keyOf[c[u]] == keyOf[c[u]])
  }

  /** The keys of the first `t` entries of `c`. */
  ghost function KeysUpTo(keyOf: map<nat, string>, c: seq<nat>, t: nat): set<string>
    requires t <= |c|
  {
    if t == 0 then {} else KeysUpTo(keyOf, c, t - 1) + (if c[t - 1] in keyOf then {keyOf[c[t - 1]]} else {})
  }

  lemma {:induction false} KeysUpToHas(keyOf: map<nat, string>, c: seq<nat>, t: nat, k: string)
    requires t <= |c|
    ensures k in KeysUpTo(keyOf, c, t) <==> exists u :: 0 <= u < t && c[u] in keyOf && keyOf[c[u]] == k
  {
    if t > 0 {
      KeysUpToHas(keyOf, c, t - 1, k);
    }
  }

  lemma {:induction false} KeysUpToSize(keyOf: map<nat, string>, index: map<string, nat>, c: seq<nat>, t: nat)
    requires Paired(keyOf, index) && Distinct(c) && t <= |c| && forall e :: e in c ==> e in keyOf
    ensures |KeysUpTo(keyOf, c, t)| == t
  {
    if t > 0 {
      KeysUpToSize(keyOf, index, c, t - 1);
      NotSeen(keyOf, index, c, t - 1);
    }
  }

  /** Distinct entries have distinct keys. */
  lemma NotSeen(keyOf: map<nat, string>, index: map<string, nat>, c: seq<nat>, t: nat)
    requires Paired(keyOf, index) && Distinct(c) && t < |c| && forall e :: e in c ==> e in keyOf
    ensures c[t] in keyOf && keyOf[c[t]] !in KeysUpTo(keyOf, c, t)
  {
    assert c[t] in c;
    KeysUpToHas(keyOf, c, t, keyOf[c[t]]);
    forall u | 0 <= u < t ensures keyOf[c[u]] != keyOf[c[t]] {
      assert c[u] in c && c[u] != c[t];
    }
  }

  lemma AheadHere(h: string -> nat, capacity: nat, m: Mem, s: Shape, keyOf: map<nat, string>, b: nat, c: seq<nat>,
                  t: nat)
    requires Wf(h, capacity, m, s) && t < |c| && Ahead(s, keyOf, b, c, t)
    ensures Stored(h, m.slab, m.heap, s.keyOf, c[t]) && m.slab[c[t]].next == At(c, t + 1)
    ensures keyOf[c[t]] in s.index && s.index[keyOf[c[t]]] == c[t]
    ensures Masked(m.slab[c[t]].hash, |m.buckets|) == b && Distinct(s.chains[b])
    ensures Ahead(s, keyOf, b, c, t + 1)
  {
    var d := s.chains[b];
    var pos := |d| - |c| + t;
    assert d[pos..][0] == c[t..][0];
    assert ChainAt(m.slab, m.buckets, s.chains, b) && LinkAt(m.slab, d, pos);
    assert InBucket(m.slab, s.chains, s.keyOf.Keys, b, pos) && Stored(h, m.slab, m.heap, s.keyOf, c[t]);
    assert d[pos + 1..] == d[pos..][1..] == c[t..][1..] == c[t + 1..];
    if t + 1 < |c| {
      assert d[pos + 1..][0] == c[t + 1..][0];
    }
  }

  lemma AheadRemoved(s: Shape, s': Shape, keyOf: map<nat, string>, b: nat, c: seq<nat>, t: nat, at: nat)
    requires t < |c| && Ahead(s, keyOf, b, c, t) && Distinct(s.chains[b]) && Distinct(c)
    requires at < |s.chains[b]| && s.chains[b][at] == c[t] && s'.chains == s.chains[b := Without(s.chains[b], at)]
    requires s'.keyOf == s.keyOf - {c[t]}
    ensures Ahead(s', keyOf, b, c, t + 1)
  {
    var d, d' := s.chains[b], s'.chains[b];
    var pos := |d| - |c| + t;
    assert d[pos..][0] == c[t..][0];
    assert at == pos;
    assert d'[pos..] == d[pos + 1..] == d[pos..][1..] == c[t..][1..] == c[t + 1..];
  }

  /** `s` lists the keys and records of `s0` less the `count` keys `gone`. */
  ghost predicate Reaped(s0: Shape, gone: set<string>, s: Shape, count: nat) {
    && s == Shape(s.chains, s.keyOf, s0.index - gone, s.owner, s0.contents - gone)
    && count == |gone|
  }

  lemma NothingReaped(s: Shape, drop: Rec -> bool)
    ensures Reaped(s, Dropped(s.contents, {}, drop), s, 0)
  {
    assert Dropped(s.contents, {}, drop) == {};
    assert s.contents - {} == s.contents && s.index - {} == s.index;
  }

  lemma DroppedStep(m: map<string, Rec>, seen: set<string>, key: string, drop: Rec -> bool)
    requires key in m && key !in seen
    ensures key !in Dropped(m, seen, drop)
    ensures Dropped(m, seen + {key}, drop) == Dropped(m, seen, drop) + (if drop(m[key]) then {key} else {})
  {
  }

  /** An entry whose key has not been reaped is still where it was, with its record. */
  lemma StillStored(s0: Shape, gone: set<string>, s: Shape, count: nat, e: nat)
    requires Paired(s0.keyOf, s0.index) && s0.contents.Keys == s0.index.Keys && Paired(s.keyOf, s.index)
    requires Reaped(s0, gone, s, count)
    requires e in s0.keyOf && s0.keyOf[e] !in gone
    ensures HasRecord(s0, e) && HasRecord(s, e) && s.keyOf[e] == s0.keyOf[e] && RecordOf(s, e) == RecordOf(s0, e)
  {
    assert s0.keyOf[e] in s.index;
  }

  /** The keys reaped once the first `t` entries of `c` have been visited. */
  ghost function ReapedKeys(s0: Shape, c: seq<nat>, t: nat, drop: Rec -> bool): set<string>
    requires t <= |c|
  {
    Dropped(s0.contents, KeysUpTo(s0.keyOf, c, t), drop)
  }

  /** One more entry met, and removed or kept. */
  lemma ScanStep(s0: Shape, c: seq<nat>, t: nat, drop: Rec -> bool, s: Shape, s': Shape, count: nat, removed: bool)
    requires Paired(s0.keyOf, s0.index) && s0.contents.Keys == s0.index.Keys && Paired(s.keyOf, s.index)
    requires Distinct(c) && t < |c| && (forall e :: e in c ==> e in s0.keyOf)
    requires Reaped(s0, ReapedKeys(s0, c, t, drop), s, count)
    requires HasRecord(s, c[t]) && removed == drop(RecordOf(s, c[t]))
    requires s' == if removed then WithoutEntry(s, c[t]).(chains := s'.chains, owner := s'.owner) else s
    ensures Reaped(s0, ReapedKeys(s0, c, t + 1, drop), s', if removed then count + 1 else count)
  {
    NotSeen(s0.keyOf, s0.index, c, t);
    var key, gone := s0.keyOf[c[t]], ReapedKeys(s0, c, t, drop);
    assert key in s0.index;
    DroppedStep(s0.contents, KeysUpTo(s0.keyOf, c, t), key, drop);
    StillStored(s0, gone, s, count, c[t]);
    ReapStep(s0, gone, s, s', count, c[t], removed);
  }

  /** The entry met is one not handed over before. */
  lemma HandedStep(s0: Shape, c: seq<nat>, t: nat, handed: seq<string>, key: string)
    requires Paired(s0.keyOf, s0.index) && Distinct(c) && t < |c| && (forall e :: e in c ==> e in s0.keyOf)
    requires multiset(handed) == multiset(KeysUpTo(s0.keyOf, c, t)) && c[t] in s0.keyOf && key == s0.keyOf[c[t]]
    ensures multiset(handed + [key]) == multiset(KeysUpTo(s0.keyOf, c, t + 1))
  {
    NotSeen(s0.keyOf, s0.index, c, t);
  }

  lemma ReapStep(s0: Shape, gone: set<string>, s: Shape, s': Shape, count: nat, e: nat, removed: bool)
    requires Reaped(s0, gone, s, count) && e in s.keyOf && s.keyOf[e] !in gone
    requires s' == if removed then WithoutEntry(s, e).(chains := s'.chains, owner := s'.owner) else s
    ensures Reaped(s0, gone + (if removed then {s.keyOf[e]} else {}), s', if removed then count + 1 else count)
  {
    var key := s.keyOf[e];
    if removed {
      assert s.index - {key} == s0.index - (gone + {key});
      assert s.contents - {key} == s0.contents - (gone + {key});
    } else {
      assert gone + {} == gone;
    }
  }

  lemma ScanStart(h: string -> nat, capacity: nat, m: Mem, s: Shape, b: nat)
    requires Wf(h, capacity, m, s) && b < |m.buckets|
    ensures Linked(m.slab, m.buckets[b], s.chains[b]) && Distinct(s.chains[b])
    ensures Ahead(s, s.keyOf, b, s.chains[b], 0) && forall e :: e in s.chains[b] ==> e in s.keyOf
  {
    assert ChainAt(m.slab, m.buckets, s.chains, b);
    forall u | 0 <= u < |s.chains[b]| ensures s.chains[b][u] in s.keyOf {
      assert InBucket(m.slab, s.chains, s.keyOf.Keys, b, u);
    }
  }

  /** A chain walked to its end has met exactly the keys of its bucket. */
  lemma ScanEnd(h: string -> nat, capacity: nat, m: Mem, s: Shape, cursor: nat)
    requires Wf(h, capacity, m, s)
    ensures var c := s.chains[Masked(cursor, |m.buckets|)];
            KeysUpTo(s.keyOf, c, |c|) == KeysAt(h, s.contents.Keys, |m.buckets|, cursor)
            && |KeysUpTo(s.keyOf, c, |c|)| == |c|
  {
    var b := Masked(cursor, |m.buckets|);
    var c := s.chains[b];
    ScanStart(h, capacity, m, s, b);
    KeysUpToSize(s.keyOf, s.index, c, |c|);
    forall k ensures k in KeysUpTo(s.keyOf, c, |c|) <==> k in KeysAt(h, s.contents.Keys, |m.buckets|, cursor) {
      ChainHasKey(h, capacity, m, s, b, k);
    }
  }

  lemma ChainHasKey(h: string -> nat, capacity: nat, m: Mem, s: Shape, b: nat, k: string)
    requires Wf(h, capacity, m, s) && b < |m.buckets|
    ensures k in KeysUpTo(s.keyOf, s.chains[b], |s.chains[b]|) <==>
              k in s.contents && Masked(h(k) % U32, |m.buckets|) == b
  {
    var c := s.chains[b];
    KeysUpToHas(s.keyOf, c, |c|, k);
    if k in KeysUpTo(s.keyOf, c, |c|) {
      var u :| 0 <= u < |c| && c[u] in s.keyOf && s.keyOf[c[u]] == k;
      assert InBucket(m.slab, s.chains, s.keyOf.Keys, b, u) && Stored(h, m.slab, m.heap, s.keyOf, c[u]);
    }
    if k in s.contents && Masked(h(k) % U32, |m.buckets|) == b {
      var e := s.index[k];
      assert Stored(h, m.slab, m.heap, s.keyOf, e) && HasBucket(m.slab, s.chains, e);
      var u :| 0 <= u < |c| && c[u] == e;
    }
  }

  /** A table with no entries and every block free. */
  lemma EmptyWf(h: string -> nat, capacity: nat, n: nat, m: Mem, s: Shape)
    requires IsPow2(n) && |m.slab| == capacity && m.free == Blocks(capacity) && m.heap == map[] && m.live == 0
    requires |m.buckets| == n == |s.chains|
    requires forall b :: 0 <= b < n ==> m.buckets[b] == Null && s.chains[b] == []
    requires s.keyOf == map[] && s.index == map[] && s.owner == map[] && s.contents == map[]
    ensures Wf(h, capacity, m, s)
  {
  }

  class Table {
    const hashOf: string -> nat
    const capacity: nat
    var mem: Mem
    ghost var shape: Shape

    ghost predicate Valid()
      reads this
    {
      Wf(hashOf, capacity, mem, shape) && MIN_BUCKETS <= |mem.buckets| && mem.live <= |mem.buckets|
    }

    /** The key/record map the table stands for. */
    ghost function Contents(): map<string, Rec>
      reads this
    {
      shape.contents
    }

    function BucketCount(): nat
      reads this
    {
      |mem.buckets|
    }

    constructor (initialBuckets: nat, hashOf: string -> nat, capacity: nat)
      ensures Valid()
      ensures this.hashOf == hashOf && this.capacity == capacity
      ensures BucketCount() == Max(MIN_BUCKETS, NextPow2(initialBuckets))
      ensures Contents() == map[] && shape.index == map[]
    {
      this.hashOf, this.capacity := hashOf, capacity;
      var n := Max(MIN_BUCKETS, NextPow2(initialBuckets));
      var blank := Entry(Null, NO_EXPIRY, 0, 0, 0, 0, InlineBuf(""));
      mem := Mem(seq(n, _ => Null), seq(capacity, _ => blank), Blocks(capacity), map[], 0);
      shape := Shape(seq(n, _ => []), map[], map[], map[], map[]);
      new;
      assert IsPow2(2) && IsPow2(4);
      EmptyWf(hashOf, capacity, n, mem, shape);
    }

    function BucketOf(h: nat): (b: nat)
      requires |mem.buckets| > 0
      reads this
      ensures b < |mem.buckets|
    {
      Masked(h, |mem.buckets|)
    }

    method Find(key: string) returns (p: Ptr)
      requires Valid()
      ensures p == if key in shape.index then Ref(shape.index[key]) else Null
    {
      var h32 := hashOf(key) % U32;
      var b := BucketOf(h32);
      ghost var i := 0;
      ghost var pos := Sought(hashOf, capacity, mem, shape, key);
      assert ChainAt(mem.slab, mem.buckets, shape.chains, b);
      p := mem.buckets[b];
      while p.Ref?
        invariant 0 <= i && p == At(shape.chains[b], i) && (i <= pos || key !in shape.index)
        decreases |shape.chains[b]| - i
      {
        Probe(hashOf, capacity, mem, shape, key, b, i);
        var e := mem.slab[p.block];
        if e.hash == h32 && e.keyLen == |key| && Key(e, mem.heap) == key {
          return;
        }
        p := e.next;
        i := i + 1;
      }
    }

    /** What the entry in block `e` holds. */
    function Record(e: nat): (r: Rec)
      requires Valid() && e in shape.keyOf
      reads this
      ensures HasRecord(shape, e) && r == RecordOf(shape, e)
    {
      assert Stored(hashOf, mem.slab, mem.heap, shape.keyOf, e) && shape.keyOf[e] in shape.index;
      assert ShownAt(mem.slab, mem.heap, shape.index, shape.contents, shape.keyOf[e]);
      RecOf(mem.slab[e], mem.heap)
    }

    /** Puts a fresh entry at the front of its bucket. */
    method Link(ghost key: string, e: nat, entry: Entry, heap: Heap)
      requires Valid() && key !in shape.index && e in mem.free
      requires HeapFor(entry, mem.heap, heap) && Sound(entry, heap) && Key(entry, heap) == key
      requires entry.hash == hashOf(key) % U32 && entry.next == mem.buckets[BucketOf(entry.hash)]
      modifies this
      ensures Wf(hashOf, capacity, mem, shape) && |mem.buckets| == |old(mem.buckets)| && mem.live == old(mem.live) + 1
      ensures shape == WithEntry(old(shape), e, key, RecOf(entry, heap)).(chains := shape.chains, owner := shape.owner)
    {
      InsertWf(hashOf, capacity, mem, shape, key, e, entry, heap);
      shape := LinkedShape(shape, key, e, entry, heap);
      mem := Linking(mem, e, entry, heap);
    }

    /** Adds a record for an absent key; null, and nothing changed, when the pool is empty. */
    method Insert(key: string, value: string) returns (p: Ptr)
      requires Valid() && key !in shape.index && |key| + |value| < U32
      modifies this
      ensures Valid()
      ensures |old(shape.index)| == capacity ==> p == Null && mem == old(mem) && shape == old(shape)
      ensures |old(shape.index)| < capacity ==>
                p.Ref? && shape == WithEntry(old(shape), p.block, key,
                                             Rec(value, NO_EXPIRY, 0)).(chains := shape.chains, owner := shape.owner)
      ensures BucketCount() == Grown(|shape.index|, old(BucketCount()))
    {
      var h32 := hashOf(key) % U32;
      var entry, heap := MakeEntry(mem.heap, key, value, h32, mem.buckets[BucketOf(h32)]);
      if mem.free == {} {
        // The block just made is deleted again: the heap is as it was.
        return Null;
      }
      var e :| e in mem.free;
      Link(key, e, entry, heap);
      p := Ref(e);
      if mem.live > |mem.buckets| {
        assert (2 * |mem.buckets|) / 2 == |mem.buckets|;
        Rehash(2 * |mem.buckets|);
      }
    }

    /** Relinks every entry into `newBucketCount` buckets. Blocks stay where they are. */
    method Rehash(newBucketCount: nat)
      requires Wf(hashOf, capacity, mem, shape)
      requires IsPow2(newBucketCount) && newBucketCount >= |mem.buckets|
      modifies this
      ensures Wf(hashOf, capacity, mem, shape)
      ensures |mem.buckets| == newBucketCount
      ensures shape == old(shape).(chains := shape.chains)
      ensures mem == old(mem).(buckets := mem.buckets, slab := mem.slab)
    {
      var next, slab;
      ghost var grown;
      next, slab, grown := Relink(mem.buckets, mem.slab, newBucketCount, shape.chains, shape.keyOf.Keys);
      RelinkedWf(hashOf, capacity, mem, shape, next, slab, grown);
      mem := mem.(buckets := next, slab := slab);
      shape := shape.(chains := grown);
    }

    /** Frees entry `e`: its block, and its spill block when it has one. `at` is its position
        in the chain it leaves. */
    method Remove(e: nat) returns (ghost at: nat)
      requires Valid() && e in shape.keyOf
      modifies this
      ensures Valid()
      ensures shape == WithoutEntry(old(shape), e).(chains := shape.chains, owner := shape.owner)
      ensures |mem.buckets| == |old(mem.buckets)|
      ensures e < |old(mem.slab)|
      ensures var b := Masked(old(mem.slab)[e].hash, |old(mem.buckets)|);
              b < |old(shape.chains)| && at < |old(shape.chains)[b]| && old(shape.chains)[b][at] == e
              && shape.chains == old(shape.chains)[b := Without(old(shape.chains)[b], at)]
    {
      at := Home(hashOf, capacity, mem, shape, e);
      var b := BucketOf(mem.slab[e].hash);
      var buckets, slab;
      buckets, slab, at := Unlink(mem.buckets, mem.slab, b, e, shape.chains[b]);
      RemoveWf(hashOf, capacity, mem, shape, b, at, buckets, slab);
      shape := RemovedShape(mem, shape, b, at);
      mem := Removing(mem, e, buckets, slab);
    }

    /** A new value in place. */
    method Assign(e: nat, value: string)
      requires Valid() && e in shape.keyOf && |shape.keyOf[e]| + |value| < U32
      modifies this
      ensures Valid()
      ensures HasRecord(old(shape), e) && mem.buckets == old(mem.buckets)
      ensures shape == WithRecord(old(shape), e, RecordOf(old(shape), e).(value := value)).(owner := shape.owner)
    {
      ghost var r := Record(e);
      assert Stored(hashOf, mem.slab, mem.heap, shape.keyOf, e);
      var entry, heap := Reassign(mem.heap, mem.slab[e], value);
      UpdateWf(hashOf, capacity, mem, shape, e, entry, heap);
      shape := UpdatedShape(mem, shape, e, entry, heap);
      mem := mem.(slab := mem.slab[e := entry], heap := heap);
    }

    /** Writes an entry's deadline and LRU clock. */
    method Stamp(e: nat, expiresAtMs: int, lruClock: nat)
      requires Valid() && e in shape.keyOf && lruClock < U32
      modifies this
      ensures Valid()
      ensures HasRecord(old(shape), e) && mem.buckets == old(mem.buckets)
      ensures shape == WithRecord(old(shape), e, Rec(RecordOf(old(shape), e).value, expiresAtMs, lruClock))
    {
      assert Stored(hashOf, mem.slab, mem.heap, shape.keyOf, e);
      StampWf(hashOf, capacity, mem, shape, e, expiresAtMs, lruClock);
      shape := WithRecord(shape, e, Rec(RecordOf(shape, e).value, expiresAtMs, lruClock));
      mem := mem.(slab := mem.slab[e := mem.slab[e].(expiresAtMs := expiresAtMs, lruClock := lruClock)]);
    }

    /** Frees every entry; no spill block is left allocated. */
    method Clear()
      requires Valid()
      modifies this
      ensures Valid()
      ensures Contents() == map[] && shape.index == map[] && mem.heap == map[]
      ensures |mem.buckets| == |old(mem.buckets)| && mem.free == Blocks(capacity)
    {
      var n := |mem.buckets|;
      var free, heap := FreeAll(hashOf, capacity, mem, shape);
      mem := Mem(seq(n, _ => Null), mem.slab, free, heap, 0);
      shape := Shape(seq(n, _ => []), map[], map[], map[], map[]);
      EmptyWf(hashOf, capacity, n, mem, shape);
    }

    /** Entries met walking whole buckets from a random one, up to `n` of them or 10n buckets. */
    method SampleSome(n: nat, rng: Word) returns (out: seq<nat>, rng': Word)
      requires Valid()
      ensures mem.live == 0 || n == 0 ==> out == [] && rng' == rng
      ensures mem.live > 0 && n > 0 ==>
                var w := Walk(shape.chains, Masked(Mix(Advance(rng)), |mem.buckets|), Min(n * 10, |mem.buckets|));
                rng' == Advance(rng) && out == w[..Min(n, |w|)]
    {
      if mem.live == 0 || n == 0 {
        return [], rng;
      }
      var budget := Min(n * 10, |mem.buckets|);
      var z;
      z, rng' := Draw(rng);
      out := Collect(mem.buckets, mem.slab, BucketOf(z), budget, n, shape.chains);
    }

    /** Hands every entry chained at the cursor, once, to a visitor that removes those `drop`
        picks, and returns the next cursor with the numbers visited and removed. `handed` lists
        the keys in the order the visitor saw them. */
    method ScanBucket(cursor: nat, drop: Rec -> bool)
      returns (next: nat, visited: nat, dropped: nat, ghost handed: seq<string>)
      requires Valid()
      modifies this
      ensures Valid() && |mem.buckets| == |old(mem.buckets)|
      ensures next == NextCursor(cursor, |mem.buckets|)
      ensures var here := KeysAt(hashOf, old(shape).contents.Keys, |mem.buckets|, cursor);
              && multiset(handed) == multiset(here) && visited == |here|
              && Reaped(old(shape), Dropped(old(shape).contents, here, drop), shape, dropped)
    {
      var n := |mem.buckets|;
      var mask := n - 1;
      assert IsPow2(mask + 1);
      ScanEnd(hashOf, capacity, mem, shape, cursor);
      visited, dropped, handed := VisitChain(Masked(cursor, n), drop);
      next := ComputeNextCursor(cursor, mask);
      assert mask + 1 == n;
    }

    /** Visits bucket `b` entry by entry; `next` is read before the visitor may free the entry. */
    method VisitChain(b: nat, drop: Rec -> bool) returns (visited: nat, dropped: nat, ghost handed: seq<string>)
      requires Valid() && b < |mem.buckets|
      modifies this
      ensures Valid() && |mem.buckets| == |old(mem.buckets)|
      ensures visited == |old(shape).chains[b]|
      ensures multiset(handed) == multiset(KeysUpTo(old(shape).keyOf, old(shape).chains[b], visited))
      ensures Reaped(old(shape), ReapedKeys(old(shape), old(shape).chains[b], visited, drop), shape, dropped)
    {
      ghost var s0, n := shape, |mem.buckets|;
      ghost var c := s0.chains[b];
      ScanStart(hashOf, capacity, mem, shape, b);
      NothingReaped(shape, drop);
      var p := mem.buckets[b];
      visited, dropped, handed := 0, 0, [];
      while p.Ref?
        invariant Valid() && |mem.buckets| == n
        invariant visited <= |c| && p == At(c, visited)
        invariant Ahead(shape, s0.keyOf, b, c, visited)
        invariant Reaped(s0, ReapedKeys(s0, c, visited, drop), shape, dropped)
        invariant multiset(handed) == multiset(KeysUpTo(s0.keyOf, c, visited))
        decreases |c| - visited
      {
        ghost var s := shape;
        ghost var key;
        var removed;
        removed, p, key := VisitOne(p.block, drop, s0.keyOf, b, c, visited);
        HandedStep(s0, c, visited, handed, key);
        handed := handed + [key];
        ScanStep(s0, c, visited, drop, s, shape, dropped, removed);
        visited := visited + 1;
        if removed {
          dropped := dropped + 1;
        }
      }
    }

    /** The visitor's turn at element `t` of a chain: remove it or not, and step on. */
    method VisitOne(e: nat, drop: Rec -> bool, ghost keyOf: map<nat, string>, ghost b: nat, ghost c: seq<nat>,
                    ghost t: nat)
      returns (removed: bool, after: Ptr, ghost key: string)
      requires Valid() && t < |c| && c[t] == e && Distinct(c) && Ahead(shape, keyOf, b, c, t)
      modifies this
      ensures Valid() && |mem.buckets| == |old(mem.buckets)|
      ensures Ahead(shape, keyOf, b, c, t + 1) && after == At(c, t + 1)
      ensures HasRecord(old(shape), e) && removed == drop(RecordOf(old(shape), e))
      ensures e in keyOf && key == old(shape).keyOf[e] == keyOf[e]
      ensures shape == if removed then WithoutEntry(old(shape), e).(chains := shape.chains, owner := shape.owner)
                       else old(shape)
    {
      AheadHere(hashOf, capacity, mem, shape, keyOf, b, c, t);
      after := mem.slab[e].next;
      key := shape.keyOf[e];
      removed := drop(Record(e));
      ghost var s := shape;
      if removed {
        ghost var at := Remove(e);
        AheadRemoved(s, shape, keyOf, b, c, t, at);
      }
    }
  }
}
