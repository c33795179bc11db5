/** The shape of the chained table's memory, stated on values, with the facts that each
    way of changing the memory relies on. */
module TableModel {
  import opened Entries
  import opened Bits

  // ---- lists -------------------------------------------------------------------------------

  /** The pointer to element `i` of a chain, null past its end. */
  function At(c: seq<nat>, i: nat): Ptr {
    if i < |c| then Ref(c[i]) else Null
  }

  /** Block `c[i]` is in the slab and links to the next element of `c`. */
  ghost predicate LinkAt(slab: seq<Entry>, c: seq<nat>, i: nat)
    requires i < |c|
  {
    c[i] < |slab| && slab[c[i]].next == At(c, i + 1)
  }

  /** `head` starts a null-terminated list through exactly the blocks of `c`, in order. */
  ghost predicate Linked(slab: seq<Entry>, head: Ptr, c: seq<nat>) {
    head == At(c, 0) && forall i :: 0 <= i < |c| ==> LinkAt(slab, c, i)
  }

  ghost predicate Distinct(c: seq<nat>) {
    forall i, j :: 0 <= i < j < |c| ==> c[i] != c[j]
  }

  /** Writing blocks outside a chain leaves the chain linked. */
  lemma LinkedFrame(slab: seq<Entry>, slab': seq<Entry>, head: Ptr, c: seq<nat>)
    requires Linked(slab, head, c) && |slab| == |slab'|
    requires forall i :: 0 <= i < |c| && c[i] < |slab| ==> slab'[c[i]].next == slab[c[i]].next
    ensures Linked(slab', head, c)
  {
    forall i | 0 <= i < |c| ensures LinkAt(slab', c, i) {
      assert LinkAt(slab, c, i);
    }
  }

  lemma LinkedPush(slab: seq<Entry>, head: Ptr, c: seq<nat>, e: nat, entry: Entry)
    requires Linked(slab, head, c) && e < |slab| && e !in c && entry.next == head
    ensures Linked(slab[e := entry], Ref(e), [e] + c)
  {
    var c', slab' := [e] + c, slab[e := entry];
    forall i | 0 <= i < |c'| ensures LinkAt(slab', c', i) {
      assert At(c, i) == At(c', i + 1);
      if i > 0 {
        assert c'[i] == c[i - 1] && LinkAt(slab, c, i - 1);
      }
    }
  }

  function Without(c: seq<nat>, i: nat): seq<nat>
    requires i < |c|
  {
    c[..i] + c[i + 1..]
  }

  lemma WithoutAt(c: seq<nat>, i: nat, j: nat)
    requires i < |c| && j < |c|
    ensures At(Without(c, i), j) == if j < i then At(c, j) else At(c, j + 1)
  {
  }

  lemma WithoutDistinct(c: seq<nat>, i: nat)
    requires Distinct(c) && i < |c|
    ensures Distinct(Without(c, i))
    ensures forall e :: e in Without(c, i) <==> e in c && e != c[i]
  {
    forall e | e in c && e != c[i] ensures e in Without(c, i) {
      var j :| 0 <= j < |c| && c[j] == e;
      assert e == Without(c, i)[if j < i then j else j - 1];
    }
  }

  /** Unlinking the first element: the bucket takes its successor. */
  lemma UnlinkHead(slab: seq<Entry>, head: Ptr, c: seq<nat>)
    requires Linked(slab, head, c) && |c| > 0
    ensures c[0] < |slab| && Linked(slab, slab[c[0]].next, Without(c, 0))
  {
    assert LinkAt(slab, c, 0);
    var w := Without(c, 0);
    WithoutAt(c, 0, 0);
    forall j | 0 <= j < |w| ensures LinkAt(slab, w, j) {
      WithoutAt(c, 0, j + 1);
      assert w[j] == c[j + 1] && LinkAt(slab, c, j + 1);
    }
  }

  /** Unlinking a later element: its predecessor takes its successor. */
  lemma UnlinkAfter(slab: seq<Entry>, head: Ptr, c: seq<nat>, i: nat)
    requires Linked(slab, head, c) && Distinct(c) && 0 < i < |c|
    ensures c[i - 1] < |slab| && c[i] < |slab|
    ensures Linked(slab[c[i - 1] := slab[c[i - 1]].(next := slab[c[i]].next)], head, Without(c, i))
  {
    assert LinkAt(slab, c, i - 1) && LinkAt(slab, c, i);
    var w := Without(c, i);
    var slab' := slab[c[i - 1] := slab[c[i - 1]].(next := slab[c[i]].next)];
    WithoutAt(c, i, 0);
    forall j | 0 <= j < |w| ensures LinkAt(slab', w, j) {
      WithoutAt(c, i, j);
      WithoutAt(c, i, j + 1);
      var o := if j < i then j else j + 1;
      assert w[j] == c[o] && (o != i - 1 ==> c[o] != c[i - 1]) && LinkAt(slab, c, o);
    }
  }

  // ---- the whole memory ----------------------------------------------------------------------

  /** The table's fields: bucket heads, the pool's slab and its free blocks, the allocated
      spill blocks, the live count. */
  datatype Mem = Mem(buckets: seq<Ptr>, slab: seq<Entry>, free: set<nat>, heap: Heap, live: nat)

  /** What the fields mean: the chain of each bucket, the key of each stored block and its
      inverse, the entry that owns each spill block, and the key/record map a client sees. */
  datatype Shape = Shape(
    chains: seq<seq<nat>>,
    keyOf: map<nat, string>,
    index: map<string, nat>,
    owner: map<nat, nat>,
    contents: map<string, Rec>)

  ghost predicate ChainAt(slab: seq<Entry>, buckets: seq<Ptr>, chains: seq<seq<nat>>, b: nat)
    requires |chains| == |buckets| && b < |chains|
  {
    Linked(slab, buckets[b], chains[b]) && Distinct(chains[b])
  }

  /** Every bucket heads an acyclic list. */
  ghost predicate Chained(slab: seq<Entry>, buckets: seq<Ptr>, chains: seq<seq<nat>>) {
    && |chains| == |buckets|
    && forall b :: 0 <= b < |buckets| ==> ChainAt(slab, buckets, chains, b)
  }

  /** Block `e` is sound, and holds the key it is listed under. */
  ghost predicate Stored(h: string -> nat, slab: seq<Entry>, heap: Heap, keyOf: map<nat, string>, e: nat)
    requires e in keyOf
  {
    && e < |slab|
    && Sound(slab[e], heap)
    && Key(slab[e], heap) == keyOf[e]
    && slab[e].hash == h(keyOf[e]) % U32
  }

  ghost predicate Holds(h: string -> nat, slab: seq<Entry>, heap: Heap, keyOf: map<nat, string>) {
    forall e {:trigger Stored(h, slab, heap, keyOf, e)} :: e in keyOf ==> Stored(h, slab, heap, keyOf, e)
  }

  /** Keys are unique: the block of each key, and the key of each block, are inverse. */
  ghost predicate Paired(keyOf: map<nat, string>, index: map<string, nat>) {
    && (forall e {:trigger e in keyOf} :: e in keyOf ==> keyOf[e] in index && index[keyOf[e]] == e)
    && (forall k {:trigger k in index} :: k in index ==> index[k] in keyOf && keyOf[index[k]] == k)
  }

  ghost predicate InBucket(slab: seq<Entry>, chains: seq<seq<nat>>, members: set<nat>, b: nat, i: nat)
    requires b < |chains| && i < |chains[b]|
  {
    chains[b][i] in members && chains[b][i] < |slab| && Masked(slab[chains[b][i]].hash, |chains|) == b
  }

  ghost predicate HasBucket(slab: seq<Entry>, chains: seq<seq<nat>>, e: nat)
    requires |chains| > 0
  {
    e < |slab| && e in chains[Masked(slab[e].hash, |chains|)]
  }

  /** Chains hold members only, each in the bucket its hash selects, and all of them. */
  ghost predicate Placed(slab: seq<Entry>, chains: seq<seq<nat>>, members: set<nat>)
    requires |chains| > 0
  {
    && (forall b, i {:trigger InBucket(slab, chains, members, b, i)} :: 0 <= b < |chains| && 0 <= i < |chains[b]| ==>
          InBucket(slab, chains, members, b, i))
    && (forall e {:trigger HasBucket(slab, chains, e)} :: e in members ==> HasBucket(slab, chains, e))
  }

  /** Spill block `a` belongs to a stored entry, which is spilled and points to it. */
  ghost predicate HasOwner(slab: seq<Entry>, keyOf: map<nat, string>, owner: map<nat, nat>, a: nat)
    requires a in owner
  {
    owner[a] in keyOf && owner[a] < |slab| && Spilled(slab[owner[a]]) && slab[owner[a]].buf == BufPtr(a)
  }

  /** A spilled entry is the owner of the block it points to. */
  ghost predicate Owns(slab: seq<Entry>, owner: map<nat, nat>, e: nat) {
    e < |slab|
    && (Spilled(slab[e]) ==> slab[e].buf.BufPtr? && slab[e].buf.addr in owner && owner[slab[e].buf.addr] == e)
  }

  /** Every allocated spill block has exactly one owner, and exactly the spilled entries own one. */
  ghost predicate Owned(slab: seq<Entry>, heap: Heap, keyOf: map<nat, string>, owner: map<nat, nat>)
  {
    && owner.Keys == heap.Keys
    && (forall a {:trigger HasOwner(slab, keyOf, owner, a)} :: a in owner ==> HasOwner(slab, keyOf, owner, a))
    && (forall e {:trigger Owns(slab, owner, e)} :: e in keyOf ==> Owns(slab, owner, e))
  }

  /** The free blocks and the stored ones make up the whole pool. */
  ghost predicate Pooled(free: set<nat>, keyOf: map<nat, string>, capacity: nat) {
    && (forall e :: e in free ==> e < capacity && e !in keyOf)
    && |free| + |keyOf| == capacity
  }

  /** The record of block `e`; a block that holds none reads as an empty record. */
  ghost function RecAt(slab: seq<Entry>, heap: Heap, e: nat): Rec {
    if e < |slab| && Sound(slab[e], heap) then RecOf(slab[e], heap) else Rec("", NO_EXPIRY, 0)
  }

  ghost predicate ShownAt(slab: seq<Entry>, heap: Heap, index: map<string, nat>, contents: map<string, Rec>, k: string)
    requires k in contents && k in index
  {
    contents[k] == RecAt(slab, heap, index[k])
  }

  /** `contents` gives each key the record its block holds. */
  ghost predicate Shown(slab: seq<Entry>, heap: Heap, index: map<string, nat>, contents: map<string, Rec>) {
    && contents.Keys == index.Keys
    && forall k {:trigger ShownAt(slab, heap, index, contents, k)} :: k in contents ==>
         ShownAt(slab, heap, index, contents, k)
  }

  ghost predicate Wf(h: string -> nat, capacity: nat, m: Mem, s: Shape) {
    && IsPow2(|m.buckets|)
    && |m.slab| == capacity
    && m.live == |s.index| == |s.keyOf|
    && Chained(m.slab, m.buckets, s.chains)
    && Holds(h, m.slab, m.heap, s.keyOf)
    && Paired(s.keyOf, s.index)
    && Placed(m.slab, s.chains, s.keyOf.Keys)
    && Owned(m.slab, m.heap, s.keyOf, s.owner)
    && Pooled(m.free, s.keyOf, capacity)
    && Shown(m.slab, m.heap, s.index, s.contents)
  }

  /** One doubling as soon as the entries outnumber the buckets. */
  function Grown(live: nat, buckets: nat): nat {
    if live > buckets then 2 * buckets else buckets
  }

  /** The keys whose bucket is the one at the cursor. */
  ghost function KeysAt(h: string -> nat, keys: set<string>, buckets: nat, cursor: nat): set<string>
    requires buckets > 0
  {
    set k | k in keys && Masked(h(k) % U32, buckets) == Masked(cursor, buckets)
  }

  /** The visited keys whose record the visitor removes. */
  ghost function Dropped(m: map<string, Rec>, visited: set<string>, drop: Rec -> bool): set<string> {
    set k | k in visited && k in m && drop(m[k])
  }

  /** A stored block's key has a record. */
  ghost predicate HasRecord(s: Shape, e: nat) {
    e in s.keyOf && s.keyOf[e] in s.contents
  }

  ghost function RecordOf(s: Shape, e: nat): Rec
    requires HasRecord(s, e)
  {
    s.contents[s.keyOf[e]]
  }

  /** The three ways the stored keys and records change. */
  ghost function WithRecord(s: Shape, e: nat, r: Rec): Shape
    requires e in s.keyOf
  {
    s.(contents := s.contents[s.keyOf[e] := r])
  }

  ghost function WithEntry(s: Shape, e: nat, key: string, r: Rec): Shape {
    s.(keyOf := s.keyOf[e := key], index := s.index[key := e], contents := s.contents[key := r])
  }

  ghost function WithoutEntry(s: Shape, e: nat): Shape
    requires e in s.keyOf
  {
    s.(keyOf := s.keyOf - {e}, index := s.index - {s.keyOf[e]}, contents := s.contents - {s.keyOf[e]})
  }

  // ---- what a change leaves alone -----------------------------------------------------------------

  /** Same entry but for the link, with the same bytes behind it. */
  ghost predicate Same(slab: seq<Entry>, heap: Heap, slab': seq<Entry>, heap': Heap, e: nat) {
    && e < |slab| && e < |slab'|
    && slab[e].(next := Null) == slab'[e].(next := Null)
    && (slab[e].buf.BufPtr? && slab[e].buf.addr in heap ==>
          slab[e].buf.addr in heap' && heap'[slab[e].buf.addr] == heap[slab[e].buf.addr])
  }

  lemma StoredFrame(h: string -> nat, slab: seq<Entry>, heap: Heap, keyOf: map<nat, string>,
                    slab': seq<Entry>, heap': Heap, keyOf': map<nat, string>, e: nat)
    requires e in keyOf && e in keyOf' && keyOf[e] == keyOf'[e]
    requires Stored(h, slab, heap, keyOf, e) && Same(slab, heap, slab', heap', e)
    ensures Stored(h, slab', heap', keyOf', e)
    ensures RecAt(slab', heap', e) == RecAt(slab, heap, e)
  {
    var x, y := slab[e], slab'[e];
    assert Spilled(x) == Spilled(y);
  }

  /** Blocks of the other entries are untouched, because no two entries share one. */
  lemma OthersSame(slab: seq<Entry>, heap: Heap, keyOf: map<nat, string>, owner: map<nat, nat>,
                   e: nat, slab': seq<Entry>, heap': Heap, f: nat)
    requires Owned(slab, heap, keyOf, owner) && f in keyOf && f != e && f < |slab'|
    requires f < |slab| ==> slab[f].(next := Null) == slab'[f].(next := Null)
    requires f < |slab| ==> Sound(slab[f], heap)
    requires forall a :: a in owner && owner[a] != e ==> a in heap' && heap'[a] == heap[a]
    ensures Same(slab, heap, slab', heap', f)
  {
    assert Owns(slab, owner, f);
  }

  // ---- insertion -------------------------------------------------------------------------------

  lemma ChainedPush(slab: seq<Entry>, buckets: seq<Ptr>, chains: seq<seq<nat>>, b0: nat, e: nat, entry: Entry)
    requires Chained(slab, buckets, chains) && b0 < |buckets| && e < |slab| && entry.next == buckets[b0]
    requires forall b :: 0 <= b < |chains| ==> e !in chains[b]
    ensures Chained(slab[e := entry], buckets[b0 := Ref(e)], chains[b0 := [e] + chains[b0]])
  {
    var slab', buckets', chains' := slab[e := entry], buckets[b0 := Ref(e)], chains[b0 := [e] + chains[b0]];
    forall b | 0 <= b < |buckets| ensures ChainAt(slab', buckets', chains', b) {
      assert ChainAt(slab, buckets, chains, b);
      if b == b0 {
        LinkedPush(slab, buckets[b], chains[b], e, entry);
      } else {
        LinkedFrame(slab, slab', buckets[b], chains[b]);
      }
    }
  }

  /** The heap gained at most one block, the one `entry` points to. */
  ghost predicate HeapFor(entry: Entry, heap: Heap, heap': Heap) {
    if Spilled(entry)
    then entry.buf.BufPtr? && entry.buf.addr !in heap && entry.buf.addr in heap'
         && heap' == heap[entry.buf.addr := heap'[entry.buf.addr]]
    else heap' == heap
  }

  lemma HoldsInsert(h: string -> nat, slab: seq<Entry>, heap: Heap, keyOf: map<nat, string>,
                    key: string, e: nat, entry: Entry, heap': Heap)
    requires Holds(h, slab, heap, keyOf) && e !in keyOf && e < |slab|
    requires HeapFor(entry, heap, heap') && Sound(entry, heap') && Key(entry, heap') == key
    requires entry.hash == h(key) % U32
    ensures Holds(h, slab[e := entry], heap', keyOf[e := key])
  {
    var slab', keyOf' := slab[e := entry], keyOf[e := key];
    forall f | f in keyOf' ensures Stored(h, slab', heap', keyOf', f) {
      if f != e {
        assert Stored(h, slab, heap, keyOf, f);
        StoredFrame(h, slab, heap, keyOf, slab', heap', keyOf', f);
      }
    }
  }

  lemma ShownInsert(h: string -> nat, slab: seq<Entry>, heap: Heap, keyOf: map<nat, string>, index: map<string, nat>,
                    contents: map<string, Rec>,
                    key: string, e: nat, entry: Entry, heap': Heap)
    requires Holds(h, slab, heap, keyOf) && Paired(keyOf, index) && Shown(slab, heap, index, contents) && e !in keyOf
    requires e < |slab|
    requires HeapFor(entry, heap, heap') && Sound(entry, heap')
    ensures Shown(slab[e := entry], heap', index[key := e], contents[key := RecOf(entry, heap')])
  {
    var slab', index', contents' := slab[e := entry], index[key := e], contents[key := RecOf(entry, heap')];
    forall k | k in contents' ensures ShownAt(slab', heap', index', contents', k) {
      if k != key {
        assert ShownAt(slab, heap, index, contents, k) && Stored(h, slab, heap, keyOf, index[k]);
        StoredFrame(h, slab, heap, keyOf, slab', heap', keyOf, index[k]);
      }
    }
  }

  lemma OwnedInsert(slab: seq<Entry>, heap: Heap, keyOf: map<nat, string>, owner: map<nat, nat>,
                    key: string, e: nat, entry: Entry, heap': Heap)
    requires Owned(slab, heap, keyOf, owner) && e !in keyOf && e < |slab|
    requires HeapFor(entry, heap, heap')
    ensures Owned(slab[e := entry], heap', keyOf[e := key],
                  if Spilled(entry) then owner[entry.buf.addr := e] else owner)
  {
    var slab', keyOf' := slab[e := entry], keyOf[e := key];
    var owner' := if Spilled(entry) then owner[entry.buf.addr := e] else owner;
    forall a | a in owner' ensures HasOwner(slab', keyOf', owner', a) {
      assert a in owner ==> HasOwner(slab, keyOf, owner, a);
    }
    forall f | f in keyOf' ensures Owns(slab', owner', f) {
      assert f != e ==> Owns(slab, owner, f);
    }
  }

  lemma PlacedInsert(slab: seq<Entry>, chains: seq<seq<nat>>, members: set<nat>, e: nat, entry: Entry)
    requires |chains| > 0 && Placed(slab, chains, members) && e !in members && e < |slab|
    ensures var b := Masked(entry.hash, |chains|);
            Placed(slab[e := entry], chains[b := [e] + chains[b]], members + {e})
  {
    var b0 := Masked(entry.hash, |chains|);
    var slab', chains', members' := slab[e := entry], chains[b0 := [e] + chains[b0]], members + {e};
    forall b, i | 0 <= b < |chains'| && 0 <= i < |chains'[b]| ensures InBucket(slab', chains', members', b, i) {
      if b != b0 {
        assert InBucket(slab, chains, members, b, i);
      } else if i > 0 {
        assert InBucket(slab, chains, members, b, i - 1) && chains'[b][i] == chains[b][i - 1];
      }
    }
    forall f | f in members' ensures HasBucket(slab', chains', f) {
      if f == e {
        assert chains'[b0][0] == e;
      } else {
        assert HasBucket(slab, chains, f);
        assert Masked(slab[f].hash, |chains|) == b0 ==> f in [e] + chains[b0];
      }
    }
  }

  lemma PooledInsert(free: set<nat>, keyOf: map<nat, string>, capacity: nat, e: nat, key: string)
    requires Pooled(free, keyOf, capacity) && e in free
    ensures Pooled(free - {e}, keyOf[e := key], capacity)
    ensures |keyOf[e := key]| == |keyOf| + 1
  {
  }

  /** A free block is on no chain. */
  lemma FreeUnchained(h: string -> nat, capacity: nat, m: Mem, s: Shape, e: nat)
    requires Wf(h, capacity, m, s) && e in m.free
    ensures forall b :: 0 <= b < |s.chains| ==> e !in s.chains[b]
  {
    forall b, i | 0 <= b < |s.chains| && 0 <= i < |s.chains[b]| ensures s.chains[b][i] != e {
      assert InBucket(m.slab, s.chains, s.keyOf.Keys, b, i);
    }
  }

  function Linking(m: Mem, e: nat, entry: Entry, heap: Heap): Mem
    requires e < |m.slab| && |m.buckets| > 0
  {
    Mem(m.buckets[Masked(entry.hash, |m.buckets|) := Ref(e)], m.slab[e := entry], m.free - {e}, heap, m.live + 1)
  }

  ghost function LinkedShape(s: Shape, key: string, e: nat, entry: Entry, heap: Heap): Shape
    requires |s.chains| > 0 && Sound(entry, heap)
  {
    var b := Masked(entry.hash, |s.chains|);
    WithEntry(s, e, key, RecOf(entry, heap)).(
      chains := s.chains[b := [e] + s.chains[b]],
      owner := if Spilled(entry) then s.owner[entry.buf.addr := e] else s.owner)
  }

  /** Linking a fresh entry at the front of its bucket keeps the table well formed and adds
      exactly its record. */
  lemma InsertWf(h: string -> nat, capacity: nat, m: Mem, s: Shape, key: string, e: nat, entry: Entry, heap: Heap)
    requires Wf(h, capacity, m, s) && key !in s.index && e in m.free
    requires HeapFor(entry, m.heap, heap) && Sound(entry, heap) && Key(entry, heap) == key
    requires entry.hash == h(key) % U32 && entry.next == m.buckets[Masked(entry.hash, |m.buckets|)]
    ensures var n, t := Linking(m, e, entry, heap), LinkedShape(s, key, e, entry, heap);
            Wf(h, capacity, n, t)
  {
    InsertShape(h, capacity, m, s, key, e, entry, heap);
    InsertStore(h, capacity, m, s, key, e, entry, heap);
  }

  lemma InsertShape(h: string -> nat, capacity: nat, m: Mem, s: Shape, key: string, e: nat, entry: Entry, heap: Heap)
    requires Wf(h, capacity, m, s) && e in m.free && Sound(entry, heap)
    requires entry.next == m.buckets[Masked(entry.hash, |m.buckets|)]
    ensures var n, t := Linking(m, e, entry, heap), LinkedShape(s, key, e, entry, heap);
            Chained(n.slab, n.buckets, t.chains) && Placed(n.slab, t.chains, t.keyOf.Keys)
  {
    FreeUnchained(h, capacity, m, s, e);
    ChainedPush(m.slab, m.buckets, s.chains, Masked(entry.hash, |m.buckets|), e, entry);
    PlacedInsert(m.slab, s.chains, s.keyOf.Keys, e, entry);
    KeysWith(s.keyOf, e, key);
  }

  lemma KeysWith(keyOf: map<nat, string>, e: nat, key: string)
    ensures keyOf[e := key].Keys == keyOf.Keys + {e}
  {
  }

  lemma InsertStore(h: string -> nat, capacity: nat, m: Mem, s: Shape, key: string, e: nat, entry: Entry, heap: Heap)
    requires Wf(h, capacity, m, s) && key !in s.index && e in m.free
    requires HeapFor(entry, m.heap, heap) && Sound(entry, heap) && Key(entry, heap) == key
    requires entry.hash == h(key) % U32
    ensures var n, t := Linking(m, e, entry, heap), LinkedShape(s, key, e, entry, heap);
            && Holds(h, n.slab, n.heap, t.keyOf) && Owned(n.slab, n.heap, t.keyOf, t.owner)
            && Paired(t.keyOf, t.index) && Pooled(n.free, t.keyOf, capacity) && n.live == |t.index| == |t.keyOf|
            && Shown(n.slab, n.heap, t.index, t.contents)
  {
    HoldsInsert(h, m.slab, m.heap, s.keyOf, key, e, entry, heap);
    ShownInsert(h, m.slab, m.heap, s.keyOf, s.index, s.contents, key, e, entry, heap);
    OwnedInsert(m.slab, m.heap, s.keyOf, s.owner, key, e, entry, heap);
    PairedInsert(s.keyOf, s.index, key, e);
    PooledInsert(m.free, s.keyOf, capacity, e, key);
  }

  lemma PairedInsert(keyOf: map<nat, string>, index: map<string, nat>, key: string, e: nat)
    requires Paired(keyOf, index) && e !in keyOf && key !in index
    ensures Paired(keyOf[e := key], index[key := e])
    ensures |index[key := e]| == |index| + 1
  {
  }

  // ---- change of one stored entry ------------------------------------------------------------------

  lemma HoldsUpdate(h: string -> nat, slab: seq<Entry>, heap: Heap, keyOf: map<nat, string>,
                    e: nat, slab': seq<Entry>, heap': Heap)
    requires Holds(h, slab, heap, keyOf)
    requires forall f :: f in keyOf && f != e ==> Same(slab, heap, slab', heap', f)
    requires e in keyOf ==> Stored(h, slab', heap', keyOf, e)
    ensures Holds(h, slab', heap', keyOf)
  {
    forall f | f in keyOf && f != e ensures Stored(h, slab', heap', keyOf, f) {
      assert Stored(h, slab, heap, keyOf, f);
      StoredFrame(h, slab, heap, keyOf, slab', heap', keyOf, f);
    }
  }

  /** Only the record of the entry that changed changes. */
  lemma ShownUpdate(h: string -> nat, slab: seq<Entry>, heap: Heap, keyOf: map<nat, string>, index: map<string, nat>,
                    contents: map<string, Rec>,
                    e: nat, slab': seq<Entry>, heap': Heap)
    requires Holds(h, slab, heap, keyOf) && Paired(keyOf, index) && Shown(slab, heap, index, contents) && e in keyOf
    requires e < |slab'|
    requires forall f :: f in keyOf && f != e ==> Same(slab, heap, slab', heap', f)
    ensures Shown(slab', heap', index, contents[keyOf[e] := RecAt(slab', heap', e)])
  {
    var contents' := contents[keyOf[e] := RecAt(slab', heap', e)];
    assert keyOf[e] in index;
    forall k | k in contents' ensures ShownAt(slab', heap', index, contents', k) {
      if k != keyOf[e] {
        assert ShownAt(slab, heap, index, contents, k) && Stored(h, slab, heap, keyOf, index[k]);
        StoredFrame(h, slab, heap, keyOf, slab', heap', keyOf, index[k]);
      }
    }
  }

  /** The owners once entry `e` changes from `x` to `y`. */
  ghost function OwnerAfter(owner: map<nat, nat>, e: nat, x: Entry, y: Entry): map<nat, nat>
    requires Spilled(x) ==> x.buf.BufPtr?
    requires Spilled(y) ==> y.buf.BufPtr?
  {
    var base := if Spilled(x) then owner - {x.buf.addr} else owner;
    if Spilled(y) then base[y.buf.addr := e] else base
  }

  lemma OwnedUpdate(slab: seq<Entry>, heap: Heap, keyOf: map<nat, string>, owner: map<nat, nat>, e: nat, entry: Entry,
                    heap': Heap)
    requires Owned(slab, heap, keyOf, owner) && e in keyOf && Owns(slab, owner, e)
    requires Spilled(entry) ==> entry.buf.BufPtr? && (entry.buf.addr !in owner || owner[entry.buf.addr] == e)
    requires heap'.Keys == OwnerAfter(owner, e, slab[e], entry).Keys
    ensures Owned(slab[e := entry], heap', keyOf, OwnerAfter(owner, e, slab[e], entry))
  {
    var owner' := OwnerAfter(owner, e, slab[e], entry);
    var slab' := slab[e := entry];
    forall a | a in owner' ensures HasOwner(slab', keyOf, owner', a) {
      assert a in owner ==> HasOwner(slab, keyOf, owner, a);
    }
    forall f | f in keyOf ensures Owns(slab', owner', f) {
      assert Owns(slab, owner, f);
    }
  }

  /** Chains do not look at payloads, deadlines or clocks. */
  lemma ShapeUpdate(slab: seq<Entry>, buckets: seq<Ptr>, chains: seq<seq<nat>>, members: set<nat>, e: nat, entry: Entry)
    requires Chained(slab, buckets, chains) && |chains| > 0 && Placed(slab, chains, members)
    requires e < |slab| && entry.next == slab[e].next && entry.hash == slab[e].hash
    ensures Chained(slab[e := entry], buckets, chains) && Placed(slab[e := entry], chains, members)
  {
    var slab' := slab[e := entry];
    forall b | 0 <= b < |buckets| ensures ChainAt(slab', buckets, chains, b) {
      assert ChainAt(slab, buckets, chains, b);
      LinkedFrame(slab, slab', buckets[b], chains[b]);
    }
    forall b, i | 0 <= b < |chains| && 0 <= i < |chains[b]| ensures InBucket(slab', chains, members, b, i) {
      assert InBucket(slab, chains, members, b, i);
    }
    forall f | f in members ensures HasBucket(slab', chains, f) {
      assert HasBucket(slab, chains, f);
    }
  }

  /** The payload of `x` was replaced by that of `y`: the block `x` owned is gone unless `y`
      keeps it, `y` owns a block of its own when spilled, and no other block was touched. */
  ghost predicate Repayload(x: Entry, heap: Heap, y: Entry, heap': Heap)
    requires Spilled(x) ==> x.buf.BufPtr?
    requires Spilled(y) ==> y.buf.BufPtr?
  {
    && x.(valLen := y.valLen, buf := y.buf, expiresAtMs := y.expiresAtMs, lruClock := y.lruClock) == y
    && heap'.Keys == heap.Keys - (if Spilled(x) then {x.buf.addr} else {}) + (if Spilled(y) then {y.buf.addr} else {})
    && (Spilled(y) ==> y.buf.addr !in heap || (Spilled(x) && x.buf.addr == y.buf.addr))
    && (forall a :: a in heap && !(Spilled(x) && x.buf.addr == a) ==> a in heap' && heap'[a] == heap[a])
  }

  ghost function UpdatedShape(m: Mem, s: Shape, e: nat, entry: Entry, heap: Heap): Shape
    requires e in s.keyOf && e < |m.slab| && Sound(m.slab[e], m.heap) && Sound(entry, heap)
  {
    WithRecord(s, e, RecOf(entry, heap)).(owner := OwnerAfter(s.owner, e, m.slab[e], entry))
  }

  /** Changing one entry's payload, deadline or clock keeps the table well formed and
      changes exactly its record. */
  lemma UpdateWf(h: string -> nat, capacity: nat, m: Mem, s: Shape, e: nat, entry: Entry, heap: Heap)
    requires Wf(h, capacity, m, s) && e in s.keyOf && e < |m.slab| && Sound(m.slab[e], m.heap)
    requires Sound(entry, heap) && Key(entry, heap) == Key(m.slab[e], m.heap)
    requires Repayload(m.slab[e], m.heap, entry, heap)
    ensures Wf(h, capacity, m.(slab := m.slab[e := entry], heap := heap), UpdatedShape(m, s, e, entry, heap))
  {
    UpdateStore(h, capacity, m, s, e, entry, heap);
    ShapeUpdate(m.slab, m.buckets, s.chains, s.keyOf.Keys, e, entry);
  }

  lemma UpdateStore(h: string -> nat, capacity: nat, m: Mem, s: Shape, e: nat, entry: Entry, heap: Heap)
    requires Wf(h, capacity, m, s) && e in s.keyOf && e < |m.slab| && Sound(m.slab[e], m.heap)
    requires Sound(entry, heap) && Key(entry, heap) == Key(m.slab[e], m.heap)
    requires Repayload(m.slab[e], m.heap, entry, heap)
    ensures var slab := m.slab[e := entry];
            && Holds(h, slab, heap, s.keyOf) && Owned(slab, heap, s.keyOf, OwnerAfter(s.owner, e, m.slab[e], entry))
            && Shown(slab, heap, s.index, s.contents[s.keyOf[e] := RecOf(entry, heap)])
  {
    var slab := m.slab[e := entry];
    assert Stored(h, m.slab, m.heap, s.keyOf, e) && Owns(m.slab, s.owner, e);
    UpdateOthers(h, m.slab, m.heap, s.keyOf, s.owner, e, entry, heap);
    assert Stored(h, slab, heap, s.keyOf, e);
    HoldsUpdate(h, m.slab, m.heap, s.keyOf, e, slab, heap);
    ShownUpdate(h, m.slab, m.heap, s.keyOf, s.index, s.contents, e, slab, heap);
    UpdateOwned(m.slab, m.heap, s.keyOf, s.owner, e, entry, heap);
  }

  lemma UpdateOwned(slab: seq<Entry>, heap: Heap, keyOf: map<nat, string>, owner: map<nat, nat>, e: nat, entry: Entry,
                    heap': Heap)
    requires Owned(slab, heap, keyOf, owner) && e in keyOf && Owns(slab, owner, e)
    requires (Spilled(entry) ==> entry.buf.BufPtr?) && Repayload(slab[e], heap, entry, heap')
    ensures Owned(slab[e := entry], heap', keyOf, OwnerAfter(owner, e, slab[e], entry))
  {
    OwnedUpdate(slab, heap, keyOf, owner, e, entry, heap');
  }

  lemma OwnerKept(owner: map<nat, nat>, e: nat, x: Entry, y: Entry)
    requires (Spilled(x) ==> x.buf.BufPtr? && x.buf.addr in owner && owner[x.buf.addr] == e)
    requires Spilled(y) == Spilled(x) && y.buf == x.buf
    ensures OwnerAfter(owner, e, x, y) == owner
  {
  }

  lemma UpdateOthers(h: string -> nat, slab: seq<Entry>, heap: Heap, keyOf: map<nat, string>, owner: map<nat, nat>,
                     e: nat, entry: Entry, heap': Heap)
    requires Holds(h, slab, heap, keyOf) && Owned(slab, heap, keyOf, owner) && e < |slab| && Owns(slab, owner, e)
    requires (Spilled(entry) ==> entry.buf.BufPtr?) && Repayload(slab[e], heap, entry, heap')
    ensures forall f :: f in keyOf && f != e ==> Same(slab, heap, slab[e := entry], heap', f)
  {
    forall a | a in owner && owner[a] != e ensures a in heap' && heap'[a] == heap[a] {
      assert HasOwner(slab, keyOf, owner, a);
    }
    forall f | f in keyOf && f != e ensures Same(slab, heap, slab[e := entry], heap', f) {
      assert Stored(h, slab, heap, keyOf, f);
      OthersSame(slab, heap, keyOf, owner, e, slab[e := entry], heap', f);
    }
  }

  /** Stamping an entry's deadline and clock. */
  lemma StampWf(h: string -> nat, capacity: nat, m: Mem, s: Shape, e: nat, expiresAtMs: int, lruClock: nat)
    requires Wf(h, capacity, m, s) && e in s.keyOf && e < |m.slab| && Sound(m.slab[e], m.heap) && lruClock < U32
    ensures HasRecord(s, e) && RecordOf(s, e) == RecOf(m.slab[e], m.heap)
    ensures Wf(h, capacity, m.(slab := m.slab[e := m.slab[e].(expiresAtMs := expiresAtMs, lruClock := lruClock)]),
               WithRecord(s, e, Rec(RecordOf(s, e).value, expiresAtMs, lruClock)))
  {
    var entry := m.slab[e].(expiresAtMs := expiresAtMs, lruClock := lruClock);
    StampShape(h, capacity, m, s, e, entry);
    UpdateWf(h, capacity, m, s, e, entry, m.heap);
  }

  lemma StampShape(h: string -> nat, capacity: nat, m: Mem, s: Shape, e: nat, entry: Entry)
    requires Wf(h, capacity, m, s) && e in s.keyOf && e < |m.slab| && Sound(m.slab[e], m.heap)
    requires entry == m.slab[e].(expiresAtMs := entry.expiresAtMs, lruClock := entry.lruClock) && entry.lruClock < U32
    ensures Owns(m.slab, s.owner, e) && Sound(entry, m.heap)
    ensures HasRecord(s, e) && RecordOf(s, e) == RecOf(m.slab[e], m.heap)
    ensures UpdatedShape(m, s, e, entry, m.heap)
              == WithRecord(s, e, Rec(RecordOf(s, e).value, entry.expiresAtMs, entry.lruClock))
  {
    assert Owns(m.slab, s.owner, e) && s.keyOf[e] in s.index;
    assert ShownAt(m.slab, m.heap, s.index, s.contents, s.keyOf[e]);
    OwnerKept(s.owner, e, m.slab[e], entry);
  }

  // ---- removal -------------------------------------------------------------------------------------

  lemma HoldsRemove(h: string -> nat, slab: seq<Entry>, heap: Heap, keyOf: map<nat, string>,
                    e: nat, slab': seq<Entry>, heap': Heap)
    requires Holds(h, slab, heap, keyOf) && e in keyOf
    requires forall f :: f in keyOf && f != e ==> Same(slab, heap, slab', heap', f)
    ensures Holds(h, slab', heap', keyOf - {e})
  {
    forall f | f in keyOf - {e} ensures Stored(h, slab', heap', keyOf - {e}, f) {
      assert Stored(h, slab, heap, keyOf, f);
      StoredFrame(h, slab, heap, keyOf, slab', heap', keyOf - {e}, f);
    }
  }

  lemma ShownRemove(h: string -> nat, slab: seq<Entry>, heap: Heap, keyOf: map<nat, string>, index: map<string, nat>,
                    contents: map<string, Rec>,
                    e: nat, slab': seq<Entry>, heap': Heap)
    requires Holds(h, slab, heap, keyOf) && Paired(keyOf, index) && Shown(slab, heap, index, contents) && e in keyOf
    requires forall f :: f in keyOf && f != e ==> Same(slab, heap, slab', heap', f)
    ensures Shown(slab', heap', index - {keyOf[e]}, contents - {keyOf[e]})
  {
    var index', contents' := index - {keyOf[e]}, contents - {keyOf[e]};
    forall k | k in contents' ensures ShownAt(slab', heap', index', contents', k) {
      assert ShownAt(slab, heap, index, contents, k) && Stored(h, slab, heap, keyOf, index[k]);
      StoredFrame(h, slab, heap, keyOf, slab', heap', keyOf, index[k]);
    }
  }

  lemma OwnedRemove(slab: seq<Entry>, heap: Heap, keyOf: map<nat, string>, owner: map<nat, nat>, e: nat,
                    slab': seq<Entry>)
    requires Owned(slab, heap, keyOf, owner) && e in keyOf && Owns(slab, owner, e) && |slab'| == |slab|
    requires forall f :: f in keyOf && f != e && f < |slab| ==> slab[f].(next := Null) == slab'[f].(next := Null)
    ensures var gone := if Spilled(slab[e]) then {slab[e].buf.addr} else {};
            Owned(slab', heap - gone, keyOf - {e}, owner - gone)
  {
    var gone := if Spilled(slab[e]) then {slab[e].buf.addr} else {};
    var owner', keyOf' := owner - gone, keyOf - {e};
    forall f | f in keyOf' ensures Owns(slab', owner', f) {
      assert Owns(slab, owner, f);
      assert Spilled(slab[f]) == Spilled(slab'[f]) && slab[f].buf == slab'[f].buf;
    }
    forall a | a in owner' ensures HasOwner(slab', keyOf', owner', a) {
      assert HasOwner(slab, keyOf, owner, a);
      var f := owner[a];
      if f != e {
        assert Spilled(slab[f]) == Spilled(slab'[f]) && slab[f].buf == slab'[f].buf;
      }
    }
  }

  lemma PlacedRemove(slab: seq<Entry>, chains: seq<seq<nat>>, members: set<nat>, b: nat, i: nat, slab': seq<Entry>)
    requires |chains| > 0 && Placed(slab, chains, members) && b < |chains| && Distinct(chains[b]) && i < |chains[b]|
    requires |slab'| == |slab|
    requires forall f :: f in members && f < |slab| && f != chains[b][i] ==> slab'[f].hash == slab[f].hash
    ensures Placed(slab', chains[b := Without(chains[b], i)], members - {chains[b][i]})
  {
    var e := chains[b][i];
    WithoutDistinct(chains[b], i);
    var chains', members' := chains[b := Without(chains[b], i)], members - {e};
    forall c, j | 0 <= c < |chains'| && 0 <= j < |chains'[c]| ensures InBucket(slab', chains', members', c, j) {
      var t := chains'[c][j];
      assert t in chains'[c] && t in chains[c];
      var o :| 0 <= o < |chains[c]| && chains[c][o] == t;
      assert InBucket(slab, chains, members, c, o);
      assert InBucket(slab, chains, members, b, i);
    }
    forall f | f in members' ensures HasBucket(slab', chains', f) {
      assert HasBucket(slab, chains, f);
    }
  }

  lemma PooledRemove(free: set<nat>, keyOf: map<nat, string>, capacity: nat, e: nat)
    requires Pooled(free, keyOf, capacity) && e in keyOf && e < capacity
    ensures Pooled(free + {e}, keyOf - {e}, capacity)
    ensures |keyOf - {e}| == |keyOf| - 1
  {
    assert (keyOf - {e}).Keys == keyOf.Keys - {e};
  }

  lemma PairedRemove(keyOf: map<nat, string>, index: map<string, nat>, e: nat)
    requires Paired(keyOf, index) && e in keyOf
    ensures Paired(keyOf - {e}, index - {keyOf[e]})
    ensures |index - {keyOf[e]}| == |index| - 1
  {
    assert (index - {keyOf[e]}).Keys == index.Keys - {keyOf[e]};
  }

  /** The addresses freed with entry `e`. */
  function Freed(slab: seq<Entry>, e: nat): set<nat>
    requires e < |slab| && (Spilled(slab[e]) ==> slab[e].buf.BufPtr?)
  {
    if Spilled(slab[e]) then {slab[e].buf.addr} else {}
  }

  /** `slab'` and `buckets'` are `slab` and `buckets` with element `i` of bucket `b` linked out. */
  ghost predicate Unlinked(slab: seq<Entry>, buckets: seq<Ptr>, c: seq<nat>, b: nat, i: nat, slab': seq<Entry>,
                           buckets': seq<Ptr>)
    requires b < |buckets| && i < |c| && c[i] < |slab|
  {
    if i == 0 then slab' == slab && buckets' == buckets[b := slab[c[0]].next]
    else c[i - 1] < |slab| && buckets' == buckets && slab' == slab[c[i - 1] := slab[c[i - 1]].(next := slab[c[i]].next)]
  }

  lemma ChainedRemove(slab: seq<Entry>, buckets: seq<Ptr>, chains: seq<seq<nat>>, members: set<nat>, b: nat, i: nat,
                      slab': seq<Entry>, buckets': seq<Ptr>)
    requires Chained(slab, buckets, chains) && |chains| > 0 && Placed(slab, chains, members)
    requires b < |chains| && i < |chains[b]| && chains[b][i] < |slab|
    requires Unlinked(slab, buckets, chains[b], b, i, slab', buckets')
    ensures Chained(slab', buckets', chains[b := Without(chains[b], i)])
  {
    var chains' := chains[b := Without(chains[b], i)];
    assert ChainAt(slab, buckets, chains, b);
    WithoutDistinct(chains[b], i);
    forall d | 0 <= d < |buckets'| ensures ChainAt(slab', buckets', chains', d) {
      assert ChainAt(slab, buckets, chains, d);
      if d != b {
        forall t | 0 <= t < |chains[d]| && i > 0 ensures chains[d][t] != chains[b][i - 1] {
          assert InBucket(slab, chains, members, d, t) && InBucket(slab, chains, members, b, i - 1);
        }
        LinkedFrame(slab, slab', buckets[d], chains[d]);
      } else if i == 0 {
        UnlinkHead(slab, buckets[b], chains[b]);
      } else {
        UnlinkAfter(slab, buckets[b], chains[b], i);
      }
    }
  }

  function Removing(m: Mem, e: nat, buckets: seq<Ptr>, slab: seq<Entry>): Mem
    requires e < |m.slab| && (Spilled(m.slab[e]) ==> m.slab[e].buf.BufPtr?) && m.live > 0
  {
    Mem(buckets, slab, m.free + {e}, m.heap - Freed(m.slab, e), m.live - 1)
  }

  ghost function RemovedShape(m: Mem, s: Shape, b: nat, i: nat): Shape
    requires b < |s.chains| && i < |s.chains[b]| && s.chains[b][i] in s.keyOf && s.chains[b][i] < |m.slab|
    requires Spilled(m.slab[s.chains[b][i]]) ==> m.slab[s.chains[b][i]].buf.BufPtr?
  {
    var e := s.chains[b][i];
    WithoutEntry(s, e).(chains := s.chains[b := Without(s.chains[b], i)], owner := s.owner - Freed(m.slab, e))
  }

  /** Linking an entry out and giving its memory back keeps the table well formed and
      removes exactly its record. */
  lemma RemoveWf(h: string -> nat, capacity: nat, m: Mem, s: Shape, b: nat, i: nat, buckets: seq<Ptr>, slab: seq<Entry>)
    requires Wf(h, capacity, m, s) && b < |s.chains| && i < |s.chains[b]|
    requires s.chains[b][i] in s.keyOf && Stored(h, m.slab, m.heap, s.keyOf, s.chains[b][i])
    requires Unlinked(m.slab, m.buckets, s.chains[b], b, i, slab, buckets)
    ensures m.live > 0
    ensures Wf(h, capacity, Removing(m, s.chains[b][i], buckets, slab), RemovedShape(m, s, b, i))
  {
    var e := s.chains[b][i];
    assert Owns(m.slab, s.owner, e);
    RemoveShape(h, capacity, m, s, b, i, buckets, slab);
    PooledRemove(m.free, s.keyOf, capacity, e);
    PairedRemove(s.keyOf, s.index, e);
    RemoveStore(h, capacity, m, s, e, slab);
  }

  lemma RemoveShape(h: string -> nat, capacity: nat, m: Mem, s: Shape, b: nat, i: nat, buckets: seq<Ptr>,
                    slab: seq<Entry>)
    requires Wf(h, capacity, m, s) && b < |s.chains| && i < |s.chains[b]|
    requires s.chains[b][i] in s.keyOf && Stored(h, m.slab, m.heap, s.keyOf, s.chains[b][i])
    requires Unlinked(m.slab, m.buckets, s.chains[b], b, i, slab, buckets)
    ensures |slab| == |m.slab| && forall f :: 0 <= f < |slab| ==> slab[f].(next := Null) == m.slab[f].(next := Null)
    ensures var chains := s.chains[b := Without(s.chains[b], i)];
            Chained(slab, buckets, chains) && Placed(slab, chains, (s.keyOf - {s.chains[b][i]}).Keys)
  {
    var e := s.chains[b][i];
    assert ChainAt(m.slab, m.buckets, s.chains, b);
    forall f | 0 <= f < |slab| ensures slab[f].(next := Null) == m.slab[f].(next := Null) {}
    ChainedRemove(m.slab, m.buckets, s.chains, s.keyOf.Keys, b, i, slab, buckets);
    PlacedRemove(m.slab, s.chains, s.keyOf.Keys, b, i, slab);
    assert (s.keyOf - {e}).Keys == s.keyOf.Keys - {e};
  }

  lemma RemoveStore(h: string -> nat, capacity: nat, m: Mem, s: Shape, e: nat, slab: seq<Entry>)
    requires Wf(h, capacity, m, s) && e in s.keyOf && Stored(h, m.slab, m.heap, s.keyOf, e) && |slab| == |m.slab|
    requires forall f :: 0 <= f < |slab| ==> slab[f].(next := Null) == m.slab[f].(next := Null)
    ensures Owns(m.slab, s.owner, e)
    ensures var heap := m.heap - Freed(m.slab, e);
            && Holds(h, slab, heap, s.keyOf - {e}) && Owned(slab, heap, s.keyOf - {e}, s.owner - Freed(m.slab, e))
            && Shown(slab, heap, s.index - {s.keyOf[e]}, s.contents - {s.keyOf[e]})
  {
    var heap := m.heap - Freed(m.slab, e);
    assert Owns(m.slab, s.owner, e);
    forall a | a in s.owner && s.owner[a] != e ensures a in heap && heap[a] == m.heap[a] {
      assert HasOwner(m.slab, s.keyOf, s.owner, a);
    }
    forall f | f in s.keyOf && f != e ensures Same(m.slab, m.heap, slab, heap, f) {
      assert Stored(h, m.slab, m.heap, s.keyOf, f);
      OthersSame(m.slab, m.heap, s.keyOf, s.owner, e, slab, heap, f);
    }
    HoldsRemove(h, m.slab, m.heap, s.keyOf, e, slab, heap);
    ShownRemove(h, m.slab, m.heap, s.keyOf, s.index, s.contents, e, slab, heap);
    OwnedRemove(m.slab, m.heap, s.keyOf, s.owner, e, slab);
  }

  // ---- growth --------------------------------------------------------------------------------------

  /** The blocks moved so far are those before position `(i, j)` of the old chains. */
  ghost predicate MovedUpTo(chains: seq<seq<nat>>, i: nat, j: nat, done: set<nat>) {
    forall b, t :: 0 <= b < |chains| && 0 <= t < |chains[b]| ==>
      (chains[b][t] in done <==> b < i || (b == i && t < j))
  }

  lemma MovedStep(slab: seq<Entry>, chains: seq<seq<nat>>, members: set<nat>, i: nat, j: nat, done: set<nat>)
    requires |chains| > 0 && Placed(slab, chains, members) && i < |chains| && j < |chains[i]| && Distinct(chains[i])
    requires MovedUpTo(chains, i, j, done)
    ensures MovedUpTo(chains, i, j + 1, done + {chains[i][j]})
    ensures chains[i][j] !in done
    ensures forall b :: i < b < |chains| ==> chains[i][j] !in chains[b]
  {
    assert InBucket(slab, chains, members, i, j);
    forall b, t | 0 <= b < |chains| && 0 <= t < |chains[b]| && chains[b][t] == chains[i][j]
      ensures b == i && t == j
    {
      assert InBucket(slab, chains, members, b, t);
    }
  }

  /** Mid-growth: `next`/`grown` chain exactly the moved blocks `done` into the new buckets,
      nothing but links has changed, and the unvisited old buckets are intact. */
  ghost predicate Moving(old_: seq<Entry>, buckets: seq<Ptr>, chains: seq<seq<nat>>, i: nat,
                         slab: seq<Entry>, next: seq<Ptr>, grown: seq<seq<nat>>, done: set<nat>)
  {
    && |slab| == |old_| && |next| > 0 && |chains| == |buckets|
    && (forall e :: 0 <= e < |slab| ==> slab[e].(next := Null) == old_[e].(next := Null))
    && Chained(slab, next, grown) && Placed(slab, grown, done)
    && (forall b {:trigger Linked(slab, buckets[b], chains[b])} :: i <= b < |buckets| ==>
        Linked(slab, buckets[b], chains[b]))
  }

  /** Moving one block to the front of its new bucket. */
  lemma MoveOne(old_: seq<Entry>, buckets: seq<Ptr>, chains: seq<seq<nat>>, members: set<nat>, i: nat, j: nat,
                slab: seq<Entry>, next: seq<Ptr>, grown: seq<seq<nat>>, done: set<nat>)
    requires Moving(old_, buckets, chains, i + 1, slab, next, grown, done)
    requires |chains| > 0 && Placed(old_, chains, members) && i < |chains| && j < |chains[i]| && Distinct(chains[i])
    requires MovedUpTo(chains, i, j, done) && chains[i][j] < |slab|
    ensures var e := chains[i][j];
            var b := Masked(slab[e].hash, |next|);
            var slab' := slab[e := slab[e].(next := next[b])];
            && Moving(old_, buckets, chains, i + 1, slab', next[b := Ref(e)], grown[b := [e] + grown[b]], done + {e})
            && MovedUpTo(chains, i, j + 1, done + {e})
            && (forall t :: j < t < |chains[i]| ==> chains[i][t] != e)
  {
    var e := chains[i][j];
    var b0 := Masked(slab[e].hash, |next|);
    var entry := slab[e].(next := next[b0]);
    var slab' := slab[e := entry];
    MovedStep(old_, chains, members, i, j, done);
    forall b, t | 0 <= b < |grown| && 0 <= t < |grown[b]| ensures grown[b][t] != e {
      assert InBucket(slab, grown, done, b, t);
    }
    ChainedPush(slab, next, grown, b0, e, entry);
    PlacedInsert(slab, grown, done, e, entry);
    forall b | i + 1 <= b < |buckets| ensures Linked(slab', buckets[b], chains[b]) {
      assert Linked(slab, buckets[b], chains[b]) && e !in chains[b];
      LinkedFrame(slab, slab', buckets[b], chains[b]);
    }
  }

  /** Once every chain has been walked, the new buckets hold exactly the stored blocks. */
  lemma AllMoved(slab: seq<Entry>, chains: seq<seq<nat>>, members: set<nat>, grown: seq<seq<nat>>, done: set<nat>)
    requires |chains| > 0 && Placed(slab, chains, members)
    requires MovedUpTo(chains, |chains|, 0, done) && done <= members
    ensures done == members
  {
    forall e | e in members ensures e in done {
      assert HasBucket(slab, chains, e);
      var b := Masked(slab[e].hash, |chains|);
      var t :| 0 <= t < |chains[b]| && chains[b][t] == e;
    }
  }

  /** A table whose links alone have changed holds the same records. */
  lemma RelinkedWf(h: string -> nat, capacity: nat, m: Mem, s: Shape, next: seq<Ptr>, slab: seq<Entry>,
                   grown: seq<seq<nat>>)
    requires Wf(h, capacity, m, s) && IsPow2(|next|) && |slab| == |m.slab|
    requires forall e :: 0 <= e < |slab| ==> slab[e].(next := Null) == m.slab[e].(next := Null)
    requires Chained(slab, next, grown) && Placed(slab, grown, s.keyOf.Keys)
    ensures Wf(h, capacity, m.(buckets := next, slab := slab), s.(chains := grown))
  {
    forall e | e in s.keyOf ensures Stored(h, slab, m.heap, s.keyOf, e)
    && RecAt(slab, m.heap, e) == RecAt(m.slab, m.heap, e) {
      assert Stored(h, m.slab, m.heap, s.keyOf, e);
      StoredFrame(h, m.slab, m.heap, s.keyOf, slab, m.heap, s.keyOf, e);
    }
    forall k | k in s.contents ensures ShownAt(slab, m.heap, s.index, s.contents, k) {
      assert ShownAt(m.slab, m.heap, s.index, s.contents, k) && s.index[k] in s.keyOf;
    }
    OwnedFrame(m.slab, m.heap, s.keyOf, s.owner, slab);
  }

  lemma OwnedFrame(slab: seq<Entry>, heap: Heap, keyOf: map<nat, string>, owner: map<nat, nat>, slab': seq<Entry>)
    requires Owned(slab, heap, keyOf, owner) && |slab'| == |slab|
    requires forall e :: 0 <= e < |slab| ==> slab'[e].(next := Null) == slab[e].(next := Null)
    ensures Owned(slab', heap, keyOf, owner)
  {
    forall e | 0 <= e < |slab| ensures Spilled(slab'[e]) == Spilled(slab[e]) && slab'[e].buf == slab[e].buf {
      assert slab'[e].(next := Null) == slab[e].(next := Null);
    }
    forall e | e in keyOf ensures Owns(slab', owner, e) {
      assert Owns(slab, owner, e);
    }
    forall a | a in owner ensures HasOwner(slab', keyOf, owner, a) {
      assert HasOwner(slab, keyOf, owner, a);
    }
  }
}
