/** The resumable bucket scan (src/core/table.h, src/core/bits.cpp) as a state machine.

    A run interleaves scan steps with inserts (which may double the table), value
    assignments, removals and clears. The theorems count, over every such run, how often the scan
    hands an entry to its visitor. The hash is any function of the key. */
module Scan {
  import opened Bits
  import opened Entries
  import opened TableModel

  /** What the scan depends on: the keys chained in the table, the bucket count, the cursor. */
  datatype View = View(keys: set<string>, buckets: nat, cursor: nat)

  /** `Visit(dropped)` is one call of scanBucket whose visitor removes the entries `dropped`. */
  datatype Step = Insert(key: string) | Assign(key: string) | Remove(key: string) | Clear | Visit(dropped: set<string>)

  predicate Ok(s: View) {
    IsPow2(s.buckets) && s.cursor < s.buckets
  }

  /** The keys chained at the cursor. */
  ghost function Bucket(h: string -> nat, s: View): set<string>
    requires Ok(s)
  {
    KeysAt(h, s.keys, s.buckets, s.cursor)
  }

  /** What the scan sees of a table. */
  ghost function ViewOf(m: map<string, Rec>, buckets: nat, cursor: nat): View {
    View(m.Keys, buckets, cursor)
  }

  ghost predicate Enabled(h: string -> nat, s: View, op: Step)
    requires Ok(s)
  {
    match op
    case Insert(k) => k !in s.keys
    case Assign(k) => k in s.keys
    case Remove(k) => k in s.keys
    case Clear => true
    case Visit(dropped) => dropped <= Bucket(h, s)
  }

  ghost function Next(h: string -> nat, s: View, op: Step): (t: View)
    requires Ok(s)
    ensures Ok(t)
  {
    match op
    case Insert(k) =>
      assert (2 * s.buckets) / 2 == s.buckets;
      s.(keys := s.keys + {k}, buckets := Grown(|s.keys + {k}|, s.buckets))
    case Assign(_) => s
    case Remove(k) => s.(keys := s.keys - {k})
    case Clear => s.(keys := {})
    case Visit(dropped) => s.(keys := s.keys - dropped, cursor := NextCursor(s.cursor, s.buckets))
  }

  ghost predicate Legal(h: string -> nat, s: View, ops: seq<Step>)
    requires Ok(s)
    decreases |ops|
  {
    ops == [] || (Enabled(h, s, ops[0]) && Legal(h, Next(h, s, ops[0]), ops[1..]))
  }

  ghost function Final(h: string -> nat, s: View, ops: seq<Step>): (t: View)
    requires Ok(s)
    ensures Ok(t)
    decreases |ops|
  {
    if ops == [] then s else Final(h, Next(h, s, ops[0]), ops[1..])
  }

  /** The number of times the scan visits `key` over the run. */
  ghost function Visits(h: string -> nat, s: View, ops: seq<Step>, key: string): nat
    requires Ok(s)
    decreases |ops|
  {
    if ops == [] then 0
    else VisitsNow(h, s, ops[0], key) + Visits(h, Next(h, s, ops[0]), ops[1..], key)
  }

  ghost function VisitsNow(h: string -> nat, s: View, op: Step, key: string): nat
    requires Ok(s)
  {
    if op.Visit? && key in Bucket(h, s) then 1 else 0
  }

  /** The entry is in the table when each step of the run begins. */
  ghost predicate Stays(h: string -> nat, s: View, ops: seq<Step>, key: string)
    requires Ok(s)
    decreases |ops|
  {
    ops == [] || (key in s.keys && Stays(h, Next(h, s, ops[0]), ops[1..], key))
  }

  ghost predicate Wraps(s: View, op: Step)
    requires Ok(s)
  {
    op.Visit? && NextCursor(s.cursor, s.buckets) == 0
  }

  /** No step before the last brings the cursor back to 0. */
  ghost predicate OneCycle(h: string -> nat, s: View, ops: seq<Step>)
    requires Ok(s)
    decreases |ops|
  {
    |ops| > 1 ==> !Wraps(s, ops[0]) && OneCycle(h, Next(h, s, ops[0]), ops[1..])
  }

  /** The last step brings the cursor back to 0. */
  ghost predicate Completes(h: string -> nat, s: View, ops: seq<Step>)
    requires Ok(s)
    decreases |ops|
  {
    if |ops| == 0 then false
    else if |ops| == 1 then Wraps(s, ops[0])
    else Completes(h, Next(h, s, ops[0]), ops[1..])
  }

  /** 1 when the scan has yet to reach `key`'s bucket in this cycle, else 0. */
  ghost function Ahead(h: string -> nat, s: View, key: string): nat
    requires Ok(s)
  {
    if Rev(h(key) % U32, s.buckets) >= Rev(s.cursor, s.buckets) then 1 else 0
  }

  /** A doubling keeps what is behind the cursor behind it, and what is ahead ahead. */
  lemma DoublingKeepsAhead(h: string -> nat, s: View, key: string)
    requires Ok(s)
    ensures Ok(s.(buckets := 2 * s.buckets))
    ensures Ahead(h, s.(buckets := 2 * s.buckets), key) == Ahead(h, s, key)
  {
    RevDouble(h(key) % U32, s.buckets);
    RevDouble(s.cursor, s.buckets);
    DivModUnique(s.cursor, s.buckets, 0, s.cursor);
  }

  lemma HereWhenEqual(h: string -> nat, s: View, key: string)
    requires Ok(s) && key in s.keys
    ensures key in Bucket(h, s) <==> Rev(h(key) % U32, s.buckets) == Rev(s.cursor, s.buckets)
  {
    MaskedIsMod(h(key) % U32, s.buckets);
    MaskedIsMod(s.cursor, s.buckets);
    RevSame(h(key) % U32, s.cursor, s.buckets);
  }

  /** A step that does not end the cycle visits the entry exactly when it passes it. */
  lemma StepPasses(h: string -> nat, s: View, op: Step, key: string)
    requires Ok(s) && key in s.keys && !Wraps(s, op)
    ensures VisitsNow(h, s, op, key) + Ahead(h, Next(h, s, op), key) == Ahead(h, s, key)
  {
    match op
    case Insert(k) => DoublingKeepsAhead(h, s, key);
    case Assign(_) =>
    case Remove(_) =>
    case Clear =>
    case Visit(_) =>
      NextCursorSteps(s.cursor, s.buckets);
      HereWhenEqual(h, s, key);
  }

  /** The step that ends the cycle visits exactly what was still ahead. */
  lemma WrapFinishes(h: string -> nat, s: View, op: Step, key: string)
    requires Ok(s) && key in s.keys && Wraps(s, op)
    ensures VisitsNow(h, s, op, key) == Ahead(h, s, key)
  {
    NextCursorSteps(s.cursor, s.buckets);
    HereWhenEqual(h, s, key);
  }

  /** Within one cycle the number of visits is exactly what the cursor positions say. */
  lemma {:induction false} VisitsExact(h: string -> nat, s: View, ops: seq<Step>, key: string)
    requires Ok(s) && Legal(h, s, ops) && OneCycle(h, s, ops) && Stays(h, s, ops, key)
    ensures Completes(h, s, ops) ==> Visits(h, s, ops, key) == Ahead(h, s, key)
    ensures !Completes(h, s, ops) ==>
              Visits(h, s, ops, key) == Ahead(h, s, key) - Ahead(h, Final(h, s, ops), key)
    decreases |ops|
  {
    if ops == [] {
    } else {
      var t := Next(h, s, ops[0]);
      if Wraps(s, ops[0]) {
        WrapFinishes(h, s, ops[0], key);
      } else {
        StepPasses(h, s, ops[0], key);
        VisitsExact(h, t, ops[1..], key);
      }
      if |ops| == 1 {
        assert ops[1..] == [];
      }
    }
  }

  /** The scan guarantee: a cycle from cursor 0 back to cursor 0 visits every entry that
      is present throughout exactly once, whatever is inserted, grown or removed meanwhile. */
  lemma FullCycleVisitsOnce(h: string -> nat, s: View, ops: seq<Step>, key: string)
    requires Ok(s) && s.cursor == 0
    requires Legal(h, s, ops) && OneCycle(h, s, ops) && Completes(h, s, ops) && Stays(h, s, ops, key)
    ensures Visits(h, s, ops, key) == 1
  {
    VisitsExact(h, s, ops, key);
    RevZero(s.buckets);
  }

  /** From any point of a cycle to any later point of it, an entry that stays is visited at most once. */
  lemma NeverVisitedTwice(h: string -> nat, s: View, ops: seq<Step>, key: string)
    requires Ok(s) && Legal(h, s, ops) && OneCycle(h, s, ops) && Stays(h, s, ops, key)
    ensures Visits(h, s, ops, key) <= 1
  {
    VisitsExact(h, s, ops, key);
  }

  // ---- the table's operations are the steps --------------------------------------------------

  lemma InsertIsStep(h: string -> nat, m: map<string, Rec>, buckets: nat, cursor: nat, key: string, r: Rec)
    requires IsPow2(buckets) && cursor < buckets && key !in m
    ensures var t := m[key := r];
            Next(h, ViewOf(m, buckets, cursor), Insert(key)) == ViewOf(t, Grown(|t|, buckets), cursor)
  {
    var t := m[key := r];
    assert t.Keys == m.Keys + {key};
    assert |t| == |t.Keys|;
  }

  lemma AssignIsStep(h: string -> nat, m: map<string, Rec>, buckets: nat, cursor: nat, key: string, r: Rec)
    requires IsPow2(buckets) && cursor < buckets && key in m
    ensures Next(h, ViewOf(m, buckets, cursor), Assign(key)) == ViewOf(m[key := r], buckets, cursor)
  {
    assert m[key := r].Keys == m.Keys;
  }

  lemma RemoveIsStep(h: string -> nat, m: map<string, Rec>, buckets: nat, cursor: nat, key: string)
    requires IsPow2(buckets) && cursor < buckets && key in m
    ensures Next(h, ViewOf(m, buckets, cursor), Remove(key)) == ViewOf(m - {key}, buckets, cursor)
  {
    assert (m - {key}).Keys == m.Keys - {key};
  }

  lemma ScanIsStep(h: string -> nat, m: map<string, Rec>, buckets: nat, cursor: nat, drop: Rec -> bool)
    requires IsPow2(buckets) && cursor < buckets
    ensures var gone := Dropped(m, KeysAt(h, m.Keys, buckets, cursor), drop);
            && Enabled(h, ViewOf(m, buckets, cursor), Visit(gone))
            && Next(h, ViewOf(m, buckets, cursor), Visit(gone))
                 == ViewOf(m - gone, buckets, NextCursor(cursor, buckets))
  {
    var gone := Dropped(m, KeysAt(h, m.Keys, buckets, cursor), drop);
    assert (m - gone).Keys == m.Keys - gone;
  }
}
