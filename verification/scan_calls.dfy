/** Any table calls in a row (src/core/table.h) are a run of the resumable scan. */
module ScanCalls {
  import opened Bits
  import opened Entries
  import opened TableModel
  import opened Tables
  import opened Scan

  /** A client's calls on the table. It looks a key up before it uses the entry. */
  datatype Call =
    | Put(key: string, value: string)
    | Stamp(key: string, expiresAtMs: int, lruClock: nat)
    | Drop(key: string)
    | Empty
    | ScanNext(drop: Rec -> bool)

  /** What a client knows of a table: the map it stands for, its bucket count, its own cursor. */
  datatype Tab = Tab(m: map<string, Rec>, buckets: nat, cursor: nat)

  ghost predicate Fine(t: Tab) {
    IsPow2(t.buckets) && t.cursor < t.buckets
  }

  /** The keys a scan from here hands over. */
  ghost function Here(h: string -> nat, t: Tab): set<string>
    requires Fine(t)
  {
    KeysAt(h, t.m.Keys, t.buckets, t.cursor)
  }

  /** A full pool leaves a new key out; lengths and clocks past 32 bits are not the table's. */
  ghost function After(h: string -> nat, capacity: nat, t: Tab, call: Call): Tab
    requires Fine(t)
  {
    match call
    case Put(k, v) =>
      if |k| + |v| >= U32 then t
      else if k in t.m then t.(m := t.m[k := t.m[k].(value := v)])
      else if |t.m| == capacity then t
      else
        var m := t.m[k := Rec(v, NO_EXPIRY, 0)];
        t.(m := m, buckets := Grown(|m|, t.buckets))
    case Stamp(k, at, clock) => if k in t.m && clock < U32 then t.(m := t.m[k := Rec(t.m[k].value, at, clock)]) else t
    case Drop(k) => if k in t.m then t.(m := t.m - {k}) else t
    case Empty => t.(m := map[])
    case ScanNext(drop) => t.(m := t.m - Dropped(t.m, Here(h, t), drop), cursor := NextCursor(t.cursor, t.buckets))
  }

  /** The step of the scan's state machine that a call is; none when it changes nothing. */
  ghost function StepOf(h: string -> nat, capacity: nat, t: Tab, call: Call): seq<Step>
    requires Fine(t)
  {
    match call
    case Put(k, v) =>
      if |k| + |v| >= U32 then []
      else if k in t.m then [Step.Assign(k)]
      else if |t.m| == capacity then [] else [Step.Insert(k)]
    case Stamp(k, _, clock) => if k in t.m && clock < U32 then [Step.Assign(k)] else []
    case Drop(k) => if k in t.m then [Step.Remove(k)] else []
    case Empty => [Step.Clear]
    case ScanNext(drop) => [Visit(Dropped(t.m, Here(h, t), drop))]
  }

  ghost function TabView(t: Tab): View {
    ViewOf(t.m, t.buckets, t.cursor)
  }

  ghost predicate HandsOut(h: string -> nat, s: View, ops: seq<Step>, handed: seq<string>, key: string)
    requires Ok(s)
  {
    multiset(handed)[key] == Visits(h, s, ops, key)
  }

  /** A legal run from `s` to `t` in which the visitor was handed exactly `handed`. */
  ghost predicate Follows(h: string -> nat, s: View, ops: seq<Step>, handed: seq<string>, t: View) {
    && Ok(s) && Legal(h, s, ops) && Final(h, s, ops) == t
    && forall key {:trigger HandsOut(h, s, ops, handed, key)} :: HandsOut(h, s, ops, handed, key)
  }

  /** One step of it. */
  ghost predicate Takes(h: string -> nat, s: View, ops: seq<Step>, handed: seq<string>, t: View) {
    && Ok(s) && |ops| <= 1
    && (ops == [] ==> s == t && handed == [])
    && (|ops| == 1 ==> Enabled(h, s, ops[0]) && Next(h, s, ops[0]) == t &&
                       multiset(handed) == if ops[0].Visit? then multiset(Bucket(h, s)) else multiset{})
  }

  lemma FollowsNothing(h: string -> nat, s: View)
    requires Ok(s)
    ensures Follows(h, s, [], [], s)
  {
  }

  /** A run goes on by a step at its end. */
  lemma {:induction false} RunOn(h: string -> nat, s: View, ops: seq<Step>, op: Step)
    requires Ok(s) && Legal(h, s, ops) && Enabled(h, Final(h, s, ops), op)
    ensures Legal(h, s, ops + [op]) && Final(h, s, ops + [op]) == Next(h, Final(h, s, ops), op)
    decreases |ops|
  {
    if ops == [] {
      assert [op][1..] == [];
      assert ops + [op] == [op];
    } else {
      RunOn(h, Next(h, s, ops[0]), ops[1..], op);
      assert (ops + [op])[1..] == ops[1..] + [op];
    }
  }

  lemma {:induction false} VisitsOn(h: string -> nat, s: View, ops: seq<Step>, op: Step, key: string)
    requires Ok(s)
    ensures Visits(h, s, ops + [op], key) == Visits(h, s, ops, key) + VisitsNow(h, Final(h, s, ops), op, key)
    decreases |ops|
  {
    if ops == [] {
      assert [op][1..] == [];
      assert ops + [op] == [op];
    } else {
      VisitsOn(h, Next(h, s, ops[0]), ops[1..], op, key);
      assert (ops + [op])[1..] == ops[1..] + [op];
    }
  }

  lemma FollowsOn(h: string -> nat, s: View, ops: seq<Step>, handed: seq<string>, t: View, more: seq<Step>,
                  given: seq<string>, u: View)
    requires Follows(h, s, ops, handed, t) && Takes(h, t, more, given, u)
    ensures Follows(h, s, ops + more, handed + given, u)
  {
    if more == [] {
      assert ops + more == ops && handed + given == handed;
    } else {
      var op := more[0];
      assert more == [op];
      RunOn(h, s, ops, op);
      forall key ensures HandsOut(h, s, ops + more, handed + given, key) {
        assert HandsOut(h, s, ops, handed, key);
        VisitsOn(h, s, ops, op, key);
        assert multiset(handed + given) == multiset(handed) + multiset(given);
      }
    }
  }

  /** What the scan guarantees, of what the visitor is handed: over a whole cycle, each entry that
      is there throughout comes exactly once; in part of a cycle, at most once. */
  lemma HandedOnce(h: string -> nat, s: View, ops: seq<Step>, handed: seq<string>, t: View, key: string)
    requires Follows(h, s, ops, handed, t) && OneCycle(h, s, ops) && Stays(h, s, ops, key)
    ensures multiset(handed)[key] <= 1
    ensures s.cursor == 0 && Completes(h, s, ops) ==> multiset(handed)[key] == 1
  {
    assert HandsOut(h, s, ops, handed, key);
    NeverVisitedTwice(h, s, ops, key);
    if s.cursor == 0 && Completes(h, s, ops) {
      FullCycleVisitsOnce(h, s, ops, key);
    }
  }

  /** Every call is at most one step, and hands over what that step visits. */
  lemma CallTakes(h: string -> nat, capacity: nat, t: Tab, call: Call, handed: seq<string>)
    requires Fine(t) && multiset(handed) == if call.ScanNext? then multiset(Here(h, t)) else multiset{}
    ensures Takes(h, TabView(t), StepOf(h, capacity, t, call), handed, TabView(After(h, capacity, t, call)))
  {
    match call
    case Put(k, v) =>
      if k in t.m {
        AssignIsStep(h, t.m, t.buckets, t.cursor, k, t.m[k].(value := v));
      } else {
        InsertIsStep(h, t.m, t.buckets, t.cursor, k, Rec(v, NO_EXPIRY, 0));
        assert (2 * t.buckets) / 2 == t.buckets;
      }
    case Stamp(k, at, clock) =>
      if k in t.m {
        AssignIsStep(h, t.m, t.buckets, t.cursor, k, Rec(t.m[k].value, at, clock));
      }
    case Drop(k) =>
      if k in t.m {
        RemoveIsStep(h, t.m, t.buckets, t.cursor, k);
      }
    case Empty =>
    case ScanNext(drop) =>
      ScanIsStep(h, t.m, t.buckets, t.cursor, drop);
      NextCursorSteps(t.cursor, t.buckets);
  }

  // ---- the calls on the table itself ------------------------------------------------------------

  ghost function TabOf(table: Table, cursor: nat): Tab
    reads table
  {
    Tab(table.Contents(), table.BucketCount(), cursor)
  }

  method PerformPut(table: Table, key: string, value: string, ghost t: Tab)
    requires table.Valid() && t == TabOf(table, t.cursor) && Fine(t)
    modifies table
    ensures table.Valid() && TabOf(table, t.cursor) == After(table.hashOf, table.capacity, t, Put(key, value))
  {
    if |key| + |value| >= U32 {
      return;
    }
    var p := table.Find(key);
    if p == Null {
      p := table.Insert(key, value);
    } else {
      table.Assign(p.block, value);
    }
  }

  method PerformStamp(table: Table, key: string, expiresAtMs: int, lruClock: nat, ghost t: Tab)
    requires table.Valid() && t == TabOf(table, t.cursor) && Fine(t)
    modifies table
    ensures table.Valid()
    ensures TabOf(table, t.cursor) == After(table.hashOf, table.capacity, t, Stamp(key, expiresAtMs, lruClock))
  {
    var p := table.Find(key);
    if p.Ref? && lruClock < U32 {
      table.Stamp(p.block, expiresAtMs, lruClock);
    }
  }

  method PerformDrop(table: Table, key: string, ghost t: Tab)
    requires table.Valid() && t == TabOf(table, t.cursor) && Fine(t)
    modifies table
    ensures table.Valid() && TabOf(table, t.cursor) == After(table.hashOf, table.capacity, t, Drop(key))
  {
    var p := table.Find(key);
    if p.Ref? {
      ghost var at := table.Remove(p.block);
    }
  }

  method PerformScan(table: Table, drop: Rec -> bool, cursor: nat, ghost t: Tab)
    returns (next: nat, ghost handed: seq<string>)
    requires table.Valid() && t == TabOf(table, cursor) && Fine(t)
    modifies table
    ensures table.Valid() && TabOf(table, next) == After(table.hashOf, table.capacity, t, ScanNext(drop))
    ensures multiset(handed) == multiset(Here(table.hashOf, t))
  {
    var visited, dropped;
    next, visited, dropped, handed := table.ScanBucket(cursor, drop);
  }

  /** One call does what the client's view of it says. */
  method Perform(table: Table, cursor: nat, call: Call) returns (next: nat, ghost handed: seq<string>)
    requires table.Valid() && Fine(TabOf(table, cursor))
    modifies table
    ensures table.Valid() && TabOf(table, next) == After(table.hashOf, table.capacity, old(TabOf(table, cursor)), call)
    ensures multiset(handed) == if call.ScanNext? then multiset(Here(table.hashOf, old(TabOf(table, cursor))))
              else multiset{}
  {
    ghost var t := TabOf(table, cursor);
    next, handed := cursor, [];
    match call {
      case Put(key, value) => PerformPut(table, key, value, t);
      case Stamp(key, at, clock) => PerformStamp(table, key, at, clock, t);
      case Drop(key) => PerformDrop(table, key, t);
      case Empty => table.Clear();
      case ScanNext(drop) => next, handed := PerformScan(table, drop, cursor, t);
    }
  }

  // ---- runs of calls ----------------------------------------------------------------------------

  /** What a run of calls makes of the table, and the scan's steps it is made of. */
  datatype Run = Run(t: Tab, ops: seq<Step>)

  ghost function RunOf(h: string -> nat, capacity: nat, t: Tab, calls: seq<Call>): (r: Run)
    requires Fine(t)
    ensures Fine(r.t)
    decreases |calls|
  {
    if calls == [] then Run(t, [])
    else
      var r := RunOf(h, capacity, t, calls[..|calls| - 1]);
      var call := calls[|calls| - 1];
      AfterFine(h, capacity, r.t, call);
      Run(After(h, capacity, r.t, call), r.ops + StepOf(h, capacity, r.t, call))
  }

  lemma AfterFine(h: string -> nat, capacity: nat, t: Tab, call: Call)
    requires Fine(t)
    ensures Fine(After(h, capacity, t, call))
  {
    assert (2 * t.buckets) / 2 == t.buckets;
    NextCursorSteps(t.cursor, t.buckets);
  }

  /** Any calls in a row: the table becomes what the plain map would, the steps they are make a
      legal run of the scan, and the visitor is handed each key as often as the run visits it. */
  method PerformAll(table: Table, cursor: nat, calls: seq<Call>) returns (next: nat, ghost handed: seq<string>)
    requires table.Valid() && cursor < table.BucketCount()
    modifies table
    ensures table.Valid() && next < table.BucketCount()
    ensures Fine(old(TabOf(table, cursor)))
    ensures var r := RunOf(table.hashOf, table.capacity, old(TabOf(table, cursor)), calls);
            TabOf(table, next) == r.t
            && Follows(table.hashOf, TabView(old(TabOf(table, cursor))), r.ops, handed, TabView(r.t))
  {
    ghost var t0 := TabOf(table, cursor);
    next, handed := cursor, [];
    FollowsNothing(table.hashOf, TabView(t0));
    for i := 0 to |calls|
      invariant table.Valid() && next < table.BucketCount()
      invariant var r := RunOf(table.hashOf, table.capacity, t0, calls[..i]);
                TabOf(table, next) == r.t && Follows(table.hashOf, TabView(t0), r.ops, handed, TabView(r.t))
    {
      ghost var r, given := RunOf(table.hashOf, table.capacity, t0, calls[..i]), [];
      assert calls[..i + 1][..i] == calls[..i];
      next, given := Perform(table, next, calls[i]);
      CallTakes(table.hashOf, table.capacity, r.t, calls[i], given);
      FollowsOn(table.hashOf, TabView(t0), r.ops, handed, TabView(r.t),
                StepOf(table.hashOf, table.capacity, r.t, calls[i]), given, TabView(TabOf(table, next)));
      handed := handed + given;
    }
    assert calls[..|calls|] == calls;
  }
}
