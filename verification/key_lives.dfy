/** One key of the plain map over rows of operations (src/core/store.cpp): what leaves it alone, what
    takes it away, what sets it. */
module KeyLives {
  import opened StoreRuns
  import Spec = StoreSpec

  /** The plain map after the first `i` rows. */
  ghost function RowsAt(p: Plain, rows: seq<seq<Step>>, i: nat): Plain
    requires i <= |rows|
  {
    if i == 0 then p else PlainAfter(RowsAt(p, rows, i - 1), rows[i - 1])
  }

  lemma {:induction false} RowsFirst(p: Plain, rows: seq<seq<Step>>, i: nat)
    requires 0 < i <= |rows|
    ensures RowsAt(p, rows, i) == RowsAt(PlainAfter(p, rows[0]), rows[1..], i - 1)
  {
    if i == 1 {
      assert RowsAt(p, rows, 0) == p;
    } else {
      RowsFirst(p, rows, i - 1);
    }
  }

  /** A set that stores its key; one with a past deadline would remove it. */
  predicate Puts(step: Step, k: string) {
    step.op.Set? && step.op.key == k && step.op.ok && !Spec.PastDeadline(step.op.at, step.now)
  }

  /** An erase, a flush, an eviction. */
  predicate Removes(step: Step, k: string) {
    match step.op
    case Set(key, _, at, _, gone, ok) => key != k && ok && !Spec.PastDeadline(at, step.now) && k in gone
    case Erase(key) => key == k
    case Clear => true
    case _ => false
  }

  predicate Spares(step: Step, k: string) {
    match step.op
    case Set(key, _, at, _, gone, ok) => !Spec.PastDeadline(at, step.now) && (ok ==> key != k && k !in gone)
    case Erase(key) => key != k
    case ExpireAt(key, _) => key != k
    case Clear => false
    case _ => true
  }

  /** Nothing in the row concerns the key: no set of it taken, no eviction, deletion, new deadline or flush. */
  ghost predicate LeavesAlone(run: seq<Step>, k: string) {
    forall i :: 0 <= i < |run| ==> Spares(run[i], k)
  }

  ghost predicate TakesAway(run: seq<Step>, k: string) {
    exists i :: 0 <= i < |run| && Removes(run[i], k)
  }

  ghost predicate NeverPuts(run: seq<Step>, k: string) {
    forall i :: 0 <= i < |run| ==> !Puts(run[i], k)
  }

  ghost predicate SameAt(p: Plain, q: Plain, k: string) {
    (k in p <==> k in q) && (k in p ==> p[k] == q[k])
  }

  lemma StepSpares(p: Plain, step: Step, k: string)
    requires Spares(step, k)
    ensures SameAt(p, PlainNext(p, step), k)
  {
  }

  lemma {:induction false} RowSpares(p: Plain, run: seq<Step>, k: string)
    requires LeavesAlone(run, k)
    ensures SameAt(p, PlainAfter(p, run), k)
    decreases |run|
  {
    if run == [] {
    } else {
      StepSpares(p, run[0], k);
      RowSpares(PlainNext(p, run[0]), run[1..], k);
    }
  }

  lemma {:induction false} RowsSpare(p: Plain, rows: seq<seq<Step>>, i: nat, j: nat, k: string)
    requires i <= j <= |rows| && forall m :: i <= m < j ==> LeavesAlone(rows[m], k)
    ensures SameAt(RowsAt(p, rows, i), RowsAt(p, rows, j), k)
    decreases j
  {
    if i < j {
      RowsSpare(p, rows, i, j - 1, k);
      RowSpares(RowsAt(p, rows, j - 1), rows[j - 1], k);
    }
  }

  lemma StepNeverPuts(p: Plain, step: Step, k: string)
    requires !Puts(step, k) && (k !in p || Removes(step, k))
    ensures k !in PlainNext(p, step)
  {
  }

  lemma {:induction false} RowNeverPuts(p: Plain, run: seq<Step>, k: string)
    requires NeverPuts(run, k) && (k !in p || TakesAway(run, k))
    ensures k !in PlainAfter(p, run)
    decreases |run|
  {
    if run == [] {
    } else {
      if k !in p || Removes(run[0], k) {
        StepNeverPuts(p, run[0], k);
      } else {
        var i :| 0 <= i < |run| && Removes(run[i], k);
        assert run[1..][i - 1] == run[i];
      }
      RowNeverPuts(PlainNext(p, run[0]), run[1..], k);
    }
  }

  lemma {:induction false} RowsNeverPut(p: Plain, rows: seq<seq<Step>>, i: nat, j: nat, k: string)
    requires i <= j <= |rows| && k !in RowsAt(p, rows, i) && forall m :: i <= m < j ==> NeverPuts(rows[m], k)
    ensures k !in RowsAt(p, rows, j)
    decreases j
  {
    if i < j {
      RowsNeverPut(p, rows, i, j - 1, k);
      RowNeverPuts(RowsAt(p, rows, j - 1), rows[j - 1], k);
    }
  }

  /** What was set stays set while it is left alone. */
  lemma SetStays(p: Plain, rows: seq<seq<Step>>, i: nat, j: nat, k: string, item: Item)
    requires i < j <= |rows| && forall m :: i < m < j ==> LeavesAlone(rows[m], k)
    requires var q := PlainAfter(RowsAt(p, rows, i), rows[i]); k in q && q[k] == item
    ensures var q := RowsAt(p, rows, j); k in q && q[k] == item
  {
    RowsSpare(p, rows, i + 1, j, k);
  }

  /** A key taken away stays away until it is set. */
  lemma StaysAway(p: Plain, rows: seq<seq<Step>>, i: nat, j: nat, k: string)
    requires i < j <= |rows| && TakesAway(rows[i], k) && forall m :: i <= m < j ==> NeverPuts(rows[m], k)
    ensures k !in RowsAt(p, rows, j)
  {
    RowNeverPuts(RowsAt(p, rows, i), rows[i], k);
    RowsNeverPut(p, rows, i + 1, j, k);
  }
}
