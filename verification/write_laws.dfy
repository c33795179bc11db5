/** What becomes of queued bytes, write by write (src/net/connection.cpp). */
module WriteLaws {
  import opened Connections

  /** The socket takes some bytes, or the call is interrupted and made again. */
  predicate Progresses(w: WriteResult) {
    w.Interrupted? || (w.Wrote? && w.n > 0)
  }

  function TakenBy(w: WriteResult): nat {
    if w.Wrote? then w.n else 0
  }

  /** The bytes the first `i` writes take. */
  function Sum(writes: seq<WriteResult>, i: nat): nat
    requires i <= |writes|
  {
    if i == 0 then 0 else TakenBy(writes[0]) + Sum(writes[1..], i - 1)
  }

  /** The first `i` writes all make progress and do not finish the queue. */
  ghost predicate Underway(queued: string, writes: seq<WriteResult>, i: nat) {
    i <= |writes| && Sum(writes, i) < |queued| && forall j :: 0 <= j < i ==> Progresses(writes[j])
  }

  lemma DrainFirst(queued: string, writes: seq<WriteResult>)
    requires writes != [] && Progresses(writes[0]) && TakenBy(writes[0]) < |queued|
    ensures var k := TakenBy(writes[0]);
            var d := DrainOf(queued[k..], writes[1..]);
            DrainOf(queued, writes) == Drained(d.left, queued[..k] + d.written, d.failed)
  {
    assert queued[0..] == queued && queued[..0] == "";
  }

  lemma SumFirst(queued: string, writes: seq<WriteResult>, i: nat)
    requires i > 0 && Underway(queued, writes, i)
    ensures var k := TakenBy(writes[0]);
            k < |queued| && Progresses(writes[0]) && Sum(writes, i) == k + Sum(writes[1..], i - 1)
            && Underway(queued[k..], writes[1..], i - 1)
  {
    assert forall j :: 0 <= j < i - 1 ==> writes[1..][j] == writes[j + 1];
  }

  lemma Slices(s: string, k: nat, n: nat)
    requires k <= n <= |s|
    ensures s[k..][n - k..] == s[n..]
  {
  }

  lemma Joins(s: string, k: nat, n: nat, t: string)
    requires k <= n <= |s|
    ensures s[..k] + (s[k..][..n - k] + t) == s[..n] + t
  {
  }

  /** After them comes what DrainOf makes of the bytes left. */
  lemma {:induction false} DrainSkips(queued: string, writes: seq<WriteResult>, i: nat)
    requires Underway(queued, writes, i)
    ensures var n := Sum(writes, i);
            var d := DrainOf(queued[n..], writes[i..]);
            DrainOf(queued, writes) == Drained(d.left, queued[..n] + d.written, d.failed)
    decreases i
  {
    var n := Sum(writes, i);
    if i == 0 {
      assert queued[0..] == queued && writes[0..] == writes && queued[..0] == "";
    } else {
      var k := TakenBy(writes[0]);
      SumFirst(queued, writes, i);
      DrainFirst(queued, writes);
      DrainSkips(queued[k..], writes[1..], i - 1);
      Slices(queued, k, n);
      assert writes[1..][i - 1..] == writes[i..];
      Joins(queued, k, n, DrainOf(queued[n..], writes[i..]).written);
    }
  }

  /** The queue goes out from the front until it is empty, the socket is full, or a write fails. */
  lemma DrainIs(queued: string, writes: seq<WriteResult>, i: nat)
    requires Underway(queued, writes, i)
    ensures var n, d := Sum(writes, i), DrainOf(queued, writes);
            && (i == |writes| || writes[i].Blocked? || writes[i] == Wrote(0) ==>
                  d == Drained(queued[n..], queued[..n], false))
            && (i < |writes| && writes[i].WriteFailed? ==> d == Drained(queued[n..], queued[..n], true))
            && (i < |writes| && writes[i].Wrote? && n + writes[i].n >= |queued| ==> d == Drained("", queued, false))
  {
    var n := Sum(writes, i);
    DrainSkips(queued, writes, i);
    var left := queued[n..];
    assert queued[..n] + "" == queued[..n];
    if i < |writes| && writes[i].Wrote? && n + writes[i].n >= |queued| {
      assert writes[i..][0] == writes[i] && left[|left|..] == "" && left[..|left|] == left;
      assert queued[..n] + left == queued;
      assert DrainOf("", writes[i..][1..]) == Drained("", "", false);
    }
  }
}
