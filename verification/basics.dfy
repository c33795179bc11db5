/** Small things several modules use. */
module Basics {

  function Min(a: nat, b: nat): nat {
    if a < b then a else b
  }

  function Max(a: nat, b: nat): nat {
    if a < b then b else a
  }

  /** memcpy(dst + at, src, |src|). */
  function CopyAt(dst: string, at: nat, src: string): (r: string)
    requires at + |src| <= |dst|
    ensures |r| == |dst|
    ensures r[..at] == dst[..at] && r[at..at + |src|] == src
  {
    dst[..at] + src + dst[at + |src|..]
  }

  /** Some number above every member: what is free when a finite set is taken. */
  ghost function Above(s: set<nat>): (top: nat)
    ensures forall a :: a in s ==> a < top
  {
    if s == {} then 0
    else
      var a :| a in s;
      var rest := Above(s - {a});
      assert forall b :: b in s ==> b == a || b in s - {a};
      Max(a + 1, rest)
  }

  lemma Smaller<T>(a: set<T>, b: set<T>)
    requires a <= b
    ensures |a| <= |b|
  {
    assert |b| == |a| + |b - a| by {
      assert b == a + (b - a);
    }
  }
}
