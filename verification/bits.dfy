/** Power-of-two masks and the reverse-binary cursor (src/core/bits.cpp).

    A bucket count is a power of two `n`, its mask is `n - 1`, and `x & mask` is `x % n`;
    a shift by one is a halving or a doubling. */
module Bits {

  predicate IsPow2(n: nat) {
    n == 1 || (n > 1 && n % 2 == 0 && IsPow2(n / 2))
  }

  /** `v & (n - 1)` for a power of two `n`: what is left of `v` after taking away every `n`. */
  function Masked(v: nat, n: nat): (b: nat)
    requires n > 0
    ensures b < n
  {
    if v < n then v else Masked(v - n, n)
  }

  lemma {:induction false} MaskedIsMod(v: nat, n: nat)
    requires n > 0
    ensures Masked(v, n) == v % n
  {
    if v < n {
      DivModUnique(v, n, 0, v);
    } else {
      MaskedIsMod(v - n, n);
      var q, r := (v - n) / n, (v - n) % n;
      assert v == (q + 1) * n + r;
      DivModUnique(v, n, q + 1, r);
    }
  }

  /** The reversal of the low log2(n) bits of `v`. */
  function Rev(v: nat, n: nat): (r: nat)
    requires IsPow2(n)
    ensures r < n
  {
    if n == 1 then 0 else (if v % 2 == 1 then n / 2 else 0) + Rev(v / 2, n / 2)
  }

  /** Doubling the table turns a reversed index into twice itself plus the new bit. */
  lemma {:induction false} RevDouble(v: nat, n: nat)
    requires IsPow2(n)
    ensures IsPow2(2 * n)
    ensures Rev(v, 2 * n) == 2 * Rev(v, n) + (v / n) % 2
  {
    assert (2 * n) / 2 == n;
    if n == 1 {
      assert Rev(v / 2, 1) == 0;
    } else {
      var m := n / 2;
      RevDouble(v / 2, m);
      assert n == 2 * m;
      DivDiv(v, m);
    }
  }

  lemma DivDiv(v: nat, m: nat)
    requires m > 0
    ensures (v / 2) / m == v / (2 * m)
    ensures v % (2 * m) == v % 2 + 2 * ((v / 2) % m)
  {
    var q, r := (v / 2) / m, (v / 2) % m;
    assert v == 2 * (q * m + r) + v % 2;
    assert v == q * (2 * m) + (2 * r + v % 2) by {
      assert 2 * (q * m) == q * (2 * m);
    }
    DivModUnique(v, 2 * m, q, 2 * r + v % 2);
  }

  lemma DivModUnique(v: nat, d: nat, q: nat, r: nat)
    requires d > 0 && r < d && v == q * d + r
    ensures v / d == q && v % d == r
  {
    var q', r' := v / d, v % d;
    assert v == q' * d + r';
    if q' > q {
      MulAtLeast(q' - q, d);
    } else if q' < q {
      MulAtLeast(q - q', d);
    }
  }

  lemma MulAtLeast(a: nat, d: nat)
    requires a >= 1
    ensures a * d >= d
  {
    assert a * d == d + (a - 1) * d;
  }

  /** Splitting off the top bit of an index into a table of 2n buckets. */
  lemma ModDouble(v: nat, n: nat)
    requires n > 0
    ensures v % (2 * n) == n * ((v / n) % 2) + v % n
  {
    var q, r := v / n, v % n;
    var b := q % 2;
    assert v == q * n + r && q == 2 * (q / 2) + b;
    assert v == (q / 2) * (2 * n) + (n * b + r) by {
      assert q * n == (2 * (q / 2) + b) * n == (q / 2) * (2 * n) + b * n;
    }
    DivModUnique(v, 2 * n, q / 2, n * b + r);
  }

  lemma HalfAndBit(a: nat, bit: nat)
    requires bit < 2
    ensures (2 * a + bit) / 2 == a && (2 * a + bit) % 2 == bit
  {
  }

  /** Reversal undoes itself, so it is a bijection on the buckets. */
  lemma {:induction false} RevRev(v: nat, n: nat)
    requires IsPow2(n)
    ensures Rev(Rev(v, n), n) == v % n
  {
    if n == 1 {
    } else {
      var m := n / 2;
      var bit := (v / m) % 2;
      RevDouble(v, m);
      HalfAndBit(Rev(v, m), bit);
      calc {
        Rev(Rev(v, n), n);
        (if bit == 1 then m else 0) + Rev(Rev(v, m), m);
        { RevRev(v, m); }
        (if bit == 1 then m else 0) + v % m;
        { assert m * bit == if bit == 1 then m else 0; }
        m * bit + v % m;
        { ModDouble(v, m); }
        v % n;
      }
    }
  }

  lemma RevBack(r: nat, n: nat)
    requires IsPow2(n) && r < n
    ensures Rev(Rev(r, n), n) == r
  {
    RevRev(r, n);
    DivModUnique(r, n, 0, r);
  }

  /** Only the masked bits of `v` are read. */
  lemma {:induction false} RevMod(v: nat, n: nat)
    requires IsPow2(n)
    ensures Rev(v % n, n) == Rev(v, n)
  {
    if n == 1 {
    } else {
      var m := n / 2;
      DivDiv(v, m);
      var w := v % n;
      assert w % 2 == v % 2 && w / 2 == (v / 2) % m;
      RevMod(v / 2, m);
    }
  }

  /** Two indices share a bucket exactly when their reversals agree. */
  lemma RevSame(u: nat, v: nat, n: nat)
    requires IsPow2(n)
    ensures u % n == v % n <==> Rev(u, n) == Rev(v, n)
  {
    RevMod(u, n);
    RevMod(v, n);
    RevRev(u, n);
    RevRev(v, n);
  }

  lemma ShiftIn(out: nat, bit: nat, half: nat)
    requires bit < 2
    ensures (out * 2 + bit) * half == out * (2 * half) + if bit == 1 then half else 0
  {
    if bit == 1 {
      assert (out * 2 + 1) * half == out * 2 * half + half;
    }
  }

  /** Moving the low bit of `w` onto `out` leaves the same reversal. */
  lemma RevShift(out: nat, w: nat, half: nat)
    requires IsPow2(half)
    ensures IsPow2(2 * half)
    ensures out * (2 * half) + Rev(w, 2 * half) == (out * 2 + w % 2) * half + Rev(w / 2, half)
  {
    assert (2 * half) / 2 == half;
    ShiftIn(out, w % 2, half);
  }

  /** The bit-by-bit reversal loop. */
  method ReverseBits(v: nat, mask: nat) returns (out: nat)
    requires IsPow2(mask + 1)
    ensures out == Rev(v, mask + 1)
  {
    out := 0;
    var m, w := mask, v;
    while m != 0
      invariant IsPow2(m + 1)
      invariant out * (m + 1) + Rev(w, m + 1) == Rev(v, mask + 1)
    {
      assert (m + 1) / 2 == m / 2 + 1;
      RevShift(out, w, m / 2 + 1);
      out := out * 2 + w % 2;
      w := w / 2;
      m := m / 2;
    }
  }

  function NextCursor(cursor: nat, n: nat): (c: nat)
    requires IsPow2(n)
    ensures c < n
  {
    var r := Rev(cursor, n) + 1;
    if r > n - 1 then 0 else Rev(r, n)
  }

  /** One step moves the reversed cursor up by one; 0 comes back only after the last bucket. */
  lemma NextCursorSteps(cursor: nat, n: nat)
    requires IsPow2(n)
    ensures NextCursor(cursor, n) == 0 <==> Rev(cursor, n) == n - 1
    ensures Rev(cursor, n) < n - 1 ==> Rev(NextCursor(cursor, n), n) == Rev(cursor, n) + 1
  {
    var r := Rev(cursor, n) + 1;
    if r < n {
      RevBack(r, n);
      RevZero(n);
    }
  }

  lemma RevZero(n: nat)
    requires IsPow2(n)
    ensures Rev(0, n) == 0
  {
    if n > 1 {
      RevZero(n / 2);
    }
  }

  method ComputeNextCursor(cursor: nat, mask: nat) returns (c: nat)
    requires IsPow2(mask + 1)
    ensures c == NextCursor(cursor, mask + 1)
  {
    var r := ReverseBits(cursor, mask);
    r := r + 1;
    if r > mask {
      return 0;
    }
    c := ReverseBits(r, mask);
  }

  /** Smallest power of two that is at least `n` (std::bit_ceil), and 1 for 0. */
  function NextPow2(n: nat): (p: nat)
    ensures IsPow2(p) && p >= n && p >= 1
    ensures forall q: nat :: IsPow2(q) && q >= n ==> p <= q
  {
    if n <= 1 then 1 else
      var p := 2 * NextPow2((n + 1) / 2);
      assert p / 2 == NextPow2((n + 1) / 2);
      p
  }
}
