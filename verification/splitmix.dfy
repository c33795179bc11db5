/** The splitmix64 generator (src/core/bits.cpp). A 64-bit word is a natural below 2^64;
    sums and products wrap modulo 2^64, and exclusive-or and shifts act on the binary digits. */
module SplitMix {

  const WORD: nat := 0x1_0000_0000_0000_0000
  const GAMMA: nat := 0x9e3779b97f4a7c15
  const MUL1: nat := 0xbf58476d1ce4e5b9
  const MUL2: nat := 0x94d049bb133111eb

  type Word = n: nat | n < WORD

  function Xor(a: nat, b: nat): nat
    decreases a + b
  {
    if a == 0 && b == 0 then 0 else 2 * Xor(a / 2, b / 2) + (a + b) % 2
  }

  function Shr(a: nat, k: nat): nat
    decreases k
  {
    if k == 0 then a else Shr(a / 2, k - 1)
  }

  function XorShift(z: Word, k: nat): Word {
    XorFits(z, k);
    Xor(z, Shr(z, k))
  }

  function Times(z: Word, c: nat): Word {
    (z * c) % WORD
  }

  function Advance(state: Word): Word {
    (state + GAMMA) % WORD
  }

  /** The output for an advanced state. */
  function Mix(z: Word): Word {
    XorShift(Times(XorShift(Times(XorShift(z, 30), MUL1), 27), MUL2), 31)
  }

  /** One draw: the state advances, and the output is the mix of the advanced state. */
  method Draw(state: Word) returns (output: Word, next: Word)
    ensures next == Advance(state) && output == Mix(next)
  {
    next := (state + GAMMA) % WORD;
    var z: Word := next;
    z := Times(XorShift(z, 30), MUL1);
    z := Times(XorShift(z, 27), MUL2);
    output := XorShift(z, 31);
  }

  // ---- the digits -------------------------------------------------------------------

  lemma {:induction false} ShrOfXor(a: nat, b: nat, k: nat)
    ensures Shr(Xor(a, b), k) == Xor(Shr(a, k), Shr(b, k))
    decreases k
  {
    if k > 0 {
      assert Xor(a, b) / 2 == Xor(a / 2, b / 2);
      ShrOfXor(a / 2, b / 2, k - 1);
    }
  }

  lemma {:induction false} ShrTwice(a: nat, j: nat, k: nat)
    ensures Shr(Shr(a, j), k) == Shr(a, j + k)
    decreases j
  {
    if j > 0 {
      ShrTwice(a / 2, j - 1, k);
    }
  }

  lemma {:induction false} ShrZero(k: nat)
    ensures Shr(0, k) == 0
  {
    if k > 0 {
      ShrZero(k - 1);
    }
  }

  lemma XorDigits(a: nat, b: nat)
    ensures Xor(a, b) / 2 == Xor(a / 2, b / 2) && Xor(a, b) % 2 == (a + b) % 2
  {
  }

  lemma Parity(x: nat, a: nat, b: nat)
    requires x % 2 == (a + b) % 2
    ensures (x + b) % 2 == a % 2
  {
  }

  lemma {:induction false} XorCancels(a: nat, b: nat)
    ensures Xor(Xor(a, b), b) == a
    decreases a + b
  {
    if a == 0 && b == 0 {
    } else {
      XorCancels(a / 2, b / 2);
      XorDigits(a, b);
      XorDigits(Xor(a, b), b);
      Parity(Xor(a, b), a, b);
    }
  }

  lemma {:induction false} XorZero(a: nat)
    ensures Xor(a, 0) == a
  {
    if a > 0 {
      XorZero(a / 2);
    }
  }

  /** Being a 64-bit word is having no digit from the 64th on. */
  lemma WordDigits(a: nat)
    ensures Shr(a, 64) == a / WORD
  {
    ShrTwice(a, 8, 56);
    ShrTwice(Shr(a, 8), 8, 48);
    Shr8(a);
    var b := Shr(a, 8);
    Shr8(b);
    var c := Shr(b, 8);
    Shr8(c);
    ShrTwice(c, 8, 40);
    var d := Shr(c, 8);
    Shr8(d);
    ShrTwice(d, 8, 32);
    var e := Shr(d, 8);
    Shr8(e);
    ShrTwice(e, 8, 24);
    var f := Shr(e, 8);
    Shr8(f);
    ShrTwice(f, 8, 16);
    var g := Shr(f, 8);
    Shr8(g);
    ShrTwice(g, 8, 8);
    Shr8(Shr(g, 8));
  }

  lemma Shr8(a: nat)
    ensures Shr(a, 8) == a / 256
  {
    assert Shr(a, 8) == Shr(a / 2, 7) == Shr(a / 4, 6) == Shr(a / 8, 5) == Shr(a / 16, 4)
        == Shr(a / 32, 3) == Shr(a / 64, 2) == Shr(a / 128, 1) == a / 256;
  }

  lemma XorFits(z: Word, k: nat)
    ensures Xor(z, Shr(z, k)) < WORD
  {
    WordDigits(z);
    ShrTwice(z, k, 64);
    ShrTwice(z, 64, k);
    ShrZero(k);
    ShrOfXor(z, Shr(z, k), 64);
    WordDigits(Xor(z, Shr(z, k)));
  }

  lemma XorWord(a: Word, b: Word)
    ensures Xor(a, b) < WORD
  {
    WordDigits(a);
    WordDigits(b);
    ShrOfXor(a, b, 64);
    WordDigits(Xor(a, b));
  }

  function XorOf(a: Word, b: Word): Word {
    XorWord(a, b);
    Xor(a, b)
  }

  // ---- every stage of the mix is onto --------------------------------------------------

  function Unshift(y: Word, k: nat): nat {
    Xor(y, Xor(Shr(y, k), Shr(y, 2 * k)))
  }

  lemma ShiftUndone(y: Word, k: nat)
    requires 3 * k >= 64
    ensures Unshift(y, k) < WORD && XorShift(Unshift(y, k), k) == y
  {
    var v := Xor(Shr(y, k), Shr(y, 2 * k));
    var u := Xor(y, v);
    WordDigits(y);
    ShrZero(k); ShrZero(2 * k); ShrZero(3 * k - 64);
    ShrTwice(y, k, 64); ShrTwice(y, 64, k);
    ShrTwice(y, 2 * k, 64); ShrTwice(y, 64, 2 * k);
    ShrOfXor(y, v, 64);
    ShrOfXor(Shr(y, k), Shr(y, 2 * k), 64);
    WordDigits(u);
    ShrTwice(y, k, k); ShrTwice(y, 2 * k, k); ShrTwice(y, 64, 3 * k - 64);
    ShrOfXor(y, v, k);
    ShrOfXor(Shr(y, k), Shr(y, 2 * k), k);
    XorZero(Shr(y, 2 * k));
    assert Shr(u, k) == v;
    XorCancels(y, v);
  }

  /** Multiplying by an odd constant is undone by multiplying by its inverse modulo 2^64. */
  lemma TimesUndone(y: Word, c: nat, inverse: nat, k: nat)
    requires inverse * c == k * WORD + 1
    ensures Times(Times(y, inverse), c) == y
  {
    var q, r := (y * inverse) / WORD, (y * inverse) % WORD;
    assert y * inverse == q * WORD + r;
    assert r * c == y * (inverse * c) - (q * c) * WORD by {
      assert (y * inverse) * c == y * (inverse * c);
      assert (q * WORD) * c == (q * c) * WORD;
    }
    assert y * (inverse * c) == (y * k) * WORD + y;
    assert r * c == (y * k - q * c) * WORD + y;
    ModUnique(r * c, y * k - q * c, y);
  }

  lemma ModUnique(v: int, q: int, r: nat)
    requires v == q * WORD + r && r < WORD
    ensures v % WORD == r
  {
  }

  const MUL1_INVERSE: nat := 0x96de1b173f119089
  const MUL2_INVERSE: nat := 0x319642b2d24d8ec3
  const GAMMA_INVERSE: nat := 0xf1de83e19937733d

  lemma Inverses()
    ensures exists k: nat :: MUL1_INVERSE * MUL1 == k * WORD + 1
    ensures exists k: nat :: MUL2_INVERSE * MUL2 == k * WORD + 1
    ensures exists k: nat :: GAMMA_INVERSE * GAMMA == k * WORD + 1
  {
    var k1 := MUL1_INVERSE * MUL1 / WORD;
    var k2 := MUL2_INVERSE * MUL2 / WORD;
    var k3 := GAMMA_INVERSE * GAMMA / WORD;
    assert MUL1_INVERSE * MUL1 == k1 * WORD + 1;
    assert MUL2_INVERSE * MUL2 == k2 * WORD + 1;
    assert GAMMA_INVERSE * GAMMA == k3 * WORD + 1;
  }

  /** The mixer is onto: every 64-bit word is the output of some state. */
  lemma MixOnto(y: Word) returns (z: Word)
    ensures Mix(z) == y
  {
    Inverses();
    var k1: nat :| MUL1_INVERSE * MUL1 == k1 * WORD + 1;
    var k2: nat :| MUL2_INVERSE * MUL2 == k2 * WORD + 1;
    ShiftUndone(y, 31);
    var a: Word := Unshift(y, 31);
    TimesUndone(a, MUL2, MUL2_INVERSE, k2);
    var b := Times(a, MUL2_INVERSE);
    ShiftUndone(b, 27);
    var c: Word := Unshift(b, 27);
    TimesUndone(c, MUL1, MUL1_INVERSE, k1);
    var d := Times(c, MUL1_INVERSE);
    ShiftUndone(d, 30);
    z := Unshift(d, 30);
  }

  // ---- the state walk has full period ----------------------------------------------------

  /** How many advances take `state` to `target`. */
  function Distance(state: Word, target: Word): nat {
    ((target - state) * GAMMA_INVERSE) % WORD
  }

  lemma NoDistance(state: Word, target: Word)
    requires Distance(state, target) == 0
    ensures state == target
  {
    Inverses();
    var k: nat :| GAMMA_INVERSE * GAMMA == k * WORD + 1;
    var g := target - state;
    var q := (g * GAMMA_INVERSE) / WORD;
    assert g * (GAMMA_INVERSE * GAMMA) == (g * k) * WORD + g;
    assert (g * GAMMA_INVERSE) * GAMMA == (q * GAMMA) * WORD;
    assert g == (q * GAMMA - g * k) * WORD;
  }

  /** From any state the walk reaches any target, one step closer with each advance. */
  lemma AdvanceCloser(state: Word, target: Word)
    requires state != target
    ensures Distance(Advance(state), target) == Distance(state, target) - 1
  {
    Inverses();
    var k: nat :| GAMMA_INVERSE * GAMMA == k * WORD + 1;
    var d := Distance(state, target);
    var g := target - state;
    var q := (g * GAMMA_INVERSE) / WORD;
    assert g * GAMMA_INVERSE == q * WORD + d;
    if d == 0 {
      NoDistance(state, target);
    }
    var s := Advance(state);
    var p := (state + GAMMA) / WORD;
    assert target - s == g - GAMMA + p * WORD;
    assert (target - s) * GAMMA_INVERSE == (q - k + p * GAMMA_INVERSE) * WORD + (d - 1) by {
      assert (g - GAMMA + p * WORD) * GAMMA_INVERSE
          == g * GAMMA_INVERSE - GAMMA_INVERSE * GAMMA + (p * GAMMA_INVERSE) * WORD;
    }
    ModUnique((target - s) * GAMMA_INVERSE, q - k + p * GAMMA_INVERSE, d - 1);
  }
}
