/** The rotations and the round of SipHash (src/core/hash.cpp), by arithmetic and by halves. */
module SipRounds {
  import opened SplitMix
  import opened SipHash

  const HALF: nat := 0x8000_0000_0000_0000

  // ---- rotation ---------------------------------------------------------------------------------

  lemma {:induction false} Pow2Sum(a: nat, b: nat)
    ensures Pow2(a) * Pow2(b) == Pow2(a + b)
  {
    if a > 0 {
      Pow2Sum(a - 1, b);
      Twice(Pow2(b), Pow2(a - 1));
    }
  }

  lemma Whole(a: nat, b: nat)
    requires a + b == 64
    ensures Pow2(a) * Pow2(b) == WORD
  {
    Pow2Sum(a, b);
    Pow2Sixteen();
  }

  lemma Below(hi: nat, p: nat, lo: nat, q: nat)
    requires hi < p && lo < q
    ensures hi * q + lo < p * q
  {
    assert hi * q <= (p - 1) * q;
  }

  lemma Distributes(t: nat, p: nat, hi: nat, q: nat)
    ensures (t * p + hi) * q == t * (p * q) + hi * q
  {
  }

  /** One place to the left: the top digit comes round to the bottom. */
  function Turned(x: Word): Word {
    if x < HALF then 2 * x else 2 * x - WORD + 1
  }

  lemma TurnedTop(t: nat, rest: nat, x: Word)
    requires t < 2 && rest < HALF && x == t * HALF + rest
    ensures Turned(x) == 2 * rest + t
  {
  }

  /** The top digit `t` leaves the high part and joins the low part. */
  lemma TurnedParts(t: nat, hi: nat, p: nat, lo: nat, q: nat, x: Word)
    requires t < 2 && hi < p && lo < q && p * q == HALF && x == (t * p + hi) * q + lo
    ensures Turned(x) == hi * (2 * q) + (2 * lo + t)
  {
    Below(hi, p, lo, q);
    Distributes(t, p, hi, q);
    TurnedTop(t, hi * q + lo, x);
    Twice(hi, q);
  }

  lemma RotlTurn(x: Word, k: nat)
    requires k > 0
    ensures Rotl(x, k) == Rotl(Turned(x), k - 1)
  {
  }

  lemma Rejoined(lo: nat, t: nat, p: nat, hi: nat)
    ensures (2 * lo + t) * p + hi == lo * (2 * p) + (t * p + hi)
  {
  }

  /** Rotation swaps the top `k` digits with the rest. */
  lemma {:induction false} RotlParts(hi: nat, lo: nat, k: nat, x: Word)
    requires k <= 64 && hi < Pow2(k) && lo < Pow2(64 - k) && x == hi * Pow2(64 - k) + lo
    ensures Rotl(x, k) == lo * Pow2(k) + hi
    decreases k
  {
    if k == 0 {
    } else {
      var p, q := Pow2(k - 1), Pow2(64 - k);
      var t, rest := if hi < p then 0 else 1, if hi < p then hi else hi - p;
      assert p * q == HALF by {
        Whole(k, 64 - k);
        Twice(q, p);
      }
      TurnedParts(t, rest, p, lo, q, x);
      RotlParts(rest, 2 * lo + t, k - 1, Turned(x));
      RotlTurn(x, k);
      Rejoined(lo, t, p, rest);
    }
  }

  lemma NoMore(hi: nat, p: nat, q: nat, x: nat)
    requires hi * q <= x < p * q
    ensures hi < p
  {
  }

  lemma Divides(x: nat, p: nat, q: nat) returns (hi: nat, lo: nat)
    requires q > 0 && p * q == WORD && x < WORD
    ensures hi == x / q && hi < p && lo < q && x == hi * q + lo && (x * p) % WORD == lo * p
  {
    hi, lo := x / q, x % q;
    NoMore(hi, p, q, x);
    Below(lo, q, 0, p);
    Distributes(hi, q, lo, p);
    ModUnique(x * p, hi, lo * p);
  }

  lemma Parts(x: Word, k: nat) returns (hi: nat, lo: nat)
    requires k <= 64
    ensures hi == x / Pow2(64 - k) && hi < Pow2(k) && lo < Pow2(64 - k) && x == hi * Pow2(64 - k) + lo
    ensures (x * Pow2(k)) % WORD == lo * Pow2(k)
  {
    Whole(k, 64 - k);
    hi, lo := Divides(x, Pow2(k), Pow2(64 - k));
  }

  /** Rotation by arithmetic: the digits shifted out at the top are added at the bottom. */
  lemma RotlIs(x: Word, k: nat)
    requires k <= 64
    ensures Rotl(x, k) == (x * Pow2(k)) % WORD + x / Pow2(64 - k)
  {
    var hi, lo := Parts(x, k);
    RotlParts(hi, lo, k, x);
  }

  lemma RotlUndone(x: Word, k: nat)
    requires k <= 64
    ensures Rotl(Rotl(x, k), 64 - k) == x
  {
    var hi, lo := Parts(x, k);
    RotlParts(hi, lo, k, x);
    RotlParts(lo, hi, 64 - k, Rotl(x, k));
  }

  // ---- the round, by halves ---------------------------------------------------------------------

  /** The half-round of the definition: add, rotate and mix two pairs of lanes, and rotate the first sum. */
  function HalfRound(s: Sip, left: nat, right: nat): Sip {
    var a, c := Plus(s.v0, s.v1), Plus(s.v2, s.v3);
    Sip(Rotl(a, 32), XorOf(Rotl(s.v1, left), a), c, XorOf(Rotl(s.v3, right), c))
  }

  function Crossed(s: Sip): Sip {
    Sip(s.v2, s.v1, s.v0, s.v3)
  }

  function Minus(a: Word, b: Word): Word {
    (a - b) % WORD
  }

  function UnhalfRound(s: Sip, left: nat, right: nat): Sip
    requires left <= 64 && right <= 64
  {
    var a := Rotl(s.v0, 32);
    var b, d := Rotl(XorOf(s.v1, a), 64 - left), Rotl(XorOf(s.v3, s.v2), 64 - right);
    Sip(Minus(a, b), b, Minus(s.v2, d), d)
  }

  lemma PlusUndone(a: Word, b: Word)
    ensures Minus(Plus(a, b), b) == a
  {
  }

  lemma HalfRoundUndone(s: Sip, left: nat, right: nat)
    requires left <= 64 && right <= 64
    ensures UnhalfRound(HalfRound(s, left, right), left, right) == s
  {
    var a, c := Plus(s.v0, s.v1), Plus(s.v2, s.v3);
    RotlUndone(a, 32);
    XorCancels(Rotl(s.v1, left), a);
    XorCancels(Rotl(s.v3, right), c);
    RotlUndone(s.v1, left);
    RotlUndone(s.v3, right);
    PlusUndone(s.v0, s.v1);
    PlusUndone(s.v2, s.v3);
  }

  /** SipRound is two half-rounds, the second with the lanes crossed, and so can be run backwards. */
  lemma RoundIsHalves(s: Sip)
    ensures RoundOf(s) == Crossed(HalfRound(Crossed(HalfRound(s, 13, 16)), 17, 21))
    ensures UnhalfRound(Crossed(UnhalfRound(Crossed(RoundOf(s)), 17, 21)), 13, 16) == s
  {
    HalfRoundUndone(s, 13, 16);
    HalfRoundUndone(Crossed(HalfRound(s, 13, 16)), 17, 21);
  }

  lemma RoundInjective(s: Sip, t: Sip)
    requires RoundOf(s) == RoundOf(t)
    ensures s == t
  {
    RoundIsHalves(s);
    RoundIsHalves(t);
  }

  lemma XorInjective(a: Word, b: Word, m: Word)
    requires XorOf(a, m) == XorOf(b, m)
    ensures a == b
  {
    XorCancels(a, m);
    XorCancels(b, m);
  }

  lemma CompressInjective(s: Sip, t: Sip, m: Word)
    requires CompressOf(s, m) == CompressOf(t, m)
    ensures s == t
  {
    var x, y := s.(v3 := XorOf(s.v3, m)), t.(v3 := XorOf(t.v3, m));
    XorInjective(RoundOf(x).v0, RoundOf(y).v0, m);
    RoundInjective(x, y);
    XorInjective(s.v3, t.v3, m);
  }

  lemma {:induction false} AbsorbedInjective(s: Sip, t: Sip, words: seq<Word>)
    requires Absorbed(s, words) == Absorbed(t, words)
    ensures s == t
    decreases |words|
  {
    if words != [] {
      var before := words[..|words| - 1];
      CompressInjective(Absorbed(s, before), Absorbed(t, before), words[|words| - 1]);
      AbsorbedInjective(s, t, before);
    }
  }

  /** Whatever the message, different keys are still apart when its last word has been absorbed. */
  lemma KeysApart(k0: Word, k1: Word, h0: Word, h1: Word, words: seq<Word>)
    requires Absorbed(Init(k0, k1), words) == Absorbed(Init(h0, h1), words)
    ensures k0 == h0 && k1 == h1
  {
    AbsorbedInjective(Init(k0, k1), Init(h0, h1), words);
    XorInjective(k0, h0, 0x736f6d6570736575);
    XorInjective(k1, h1, 0x646f72616e646f6d);
  }

  // ---- SipHash-c-d, as its authors define it ------------------------------------------------------

  /** A text as a big-endian number. */
  function Spelled(text: string): nat {
    if text == "" then 0 else 256 * Spelled(text[..|text| - 1]) + text[|text| - 1] as nat
  }

  lemma SpelledOn(text: string, c: char)
    ensures Spelled(text + [c]) == 256 * Spelled(text) + c as nat
  {
    assert (text + [c])[..|text|] == text;
  }

  lemma SpelledFour(text: string, a: char, b: char, c: char, d: char)
    ensures Spelled(text + [a, b, c, d])
         == 0x1_0000_0000 * Spelled(text) + 0x100_0000 * a as nat + 0x1_0000 * b as nat + 0x100 * c as nat + d as nat
  {
    SpelledOn(text, a);
    SpelledOn(text + [a], b);
    SpelledOn(text + [a] + [b], c);
    SpelledOn(text + [a] + [b] + [c], d);
    assert text + [a, b, c, d] == text + [a] + [b] + [c] + [d];
  }

  lemma SpelledEight(a: string, b: string)
    requires |a| == 4 && |b| == 4
    ensures Spelled(a + b) == 0x100_0000_0000_0000 * a[0] as nat + 0x1_0000_0000_0000 * a[1] as nat
                            + 0x100_0000_0000 * a[2] as nat + 0x1_0000_0000 * a[3] as nat + 0x100_0000 * b[0] as nat
                            + 0x1_0000 * b[1] as nat + 0x100 * b[2] as nat + b[3] as nat
  {
    SpelledFour("", a[0], a[1], a[2], a[3]);
    SpelledFour(a, b[0], b[1], b[2], b[3]);
    assert "" + [a[0], a[1], a[2], a[3]] == a && a + [b[0], b[1], b[2], b[3]] == a + b;
  }

  /** The lanes start as the key mixed with "somepseudorandomlygeneratedbytes". */
  lemma InitSpells(k0: Word, k1: Word)
    ensures Init(k0, k1).v0 == Xor(k0, Spelled("some" + "pseu")) && Init(k0, k1).v1 == Xor(k1, Spelled("dora" + "ndom"))
    ensures Init(k0, k1).v2 == Xor(k0, Spelled("lyge" + "nera")) && Init(k0, k1).v3 == Xor(k1, Spelled("tedb" + "ytes"))
  {
    SpelledEight("some", "pseu");
    SpelledEight("dora", "ndom");
    SpelledEight("lyge", "nera");
    SpelledEight("tedb", "ytes");
  }

  function Rounds(s: Sip, n: nat): Sip {
    if n == 0 then s else Crossed(HalfRound(Crossed(HalfRound(Rounds(s, n - 1), 13, 16)), 17, 21))
  }

  /** Byte `i` of the message as it is absorbed: null bytes fill the last word below the length byte. */
  function ByteAt(msg: seq<Byte>, i: nat): Byte {
    if i < |msg| then msg[i] else if i % 8 == 7 then |msg| % 256 else 0
  }

  function FromBytes(b0: nat, b1: nat, b2: nat, b3: nat, b4: nat, b5: nat, b6: nat, b7: nat): nat {
    b0 + 0x100 * b1 + 0x1_0000 * b2 + 0x100_0000 * b3 + 0x1_0000_0000 * b4 + 0x100_0000_0000 * b5
    + 0x1_0000_0000_0000 * b6 + 0x100_0000_0000_0000 * b7
  }

  /** Little-endian word `w` of the message as it is absorbed. */
  function WordAt(msg: seq<Byte>, w: nat): Word {
    var i := 8 * w;
    FromBytes(ByteAt(msg, i), ByteAt(msg, i + 1), ByteAt(msg, i + 2), ByteAt(msg, i + 3), ByteAt(msg, i + 4),
              ByteAt(msg, i + 5), ByteAt(msg, i + 6), ByteAt(msg, i + 7))
  }

  function CompressBy(c: nat, s: Sip, m: Word): Sip {
    var t := Rounds(s.(v3 := XorOf(s.v3, m)), c);
    t.(v0 := XorOf(t.v0, m))
  }

  /** The state after the first `w` words, with `c` rounds for each. */
  function AbsorbedBy(c: nat, s: Sip, word: nat -> Word, w: nat): Sip {
    if w == 0 then s else CompressBy(c, AbsorbedBy(c, s, word, w - 1), word(w - 1))
  }

  function FinishBy(d: nat, s: Sip): Word {
    var t := Rounds(s.(v2 := XorOf(s.v2, 0xff)), d);
    XorOf(XorOf(XorOf(t.v0, t.v1), t.v2), t.v3)
  }

  /** SipHash-c-d. */
  function SipHashBy(c: nat, d: nat, msg: seq<Byte>, k0: Word, k1: Word): Word {
    FinishBy(d, AbsorbedBy(c, Init(k0, k1), (w: nat) => WordAt(msg, w), |msg| / 8 + 1))
  }

  lemma LeEight(bs: seq<Byte>)
    requires |bs| == 8
    ensures Le(bs) == FromBytes(bs[0], bs[1], bs[2], bs[3], bs[4], bs[5], bs[6], bs[7])
  {
    assert bs[0..] == bs;
    LeFrom(bs, 0); LeFrom(bs, 1); LeFrom(bs, 2); LeFrom(bs, 3);
    LeFrom(bs, 4); LeFrom(bs, 5); LeFrom(bs, 6); LeFrom(bs, 7);
  }

  lemma {:induction false} FirstWordsAt(p: seq<Byte>, k: nat, w: nat)
    requires w < k && 8 * k <= |p|
    ensures |FirstWords(p, k)| == k && FirstWords(p, k)[w] == Load(p[8 * w..8 * w + 8])
  {
    if k == 1 {
      assert FirstWords(p, 0) == [];
    } else if w == k - 1 {
      FirstWordsAt(p, k - 1, 0);
    } else {
      FirstWordsAt(p, k - 1, w);
    }
  }

  lemma WordsIndex(bs: seq<Byte>, k: nat, w: nat)
    requires |bs| == 8 * k && w < k
    ensures |Words(bs)| == k && Words(bs)[w] == Le(bs[8 * w..8 * w + 8])
  {
    FirstWordsAt(bs, k, w);
    FirstWordsAre(bs, k);
    assert bs[..8 * k] == bs;
  }

  lemma PaddedAt(msg: seq<Byte>, i: nat)
    requires i < |Padded(msg)|
    ensures Padded(msg)[i] == ByteAt(msg, i)
  {
  }

  lemma PaddedWord(msg: seq<Byte>, w: nat)
    requires w <= |msg| / 8
    ensures var words := Words(Padded(msg)); |words| == |msg| / 8 + 1 && words[w] == WordAt(msg, w)
  {
    var p := Padded(msg);
    WordsIndex(p, |msg| / 8 + 1, w);
    var i, block := 8 * w, p[8 * w..8 * w + 8];
    LeEight(block);
    PaddedAt(msg, i); PaddedAt(msg, i + 1); PaddedAt(msg, i + 2); PaddedAt(msg, i + 3);
    PaddedAt(msg, i + 4); PaddedAt(msg, i + 5); PaddedAt(msg, i + 6); PaddedAt(msg, i + 7);
  }

  lemma RoundOnce(s: Sip)
    ensures Rounds(s, 1) == RoundOf(s)
  {
    RoundIsHalves(s);
    assert Rounds(s, 0) == s;
  }

  lemma RoundThrice(s: Sip)
    ensures Rounds(s, 3) == RoundOf(RoundOf(RoundOf(s)))
  {
    RoundOnce(s);
    RoundIsHalves(RoundOf(s));
    RoundIsHalves(RoundOf(RoundOf(s)));
  }

  lemma CompressOnce(s: Sip, m: Word)
    ensures CompressOf(s, m) == CompressBy(1, s, m)
  {
    RoundOnce(s.(v3 := XorOf(s.v3, m)));
  }

  lemma FinishThrice(s: Sip)
    ensures Finish(s) == FinishBy(3, s)
  {
    RoundThrice(s.(v2 := XorOf(s.v2, 0xff)));
  }

  lemma AbsorbedLast(s: Sip, all: seq<Word>, before: seq<Word>, m: Word)
    requires all == before + [m]
    ensures Absorbed(s, all) == CompressBy(1, Absorbed(s, before), m)
  {
    AbsorbedOn(s, before, m);
    CompressOnce(Absorbed(s, before), m);
  }

  lemma SplitLast(words: seq<Word>, n: nat)
    requires |words| == n + 1
    ensures words == words[..n] + [words[n]]
  {
  }

  lemma {:induction false} AbsorbedIs(s: Sip, word: nat -> Word, words: seq<Word>, n: nat)
    requires |words| == n && forall j: nat :: j < n ==> words[j] == word(j)
    ensures Absorbed(s, words) == AbsorbedBy(1, s, word, n)
    decreases n
  {
    if n > 0 {
      var before := words[..n - 1];
      SplitLast(words, n - 1);
      AbsorbedIs(s, word, before, n - 1);
      AbsorbedLast(s, words, before, words[n - 1]);
    }
  }

  lemma PaddedWords(msg: seq<Byte>, words: seq<Word>, word: nat -> Word)
    requires words == Words(Padded(msg)) && forall j: nat :: word(j) == WordAt(msg, j)
    ensures |words| == |msg| / 8 + 1 && forall j: nat :: j < |words| ==> words[j] == word(j)
  {
    PaddedWord(msg, 0);
    forall j: nat | j < |words| ensures words[j] == word(j) {
      PaddedWord(msg, j);
    }
  }

  /** The digest is SipHash-1-3. */
  lemma DigestIsSipHash13(msg: seq<Byte>, k0: Word, k1: Word)
    ensures Digest(msg, k0, k1) == SipHashBy(1, 3, msg, k0, k1)
  {
    var words, word := Words(Padded(msg)), (w: nat) => WordAt(msg, w);
    PaddedWords(msg, words, word);
    AbsorbedIs(Init(k0, k1), word, words, |words|);
    FinishThrice(Absorbed(Init(k0, k1), words));
  }
}
