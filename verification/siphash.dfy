/** SipHash-1-3 (src/core/hash.cpp) against its definition: section 2 of Aumasson and Bernstein,
    "SipHash: a fast short-input PRF". */
module SipHash {
  import Bits
  import opened SplitMix

  type Byte = n: nat | n < 256

  // ---- words ------------------------------------------------------------------------------------

  function Plus(a: Word, b: Word): Word {
    (a + b) % WORD
  }

  function Pow2(k: nat): (p: nat)
    ensures p > 0
  {
    if k == 0 then 1 else 2 * Pow2(k - 1)
  }

  /** std::rotl, one place at a time. */
  function Rotl(x: Word, k: nat): Word
    decreases k
  {
    if k == 0 then x else Rotl(if x < 0x8000_0000_0000_0000 then 2 * x else 2 * x - WORD + 1, k - 1)
  }

  /** Bitwise or. */
  function Or(a: nat, b: nat): nat
    decreases a + b
  {
    if a == 0 && b == 0 then 0 else 2 * Or(a / 2, b / 2) + if a % 2 == 1 || b % 2 == 1 then 1 else 0
  }

  lemma {:induction false} OrZero(a: nat)
    ensures Or(a, 0) == a
  {
    if a > 0 {
      OrZero(a / 2);
    }
  }

  lemma OrDouble(a: nat, b: nat)
    ensures Or(2 * a, b) == 2 * Or(a, b / 2) + b % 2
  {
  }

  lemma Twice(q: nat, p: nat)
    ensures q * (2 * p) == 2 * (q * p)
  {
  }

  /** Fields that do not overlap: or is addition. */
  lemma {:induction false} OrAdds(q: nat, k: nat, b: nat)
    requires b < Pow2(k)
    ensures Or(q * Pow2(k), b) == q * Pow2(k) + b
    decreases k
  {
    if k == 0 {
      OrZero(q);
    } else {
      var half := q * Pow2(k - 1);
      OrAdds(q, k - 1, b / 2);
      Twice(q, Pow2(k - 1));
      OrDouble(half, b);
    }
  }

  // ---- the definition ---------------------------------------------------------------------------

  /** Little-endian. */
  function Le(bs: seq<Byte>): nat {
    if bs == [] then 0 else bs[0] + 256 * Le(bs[1..])
  }

  function Zeros(n: nat): (s: seq<Byte>)
    ensures |s| == n
  {
    seq(n, _ => 0)
  }

  /** The message, null bytes, and a byte for its length modulo 256. */
  function Padded(msg: seq<Byte>): (r: seq<Byte>)
    ensures |r| == 8 * (|msg| / 8 + 1) && |r| % 8 == 0
  {
    msg + Zeros(7 - |msg| % 8) + [|msg| % 256]
  }

  function Words(bs: seq<Byte>): seq<Word>
    requires |bs| % 8 == 0
  {
    if bs == [] then [] else LeFits(bs[..8]); [Le(bs[..8])] + Words(bs[8..])
  }

  lemma LeFits(bs: seq<Byte>)
    requires |bs| == 8
    ensures Le(bs) < WORD
  {
    LeBound(bs, 8);
    assert Pow2(64) == WORD by {
      Pow2Sixteen();
    }
  }

  lemma Pow2Sixteen()
    ensures Pow2(16) == 0x1_0000 && Pow2(32) == 0x1_0000_0000 && Pow2(48) == 0x1_0000_0000_0000 && Pow2(64) == WORD
    ensures Pow2(8) == 0x100 && Pow2(24) == 0x100_0000 && Pow2(40) == 0x100_0000_0000
    ensures Pow2(56) == 0x100_0000_0000_0000
  {
    Pow2Byte(0); Pow2Byte(8); Pow2Byte(16); Pow2Byte(24); Pow2Byte(32); Pow2Byte(40); Pow2Byte(48); Pow2Byte(56);
  }

  lemma Pow2Byte(k: nat)
    ensures Pow2(k + 8) == 256 * Pow2(k)
  {
    assert Pow2(k + 8) == 2 * Pow2(k + 7) == 4 * Pow2(k + 6) == 8 * Pow2(k + 5) == 16 * Pow2(k + 4);
    assert Pow2(k + 4) == 2 * Pow2(k + 3) == 4 * Pow2(k + 2) == 8 * Pow2(k + 1) == 16 * Pow2(k);
  }

  lemma {:induction false} LeBound(bs: seq<Byte>, n: nat)
    requires |bs| == n
    ensures Le(bs) < Pow2(8 * n)
    decreases n
  {
    if n > 0 {
      LeBound(bs[1..], n - 1);
      Pow2Byte(8 * (n - 1));
    }
  }

  datatype Sip = Sip(v0: Word, v1: Word, v2: Word, v3: Word)

  function Init(k0: Word, k1: Word): Sip {
    Sip(XorOf(k0, 0x736f6d6570736575), XorOf(k1, 0x646f72616e646f6d), XorOf(k0, 0x6c7967656e657261),
        XorOf(k1, 0x7465646279746573))
  }

  /** SipRound, both halves of each stage at once. */
  function RoundOf(s: Sip): Sip {
    var a0, a2 := Plus(s.v0, s.v1), Plus(s.v2, s.v3);
    var a1, a3 := XorOf(Rotl(s.v1, 13), a0), XorOf(Rotl(s.v3, 16), a2);
    var b0 := Rotl(a0, 32);
    var c2, c0 := Plus(a2, a1), Plus(b0, a3);
    var c1, c3 := XorOf(Rotl(a1, 17), c2), XorOf(Rotl(a3, 21), c0);
    Sip(c0, c1, Rotl(c2, 32), c3)
  }

  function CompressOf(s: Sip, m: Word): Sip {
    var t := RoundOf(s.(v3 := XorOf(s.v3, m)));
    t.(v0 := XorOf(t.v0, m))
  }

  function Absorbed(s: Sip, words: seq<Word>): Sip
    decreases |words|
  {
    if words == [] then s else CompressOf(Absorbed(s, words[..|words| - 1]), words[|words| - 1])
  }

  function Finish(s: Sip): Word {
    var t := RoundOf(RoundOf(RoundOf(s.(v2 := XorOf(s.v2, 0xff)))));
    XorOf(XorOf(XorOf(t.v0, t.v1), t.v2), t.v3)
  }

  /** SipHash-1-3 of a message under a 128-bit key. */
  function Digest(msg: seq<Byte>, k0: Word, k1: Word): Word {
    Finish(Absorbed(Init(k0, k1), Words(Padded(msg))))
  }

  // ---- padding loses nothing --------------------------------------------------------------------

  lemma {:induction false} LeInjective(a: seq<Byte>, b: seq<Byte>)
    requires |a| == |b| && Le(a) == Le(b)
    ensures a == b
  {
    if a == [] {
    } else {
      LeInjective(a[1..], b[1..]);
      assert a == [a[0]] + a[1..] && b == [b[0]] + b[1..];
    }
  }

  lemma {:induction false} WordsInjective(a: seq<Byte>, b: seq<Byte>)
    requires |a| % 8 == 0 && |b| % 8 == 0 && Words(a) == Words(b)
    ensures a == b
    decreases |a|
  {
    if a == [] || b == [] {
    } else {
      var x, y := Words(a), Words(b);
      assert x[0] == Le(a[..8]) && y[0] == Le(b[..8]) && x[1..] == Words(a[8..]) && y[1..] == Words(b[8..]);
      LeInjective(a[..8], b[..8]);
      WordsInjective(a[8..], b[8..]);
      assert a == a[..8] + a[8..] && b == b[..8] + b[8..];
    }
  }

  lemma SameLength(m: nat, n: nat)
    requires m / 8 == n / 8 && m % 256 == n % 256
    ensures m == n
  {
    LowBits(m);
    LowBits(n);
  }

  lemma LowBits(m: nat)
    ensures m % 8 == m % 256 % 8
  {
    var q, r := m / 256, m % 256;
    Bits.DivModUnique(m, 8, 32 * q + r / 8, r % 8);
  }

  /** Different messages are absorbed as different words: the length byte tells a message from the
      same bytes with nulls after it. */
  lemma PaddingInjective(a: seq<Byte>, b: seq<Byte>)
    requires Words(Padded(a)) == Words(Padded(b))
    ensures a == b
  {
    WordsInjective(Padded(a), Padded(b));
    PaddedReads(a);
    PaddedReads(b);
    SameLength(|a|, |b|);
  }

  lemma PaddedReads(msg: seq<Byte>)
    ensures var p := Padded(msg); p[..|msg|] == msg && p[|p| - 1] == |msg| % 256
  {
  }

  // ---- the code ---------------------------------------------------------------------------------

  class SipState {
    var v0: Word
    var v1: Word
    var v2: Word
    var v3: Word

    function Value(): Sip
      reads this
    {
      Sip(v0, v1, v2, v3)
    }

    constructor (k0: Word, k1: Word)
      ensures Value() == Init(k0, k1)
    {
      v0 := XorOf(k0, 0x736f6d6570736575);
      v1 := XorOf(k1, 0x646f72616e646f6d);
      v2 := XorOf(k0, 0x6c7967656e657261);
      v3 := XorOf(k1, 0x7465646279746573);
    }

    /** The left column of each stage, then the right. */
    method Round()
      modifies this
      ensures Value() == RoundOf(old(Value()))
    {
      v0 := Plus(v0, v1);
      v1 := Rotl(v1, 13);
      v1 := XorOf(v1, v0);
      v0 := Rotl(v0, 32);
      v2 := Plus(v2, v3);
      v3 := Rotl(v3, 16);
      v3 := XorOf(v3, v2);
      v0 := Plus(v0, v3);
      v3 := Rotl(v3, 21);
      v3 := XorOf(v3, v0);
      v2 := Plus(v2, v1);
      v1 := Rotl(v1, 17);
      v1 := XorOf(v1, v2);
      v2 := Rotl(v2, 32);
    }

    method Compress(m: Word)
      modifies this
      ensures Value() == CompressOf(old(Value()), m)
    {
      v3 := XorOf(v3, m);
      Round();
      v0 := XorOf(v0, m);
    }
  }

  lemma {:induction false} LeOfZeros(n: nat, last: Byte)
    ensures Le(Zeros(n) + [last]) == last * Pow2(8 * n)
  {
    var s: seq<Byte> := Zeros(n) + [last];
    if n == 0 {
      assert s == [last] && Le(s[1..]) == 0;
    } else {
      assert s[1..] == Zeros(n - 1) + [last];
      LeOfZeros(n - 1, last);
      Pow2Byte(8 * (n - 1));
    }
  }

  lemma LeFrom(full: seq<Byte>, j: nat)
    requires j < |full|
    ensures Le(full[j..]) == full[j] + 256 * Le(full[j + 1..])
  {
    assert full[j..][1..] == full[j + 1..];
  }

  /** One tail byte or-ed in below the ones already there. */
  lemma TailByte(q: nat, x: Byte, k: nat)
    ensures Or(q * Pow2(k + 8), x * Pow2(k)) == (x + 256 * q) * Pow2(k)
    ensures x == 0 ==> q * Pow2(k + 8) == (x + 256 * q) * Pow2(k)
  {
    Pow2Byte(k);
    Spread(q, x, Pow2(k));
    OrAdds(q, k + 8, x * Pow2(k));
  }

  lemma Spread(q: nat, x: nat, p: nat)
    requires x < 256 && p > 0
    ensures (x + 256 * q) * p == q * (256 * p) + x * p && x * p < 256 * p
  {
    assert x * p <= 255 * p;
  }

  /** `w` holds the bytes of the last word from the `j`th up, in their places. */
  ghost predicate HoldsFrom(full: seq<Byte>, j: nat, w: nat)
    requires j <= |full|
  {
    w == Le(full[j..]) * Pow2(8 * j)
  }

  ghost function LastBytes(tail: seq<Byte>, len: nat): (r: seq<Byte>)
    requires |tail| < 8
    ensures |r| == 8 && forall j :: 0 <= j < 7 ==> r[j] == if j < |tail| then tail[j] else 0
  {
    tail + Zeros(7 - |tail|) + [len % 256]
  }

  /** One case of the switch: entered when the tail is long enough, fallen through to the next. */
  method OrByte(w: nat, tail: seq<Byte>, j: nat, place: nat, ghost len: nat) returns (w': nat)
    requires |tail| < 8 && j < 7 && place == Pow2(8 * j) && HoldsFrom(LastBytes(tail, len), j + 1, w)
    ensures HoldsFrom(LastBytes(tail, len), j, w')
  {
    ghost var full := LastBytes(tail, len);
    LeFrom(full, j);
    TailByte(Le(full[j + 1..]), full[j], 8 * j);
    w' := w;
    if |tail| > j {
      w' := Or(w, tail[j] * place);
    }
  }

  lemma TopByte(tail: seq<Byte>, len: nat)
    requires |tail| < 8
    ensures HoldsFrom(LastBytes(tail, len), 7, (len % 256) * 0x100_0000_0000_0000)
  {
    Pow2Sixteen();
    LeOfZeros(0, len % 256);
    assert LastBytes(tail, len)[7..] == Zeros(0) + [len % 256];
  }

  /** The upper bytes of the last word: the length on top, and the tail bytes from 4 to 6. */
  method UpperBytes(tail: seq<Byte>, len: nat) returns (w: nat)
    requires |tail| < 8
    ensures HoldsFrom(LastBytes(tail, len), 4, w)
  {
    Pow2Sixteen();
    TopByte(tail, len);
    w := (len % 256) * 0x100_0000_0000_0000;
    w := OrByte(w, tail, 6, 0x1_0000_0000_0000, len);
    w := OrByte(w, tail, 5, 0x100_0000_0000, len);
    w := OrByte(w, tail, 4, 0x1_0000_0000, len);
  }

  /** The last word: the length in the top byte and the tail bytes below. */
  method LastWord(tail: seq<Byte>, len: nat) returns (b: Word)
    requires |tail| < 8
    ensures b == Le(LastBytes(tail, len))
  {
    Pow2Sixteen();
    var w := UpperBytes(tail, len);
    w := OrByte(w, tail, 3, 0x100_0000, len);
    w := OrByte(w, tail, 2, 0x1_0000, len);
    w := OrByte(w, tail, 1, 0x100, len);
    w := OrByte(w, tail, 0, 1, len);
    b := Whole(tail, len, w);
  }

  method Whole(tail: seq<Byte>, len: nat, w: nat) returns (b: Word)
    requires |tail| < 8 && HoldsFrom(LastBytes(tail, len), 0, w)
    ensures b == Le(LastBytes(tail, len))
  {
    ghost var full := LastBytes(tail, len);
    LeFits(full);
    assert full[0..] == full;
    b := w;
  }

  // ---- the block loop ---------------------------------------------------------------------------

  lemma FirstBlock(a: seq<Byte>, b: seq<Byte>)
    requires |a| >= 8
    ensures (a + b)[..8] == a[..8] && (a + b)[8..] == a[8..] + b
  {
  }

  lemma {:induction false} WordsOn(a: seq<Byte>, b: seq<Byte>)
    requires |a| % 8 == 0 && |b| % 8 == 0
    ensures Words(a + b) == Words(a) + Words(b)
    decreases |a|
  {
    if a == [] {
      assert a + b == b;
    } else {
      var head, rest := a[..8], a[8..];
      FirstBlock(a, b);
      WordsOn(rest, b);
      WordsFirst(a + b);
      WordsFirst(a);
    }
  }

  lemma WordsFirst(bs: seq<Byte>)
    requires |bs| % 8 == 0 && bs != []
    ensures Words(bs) == [Le(bs[..8])] + Words(bs[8..])
  {
  }

  lemma WordsOne(bs: seq<Byte>)
    requires |bs| == 8
    ensures Words(bs) == [Le(bs)]
  {
    assert bs[..8] == bs && bs[8..] == [];
  }

  lemma AbsorbedOn(s: Sip, words: seq<Word>, m: Word)
    ensures Absorbed(s, words + [m]) == CompressOf(Absorbed(s, words), m)
  {
    assert (words + [m])[..|words|] == words;
  }

  /** The words of the first `k` blocks. */
  function FirstWords(p: seq<Byte>, k: nat): seq<Word>
    requires 8 * k <= |p|
  {
    if k == 0 then [] else FirstWords(p, k - 1) + [Load(p[8 * k - 8..8 * k])]
  }

  lemma {:induction false} FirstWordsAre(p: seq<Byte>, k: nat)
    requires 8 * k <= |p|
    ensures FirstWords(p, k) == Words(p[..8 * k])
  {
    if k == 0 {
    } else {
      var n := 8 * k - 8;
      FirstWordsAre(p, k - 1);
      WordsThen(p[..n], p[n..n + 8], p[..n + 8]);
    }
  }

  lemma WordsThen(a: seq<Byte>, b: seq<Byte>, p: seq<Byte>)
    requires |a| % 8 == 0 && |b| == 8 && p == a + b
    ensures Words(p) == Words(a) + [Le(b)]
  {
    WordsOn(a, b);
    WordsOne(b);
  }

  lemma PaddedParts(p: seq<Byte>, k: nat)
    requires k == |p| / 8
    ensures Words(Padded(p)) == FirstWords(p, k) + [Le(LastBytes(p[8 * k..], |p|))]
  {
    var last := LastBytes(p[8 * k..], |p|);
    FirstWordsAre(p, k);
    assert Padded(p) == p[..8 * k] + last;
    WordsOn(p[..8 * k], last);
    WordsOne(last);
  }

  /** load64le. */
  function Load(bs: seq<Byte>): Word
    requires |bs| == 8
  {
    LeFits(bs);
    Le(bs)
  }

  /** Block `k` of the message is `word(k)`, and compressing it takes state `at(k)` to the next. */
  ghost predicate FeedsAt(p: seq<Byte>, at: nat -> Sip, word: nat -> Word, k: nat) {
    8 * k + 8 <= |p| ==> word(k) == BlockAt(p, k) && at(k + 1) == CompressOf(at(k), word(k))
  }

  ghost predicate Feeds(p: seq<Byte>, at: nat -> Sip, word: nat -> Word) {
    forall k {:trigger FeedsAt(p, at, word, k)} :: FeedsAt(p, at, word, k)
  }

  lemma OneMore(s: Sip, p: seq<Byte>, k: nat)
    requires 8 * k + 8 <= |p|
    ensures Absorbed(s, FirstWords(p, k + 1)) == CompressOf(Absorbed(s, FirstWords(p, k)), Load(p[8 * k..8 * k + 8]))
  {
    var m := Load(p[8 * k..8 * k + 8]);
    assert FirstWords(p, k + 1) == FirstWords(p, k) + [m];
    AbsorbedOn(s, FirstWords(p, k), m);
  }

  function StateAt(s: Sip, p: seq<Byte>, k: nat): Sip {
    if 8 * k <= |p| then Absorbed(s, FirstWords(p, k)) else s
  }

  function BlockAt(p: seq<Byte>, k: nat): Word {
    if 8 * k + 8 <= |p| then Load(p[8 * k..8 * k + 8]) else 0
  }

  lemma StateOn(s: Sip, p: seq<Byte>, k: nat)
    requires 8 * k + 8 <= |p|
    ensures StateAt(s, p, k + 1) == CompressOf(StateAt(s, p, k), BlockAt(p, k))
  {
    OneMore(s, p, k);
  }

  /** `at` is the state after any number of blocks. */
  lemma Feeding(s: Sip, p: seq<Byte>, blocks: nat) returns (at: nat -> Sip, word: nat -> Word)
    requires 8 * blocks <= |p|
    ensures Feeds(p, at, word) && at(0) == s && at(blocks) == Absorbed(s, FirstWords(p, blocks))
  {
    at, word := (k: nat) => StateAt(s, p, k), (k: nat) => BlockAt(p, k);
    forall k: nat ensures FeedsAt(p, at, word, k) {
      if 8 * k + 8 <= |p| {
        StateOn(s, p, k);
      }
    }
  }

  /** Block `k`, read little-endian. */
  method LoadBlock(p: seq<Byte>, k: nat, ghost at: nat -> Sip, ghost word: nat -> Word) returns (m: Word)
    requires 8 * k + 8 <= |p| && Feeds(p, at, word)
    ensures m == word(k) && at(k + 1) == CompressOf(at(k), m)
  {
    assert FeedsAt(p, at, word, k);
    m := Load(p[8 * k..8 * k + 8]);
  }

  /** The block loop. */
  method Feed(s: SipState, p: seq<Byte>, blocks: nat)
    requires 8 * blocks <= |p|
    modifies s
    ensures s.Value() == Absorbed(old(s.Value()), FirstWords(p, blocks))
  {
    ghost var at, word := Feeding(s.Value(), p, blocks);
    for k := 0 to blocks
      invariant s.Value() == at(k)
    {
      var m := LoadBlock(p, k, at, word);
      s.Compress(m);
    }
  }

  /** The finalization. */
  method Finalize(s: SipState) returns (h: Word)
    modifies s
    ensures h == Finish(old(s.Value()))
  {
    s.v2 := XorOf(s.v2, 0xff);
    s.Round();
    s.Round();
    s.Round();
    h := XorOf(XorOf(XorOf(s.v0, s.v1), s.v2), s.v3);
  }

  /** sipHash13: whole words, then the last one, compress exactly the words of the padded message. */
  method SipHash13(p: seq<Byte>, k0: Word, k1: Word) returns (h: Word)
    ensures h == Digest(p, k0, k1)
  {
    var s := new SipState(k0, k1);
    var blocks := |p| / 8;
    PaddedParts(p, blocks);
    Feed(s, p, blocks);
    var b := LastWord(p[8 * blocks..], |p|);
    AbsorbedOn(Init(k0, k1), FirstWords(p, blocks), b);
    s.Compress(b);
    h := Finalize(s);
  }

  /** hashBytes: the seed stretched to two keys. */
  method HashBytes(p: seq<Byte>, seed: Word) returns (h: Word)
    ensures h == Digest(p, Mix(Advance(seed)), Mix(Advance(Advance(seed))))
  {
    var k0, state := Draw(seed);
    var k1, _ := Draw(state);
    h := SipHash13(p, k0, k1);
  }
}
