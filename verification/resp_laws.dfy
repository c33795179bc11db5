/** What the request parser promises (src/core/resp.h, src/core/resp.cpp): a verdict never
    changes when more bytes arrive, the array form and its encoding are inverses, and what is
    left unparsed is bounded. */
module RespLaws {
  import opened Resp

  // ---- verdicts are final -----------------------------------------------------------------------

  lemma Tail(s: string, e: string, n: nat)
    requires n <= |s|
    ensures (s + e)[n..] == s[n..] + e && (s + e)[..n] == s[..n]
  {
  }

  lemma ElementStable(s: string, e: string)
    requires Element(s) != Incomplete
    ensures Element(s + e) == Element(s)
  {
    LineStable(s, e, MAX_HEADER, Strict);
    match LineOf(s, MAX_HEADER, Strict) {
      case Found(text, used) =>
        FoundIsLine(s, MAX_HEADER, Strict, text, used);
        Tail(s, e, used);
        match Header(text, '$', MAX_BULK) {
          case Some(len) => PayloadStable(s[used..], e, len);
          case None =>
        }
      case _ =>
    }
  }

  ghost predicate FinalAt(f: string -> Parse, s: string, e: string) {
    f(s) != Incomplete ==> f(s + e) == f(s)
  }

  lemma {:induction false} RepeatStable(f: string -> Parse, s: string, e: string, n: nat)
    requires IsReader(f) && forall s, e {:trigger FinalAt(f, s, e)} :: FinalAt(f, s, e)
    requires Repeat(f, s, n) != Incomplete
    ensures Repeat(f, s + e, n) == Repeat(f, s, n)
    decreases n
  {
    if n == 0 {
    } else {
      assert FinalAt(f, s, e) && Takes(f, s);
      if f(s).Ok? {
        Tail(s, e, f(s).consumed);
        RepeatStable(f, s[f(s).consumed..], e, n - 1);
      }
    }
  }

  lemma ElementsStable(s: string, e: string, n: nat)
    requires Elements(s, n) != Incomplete
    ensures Elements(s + e, n) == Elements(s, n)
  {
    forall s, e ensures FinalAt(Element, s, e) {
      if Element(s) != Incomplete {
        ElementStable(s, e);
      }
    }
    RepeatStable(Element, s, e, n);
  }

  lemma ArrayStable(s: string, e: string)
    requires ArrayOf(s) != Incomplete
    ensures ArrayOf(s + e) == ArrayOf(s)
  {
    LineStable(s, e, MAX_HEADER, Strict);
    match LineOf(s, MAX_HEADER, Strict) {
      case Found(text, used) =>
        FoundIsLine(s, MAX_HEADER, Strict, text, used);
        Tail(s, e, used);
        match Header(text, '*', MAX_ARGS) {
          case Some(n) => ElementsStable(s[used..], e, n);
          case None =>
        }
      case _ =>
    }
  }

  /** An accepted command and a protocol error stay what they are whatever follows. */
  lemma CommandStable(s: string, e: string)
    requires CommandOf(s) != Incomplete
    ensures CommandOf(s + e) == CommandOf(s)
  {
    if s[0] == '*' {
      ArrayStable(s, e);
    } else {
      LineStable(s, e, MAX_INLINE, Inline);
    }
  }

  /** Every strict prefix of an accepted command is incomplete. */
  lemma PrefixIncomplete(s: string, e: string)
    requires CommandOf(s + e).Ok? && |s| < CommandOf(s + e).consumed
    ensures CommandOf(s) == Incomplete
  {
    if CommandOf(s) != Incomplete {
      CommandStable(s, e);
    }
  }

  lemma SplitAt(s: string, i: nat, j: nat)
    requires i <= j <= |s|
    ensures s[..j] == s[..i] + s[i..][..j - i]
  {
  }

  // ---- the encoder ------------------------------------------------------------------------------

  function HeaderLine(kind: char, n: nat): string {
    [kind] + Decimal(n) + "\r\n"
  }

  function Bulk(a: string): string {
    HeaderLine('$', |a|) + a + "\r\n"
  }

  function Bulks(args: seq<string>): string {
    if args == [] then [] else Bulk(args[0]) + Bulks(args[1..])
  }

  function Encoded(args: seq<string>): string {
    HeaderLine('*', |args|) + Bulks(args)
  }

  predicate Within(args: seq<string>) {
    |args| <= MAX_ARGS && forall i :: 0 <= i < |args| ==> |args[i]| <= MAX_BULK
  }

  function Pow10(k: nat): nat {
    if k == 0 then 1 else 10 * Pow10(k - 1)
  }

  lemma {:induction false} DecimalShort(n: nat, k: nat)
    requires n < Pow10(k) && k >= 1
    ensures |Decimal(n)| <= k
  {
    if n >= 10 {
      DecimalShort(n / 10, k - 1);
    }
  }

  lemma HeaderShort(kind: char, n: nat)
    ensures n <= MAX_BULK ==> |HeaderLine(kind, n)| <= 11
    ensures n <= MAX_ARGS ==> |HeaderLine(kind, n)| <= 5
  {
    assert Pow10(2) == 100;
    assert Pow10(4) == 100 * Pow10(2);
    assert Pow10(6) == 100 * Pow10(4);
    assert Pow10(8) == 100 * Pow10(6);
    if n <= MAX_BULK {
      DecimalShort(n, 8);
    }
    if n <= MAX_ARGS {
      DecimalShort(n, 2);
    }
  }

  lemma OneLine(text: string, rest: string)
    requires |text| <= MAX_HEADER && forall k :: 0 <= k < |text| ==> text[k] != '\n'
    ensures IsLine(text + "\r\n" + rest, MAX_HEADER, Strict, text, |text| + 2)
  {
    var s := text + "\r\n" + rest;
    assert s[..|text|] == text && forall k :: 0 <= k < |text| ==> s[k] == text[k];
  }

  /** A header line reads back, whatever follows. */
  lemma HeaderReadsBack(kind: char, n: nat, rest: string)
    requires n <= MAX_BULK && kind != '\n'
    ensures LineOf(HeaderLine(kind, n) + rest, MAX_HEADER, Strict) == Found([kind] + Decimal(n), |HeaderLine(kind, n)|)
    ensures forall limit :: n <= limit ==> Header([kind] + Decimal(n), kind, limit) == Some(n)
  {
    HeaderFound(kind, n, [kind] + Decimal(n), rest, HeaderLine(kind, n) + rest);
    HeaderNumber(kind, n, [kind] + Decimal(n));
  }

  lemma HeaderFound(kind: char, n: nat, text: string, rest: string, s: string)
    requires n <= MAX_BULK && kind != '\n' && text == [kind] + Decimal(n) && s == text + "\r\n" + rest
    ensures LineOf(s, MAX_HEADER, Strict) == Found(text, |text| + 2)
  {
    HeaderShort(kind, n);
    DecimalCanonical(n);
    OneLine(text, rest);
    FoundIsLine(s, MAX_HEADER, Strict, text, |text| + 2);
  }

  lemma HeaderNumber(kind: char, n: nat, text: string)
    requires n <= MAX_BULK && text == [kind] + Decimal(n)
    ensures forall limit :: n <= limit ==> Header(text, kind, limit) == Some(n)
  {
    assert text[1..] == Decimal(n);
    NumberReadsDecimal(text[1..], n);
  }

  lemma BulkReadsBack(a: string, rest: string)
    requires |a| <= MAX_BULK
    ensures Element(Bulk(a) + rest) == Ok([a], |Bulk(a)|)
  {
    var head, after := HeaderLine('$', |a|), a + "\r\n" + rest;
    HeaderReadsBack('$', |a|, after);
    PayloadReadsBack(a, rest, after);
    BulkIsHeaded(a, rest, head, after);
  }

  lemma PayloadReadsBack(a: string, rest: string, after: string)
    requires after == a + "\r\n" + rest
    ensures Payload(after, |a|) == Found(a, |a| + 2)
  {
    assert after[..|a|] == a;
  }

  lemma BulkIsHeaded(a: string, rest: string, head: string, after: string)
    requires head == HeaderLine('$', |a|) && after == a + "\r\n" + rest
    ensures Bulk(a) + rest == head + after && (head + after)[|head|..] == after && |Bulk(a)| == |head| + |a| + 2
  {
  }

  ghost predicate ReadsBackAt(f: string -> Parse, a: string, rest: string) {
    |a| <= MAX_BULK ==> f(Bulk(a) + rest) == Ok([a], |Bulk(a)|)
  }

  lemma {:induction false} RepeatReadsBack(f: string -> Parse, args: seq<string>, rest: string)
    requires IsReader(f) && forall a, rest {:trigger ReadsBackAt(f, a, rest)} :: ReadsBackAt(f, a, rest)
    requires forall i :: 0 <= i < |args| ==> |args[i]| <= MAX_BULK
    ensures Repeat(f, Bulks(args) + rest, |args|) == Ok(args, |Bulks(args)|)
  {
    if args == [] {
    } else {
      var first, others := Bulk(args[0]), Bulks(args[1..]);
      var s := Bulks(args) + rest;
      assert ReadsBackAt(f, args[0], others + rest);
      AfterFirst(first, others, rest, s);
      RepeatReadsBack(f, args[1..], rest);
      RepeatOn(f, s, |args| - 1, args[0], |first|, args[1..], |others|);
      assert args == [args[0]] + args[1..];
    }
  }

  lemma RepeatOn(f: string -> Parse, s: string, n: nat, a: string, used: nat, args: seq<string>, more: nat)
    requires IsReader(f) && f(s) == Ok([a], used) && used <= |s| && Repeat(f, s[used..], n) == Ok(args, more)
    ensures Repeat(f, s, n + 1) == Ok([a] + args, used + more)
  {
  }

  lemma AfterFirst(first: string, others: string, rest: string, s: string)
    requires s == first + others + rest
    ensures s == first + (others + rest) && s[|first|..] == others + rest
  {
  }

  lemma BulksReadBack(args: seq<string>, rest: string)
    requires forall i :: 0 <= i < |args| ==> |args[i]| <= MAX_BULK
    ensures Elements(Bulks(args) + rest, |args|) == Ok(args, |Bulks(args)|)
  {
    forall a, rest ensures ReadsBackAt(Element, a, rest) {
      if |a| <= MAX_BULK {
        BulkReadsBack(a, rest);
      }
    }
    RepeatReadsBack(Element, args, rest);
  }

  /** Parsing the encoding of any arguments within the limits gives them back and takes the whole frame. */
  lemma EncodedReadsBack(args: seq<string>, rest: string)
    requires Within(args)
    ensures CommandOf(Encoded(args) + rest) == Ok(args, |Encoded(args)|)
  {
    var head, s := HeaderLine('*', |args|), Encoded(args) + rest;
    AfterFirst(head, Bulks(args), rest, s);
    HeaderReadsBack('*', |args|, Bulks(args) + rest);
    BulksReadBack(args, rest);
    ArrayFrom(s, ['*'] + Decimal(|args|), |head|, args, |Bulks(args)|);
  }

  lemma ArrayFrom(s: string, text: string, used: nat, args: seq<string>, more: nat)
    requires LineOf(s, MAX_HEADER, Strict) == Found(text, used) && Header(text, '*', MAX_ARGS) == Some(|args|)
    requires 0 < used <= |s| && s[0] == '*' && Elements(s[used..], |args|) == Ok(args, more)
    ensures CommandOf(s) == Ok(args, used + more)
  {
    assert [] + args == args;
  }

  /** A header that reads as a count is the encoder's line for it. */
  lemma HeaderIsLine(s: string, kind: char, limit: nat)
    requires LineOf(s, MAX_HEADER, Strict).Found?
    requires Header(LineOf(s, MAX_HEADER, Strict).text, kind, limit).Some?
    ensures var line := LineOf(s, MAX_HEADER, Strict);
            var n := Header(line.text, kind, limit).value;
            n <= limit && line.used <= |s| && s[..line.used] == HeaderLine(kind, n)
  {
    var line := LineOf(s, MAX_HEADER, Strict);
    var n := Header(line.text, kind, limit).value;
    FoundIsLine(s, MAX_HEADER, Strict, line.text, line.used);
    NumberReadsDecimal(line.text[1..], n);
    assert line.text == [kind] + Decimal(n);
    assert s[..line.used] == line.text + "\r\n";
  }

  lemma ElementIsBulk(s: string)
    requires Element(s).Ok?
    ensures var e := Element(s); |e.args[0]| <= MAX_BULK && s[..e.consumed] == Bulk(e.args[0])
  {
    HeaderIsLine(s, '$', MAX_BULK);
    var e := Element(s);
    var line := LineOf(s, MAX_HEADER, Strict);
    var len := |e.args[0]|;
    assert s[line.used..][..len + 2] == e.args[0] + "\r\n";
    SplitAt(s, line.used, e.consumed);
  }

  ghost predicate BulkAt(f: string -> Parse, s: string) {
    f(s).Ok? ==>
      |f(s).args| == 1 && f(s).consumed <= |s| && |f(s).args[0]| <= MAX_BULK && s[..f(s).consumed] == Bulk(f(s).args[0])
  }

  lemma {:induction false} RepeatIsBulks(f: string -> Parse, s: string, n: nat)
    requires IsReader(f) && (forall s {:trigger BulkAt(f, s)} :: BulkAt(f, s)) && Repeat(f, s, n).Ok?
    ensures var r := Repeat(f, s, n);
            s[..r.consumed] == Bulks(r.args) && forall i :: 0 <= i < n ==> |r.args[i]| <= MAX_BULK
    decreases n
  {
    if n == 0 {
    } else {
      assert BulkAt(f, s) && Takes(f, s);
      var e, rest := f(s), Repeat(f, s[f(s).consumed..], n - 1);
      RepeatIsBulks(f, s[e.consumed..], n - 1);
      BulksOn(s, e.args[0], e.consumed, rest.args, rest.consumed);
      assert e.args == [e.args[0]];
    }
  }

  lemma BulksOn(s: string, a: string, n: nat, args: seq<string>, k: nat)
    requires n + k <= |s| && s[..n] == Bulk(a) && s[n..][..k] == Bulks(args)
    ensures s[..n + k] == Bulks([a] + args)
  {
    SplitAt(s, n, n + k);
    assert ([a] + args)[1..] == args;
  }

  lemma ElementsAreBulks(s: string, n: nat)
    requires Elements(s, n).Ok?
    ensures var r := Elements(s, n);
            s[..r.consumed] == Bulks(r.args) && forall i :: 0 <= i < n ==> |r.args[i]| <= MAX_BULK
  {
    forall s ensures BulkAt(Element, s) {
      if Element(s).Ok? {
        ElementIsBulk(s);
      }
    }
    RepeatIsBulks(Element, s, n);
  }

  /** An accepted array is, byte for byte, the encoding of its arguments. */
  lemma ArrayIsEncoded(s: string)
    requires s != [] && s[0] == '*' && CommandOf(s).Ok?
    ensures var r := CommandOf(s); Within(r.args) && s[..r.consumed] == Encoded(r.args)
  {
    HeaderIsLine(s, '*', MAX_ARGS);
    var line := LineOf(s, MAX_HEADER, Strict);
    var n := Header(line.text, '*', MAX_ARGS).value;
    var rest := Elements(s[line.used..], n);
    assert CommandOf(s) == Ok(rest.args, line.used + rest.consumed) by {
      assert [] + rest.args == rest.args;
    }
    ElementsAreBulks(s[line.used..], n);
    SplitAt(s, line.used, line.used + rest.consumed);
  }

  // ---- what can be left waiting -----------------------------------------------------------------

  /** The longest bulk string and the longest command. */
  const BULK_FRAME: nat := MAX_BULK + 13
  const LONGEST: nat := 5 + MAX_ARGS * BULK_FRAME

  lemma ElementIncomplete(s: string)
    requires Element(s) == Incomplete
    ensures |s| < BULK_FRAME
  {
    LineVerdict(s, MAX_HEADER, Strict);
    if LineOf(s, MAX_HEADER, Strict).Found? {
      HeaderIsLine(s, '$', MAX_BULK);
      HeaderShort('$', Header(LineOf(s, MAX_HEADER, Strict).text, '$', MAX_BULK).value);
    }
  }

  lemma ElementShort(s: string)
    requires Element(s).Ok?
    ensures Element(s).consumed <= BULK_FRAME
  {
    ElementIsBulk(s);
    var e := Element(s);
    HeaderShort('$', |e.args[0]|);
    assert |s[..e.consumed]| == e.consumed;
  }

  /** The length of `n` of the longest bulk strings. */
  function Room(n: nat): nat {
    if n == 0 then 0 else BULK_FRAME + Room(n - 1)
  }

  lemma {:induction false} RoomIs(n: nat)
    ensures Room(n) == n * BULK_FRAME
    ensures n <= MAX_ARGS ==> Room(n) <= MAX_ARGS * BULK_FRAME
  {
    if n > 0 {
      RoomIs(n - 1);
    }
  }

  ghost predicate ShortAt(f: string -> Parse, s: string) {
    (f(s).Ok? ==> f(s).consumed <= BULK_FRAME) && (f(s).Incomplete? ==> |s| < BULK_FRAME)
  }

  lemma {:induction false} RepeatIncomplete(f: string -> Parse, s: string, n: nat)
    requires IsReader(f) && (forall s {:trigger ShortAt(f, s)} :: ShortAt(f, s)) && Repeat(f, s, n) == Incomplete
    ensures |s| < Room(n)
    decreases n
  {
    assert ShortAt(f, s) && Takes(f, s);
    if f(s).Ok? {
      RepeatIncomplete(f, s[f(s).consumed..], n - 1);
    }
  }

  lemma ElementsIncomplete(s: string, n: nat)
    requires Elements(s, n) == Incomplete
    ensures |s| < Room(n)
  {
    forall s ensures ShortAt(Element, s) {
      if Element(s).Ok? {
        ElementShort(s);
      } else if Element(s) == Incomplete {
        ElementIncomplete(s);
      }
    }
    RepeatIncomplete(Element, s, n);
  }

  lemma ArrayIncomplete(s: string)
    requires ArrayOf(s) == Incomplete
    ensures |s| < LONGEST
  {
    LineVerdict(s, MAX_HEADER, Strict);
    var line := LineOf(s, MAX_HEADER, Strict);
    if line.Found? {
      HeaderIsLine(s, '*', MAX_ARGS);
      var n := Header(line.text, '*', MAX_ARGS).value;
      HeaderShort('*', n);
      var rest := s[line.used..];
      assert |s| == |s[..line.used]| + |rest|;
      ElementsIncomplete(rest, n);
      RoomIs(n);
    }
  }

  /** Bytes that wait for the rest of a command are fewer than the longest command. */
  lemma IncompleteIsShort(s: string)
    requires CommandOf(s) == Incomplete
    ensures |s| < LONGEST
  {
    if s == [] {
    } else if s[0] == '*' {
      ArrayIncomplete(s);
    } else {
      LineVerdict(s, MAX_INLINE, Inline);
    }
  }

  lemma LongestDigits()
    ensures |Decimal(MAX_BULK)| == 8 && |Decimal(MAX_ARGS)| == 2
  {
    assert |Decimal(6)| == 1 && |Decimal(67)| == 2 && |Decimal(671)| == 3;
    assert |Decimal(6710)| == 4 && |Decimal(67108)| == 5 && |Decimal(671088)| == 6;
    assert |Decimal(6710886)| == 7 && |Decimal(67108864)| == 8;
  }

  lemma {:induction false} BulksLength(args: seq<string>)
    requires forall i :: 0 <= i < |args| ==> |args[i]| == MAX_BULK
    ensures |Bulks(args)| == |args| * BULK_FRAME
  {
    LongestDigits();
    if args == [] {
    } else {
      BulksLength(args[1..]);
      assert |args| * BULK_FRAME == BULK_FRAME + (|args| - 1) * BULK_FRAME;
    }
  }

  /** The bound is exact: the longest command lacks one byte. */
  lemma LongestIncomplete() returns (s: string)
    ensures CommandOf(s) == Incomplete && |s| == LONGEST - 1
  {
    var args := seq(MAX_ARGS, _ => seq(MAX_BULK, _ => 'x'));
    var all := Encoded(args);
    LongestDigits();
    BulksLength(args);
    assert all + [] == all;
    EncodedReadsBack(args, []);
    s := all[..LONGEST - 1];
    assert s + all[LONGEST - 1..] == all;
    PrefixIncomplete(s, all[LONGEST - 1..]);
  }

  lemma {:induction false} TokensFit(s: string, i: nat)
    requires i < |Tokens(s)|
    ensures Solid(Tokens(s)[i]) && |Tokens(s)[i]| <= |s|
    decreases |s|
  {
    if i > 0 {
      TokensFit(s[Seek(s, true, Seek(s, false, 0))..], i - 1);
    }
  }

  /** No argument is longer than the bulk limit, so a key and a value together stay below 2^32 bytes. */
  lemma ArgumentsFit(s: string)
    requires CommandOf(s).Ok?
    ensures Within(CommandOf(s).args)
  {
    var r := CommandOf(s);
    if s[0] == '*' {
      ArrayIsEncoded(s);
    } else {
      var line := LineOf(s, MAX_INLINE, Inline);
      FoundIsLine(s, MAX_INLINE, Inline, line.text, line.used);
      forall i | 0 <= i < |r.args| ensures |r.args[i]| <= MAX_BULK {
        TokensFit(line.text, i);
      }
    }
  }

  // ---- inline tokens ----------------------------------------------------------------------------

  /** Tokens between blanks: `gaps[0] toks[0] gaps[1] toks[1] ... gaps[n]`. */
  function Woven(gaps: seq<string>, toks: seq<string>): string
    requires |gaps| == |toks| + 1
  {
    if toks == [] then gaps[0] else gaps[0] + toks[0] + Woven(gaps[1..], toks[1..])
  }

  /** Gaps are blank, only the outer ones may be empty, and tokens have no blanks and are not empty. */
  predicate WellWoven(gaps: seq<string>, toks: seq<string>) {
    && |gaps| == |toks| + 1
    && (forall i :: 0 <= i < |gaps| ==> Blank(gaps[i]) && (0 < i < |toks| ==> gaps[i] != []))
    && (forall i :: 0 <= i < |toks| ==> Solid(toks[i]))
  }

  lemma {:induction false} SeekStops(s: string, blank: bool, i: nat, j: nat)
    requires i <= j <= |s| && (forall k :: i <= k < j ==> IsBlank(s[k]) != blank)
    requires (j < |s| ==> IsBlank(s[j]) == blank)
    ensures Seek(s, blank, i) == j
    decreases j - i
  {
    if i < j {
      SeekStops(s, blank, i + 1, j);
    }
  }

  lemma TokenFirst(gap: string, tok: string, rest: string)
    requires Blank(gap) && Solid(tok) && (rest != [] ==> IsBlank(rest[0]))
    ensures Tokens(gap + tok + rest) == [tok] + Tokens(rest)
  {
    var s := gap + tok + rest;
    SeekStops(s, false, 0, |gap|);
    SeekStops(s, true, |gap|, |gap| + |tok|);
    assert s[|gap|..|gap| + |tok|] == tok && s[|gap| + |tok|..] == rest;
  }

  /** However a line is woven from blanks and tokens, the tokens are what is read. */
  lemma {:induction false} TokensOfWoven(gaps: seq<string>, toks: seq<string>)
    requires WellWoven(gaps, toks)
    ensures Tokens(Woven(gaps, toks)) == toks
    decreases |toks|
  {
    if toks == [] {
      SeekStops(gaps[0], false, 0, |gaps[0]|);
    } else {
      var rest := Woven(gaps[1..], toks[1..]);
      assert rest != [] ==> IsBlank(rest[0]) by {
        if |toks| > 1 {
          assert gaps[1] != [] && Blank(gaps[1]);
        } else {
          assert Blank(gaps[1]);
        }
      }
      TokenFirst(gaps[0], toks[0], rest);
      TokensOfWoven(gaps[1..], toks[1..]);
    }
  }

  lemma InThree(s: string, start: nat, end: nat)
    requires start <= end <= |s|
    ensures s == s[..start] + s[start..end] + s[end..]
  {
  }

  /** And every line is so woven. */
  lemma {:induction false} LineIsWoven(s: string) returns (gaps: seq<string>)
    ensures WellWoven(gaps, Tokens(s)) && Woven(gaps, Tokens(s)) == s
    ensures s != [] && IsBlank(s[0]) ==> gaps[0] != []
    decreases |s|
  {
    var start := Seek(s, false, 0);
    if start == |s| {
      gaps := [s];
    } else {
      var end := Seek(s, true, start);
      var gap, tok, rest := s[..start], s[start..end], s[end..];
      InThree(s, start, end);
      assert Tokens(s) == [tok] + Tokens(rest);
      var more := LineIsWoven(rest);
      gaps := [gap] + more;
      assert Tokens(rest) != [] ==> more[0] != [];
      WovenOn(gap, tok, more, Tokens(rest));
    }
  }

  lemma WovenOn(gap: string, tok: string, more: seq<string>, toks: seq<string>)
    requires WellWoven(more, toks) && Blank(gap) && Solid(tok) && (toks != [] ==> more[0] != [])
    ensures WellWoven([gap] + more, [tok] + toks)
    ensures Woven([gap] + more, [tok] + toks) == gap + tok + Woven(more, toks)
  {
    assert ([gap] + more)[1..] == more && ([tok] + toks)[1..] == toks;
  }
}
