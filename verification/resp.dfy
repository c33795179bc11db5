/** RESP2 request parsing (src/core/resp.h, src/core/resp.cpp).

    The specification functions read from the front of the bytes that are left; the methods
    beside them keep offsets into the whole input, as the source does. */
module Resp {
  import opened Basics

  const MAX_ARGS: nat := 16
  const MAX_BULK: nat := 64 * 1024 * 1024
  const MAX_INLINE: nat := 64 * 1024
  const MAX_HEADER: nat := 32
  const SIZE_LIMIT: nat := 0x1_0000_0000_0000_0000

  datatype Option<T> = None | Some(value: T)

  datatype Framing = Strict | Inline

  /** `used` is the length of the line with its terminator. */
  datatype Line = Found(text: string, used: nat) | More | TooLong | BadTrailer

  datatype Error = ArgLength | BulkLength | InlineLength

  datatype Parse = Ok(args: seq<string>, consumed: nat) | Incomplete | Bad(error: Error)

  // ---- numbers ----------------------------------------------------------------------------------

  predicate IsDigit(c: char) {
    '0' <= c <= '9'
  }

  function Digit(d: nat): (c: char)
    requires d < 10
    ensures IsDigit(c) && c as int - '0' as int == d
  {
    '0' + d as char
  }

  /** The digits std::to_chars writes. */
  function Decimal(n: nat): (s: string)
    ensures |s| >= 1
  {
    if n < 10 then [Digit(n)] else Decimal(n / 10) + [Digit(n % 10)]
  }

  predicate AllDigits(s: string) {
    forall i :: 0 <= i < |s| ==> IsDigit(s[i])
  }

  function Value(s: string): nat
    requires AllDigits(s)
  {
    if s == [] then 0 else Value(s[..|s| - 1]) * 10 + (s[|s| - 1] as int - '0' as int)
  }

  /** Digits with no leading zero, except zero itself. */
  predicate Canonical(s: string) {
    |s| > 0 && AllDigits(s) && (s[0] != '0' || s == "0")
  }

  /** A canonical decimal that fits size_t. */
  function Number(s: string): Option<nat> {
    if Canonical(s) && Value(s) < SIZE_LIMIT then Some(Value(s)) else None
  }

  lemma {:induction false} DecimalCanonical(n: nat)
    ensures Canonical(Decimal(n)) && Value(Decimal(n)) == n && (n > 0 ==> Decimal(n)[0] != '0')
  {
    if n < 10 {
      assert Decimal(n)[..0] == [];
    } else {
      DecimalCanonical(n / 10);
      var s := Decimal(n);
      assert s[..|s| - 1] == Decimal(n / 10);
    }
  }

  lemma {:induction false} CanonicalIsDecimal(s: string)
    requires Canonical(s)
    ensures s == Decimal(Value(s)) && (s != "0" ==> Value(s) > 0)
  {
    var front, d := s[..|s| - 1], s[|s| - 1] as int - '0' as int;
    assert s == front + [s[|s| - 1]];
    if |s| == 1 {
      assert front == [];
      assert s == [Digit(d)];
    } else {
      CanonicalIsDecimal(front);
      assert Value(s) == Value(front) * 10 + d && Digit(d) == s[|s| - 1];
    }
  }

  /** Reading accepts exactly the decimals of the numbers below 2^64. */
  lemma NumberReadsDecimal(s: string, v: nat)
    ensures Number(s) == Some(v) <==> v < SIZE_LIMIT && s == Decimal(v)
  {
    DecimalCanonical(v);
    if Canonical(s) {
      CanonicalIsDecimal(s);
    }
  }

  lemma {:induction false} ValueGrows(s: string, i: nat)
    requires AllDigits(s) && i <= |s|
    ensures Value(s[..i]) <= Value(s)
    decreases |s| - i
  {
    if i == |s| {
      assert s[..i] == s;
    } else {
      var t := s[..i + 1];
      assert t[..|t| - 1] == s[..i];
      ValueGrows(s, i + 1);
    }
  }

  /** readInt: digit by digit, stopping before the value would pass 2^64 - 1. */
  method ReadInt(s: string) returns (r: Option<nat>)
    ensures r == Number(s)
  {
    if |s| == 0 {
      return None;
    }
    if s == "0" {
      NumberReadsDecimal(s, 0);
      return Some(0);
    }
    if s[0] < '1' || s[0] > '9' {
      return None;
    }
    var v := 0;
    for i := 0 to |s|
      invariant AllDigits(s[..i]) && v == Value(s[..i]) && v < SIZE_LIMIT
    {
      var c := s[i];
      if c < '0' || c > '9' {
        return None;
      }
      var d := c as int - '0' as int;
      assert s[..i + 1][..i] == s[..i];
      if v > (SIZE_LIMIT - 1 - d) / 10 {
        if AllDigits(s) {
          ValueGrows(s, i + 1);
        }
        return None;
      }
      v := v * 10 + d;
    }
    assert s[..|s|] == s;
    r := Some(v);
  }

  // ---- lines ------------------------------------------------------------------------------------

  /** The LF at `i` ends a line: after a CR, or anywhere in the inline form. */
  predicate Ends(s: string, framing: Framing, i: int) {
    0 <= i < |s| && s[i] == '\n' && (framing.Inline? || (i > 0 && s[i - 1] == '\r'))
  }

  /** Where the first line end at or after `i` is, or -1. */
  function LineEnd(s: string, framing: Framing, i: nat): (lf: int)
    requires i <= |s|
    ensures lf == -1 || (i <= lf && Ends(s, framing, lf))
    ensures forall k :: i <= k < (if lf == -1 then |s| else lf) ==> !Ends(s, framing, k)
    decreases |s| - i
  {
    if i == |s| then -1 else if Ends(s, framing, i) then i else LineEnd(s, framing, i + 1)
  }

  predicate EndsInCr(s: string, lf: int) {
    0 < lf <= |s| && s[lf - 1] == '\r'
  }

  /** readLine on the bytes left: only `maxLen + 2` of them can hold a legal line. */
  function LineOf(s: string, maxLen: nat, framing: Framing): Line {
    var scan := s[..Min(|s|, maxLen + 2)];
    var lf := LineEnd(scan, framing, 0);
    if lf == -1 then
      if |s| >= maxLen + 2 || (|s| == maxLen + 1 && s[maxLen] != '\r') then TooLong else More
    else
      var len := if EndsInCr(scan, lf) then lf - 1 else lf;
      if len > maxLen then TooLong else Found(s[..len], lf + 1)
  }

  /** What a legal line is: at most `maxLen` bytes of text up to the first line end. */
  ghost predicate IsLine(s: string, maxLen: nat, framing: Framing, text: string, used: nat) {
    && 0 < used <= |s| && Ends(s, framing, used - 1) && (forall k :: 0 <= k < used - 1 ==> !Ends(s, framing, k))
    && text == s[..if EndsInCr(s, used - 1) then used - 2 else used - 1] && |text| <= maxLen
  }

  /** A line is found exactly when there is a legal one. */
  lemma FoundIsLine(s: string, maxLen: nat, framing: Framing, text: string, used: nat)
    ensures LineOf(s, maxLen, framing) == Found(text, used) <==> IsLine(s, maxLen, framing, text, used)
  {
    var n := Min(|s|, maxLen + 2);
    var scan := s[..n];
    var lf := LineEnd(scan, framing, 0);
    assert forall k :: 0 <= k < n ==> (Ends(scan, framing, k) <==> Ends(s, framing, k));
    if IsLine(s, maxLen, framing, text, used) {
      assert used - 1 < n && Ends(scan, framing, used - 1);
      assert lf == used - 1;
    }
  }

  /** Too long means no bytes that may follow make a legal line; more means some do. */
  lemma LineVerdict(s: string, maxLen: nat, framing: Framing)
    ensures LineOf(s, maxLen, framing) == TooLong ==>
              forall e, text, used :: !IsLine(s + e, maxLen, framing, text, used)
    ensures LineOf(s, maxLen, framing) == More ==>
              |s| <= maxLen + 1 && exists e, text, used :: IsLine(s + e, maxLen, framing, text, used)
    ensures LineOf(s, maxLen, framing).BadTrailer? == false
  {
    var v := LineOf(s, maxLen, framing);
    if v == TooLong {
      forall e, text, used ensures !IsLine(s + e, maxLen, framing, text, used) {
        NeverALine(s, e, maxLen, framing, text, used);
      }
    }
    if v == More {
      assert s[..|s|] == s;
      var e := if |s| == maxLen + 1 then "\n" else "\r\n";
      MakesALine(s, maxLen, framing, e);
    }
  }

  lemma NeverALine(s: string, e: string, maxLen: nat, framing: Framing, text: string, used: nat)
    requires LineOf(s, maxLen, framing) == TooLong
    ensures !IsLine(s + e, maxLen, framing, text, used)
  {
    if IsLine(s + e, maxLen, framing, text, used) {
      if used <= |s| {
        assert forall k :: 0 <= k < used ==> (Ends(s + e, framing, k) <==> Ends(s, framing, k));
        assert (s + e)[..|text|] == s[..|text|];
        FoundIsLine(s, maxLen, framing, text, used);
      }
    }
  }

  lemma MakesALine(s: string, maxLen: nat, framing: Framing, e: string)
    requires |s| <= maxLen + 1 && LineEnd(s, framing, 0) == -1
    requires if |s| == maxLen + 1 then s[maxLen] == '\r' && e == "\n" else e == "\r\n"
    ensures exists text, used :: IsLine(s + e, maxLen, framing, text, used)
  {
    var t := s + e;
    var used := |t|;
    assert t[used - 1] == '\n' && t[used - 2] == '\r';
    forall k | 0 <= k < used - 1 ensures !Ends(t, framing, k) {
      assert k < |s| ==> !Ends(s, framing, k);
    }
    assert IsLine(t, maxLen, framing, t[..used - 2], used);
  }

  /** A verdict other than more bytes needed is final. */
  lemma LineStable(s: string, e: string, maxLen: nat, framing: Framing)
    requires LineOf(s, maxLen, framing) != More
    ensures LineOf(s + e, maxLen, framing) == LineOf(s, maxLen, framing)
  {
    match LineOf(s, maxLen, framing) {
      case Found(text, used) =>
        FoundIsLine(s, maxLen, framing, text, used);
        assert forall k :: 0 <= k < used ==> (Ends(s + e, framing, k) <==> Ends(s, framing, k));
        assert (s + e)[..|text|] == s[..|text|];
        FoundIsLine(s + e, maxLen, framing, text, used);
      case TooLong =>
        var v := LineOf(s + e, maxLen, framing);
        if v.Found? {
          NeverALine(s, e, maxLen, framing, v.text, v.used);
          FoundIsLine(s + e, maxLen, framing, v.text, v.used);
        }
    }
  }

  /** string_view::find of one byte. */
  method FindByte(s: string, c: char, from: nat) returns (i: int)
    requires from <= |s|
    ensures i == -1 || (from <= i < |s| && s[i] == c)
    ensures forall k :: from <= k < (if i == -1 then |s| else i) ==> s[k] != c
  {
    i := from;
    while i < |s|
      invariant from <= i <= |s| && forall k :: from <= k < i ==> s[k] != c
    {
      if s[i] == c {
        return;
      }
      i := i + 1;
    }
    i := -1;
  }

  lemma {:induction false} LineEndSkips(s: string, framing: Framing, i: nat, j: nat)
    requires i <= j <= |s| && forall k :: i <= k < j ==> !Ends(s, framing, k)
    ensures LineEnd(s, framing, i) == LineEnd(s, framing, j)
    decreases j - i
  {
    if i < j {
      LineEndSkips(s, framing, i + 1, j);
    }
  }

  /** The next LF that ends a line, going past the bare ones in the strict form. */
  method FindEnd(scan: string, framing: Framing) returns (lf: int)
    ensures lf == LineEnd(scan, framing, 0)
  {
    var from := 0;
    while true
      invariant from <= |scan| && LineEnd(scan, framing, from) == LineEnd(scan, framing, 0)
      decreases |scan| - from
    {
      lf := FindByte(scan, '\n', from);
      LineEndSkips(scan, framing, from, if lf == -1 then |scan| else lf);
      if lf == -1 || EndsInCr(scan, lf) || framing.Inline? {
        return;
      }
      from := lf + 1;
    }
  }

  /** readLine. */
  method ReadLine(input: string, at: nat, maxLen: nat, framing: Framing) returns (line: Line)
    ensures line == if at > |input| then More else LineOf(input[at..], maxLen, framing)
  {
    if at >= |input| {
      return More;
    }
    ghost var s := input[at..];
    var avail := |input| - at;
    var window := Min(avail, maxLen + 2);
    var scan := input[at..at + window];
    assert scan == s[..window];
    var lf := FindEnd(scan, framing);
    if lf == -1 {
      if avail >= maxLen + 2 || (avail == maxLen + 1 && scan[|scan| - 1] != '\r') {
        return TooLong;
      }
      return More;
    }
    var len := if EndsInCr(scan, lf) then lf - 1 else lf;
    if len > maxLen {
      return TooLong;
    }
    assert input[at..at + len] == s[..len];
    line := Found(input[at..at + len], lf + 1);
  }

  /** takeBytes on the bytes left: never scans the payload. */
  function Payload(s: string, len: nat): Line {
    if |s| < len + 2 then More
    else if s[len] != '\r' || s[len + 1] != '\n' then BadTrailer
    else Found(s[..len], len + 2)
  }

  method TakeBytes(input: string, at: nat, len: nat) returns (line: Line)
    ensures line == if at > |input| then More else Payload(input[at..], len)
  {
    if at > |input| {
      return More;
    }
    var avail := |input| - at;
    if avail < 2 || len > avail - 2 {
      return More;
    }
    if input[at + len] != '\r' || input[at + len + 1] != '\n' {
      return BadTrailer;
    }
    assert input[at..at + len] == input[at..][..len];
    line := Found(input[at..at + len], len + 2);
  }

  lemma PayloadStable(s: string, e: string, len: nat)
    requires Payload(s, len) != More
    ensures Payload(s + e, len) == Payload(s, len)
  {
    assert (s + e)[..len] == s[..len];
  }

  // ---- the array form ---------------------------------------------------------------------------

  /** A header line: the type byte and a canonical count within the limit. */
  function Header(line: string, kind: char, limit: nat): Option<nat> {
    if line == [] || line[0] != kind then None
    else
      match Number(line[1..])
      case Some(v) => if v > limit then None else Some(v)
      case None => None
  }

  method HeaderValue(line: string, kind: char, limit: nat) returns (r: Option<nat>)
    ensures r == Header(line, kind, limit)
  {
    if |line| == 0 || line[0] != kind {
      return None;
    }
    var v := ReadInt(line[1..]);
    if v.None? || v.value > limit {
      return None;
    }
    return v;
  }

  /** One bulk string. */
  function Element(s: string): (r: Parse)
    ensures r.Ok? ==> |r.args| == 1 && 0 < r.consumed <= |s|
  {
    match LineOf(s, MAX_HEADER, Strict)
    case Found(text, used) =>
      (match Header(text, '$', MAX_BULK)
       case Some(len) =>
         (match Payload(s[used..], len)
          case Found(arg, n) => Ok([arg], used + n)
          case More => Incomplete
          case _ => Bad(BulkLength))
       case None => Bad(BulkLength))
    case More => Incomplete
    case _ => Bad(BulkLength)
  }

  /** `first` and then what follows it. */
  function Then(first: Parse, rest: Parse): Parse
    requires first.Ok?
  {
    match rest
    case Ok(args, n) => Ok(first.args + args, first.consumed + n)
    case _ => rest
  }

  ghost predicate Takes(f: string -> Parse, s: string) {
    f(s).Ok? ==> |f(s).args| == 1 && 0 < f(s).consumed <= |s|
  }

  /** `f` reads one argument from the front of the bytes. */
  ghost predicate IsReader(f: string -> Parse) {
    forall s {:trigger Takes(f, s)} :: Takes(f, s)
  }

  /** `n` arguments in a row. */
  function Repeat(f: string -> Parse, s: string, n: nat): (r: Parse)
    requires IsReader(f)
    ensures r.Ok? ==> |r.args| == n && r.consumed <= |s|
    decreases n
  {
    if n == 0 then Ok([], 0)
    else
      var e := f(s);
      assert Takes(f, s);
      if e.Ok? then Then(e, Repeat(f, s[e.consumed..], n - 1)) else e
  }

  function Elements(s: string, n: nat): (r: Parse)
    ensures r.Ok? ==> |r.args| == n && r.consumed <= |s|
  {
    Repeat(Element, s, n)
  }

  function ArrayOf(s: string): (r: Parse)
    ensures r.Ok? ==> |r.args| <= MAX_ARGS && 0 < r.consumed <= |s|
  {
    match LineOf(s, MAX_HEADER, Strict)
    case Found(text, used) =>
      (match Header(text, '*', MAX_ARGS)
       case Some(n) => Then(Ok([], used), Elements(s[used..], n))
       case None => Bad(ArgLength))
    case More => Incomplete
    case _ => Bad(ArgLength)
  }

  // ---- the inline form --------------------------------------------------------------------------

  predicate IsBlank(c: char) {
    c == ' ' || c == '\t'
  }

  predicate Blank(s: string) {
    forall i :: 0 <= i < |s| ==> IsBlank(s[i])
  }

  predicate Solid(s: string) {
    |s| > 0 && forall i :: 0 <= i < |s| ==> !IsBlank(s[i])
  }

  /** The first position at or after `i` that is blank, or is not, as asked. */
  function Seek(s: string, blank: bool, i: nat): (j: nat)
    requires i <= |s|
    ensures i <= j <= |s| && (j < |s| ==> IsBlank(s[j]) == blank)
    ensures forall k :: i <= k < j ==> IsBlank(s[k]) != blank
    decreases |s| - i
  {
    if i == |s| || IsBlank(s[i]) == blank then i else Seek(s, blank, i + 1)
  }

  function Tokens(s: string): (r: seq<string>)
    decreases |s|
  {
    var start := Seek(s, false, 0);
    if start == |s| then []
    else
      var end := Seek(s, true, start);
      [s[start..end]] + Tokens(s[end..])
  }

  function InlineOf(s: string): (r: Parse)
    ensures r.Ok? ==> |r.args| <= MAX_ARGS && 0 < r.consumed <= |s|
  {
    match LineOf(s, MAX_INLINE, Inline)
    case Found(text, used) =>
      var args := Tokens(text);
      if |args| > MAX_ARGS then Bad(ArgLength) else Ok(args, used)
    case More => Incomplete
    case _ => Bad(InlineLength)
  }

  /** parseCommand. */
  function CommandOf(s: string): (r: Parse)
    ensures r.Ok? ==> |r.args| <= MAX_ARGS && 0 < r.consumed <= |s|
  {
    if s == [] then Incomplete else if s[0] == '*' then ArrayOf(s) else InlineOf(s)
  }
}
