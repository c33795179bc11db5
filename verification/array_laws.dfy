/** What the array form refuses (src/core/resp.cpp, parseArray): a bad count, a bad bulk length, a bad trailer. */
module ArrayLaws {
  import opened Resp
  import opened RespLaws

  /** Text that can be a header line. */
  predicate HeaderText(text: string) {
    |text| <= 32 && forall k :: 0 <= k < |text| ==> text[k] != '\n'
  }

  lemma HeaderTextFound(text: string, rest: string, s: string)
    requires HeaderText(text) && s == text + "\r\n" + rest
    ensures LineOf(s, MAX_HEADER, Strict) == Found(text, |text| + 2)
  {
    OneLine(text, rest);
    FoundIsLine(s, MAX_HEADER, Strict, text, |text| + 2);
  }

  lemma HeaderIs(text: string, kind: char, limit: nat, n: nat)
    requires limit < SIZE_LIMIT
    ensures Header(text, kind, limit) == Some(n) <==> n <= limit && text == [kind] + Decimal(n)
  {
    if text != [] {
      NumberReadsDecimal(text[1..], n);
      assert text == [text[0]] + text[1..];
    }
    if text == [kind] + Decimal(n) {
      assert text[1..] == Decimal(n);
    }
  }

  /** An array opens with a count from 0 to 16, written plainly, or is refused. */
  lemma CountRefused(text: string, rest: string)
    requires HeaderText(text) && text != [] && text[0] == '*'
    requires forall n: nat :: n <= 16 ==> text != ['*'] + Decimal(n)
    ensures CommandOf(text + "\r\n" + rest) == Bad(ArgLength)
  {
    HeaderTextFound(text, rest, text + "\r\n" + rest);
    var h := Header(text, '*', MAX_ARGS);
    if h.Some? {
      HeaderIs(text, '*', MAX_ARGS, h.value);
    }
  }

  /** A bulk string opens with a length up to 64 MB, written plainly, or is refused. */
  lemma LengthRefused(text: string, rest: string)
    requires HeaderText(text) && forall n: nat :: n <= 67108864 ==> text != ['$'] + Decimal(n)
    ensures Element(text + "\r\n" + rest) == Bad(BulkLength)
  {
    HeaderTextFound(text, rest, text + "\r\n" + rest);
    var h := Header(text, '$', MAX_BULK);
    if h.Some? {
      HeaderIs(text, '$', MAX_BULK, h.value);
    }
  }

  /** What follows the announced bytes must be CRLF. */
  lemma TrailerRefused(body: string, n: nat)
    requires n <= 67108864 && |body| >= n + 2 && body[n..n + 2] != "\r\n"
    ensures Element(HeaderLine('$', n) + body) == Bad(BulkLength)
  {
    HeaderReadsBack('$', n, body);
    assert (HeaderLine('$', n) + body)[|HeaderLine('$', n)|..] == body;
    assert body[n..n + 2] == [body[n], body[n + 1]];
  }

  lemma RepeatFails(f: string -> Parse, s: string, n: nat, a: string, used: nat)
    requires IsReader(f) && f(s) == Ok([a], used) && used <= |s| && !Repeat(f, s[used..], n).Ok?
    ensures Repeat(f, s, n + 1) == Repeat(f, s[used..], n)
  {
  }

  lemma {:induction false} RepeatStops(f: string -> Parse, args: seq<string>, rest: string, n: nat)
    requires IsReader(f) && |args| < n && !f(rest).Ok? && forall i :: 0 <= i < |args| ==> |args[i]| <= MAX_BULK
    requires forall a, more {:trigger ReadsBackAt(f, a, more)} :: ReadsBackAt(f, a, more)
    ensures Repeat(f, Bulks(args) + rest, n) == f(rest)
    decreases |args|
  {
    if args == [] {
      assert Bulks(args) + rest == rest;
    } else {
      var first, others := Bulk(args[0]), Bulks(args[1..]);
      var s := Bulks(args) + rest;
      assert ReadsBackAt(f, args[0], others + rest);
      AfterFirst(first, others, rest, s);
      RepeatStops(f, args[1..], rest, n - 1);
      RepeatFails(f, s, n - 1, args[0], |first|);
    }
  }

  /** After a good count and any good bulk strings, the verdict on the next one is the verdict on the command. */
  lemma ElementDecides(args: seq<string>, n: nat, rest: string)
    requires Within(args) && |args| < n <= 16 && !Element(rest).Ok?
    ensures CommandOf(HeaderLine('*', n) + (Bulks(args) + rest)) == Element(rest)
  {
    forall a, more ensures ReadsBackAt(Element, a, more) {
      if |a| <= MAX_BULK {
        BulkReadsBack(a, more);
      }
    }
    RepeatStops(Element, args, rest, n);
    var tail := Bulks(args) + rest;
    HeaderReadsBack('*', n, tail);
    assert (HeaderLine('*', n) + tail)[|HeaderLine('*', n)|..] == tail;
  }
}
