/** RESP2 replies: the encoders (src/core/resp.cpp) against a client's decoder. */
module Replies {
  import opened Resp
  import opened RespLaws

  datatype Reply =
    | Simple(text: string)
    | Error(text: string)
    | Integer(value: int)
    | BulkString(bytes: string)
    | NullBulk

  const CRLF := "\r\n"

  /** std::to_chars of a signed number. */
  function Signed(i: int): string {
    if i < 0 then "-" + Decimal(-i) else Decimal(i)
  }

  /** reply::simpleString, error, integer, bulk and nullBulk. */
  function Encode(r: Reply): string {
    match r
    case Simple(text) => "+" + text + CRLF
    case Error(text) => "-" + text + CRLF
    case Integer(i) => ":" + Signed(i) + CRLF
    case BulkString(bytes) => Bulk(bytes)
    case NullBulk => "$-1\r\n"
  }

  function EncodeAll(rs: seq<Reply>): string {
    if rs == [] then [] else Encode(rs[0]) + EncodeAll(rs[1..])
  }

  predicate OneLiner(s: string) {
    forall i :: 0 <= i < |s| ==> s[i] != '\r' && s[i] != '\n'
  }

  /** A reply whose frame cannot be split by its own bytes. */
  predicate Framed(r: Reply) {
    (r.Simple? || r.Error?) ==> OneLiner(r.text)
  }

  // ---- the client's side ------------------------------------------------------------------------

  /** Where the first CRLF at or after `i` starts, or -1. */
  function CrlfAt(s: string, i: nat): (j: int)
    requires i <= |s|
    ensures j == -1 || (i <= j && j + 1 < |s| && s[j] == '\r' && s[j + 1] == '\n')
    decreases |s| - i
  {
    if i + 1 >= |s| then -1 else if s[i] == '\r' && s[i + 1] == '\n' then i else CrlfAt(s, i + 1)
  }

  /** A decimal with an optional minus sign. */
  function SignedValue(s: string): Option<int> {
    if s != [] && s[0] == '-' then
      if Canonical(s[1..]) then
        var v: int := Value(s[1..]);
        Some(-v)
      else None
    else if Canonical(s) then Some(Value(s)) else None
  }

  datatype Decoded = Decoded(reply: Reply, used: nat) | Garbled

  /** One reply from the front of a stream, as RESP2 defines it. */
  function Decode(s: string): (d: Decoded)
    ensures d.Decoded? ==> 0 < d.used <= |s|
  {
    var end := CrlfAt(s, 0);
    if end < 1 then Garbled
    else
      var line, used := s[1..end], end + 2;
      if s[0] == '+' then Decoded(Simple(line), used)
      else if s[0] == '-' then Decoded(Error(line), used)
      else
        match SignedValue(line)
        case None => Garbled
        case Some(n) =>
          if s[0] == ':' then Decoded(Integer(n), used)
          else if s[0] != '$' then Garbled
          else if n == -1 then Decoded(NullBulk, used)
          else if n < 0 || used + n + 2 > |s| || s[used + n] != '\r' || s[used + n + 1] != '\n' then Garbled
          else Decoded(BulkString(s[used..used + n]), used + n + 2)
  }

  /** Every reply of a stream, when it holds nothing else. */
  function DecodeAll(s: string): Option<seq<Reply>>
    decreases |s|
  {
    if s == [] then Some([])
    else
      match Decode(s)
      case Garbled => None
      case Decoded(r, n) =>
        match DecodeAll(s[n..])
        case None => None
        case Some(rs) => Some([r] + rs)
  }

  lemma {:induction false} CrlfIs(s: string, i: nat, j: nat)
    requires i <= j && j + 1 < |s| && s[j] == '\r' && s[j + 1] == '\n' && forall k :: i <= k < j ==> s[k] != '\r'
    ensures CrlfAt(s, i) == j
    decreases j - i
  {
    if i < j {
      CrlfIs(s, i + 1, j);
    }
  }

  /** A line of text after a type byte. */
  lemma LineReadsBack(kind: char, text: string, rest: string)
    requires kind != '\r' && OneLiner(text)
    ensures var s := [kind] + text + CRLF + rest;
            CrlfAt(s, 0) == |text| + 1 && s[0] == kind && s[1..|text| + 1] == text && s[|text| + 3..] == rest
  {
    var s := [kind] + text + CRLF + rest;
    assert forall k :: 1 <= k <= |text| ==> s[k] == text[k - 1];
    CrlfIs(s, 0, |text| + 1);
  }

  lemma SignedReadsBack(i: int)
    ensures SignedValue(Signed(i)) == Some(i) && OneLiner(Signed(i))
  {
    DecimalCanonical(if i < 0 then -i else i);
    if i < 0 {
      assert Signed(i)[1..] == Decimal(-i);
    }
  }

  lemma BulkDecodes(bytes: string, rest: string)
    ensures Decode(Bulk(bytes) + rest) == Decoded(BulkString(bytes), |Bulk(bytes)|)
  {
    var text := Decimal(|bytes|);
    SignedReadsBack(|bytes|);
    var head, after := "$" + text + CRLF, bytes + CRLF + rest;
    LineReadsBack('$', text, after);
    BulkIs(bytes, rest, head, after);
    BodyFollows(head, bytes, rest, head + after);
    BulkFrom(head + after, text, bytes, |text| + 1, |head|, |head| + |bytes|);
  }

  lemma BulkFrom(s: string, text: string, bytes: string, end: nat, used: nat, stop: nat)
    requires SignedValue(text) == Some(|bytes|) && CrlfAt(s, 0) == end && used == end + 2 && stop == used + |bytes|
    requires |s| >= stop + 2 && s[0] == '$' && 1 <= end && s[1..end] == text
    requires s[used..stop] == bytes && s[stop] == '\r' && s[stop + 1] == '\n'
    ensures Decode(s) == Decoded(BulkString(bytes), stop + 2)
  {
  }

  lemma BulkIs(bytes: string, rest: string, head: string, after: string)
    requires head == "$" + Decimal(|bytes|) + CRLF && after == bytes + CRLF + rest
    ensures Bulk(bytes) + rest == head + after && |Bulk(bytes)| == |head| + |bytes| + 2
  {
  }

  /** The slices a decoder takes of a body between its head and its CRLF. */
  lemma BodyFollows(head: string, bytes: string, rest: string, s: string)
    requires s == head + (bytes + CRLF + rest)
    ensures var n := |head| + |bytes|; s[|head|..n] == bytes && s[n] == '\r' && s[n + 1] == '\n'
  {
  }

  /** A framed reply decodes to itself, whatever follows. */
  lemma DecodesBack(r: Reply, rest: string)
    requires Framed(r)
    ensures Decode(Encode(r) + rest) == Decoded(r, |Encode(r)|)
  {
    match r
    case Simple(text) =>
      LineReadsBack('+', text, rest);
    case Error(text) =>
      LineReadsBack('-', text, rest);
    case Integer(i) =>
      SignedReadsBack(i);
      LineReadsBack(':', Signed(i), rest);
    case BulkString(bytes) =>
      BulkDecodes(bytes, rest);
    case NullBulk =>
      NullDecodes(rest);
  }

  lemma NullDecodes(rest: string)
    ensures Decode("$-1\r\n" + rest) == Decoded(NullBulk, 5)
  {
    SignedReadsBack(-1);
    assert Signed(-1) == "-1";
    LineReadsBack('$', "-1", rest);
    assert "$-1\r\n" + rest == "$" + "-1" + CRLF + rest;
  }

  /** A stream of framed replies decodes, uniquely, into exactly those replies in order. */
  lemma {:induction false} StreamDecodes(rs: seq<Reply>)
    requires forall i :: 0 <= i < |rs| ==> Framed(rs[i])
    ensures DecodeAll(EncodeAll(rs)) == Some(rs)
  {
    if rs == [] {
    } else {
      var rest := EncodeAll(rs[1..]);
      DecodesBack(rs[0], rest);
      assert (Encode(rs[0]) + rest)[|Encode(rs[0])|..] == rest;
      StreamDecodes(rs[1..]);
      assert [rs[0]] + rs[1..] == rs;
    }
  }

  lemma {:induction false} EncodeAllOn(a: seq<Reply>, b: seq<Reply>)
    ensures EncodeAll(a + b) == EncodeAll(a) + EncodeAll(b)
  {
    if a == [] {
      assert a + b == b;
    } else {
      assert (a + b)[1..] == a[1..] + b;
      EncodeAllOn(a[1..], b);
    }
  }
}
