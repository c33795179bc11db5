/** The request parser as it fills a command in place (src/core/resp.cpp). */
module RespParser {
  import opened Resp

  /** MAX_ARGS slots, of which `argc` are in use. */
  datatype Command = Command(argv: seq<string>, argc: nat)

  datatype Status = StatusOk | StatusIncomplete | StatusError

  datatype Result = Result(status: Status, consumed: nat, error: string)

  function ErrorText(e: Error): string {
    match e
    case ArgLength => "ERR Protocol error: invalid multibulk length"
    case BulkLength => "ERR Protocol error: invalid bulk length"
    case InlineLength => "ERR Protocol error: too big inline request"
  }

  function ResultOf(p: Parse): Result {
    match p
    case Ok(_, n) => Result(StatusOk, n, "")
    case Incomplete => Result(StatusIncomplete, 0, "")
    case Bad(e) => Result(StatusError, 0, ErrorText(e))
  }

  /** The command a parse leaves: its arguments and blanks, and nothing but blanks when it fails. */
  ghost function CommandFor(p: Parse): Command
    requires p.Ok? ==> |p.args| <= MAX_ARGS
  {
    if p.Ok? then Command(p.args + Blanks(MAX_ARGS - |p.args|), |p.args|) else Command(Blanks(MAX_ARGS), 0)
  }

  function Blanks(n: nat): (s: seq<string>)
    ensures |s| == n && forall i :: 0 <= i < n ==> s[i] == ""
  {
    seq(n, _ => "")
  }

  /** publish: the first `argc` slots stay and the others become empty strings. */
  method Publish(cmd: Command, argc: nat) returns (out: Command)
    requires |cmd.argv| == MAX_ARGS && argc <= MAX_ARGS
    ensures out == Command(cmd.argv[..argc] + Blanks(MAX_ARGS - argc), argc)
  {
    out := Command(cmd.argv[..argc] + Blanks(MAX_ARGS - argc), argc);
  }

  lemma {:induction false} ThenOn(first: Parse, second: Parse, rest: Parse)
    requires first.Ok? && second.Ok?
    ensures Then(first, Then(second, rest)) == Then(Then(first, second), rest)
  {
    if rest.Ok? {
      assert first.args + (second.args + rest.args) == first.args + second.args + rest.args;
    }
  }

  /** One bulk string at the cursor. */
  method ReadElement(input: string, cursor: nat) returns (r: Parse)
    requires cursor <= |input|
    ensures r == Element(input[cursor..])
  {
    var elem := ReadLine(input, cursor, MAX_HEADER, Strict);
    if elem == More {
      return Incomplete;
    }
    if elem == TooLong {
      return Bad(BulkLength);
    }
    ghost var s := input[cursor..];
    assert elem.Found? by {
      LineVerdict(s, MAX_HEADER, Strict);
    }
    FoundIsLine(s, MAX_HEADER, Strict, elem.text, elem.used);
    assert input[cursor + elem.used..] == s[elem.used..];
    var len := HeaderValue(elem.text, '$', MAX_BULK);
    if len.None? {
      return Bad(BulkLength);
    }
    var payload := TakeBytes(input, cursor + elem.used, len.value);
    if payload == More {
      return Incomplete;
    }
    if payload == BadTrailer {
      return Bad(BulkLength);
    }
    r := Ok([payload.text], elem.used + payload.used);
  }

  ghost predicate ReadsFrom(rest: (string, nat) -> Parse, s: string, n: nat) {
    rest(s, n) == Elements(s, n)
  }

  /** `rest` is what is read of `n` elements. */
  ghost predicate Reads(rest: (string, nat) -> Parse) {
    forall s, n {:trigger ReadsFrom(rest, s, n)} :: ReadsFrom(rest, s, n)
  }

  lemma ElementReader() returns (rest: (string, nat) -> Parse)
    ensures Reads(rest)
  {
    rest := (s: string, n: nat) => Elements(s, n);
  }

  /** The next of `n` elements. */
  method ReadNext(input: string, cursor: nat, ghost n: nat, ghost rest: (string, nat) -> Parse) returns (e: Parse)
    requires cursor <= |input| && n > 0 && Reads(rest)
    ensures e.Ok? ==> |e.args| == 1 && cursor + e.consumed <= |input|
    ensures e.Ok? ==> rest(input[cursor..], n) == Then(e, rest(input[cursor + e.consumed..], n - 1))
    ensures !e.Ok? ==> rest(input[cursor..], n) == e
  {
    e := ReadElement(input, cursor);
    assert ReadsFrom(rest, input[cursor..], n);
    if e.Ok? {
      assert input[cursor..][e.consumed..] == input[cursor + e.consumed..];
      assert ReadsFrom(rest, input[cursor + e.consumed..], n - 1);
    }
  }

  /** The elements after the header, written to their slots one by one. */
  method ReadElements(input: string, start: nat, count: nat, cmd: Command, ghost rest: (string, nat) -> Parse)
    returns (r: Parse, out: Command)
    requires start <= |input| && count <= MAX_ARGS && |cmd.argv| == MAX_ARGS && Reads(rest)
    ensures r == rest(input[start..], count) && |out.argv| == MAX_ARGS
    ensures r.Ok? ==> out.argv[..count] == r.args && start + r.consumed <= |input|
  {
    out := cmd;
    r := Ok([], 0);
    for i := 0 to count
      invariant r.Ok? && start + r.consumed <= |input| && |out.argv| == MAX_ARGS && out.argv[..i] == r.args
      invariant rest(input[start..], count) == Then(r, rest(input[start + r.consumed..], count - i))
    {
      var e := ReadNext(input, start + r.consumed, count - i, rest);
      if !e.Ok? {
        r := e;
        return;
      }
      ThenOn(r, e, rest(input[start + r.consumed + e.consumed..], count - i - 1));
      out := out.(argv := out.argv[i := e.args[0]]);
      r := Then(r, e);
    }
    assert ReadsFrom(rest, input[start + r.consumed..], 0);
  }

  lemma ArrayParts(input: string, text: string, used: nat, count: nat, rest: (string, nat) -> Parse)
    requires LineOf(input, MAX_HEADER, Strict) == Found(text, used) && Header(text, '*', MAX_ARGS) == Some(count)
    requires used <= |input| && Reads(rest)
    ensures ArrayOf(input) == Then(Ok([], used), rest(input[used..], count))
  {
    assert ReadsFrom(rest, input[used..], count);
  }

  /** What follows an array header for `count` elements. */
  method ReadArgs(input: string, ghost text: string, used: nat, count: nat, cmd: Command)
    returns (r: Parse, out: Command)
    requires LineOf(input, MAX_HEADER, Strict) == Found(text, used) && Header(text, '*', MAX_ARGS) == Some(count)
    requires used <= |input| && |cmd.argv| == MAX_ARGS
    ensures r == ArrayOf(input) && |out.argv| == MAX_ARGS
    ensures r.Ok? ==> out.argv[..count] == r.args
  {
    ghost var rest := ElementReader();
    ArrayParts(input, text, used, count, rest);
    r, out := ReadElements(input, used, count, cmd, rest);
    r := Then(Ok([], used), r);
  }

  /** parseArray: argc is published only once every slot is filled. */
  method ParseArray(input: string, cmd: Command) returns (res: Result, out: Command)
    requires |cmd.argv| == MAX_ARGS
    ensures res == ResultOf(ArrayOf(input)) && |out.argv| == MAX_ARGS
    ensures ArrayOf(input).Ok? ==> out == CommandFor(ArrayOf(input))
  {
    out := cmd;
    assert input[0..] == input;
    var header := ReadLine(input, 0, MAX_HEADER, Strict);
    if header == More {
      return ResultOf(Incomplete), out;
    }
    LineVerdict(input, MAX_HEADER, Strict);
    if header == TooLong {
      return ResultOf(Bad(ArgLength)), out;
    }
    FoundIsLine(input, MAX_HEADER, Strict, header.text, header.used);
    var count := HeaderValue(header.text, '*', MAX_ARGS);
    if count.None? {
      return ResultOf(Bad(ArgLength)), out;
    }
    var r;
    r, out := ReadArgs(input, header.text, header.used, count.value, out);
    if !r.Ok? {
      return ResultOf(r), out;
    }
    out := Publish(out, count.value);
    res := Result(StatusOk, r.consumed, "");
  }

  /** string_view::find_first_of and find_first_not_of the blanks. */
  method SeekFrom(s: string, blank: bool, from: nat) returns (i: nat)
    requires from <= |s|
    ensures i == Seek(s, blank, from)
  {
    i := from;
    while i < |s| && IsBlank(s[i]) != blank
      invariant from <= i <= |s| && Seek(s, blank, i) == Seek(s, blank, from)
    {
      i := i + 1;
    }
  }

  lemma {:induction false} SeekOn(s: string, blank: bool, at: nat, i: nat)
    requires at <= i <= |s|
    ensures Seek(s, blank, i) == at + Seek(s[at..], blank, i - at)
    decreases |s| - i
  {
    if i < |s| {
      SeekOn(s, blank, at, i + 1);
    }
  }

  lemma SliceOfTail(text: string, at: nat, a: nat, b: nat)
    requires a <= b && at + b <= |text|
    ensures text[at..][a..b] == text[at + a..at + b] && text[at..][b..] == text[at + b..]
  {
  }

  ghost predicate SplitsFrom(rest: string -> seq<string>, s: string, a: nat, b: nat) {
    a == Seek(s, false, 0) && b == Seek(s, true, a) ==> rest(s) == if a == |s| then [] else [s[a..b]] + rest(s[b..])
  }

  /** `rest` splits a line into its tokens. */
  ghost predicate Splits(rest: string -> seq<string>) {
    forall s, a, b {:trigger SplitsFrom(rest, s, a, b)} :: SplitsFrom(rest, s, a, b)
  }

  lemma Splitter(text: string) returns (rest: string -> seq<string>)
    ensures Splits(rest) && rest(text) == Tokens(text)
  {
    rest := (s: string) => Tokens(s);
  }

  /** The next token from an offset, and the tokens after it. */
  lemma SplitsAt(rest: string -> seq<string>, text: string, at: nat, start: nat, end: nat)
    requires Splits(rest) && at <= |text| && start == Seek(text, false, at) && end == Seek(text, true, start)
    ensures rest(text[at..]) == if start == |text| then [] else [text[start..end]] + rest(text[end..])
  {
    var a, b := start - at, end - at;
    SeekOn(text, false, at, at);
    SeekOn(text, true, at, start);
    TailSlices(text, at, a, b, start, end);
    SplitsOnce(rest, text[at..], a, b);
  }

  lemma TailSlices(text: string, at: nat, a: nat, b: nat, start: nat, end: nat)
    requires a <= b && start == at + a && end == at + b && end <= |text|
    ensures text[at..][a..b] == text[start..end] && text[at..][b..] == text[end..]
  {
    SliceOfTail(text, at, a, b);
  }

  lemma SplitsOnce(rest: string -> seq<string>, s: string, a: nat, b: nat)
    requires Splits(rest) && a == Seek(s, false, 0) && b == Seek(s, true, a)
    ensures rest(s) == if a == |s| then [] else [s[a..b]] + rest(s[b..])
  {
    assert SplitsFrom(rest, s, a, b);
  }

  /** The next token and where the search goes on, past the end when there is none. */
  method NextToken(text: string, pos: nat, ghost rest: string -> seq<string>) returns (start: nat, end: nat)
    requires pos <= |text| && Splits(rest)
    ensures pos <= start <= end <= |text| && (start < |text| ==> pos < end)
    ensures rest(text[pos..]) == if start == |text| then [] else [text[start..end]] + rest(text[end..])
  {
    start := SeekFrom(text, false, pos);
    end := SeekFrom(text, true, start);
    SplitsAt(rest, text, pos, start, end);
  }

  /** Writes the tokens of a line to the slots; fails on one too many. */
  method Split(text: string, cmd: Command, ghost rest: string -> seq<string>) returns (ok: bool, n: nat, out: Command)
    requires |cmd.argv| == MAX_ARGS && Splits(rest)
    ensures ok == (|rest(text)| <= MAX_ARGS) && |out.argv| == MAX_ARGS && n <= MAX_ARGS
    ensures ok ==> out.argv[..n] == rest(text)
  {
    ok, n, out := true, 0, cmd;
    var pos := 0;
    assert text[0..] == text;
    while true
      invariant ok && n <= MAX_ARGS && pos <= |text| && |out.argv| == MAX_ARGS
      invariant rest(text) == out.argv[..n] + rest(text[pos..])
      decreases |text| - pos
    {
      var start, end := NextToken(text, pos, rest);
      if start == |text| {
        return;
      }
      if n == MAX_ARGS {
        ok := false;
        return;
      }
      out := out.(argv := out.argv[n := text[start..end]]);
      n, pos := n + 1, end;
    }
  }

  /** parseInline: blank-separated tokens up to the line end. */
  method ParseInline(input: string, cmd: Command) returns (res: Result, out: Command)
    requires |cmd.argv| == MAX_ARGS
    ensures res == ResultOf(InlineOf(input)) && |out.argv| == MAX_ARGS
    ensures InlineOf(input).Ok? ==> out == CommandFor(InlineOf(input))
  {
    out := cmd;
    assert input[0..] == input;
    var line := ReadLine(input, 0, MAX_INLINE, Inline);
    if line == More {
      return ResultOf(Incomplete), out;
    }
    LineVerdict(input, MAX_INLINE, Inline);
    if line == TooLong {
      return ResultOf(Bad(InlineLength)), out;
    }
    ghost var rest := Splitter(line.text);
    var ok, n;
    ok, n, out := Split(line.text, out, rest);
    if !ok {
      return ResultOf(Bad(ArgLength)), out;
    }
    out := Publish(out, n);
    res := Result(StatusOk, line.used, "");
  }

  /** parseCommand: a failed parse leaves no argument behind. */
  method ParseCommand(input: string, cmd: Command) returns (res: Result, out: Command)
    requires |cmd.argv| == MAX_ARGS
    ensures res == ResultOf(CommandOf(input)) && out == CommandFor(CommandOf(input))
  {
    if |input| == 0 {
      return ResultOf(Incomplete), Command(Blanks(MAX_ARGS), 0);
    }
    if input[0] == '*' {
      res, out := ParseArray(input, cmd);
    } else {
      res, out := ParseInline(input, cmd);
    }
    if res.status != StatusOk {
      out := Command(Blanks(MAX_ARGS), 0);
    }
  }
}
