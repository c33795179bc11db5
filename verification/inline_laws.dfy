/** What an inline command parses to (src/core/resp.cpp, parseInline): the tokens of its first line. */
module InlineLaws {
  import opened Basics
  import opened Resp
  import opened RespLaws

  predicate HasNoLf(line: string) {
    forall k :: 0 <= k < |line| ==> line[k] != '\n'
  }

  /** A line end as it may be sent. Before a bare LF a final CR would be taken for part of the line end. */
  predicate Closes(line: string, eol: string) {
    eol == "\r\n" || (eol == "\n" && !EndsInCr(line, |line|))
  }

  /** What the first line of the bytes is: `line`, closed by `eol`. */
  ghost predicate FirstLine(s: string, line: string, eol: string) {
    HasNoLf(line) && Closes(line, eol) && line + eol <= s
  }

  lemma InlineText(s: string, line: string, eol: string)
    requires FirstLine(s, line, eol)
    ensures Ends(s, Inline, |line| + |eol| - 1) && forall k :: 0 <= k < |line| + |eol| - 1 ==> !Ends(s, Inline, k)
    ensures s[..|line|] == line && EndsInCr(s, |line| + |eol| - 1) == (eol == "\r\n")
  {
    assert s[..|line| + |eol|] == line + eol;
    assert forall k :: 0 <= k < |line| ==> s[k] == line[k];
  }

  lemma InlineFound(s: string, line: string, eol: string)
    requires FirstLine(s, line, eol) && |line| <= MAX_INLINE
    ensures LineOf(s, MAX_INLINE, Inline) == Found(line, |line| + |eol|)
  {
    InlineText(s, line, eol);
    FoundIsLine(s, MAX_INLINE, Inline, line, |line| + |eol|);
  }

  lemma InlineTooLong(s: string, line: string, eol: string)
    requires FirstLine(s, line, eol) && |line| > MAX_INLINE
    ensures LineOf(s, MAX_INLINE, Inline) == TooLong
  {
    InlineText(s, line, eol);
    var v := LineOf(s, MAX_INLINE, Inline);
    if v.Found? {
      FoundIsLine(s, MAX_INLINE, Inline, v.text, v.used);
    }
  }

  lemma NotAnArray(s: string, line: string, eol: string)
    requires FirstLine(s, line, eol) && (line == [] || line[0] != '*')
    ensures s != [] && s[0] != '*'
  {
    assert s[..|line| + |eol|] == line + eol;
    assert s[0] == (line + eol)[0];
  }

  /** However a line of tokens and blanks is written, with CRLF or a bare LF after it and whatever follows, its
      tokens are the arguments and the whole line is consumed. Only a 17th token or a longer line is refused. */
  lemma InlineReadsBack(gaps: seq<string>, toks: seq<string>, eol: string, rest: string)
    requires WellWoven(gaps, toks)
    requires HasNoLf(Woven(gaps, toks)) && Closes(Woven(gaps, toks), eol)
    requires Woven(gaps, toks) == [] || Woven(gaps, toks)[0] != '*'
    ensures var line := Woven(gaps, toks);
            CommandOf(line + eol + rest) == if |line| > 65536 then Bad(InlineLength)
                                            else if |toks| > 16 then Bad(ArgLength)
                                            else Ok(toks, |line| + |eol|)
  {
    var line := Woven(gaps, toks);
    var s := line + eol + rest;
    assert FirstLine(s, line, eol);
    NotAnArray(s, line, eol);
    TokensOfWoven(gaps, toks);
    if |line| > MAX_INLINE {
      InlineTooLong(s, line, eol);
    } else {
      InlineFound(s, line, eol);
    }
  }

  lemma FoundFirst(s: string, text: string, used: nat)
    requires LineOf(s, MAX_INLINE, Inline) == Found(text, used)
    ensures |text| < used <= |s| && FirstLine(s, text, s[|text|..used]) && s[..used] == text + s[|text|..used]
  {
    FoundIsLine(s, MAX_INLINE, Inline, text, used);
    var eol := s[|text|..used];
    assert eol == if EndsInCr(s, used - 1) then "\r\n" else "\n";
    assert forall k :: 0 <= k < |text| ==> text[k] == s[k] && !Ends(s, Inline, k);
  }

  /** And nothing else is accepted: the bytes consumed are such a line. */
  lemma InlineIsWoven(s: string) returns (gaps: seq<string>, eol: string)
    requires s != [] && s[0] != '*' && CommandOf(s).Ok?
    ensures var r := CommandOf(s);
            && |r.args| <= 16 && WellWoven(gaps, r.args) && |Woven(gaps, r.args)| <= 65536
            && HasNoLf(Woven(gaps, r.args)) && Closes(Woven(gaps, r.args), eol)
            && s[..r.consumed] == Woven(gaps, r.args) + eol
  {
    var line := LineOf(s, MAX_INLINE, Inline);
    FoundFirst(s, line.text, line.used);
    FoundIsLine(s, MAX_INLINE, Inline, line.text, line.used);
    gaps := LineIsWoven(line.text);
    eol := s[|line.text|..line.used];
  }

  /** More bytes are asked for exactly while no LF has come and the line may still be short enough. */
  lemma InlineIncomplete(s: string)
    requires s != [] && s[0] != '*'
    ensures CommandOf(s) == Incomplete
       <==> HasNoLf(s) && (|s| <= 65536 || (|s| == 65537 && s[65536] == '\r'))
  {
    var n := Min(|s|, MAX_INLINE + 2);
    var scan := s[..n];
    var lf := LineEnd(scan, Inline, 0);
    if lf != -1 {
      assert s[lf] == '\n';
    } else if n == |s| {
      forall k | 0 <= k < |s| ensures s[k] != '\n' {
        assert scan[k] == s[k] && !Ends(scan, Inline, k);
      }
    }
  }
}
