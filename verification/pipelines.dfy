/** Rows of commands sent at once (src/net/connection.cpp, src/core/resp.cpp). */
module Pipelines {
  import opened Resp
  import opened RespLaws
  import opened CommandSpec
  import opened Streams

  function EncodedRow(cmds: seq<seq<string>>): string {
    if cmds == [] then "" else Encoded(cmds[0]) + EncodedRow(cmds[1..])
  }

  predicate AllWithin(cmds: seq<seq<string>>) {
    forall i :: 0 <= i < |cmds| ==> Within(cmds[i])
  }

  predicate IsQuit(args: seq<string>) {
    args != [] && Lowered(args[0]) == "quit"
  }

  lemma ScriptFirst(s: string, args: seq<string>, n: nat, rest: string)
    requires CommandOf(s) == Ok(args, n) && !IsQuit(args) && rest == s[n..]
    ensures ScriptOf(s) == Before(args, n, ScriptOf(rest))
  {
  }

  /** Commands encoded one after another are dispatched as sent, and then what the bytes after them spell:
      nothing passed over, nothing twice. */
  lemma {:induction false} RowReadsBack(cmds: seq<seq<string>>, tail: string)
    requires AllWithin(cmds) && forall i :: 0 <= i < |cmds| ==> !IsQuit(cmds[i])
    ensures ScriptOf(EncodedRow(cmds) + tail) == Onward(Script(cmds, |EncodedRow(cmds)|, Waiting), ScriptOf(tail))
    decreases |cmds|
  {
    if cmds == [] {
      assert EncodedRow(cmds) + tail == tail && [] + ScriptOf(tail).cmds == ScriptOf(tail).cmds;
    } else {
      var rest := cmds[1..];
      var n, more := |Encoded(cmds[0])|, EncodedRow(rest) + tail;
      AfterFirst(Encoded(cmds[0]), EncodedRow(rest), tail, EncodedRow(cmds) + tail);
      EncodedReadsBack(cmds[0], more);
      ScriptFirst(EncodedRow(cmds) + tail, cmds[0], n, more);
      RowReadsBack(rest, tail);
      var first := Script(rest, |EncodedRow(rest)|, Waiting);
      OnwardBefore(cmds[0], n, first, ScriptOf(tail));
      assert Before(cmds[0], n, first) == Script(cmds, |EncodedRow(cmds)|, Waiting) by {
        assert cmds == [cmds[0]] + rest;
      }
    }
  }

  /** Nothing after a QUIT is read. */
  lemma RowUntilQuit(cmds: seq<seq<string>>, quit: seq<string>, tail: string)
    requires AllWithin(cmds) && (forall i :: 0 <= i < |cmds| ==> !IsQuit(cmds[i])) && IsQuit(quit) && Within(quit)
    ensures ScriptOf(EncodedRow(cmds) + (Encoded(quit) + tail))
         == Script(cmds + [quit], |EncodedRow(cmds)| + |Encoded(quit)|, Quitting)
  {
    RowReadsBack(cmds, Encoded(quit) + tail);
    EncodedReadsBack(quit, tail);
  }

  /** A whole row is dispatched and taken; after malformed bytes nothing is. */
  lemma RowThenEnd(cmds: seq<seq<string>>, tail: string)
    requires AllWithin(cmds) && (forall i :: 0 <= i < |cmds| ==> !IsQuit(cmds[i])) && !CommandOf(tail).Ok?
    ensures ScriptOf(EncodedRow(cmds) + tail)
         == Script(cmds, |EncodedRow(cmds)|, if CommandOf(tail).Bad? then Failing(CommandOf(tail).error) else Waiting)
  {
    RowReadsBack(cmds, tail);
    assert cmds + [] == cmds;
  }
}
