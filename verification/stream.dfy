/** What a connection makes of its bytes, however they are split into reads
    (src/net/connection.cpp, src/core/resp.cpp). */
module Streams {
  import opened Resp
  import opened RespLaws
  import opened CommandSpec

  /** After this command the connection reads no more. */
  predicate Stops(args: seq<string>) {
    args != [] && Lowered(args[0]) == "quit"
  }

  datatype End = Waiting | Quitting | Failing(error: Error)

  /** The commands to dispatch, the bytes they take, and why there are no more. */
  datatype Script = Script(cmds: seq<seq<string>>, used: nat, end: End)

  function ScriptOf(s: string): (r: Script)
    ensures r.used <= |s|
    decreases |s|
  {
    match CommandOf(s)
    case Incomplete => Script([], 0, Waiting)
    case Bad(e) => Script([], 0, Failing(e))
    case Ok(args, n) => if Stops(args) then Script([args], n, Quitting) else Before(args, n, ScriptOf(s[n..]))
  }

  function Before(args: seq<string>, n: nat, r: Script): Script {
    Script([args] + r.cmds, n + r.used, r.end)
  }

  /** What is left while waiting is empty or the start of one command. */
  lemma {:induction false} LeftIsIncomplete(s: string)
    requires ScriptOf(s).end.Waiting?
    ensures CommandOf(s[ScriptOf(s).used..]) == Incomplete
    decreases |s|
  {
    if CommandOf(s).Ok? {
      var n := CommandOf(s).consumed;
      LeftIsIncomplete(s[n..]);
      assert s[n..][ScriptOf(s[n..]).used..] == s[ScriptOf(s).used..];
    } else {
      assert s[0..] == s;
    }
  }

  /** `first` and then the script of what follows it. */
  function Onward(first: Script, rest: Script): Script {
    Script(first.cmds + rest.cmds, first.used + rest.used, rest.end)
  }

  lemma OnwardBefore(args: seq<string>, n: nat, first: Script, rest: Script)
    ensures Onward(Before(args, n, first), rest) == Before(args, n, Onward(first, rest))
  {
    assert [args] + first.cmds + rest.cmds == [args] + (first.cmds + rest.cmds);
  }

  /** More bytes only add to a script that is waiting, and change no other. */
  lemma {:induction false} ScriptGoesOn(s: string, e: string)
    ensures var r := ScriptOf(s);
            ScriptOf(s + e) == if r.end.Waiting? then Onward(r, ScriptOf(s[r.used..] + e)) else r
    decreases |s|
  {
    var r := ScriptOf(s);
    if CommandOf(s) == Incomplete {
      assert s[0..] + e == s + e;
      assert Onward(r, ScriptOf(s + e)).cmds == ScriptOf(s + e).cmds;
    } else {
      CommandStable(s, e);
      if CommandOf(s).Ok? && !Stops(CommandOf(s).args) {
        var args, n := CommandOf(s).args, CommandOf(s).consumed;
        Tail(s, e, n);
        ScriptGoesOn(s[n..], e);
        var first := ScriptOf(s[n..]);
        assert ScriptOf(s + e) == Before(args, n, ScriptOf(s[n..] + e));
        if first.end.Waiting? {
          assert s[n..][first.used..] == s[r.used..];
          OnwardBefore(args, n, first, ScriptOf(s[r.used..] + e));
        }
      }
    }
  }

  // ---- sessions ---------------------------------------------------------------------------------

  /** What has been dispatched, what is left unread in the input buffer, and whether more is read. */
  datatype Session = Session(cmds: seq<seq<string>>, left: string, end: End)

  const START := Session([], "", Waiting)

  /** One read of `bytes`. */
  function Fed(c: Session, bytes: string): Session {
    if !c.end.Waiting? then c.(left := c.left + bytes)
    else
      var r := ScriptOf(c.left + bytes);
      Session(c.cmds + r.cmds, (c.left + bytes)[r.used..], r.end)
  }

  function FedAll(c: Session, chunks: seq<string>): Session
    decreases |chunks|
  {
    if chunks == [] then c else FedAll(Fed(c, chunks[0]), chunks[1..])
  }

  function Joined(chunks: seq<string>): string {
    if chunks == [] then "" else chunks[0] + Joined(chunks[1..])
  }

  /** Two reads are one. */
  lemma FedTwice(c: Session, a: string, b: string)
    ensures Fed(Fed(c, a), b) == Fed(c, a + b)
  {
    assert c.left + (a + b) == c.left + a + b;
    if c.end.Waiting? {
      var s := c.left + a;
      var r := ScriptOf(s);
      ScriptGoesOn(s, b);
      Tail(s, b, r.used);
      if r.end.Waiting? {
        var q := ScriptOf(s[r.used..] + b);
        assert c.cmds + r.cmds + q.cmds == c.cmds + (r.cmds + q.cmds);
        assert (s + b)[r.used + q.used..] == (s[r.used..] + b)[q.used..];
      }
    }
  }

  /** Nothing read: nothing changes, once what is left is incomplete. */
  lemma FedNothing(c: Session)
    requires c.end.Waiting? ==> CommandOf(c.left) == Incomplete
    ensures Fed(c, "") == c
  {
    assert c.left + "" == c.left;
  }

  /** How a stream is split into reads does not show: the commands, what is left and the verdict
      are those of the bytes put together. */
  lemma {:induction false} SplitsDoNotShow(c: Session, chunks: seq<string>)
    requires c.end.Waiting? ==> CommandOf(c.left) == Incomplete
    ensures FedAll(c, chunks) == Fed(c, Joined(chunks))
    decreases |chunks|
  {
    if chunks == [] {
      FedNothing(c);
    } else {
      var d := Fed(c, chunks[0]);
      if d.end.Waiting? {
        LeftIsIncomplete(c.left + chunks[0]);
      }
      SplitsDoNotShow(d, chunks[1..]);
      FedTwice(c, chunks[0], Joined(chunks[1..]));
    }
  }
}
