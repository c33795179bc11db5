/** Commands in a row and over a connection's life (src/core/command.cpp). */
module CommandRows {
  import opened Resp
  import opened Replies
  import opened CommandSpec
  import opened CommandLaws
  import Spec = StoreSpec

  // ---- rows of commands -------------------------------------------------------------------------

  type Clock = t: int | 0 <= t <= INT64_MAX

  /** One dispatched command: its arguments, the clock it saw, and the sampler's choice. */
  datatype Turn = Turn(args: seq<string>, now: Clock, sample: set<string>, gone: set<string>)

  /** What commands have left of the store and answered. */
  datatype Played = Played(s: Spec.St, replies: seq<Reply>)

  /** One command: one reply, unless it is empty. */
  ghost function PlayOne(cfg: Spec.Config, p: Played, turn: Turn): Played {
    if turn.args == [] then p
    else
      var o := Exec(cfg, p.s, turn.args, turn.now, turn.gone);
      Played(o.s, p.replies + [o.reply])
  }

  /** A row of commands with nothing between them. */
  ghost function Play(cfg: Spec.Config, p: Played, turns: seq<Turn>): Played
    decreases |turns|
  {
    if turns == [] then p else PlayOne(cfg, Play(cfg, p, turns[..|turns| - 1]), turns[|turns| - 1])
  }

  /** The sampler could have chosen so. */
  ghost predicate Fair(cfg: Spec.Config, s: Spec.St, turn: Turn) {
    if turn.args == [] then turn.sample == {} && turn.gone == {}
    else ExecChoice(cfg, s, turn.args, turn.now, turn.sample, turn.gone)
  }

  ghost predicate AllFair(cfg: Spec.Config, p: Played, turns: seq<Turn>)
    decreases |turns|
  {
    turns == [] || (&& AllFair(cfg, p, turns[..|turns| - 1])
                    && Fair(cfg, Play(cfg, p, turns[..|turns| - 1]).s, turns[|turns| - 1]))
  }

  /** Playing two rows one after the other is playing them as one. */
  lemma {:induction false} PlayOn(cfg: Spec.Config, p: Played, a: seq<Turn>, b: seq<Turn>)
    ensures Play(cfg, p, a + b) == Play(cfg, Play(cfg, p, a), b)
    decreases |b|
  {
    if b == [] {
      assert a + b == a;
    } else {
      var n := |b| - 1;
      assert (a + b)[..|a + b| - 1] == a + b[..n];
      PlayOn(cfg, p, a, b[..n]);
    }
  }

  /** What was answered before changes nothing of what is answered next. */
  lemma {:induction false} PlayAfter(cfg: Spec.Config, p: Played, turns: seq<Turn>)
    ensures var q := Play(cfg, Played(p.s, []), turns);
            Play(cfg, p, turns) == Played(q.s, p.replies + q.replies)
    decreases |turns|
  {
    if turns == [] {
      assert p.replies + [] == p.replies;
    } else {
      var n := |turns| - 1;
      PlayAfter(cfg, p, turns[..n]);
      var q := Play(cfg, Played(p.s, []), turns[..n]);
      if turns[n].args != [] {
        var o := Exec(cfg, q.s, turns[n].args, turns[n].now, turns[n].gone);
        assert p.replies + q.replies + [o.reply] == p.replies + (q.replies + [o.reply]);
      }
    }
  }

  // ---- a life of commands -----------------------------------------------------------------------

  /** A command and the store it found: between two of one client anything may have happened. */
  datatype Heard = Heard(s: Spec.St, turn: Turn)

  ghost function ReplyTo(cfg: Spec.Config, h: Heard): seq<Reply> {
    if h.turn.args == [] then [] else [Exec(cfg, h.s, h.turn.args, h.turn.now, h.turn.gone).reply]
  }

  ghost function Answered(cfg: Spec.Config, log: seq<Heard>): seq<Reply> {
    if log == [] then [] else Answered(cfg, log[..|log| - 1]) + ReplyTo(cfg, log[|log| - 1])
  }

  function Spoken(log: seq<Heard>): (r: seq<seq<string>>)
    ensures |r| == |log|
  {
    if log == [] then [] else Spoken(log[..|log| - 1]) + [log[|log| - 1].turn.args]
  }

  /** The commands that have a name. */
  function Named(cmds: seq<seq<string>>): nat {
    if cmds == [] then 0 else Named(cmds[..|cmds| - 1]) + if cmds[|cmds| - 1] == [] then 0 else 1
  }

  /** One framed reply per command with a name, and none for an empty one. */
  lemma {:induction false} AnsweredFramed(cfg: Spec.Config, log: seq<Heard>)
    ensures |Answered(cfg, log)| == Named(Spoken(log)) && AllFramed(Answered(cfg, log))
    decreases |log|
  {
    if log == [] {
    } else {
      var n := |log| - 1;
      AnsweredFramed(cfg, log[..n]);
      NamedOne(log);
      ReplyToFramed(cfg, log[n]);
      AllFramedOn(Answered(cfg, log[..n]), ReplyTo(cfg, log[n]));
    }
  }

  lemma NamedOne(log: seq<Heard>)
    requires log != []
    ensures var n := |log| - 1; Named(Spoken(log)) == Named(Spoken(log[..n])) + if log[n].turn.args == [] then 0 else 1
  {
    assert Spoken(log)[..|log| - 1] == Spoken(log[..|log| - 1]);
  }

  lemma ReplyToFramed(cfg: Spec.Config, h: Heard)
    ensures |ReplyTo(cfg, h)| == (if h.turn.args == [] then 0 else 1) && AllFramed(ReplyTo(cfg, h))
  {
    if h.turn.args != [] {
      ReplyFramed(cfg, h.s, h.turn.args, h.turn.now, h.turn.gone);
    }
  }

  ghost predicate AllFramed(rs: seq<Reply>) {
    forall i :: 0 <= i < |rs| ==> Framed(rs[i])
  }

  lemma AllFramedOn(a: seq<Reply>, b: seq<Reply>)
    requires AllFramed(a) && AllFramed(b)
    ensures AllFramed(a + b)
  {
  }

  /** The bytes answered to any commands, at any clocks and whatever happens to the store between
      them, decode into exactly their replies, in order: one per command with a name. */
  lemma RepliesDecode(cfg: Spec.Config, log: seq<Heard>)
    ensures var rs := Answered(cfg, log);
            DecodeAll(EncodeAll(rs)) == Some(rs) && |rs| == Named(Spoken(log))
  {
    AnsweredFramed(cfg, log);
    StreamDecodes(Answered(cfg, log));
  }

  /** A row of commands as part of a life. */
  ghost function Hears(cfg: Spec.Config, s: Spec.St, turns: seq<Turn>): seq<Heard>
    decreases |turns|
  {
    if turns == [] then []
    else
      var n := |turns| - 1;
      Hears(cfg, s, turns[..n]) + [Heard(Play(cfg, Played(s, []), turns[..n]).s, turns[n])]
  }

  function Args(turns: seq<Turn>): (r: seq<seq<string>>)
    ensures |r| == |turns| && forall i :: 0 <= i < |r| ==> r[i] == turns[i].args
  {
    seq(|turns|, i requires 0 <= i < |turns| => turns[i].args)
  }

  lemma PlayOneReplies(cfg: Spec.Config, p: Played, turn: Turn)
    ensures PlayOne(cfg, p, turn).replies == p.replies + ReplyTo(cfg, Heard(p.s, turn))
  {
    assert p.replies + [] == p.replies;
  }

  lemma {:induction false} HearsAnswered(cfg: Spec.Config, s: Spec.St, turns: seq<Turn>)
    ensures Answered(cfg, Hears(cfg, s, turns)) == Play(cfg, Played(s, []), turns).replies
    decreases |turns|
  {
    if turns == [] {
    } else {
      var n := |turns| - 1;
      var p, log := Play(cfg, Played(s, []), turns[..n]), Hears(cfg, s, turns[..n]);
      HearsAnswered(cfg, s, turns[..n]);
      ButLast(log, [Heard(p.s, turns[n])]);
      assert (log + [Heard(p.s, turns[n])])[..|log|] == log;
      PlayOneReplies(cfg, p, turns[n]);
    }
  }

  lemma {:induction false} HearsSpoken(cfg: Spec.Config, s: Spec.St, turns: seq<Turn>)
    ensures Spoken(Hears(cfg, s, turns)) == Args(turns)
    decreases |turns|
  {
    if turns == [] {
    } else {
      var n := |turns| - 1;
      HearsSpoken(cfg, s, turns[..n]);
      SpokenOne(Hears(cfg, s, turns[..n]), Heard(Play(cfg, Played(s, []), turns[..n]).s, turns[n]));
      ArgsOne(turns);
    }
  }

  lemma SpokenOne(log: seq<Heard>, h: Heard)
    ensures Spoken(log + [h]) == Spoken(log) + [h.turn.args]
  {
    assert (log + [h])[..|log|] == log;
  }

  lemma ArgsOne(turns: seq<Turn>)
    requires turns != []
    ensures var n := |turns| - 1; Args(turns) == Args(turns[..n]) + [turns[n].args]
  {
  }

  lemma Regroup<T>(a: seq<T>, b: seq<T>, c: seq<T>)
    ensures a + (b + c) == a + b + c
  {
  }

  lemma ButLast<T>(a: seq<T>, b: seq<T>)
    requires b != []
    ensures (a + b)[..|a + b| - 1] == a + b[..|b| - 1] && (a + b)[|a + b| - 1] == b[|b| - 1]
  {
  }

  lemma {:induction false} AnsweredOn(cfg: Spec.Config, a: seq<Heard>, b: seq<Heard>)
    ensures Answered(cfg, a + b) == Answered(cfg, a) + Answered(cfg, b)
    decreases |b|
  {
    if b == [] {
      assert a + b == a;
    } else {
      var n := |b| - 1;
      ButLast(a, b);
      AnsweredOn(cfg, a, b[..n]);
      Regroup(Answered(cfg, a), Answered(cfg, b[..n]), ReplyTo(cfg, b[n]));
    }
  }

  lemma {:induction false} SpokenOn(a: seq<Heard>, b: seq<Heard>)
    ensures Spoken(a + b) == Spoken(a) + Spoken(b)
    decreases |b|
  {
    if b == [] {
      assert a + b == a;
    } else {
      var n := |b| - 1;
      ButLast(a, b);
      SpokenOn(a, b[..n]);
      Regroup(Spoken(a), Spoken(b[..n]), [b[n].turn.args]);
    }
  }
}
