/** Commands and expire cycles are runs of the store (src/core/command.cpp, src/net/server.cpp). */
module CommandRuns {
  import opened Bits
  import opened Entries
  import opened Replies
  import opened CommandSpec
  import opened CommandLaws
  import opened CommandRows
  import opened CommandTexts
  import StoreLimits
  import Lru
  import R = StoreRuns
  import Spec = StoreSpec

  // ---- runs in a row ----------------------------------------------------------------------------

  /** The clock at the end of a run. */
  ghost function EndClock(last: int, run: seq<R.Step>): int {
    if run == [] then last else run[|run| - 1].now
  }

  /** A run from `s` that ends in `t` with these answers. */
  ghost predicate Leads(h: string -> nat, cfg: Spec.Config, s: Spec.St, last: int, run: seq<R.Step>, t: Spec.St,
                        answers: seq<R.Answer>) {
    && R.Legal(h, cfg, s, last, run) && R.Final(h, cfg, s, last, run) == t
    && R.Replies(h, cfg, s, last, run) == answers && IsPow2(t.buckets)
  }

  lemma StepPow2(h: string -> nat, cfg: Spec.Config, s: Spec.St, step: R.Step)
    requires IsPow2(s.buckets)
    ensures IsPow2(R.Next(h, cfg, s, step).buckets)
  {
    assert (2 * s.buckets) / 2 == s.buckets;
    if !step.op.Cycle? && !step.op.Clear? {
      R.OpGrows(h, cfg, s, step);
    }
  }

  lemma LeadsNowhere(h: string -> nat, cfg: Spec.Config, s: Spec.St, last: int)
    requires IsPow2(s.buckets)
    ensures Leads(h, cfg, s, last, [], s, [])
  {
  }

  lemma LeadsOne(h: string -> nat, cfg: Spec.Config, s: Spec.St, last: int, step: R.Step)
    requires IsPow2(s.buckets) && R.Allowed(cfg, s, last, step)
    ensures Leads(h, cfg, s, last, [step], R.Next(h, cfg, s, step), [R.Reply(s, step)])
  {
    var t := R.Next(h, cfg, s, step);
    StepPow2(h, cfg, s, step);
    assert [step][1..] == [];
    assert R.Legal(h, cfg, t, step.now, []);
  }

  lemma LeadsFew(h: string -> nat, cfg: Spec.Config, s: Spec.St, last: int, run: seq<R.Step>)
    returns (t: Spec.St, answers: seq<R.Answer>)
    requires IsPow2(s.buckets) && (run == [] || (|run| == 1 && R.Allowed(cfg, s, last, run[0])))
    ensures Leads(h, cfg, s, last, run, t, answers)
    ensures if run == [] then t == s && answers == []
            else t == R.Next(h, cfg, s, run[0]) && answers == [R.Reply(s, run[0])]
  {
    if run == [] {
      t, answers := s, [];
    } else {
      assert run == [run[0]];
      t, answers := R.Next(h, cfg, s, run[0]), [R.Reply(s, run[0])];
      LeadsOne(h, cfg, s, last, run[0]);
    }
  }

  /** One run after another is a run. */
  lemma {:induction false} LeadsOn(h: string -> nat, cfg: Spec.Config, s: Spec.St, last: int, a: seq<R.Step>,
                                   t: Spec.St, x: seq<R.Answer>,
                                   b: seq<R.Step>, u: Spec.St, y: seq<R.Answer>)
    requires Leads(h, cfg, s, last, a, t, x) && Leads(h, cfg, t, EndClock(last, a), b, u, y)
    ensures Leads(h, cfg, s, last, a + b, u, x + y)
    decreases |a|
  {
    if a == [] {
      assert a + b == b && x + y == y;
    } else {
      assert (a + b)[1..] == a[1..] + b && (a + b)[0] == a[0];
      var s' := R.Next(h, cfg, s, a[0]);
      LeadsOn(h, cfg, s', a[0].now, a[1..], t, x[1..], b, u, y);
      assert x + y == [x[0]] + (x[1..] + y);
    }
  }

  /** Starting later than the clock says is no harm. */
  lemma LeadsSooner(h: string -> nat, cfg: Spec.Config, s: Spec.St, last: int, now: int, run: seq<R.Step>, t: Spec.St,
                    x: seq<R.Answer>)
    requires last <= now && Leads(h, cfg, s, now, run, t, x)
    ensures Leads(h, cfg, s, last, run, t, x)
  {
  }

  // ---- a command's steps ------------------------------------------------------------------------

  /** What the server does with its store, with what became of it: whether a set was taken, and
      the size DBSIZE saw. */
  datatype Event = Ran(turn: Turn, ok: bool, size: nat) | Tick(now: Clock, limit: nat)

  function ClockOf(e: Event): Clock {
    match e
    case Ran(turn, _, _) => turn.now
    case Tick(now, _) => now
  }

  function KeyOp(erase: bool, key: string): R.Op {
    if erase then R.Erase(key) else R.Find(key, false)
  }

  function KeySteps(erase: bool, keys: seq<string>, i: nat, now: int): seq<R.Step>
    requires i <= |keys|
  {
    if i == 0 then [] else KeySteps(erase, keys, i - 1, now) + [R.Step(now, KeyOp(erase, keys[i - 1]))]
  }

  /** The operations a command makes on the store. */
  function OpsOf(cmd: Cmd, turn: Turn, ok: bool): seq<R.Step>
    requires Enough(cmd, |turn.args|)
  {
    var args, now := turn.args, turn.now;
    match cmd
    case Get => [R.Step(now, R.Find(args[1], true))]
    case Set =>
      (match SetOptions(args, 3, now, NO_EXPIRY, false)
       case Refused(_) => []
       case At(at) => [R.Step(now, R.Set(args[1], args[2], at, turn.sample, turn.gone, ok))])
    case Del => KeySteps(true, args[1..], |args| - 1, now)
    case Exists => KeySteps(false, args[1..], |args| - 1, now)
    case Expire =>
      (match ParseInt(args[2])
       case None => []
       case Some(secs) =>
         if secs <= 0 then [R.Step(now, R.Erase(args[1]))]
         else
           match Deadline(secs, MS_PER_SEC, now)
           case None => []
           case Some(at) => [R.Step(now, R.ExpireAt(args[1], at))])
    case Ttl => [R.Step(now, R.Ttl(args[1]))]
    case Flushall => if FlushOk(args) then [R.Step(now, R.Clear)] else []
    case _ => []
  }

  function StepsOf(e: Event): seq<R.Step> {
    match e
    case Tick(now, limit) => [R.Step(now, R.Cycle(limit))]
    case Ran(turn, ok, _) =>
      if turn.args == [] then []
      else
        match Pick(turn.args)
        case Fit(cmd) => OpsOf(cmd, turn, ok)
        case _ => []
  }

  // ---- the reply, from the answers alone --------------------------------------------------------

  predicate Yes(a: R.Answer) {
    a.Hit? || a == R.Did(true)
  }

  function CountYes(answers: seq<R.Answer>): nat {
    if answers == [] then 0 else CountYes(answers[..|answers| - 1]) + if Yes(answers[|answers| - 1]) then 1 else 0
  }

  function First(answers: seq<R.Answer>): R.Answer {
    if answers == [] then R.Done else answers[0]
  }

  /** What a command says, given what the store answered. */
  function Says(cmd: Cmd, turn: Turn, size: nat, answers: seq<R.Answer>): Reply
    requires Enough(cmd, |turn.args|)
  {
    var args, now := turn.args, turn.now;
    match cmd
    case Get => if First(answers).Hit? then BulkString(First(answers).value) else NullBulk
    case Set =>
      (match SetOptions(args, 3, now, NO_EXPIRY, false)
       case Refused(f) => Failed(f)
       case At(_) => if Yes(First(answers)) then Simple("OK") else Failed(OutOfMemory))
    case Del => Integer(CountYes(answers))
    case Exists => Integer(CountYes(answers))
    case Expire =>
      (match ParseInt(args[2])
       case None => Failed(NotInteger)
       case Some(secs) =>
         if secs > 0 && Deadline(secs, MS_PER_SEC, now).None? then Failed(InvalidExpire("expire"))
         else Integer(CountYes(answers)))
    case Ttl => Integer(if First(answers).Ms? then Rounded(First(answers).ms) else 0)
    case Ping => PingReply(args)
    case Echo => BulkString(args[1])
    case Dbsize => Integer(size)
    case Flushall => if FlushOk(args) then Simple("OK") else Failed(Syntax)
    case Quit => Simple("OK")
  }

  function SaysOf(e: Event, answers: seq<R.Answer>): seq<Reply> {
    match e
    case Tick(_, _) => []
    case Ran(turn, _, size) =>
      if turn.args == [] then []
      else
        match Pick(turn.args)
        case Nothing => [Failed(Unknown(turn.args))]
        case Misfit(name) => [Failed(WrongArity(name))]
        case Fit(cmd) => [Says(cmd, turn, size, answers)]
  }

  // ---- every command is such a run ----------------------------------------------------------------

  lemma {:induction false} KeysLead(h: string -> nat, cfg: Spec.Config, s: Spec.St, last: int, erase: bool,
                                    keys: seq<string>, i: nat, now: int)
    returns (answers: seq<R.Answer>)
    requires IsPow2(s.buckets) && last <= now && i <= |keys|
    ensures var t := Mentions(erase, s, keys, i, now);
            Leads(h, cfg, s, last, KeySteps(erase, keys, i, now), t.s, answers) && CountYes(answers) == t.n
    ensures i > 0 ==> EndClock(last, KeySteps(erase, keys, i, now)) == now
  {
    if i == 0 {
      answers := [];
      LeadsNowhere(h, cfg, s, last);
    } else {
      var more := KeysLead(h, cfg, s, last, erase, keys, i - 1, now);
      var t := Mentions(erase, s, keys, i - 1, now).s;
      var run, step := KeySteps(erase, keys, i - 1, now), R.Step(now, KeyOp(erase, keys[i - 1]));
      LeadsOne(h, cfg, t, EndClock(last, run), step);
      LeadsOn(h, cfg, s, last, run, t, more, [step], R.Next(h, cfg, t, step), [R.Reply(t, step)]);
      answers := more + [R.Reply(t, step)];
      assert answers[..|answers| - 1] == more;
    }
  }

  /** The event could go so in `s`. */
  ghost predicate Could(cfg: Spec.Config, s: Spec.St, last: int, e: Event) {
    && last <= ClockOf(e)
    && match e {
         case Tick(_, _) => true
         case Ran(turn, ok, size) =>
           && Fair(cfg, s, turn) && size == |s.m|
           && (turn.args != [] && Pick(turn.args) == Fit(Set) ==> ok == SetTaken(cfg, s, turn))
       }
  }

  ghost predicate SetTaken(cfg: Spec.Config, s: Spec.St, turn: Turn)
    requires |turn.args| >= 3
  {
    match SetOptions(turn.args, 3, turn.now, NO_EXPIRY, false)
    case Refused(_) => false
    case At(at) => Spec.SetOk(cfg, s, turn.args[1], at, turn.now)
  }

  ghost function After(h: string -> nat, cfg: Spec.Config, s: Spec.St, e: Event): Spec.St
    requires IsPow2(s.buckets)
  {
    match e
    case Tick(now, limit) => Spec.ExpireCycle(h, s, now, limit).s
    case Ran(turn, _, _) => if turn.args == [] then s else Exec(cfg, s, turn.args, turn.now, turn.gone).s
  }

  ghost function RepliesTo(cfg: Spec.Config, s: Spec.St, e: Event): seq<Reply> {
    match e
    case Tick(_, _) => []
    case Ran(turn, _, _) => if turn.args == [] then [] else [Exec(cfg, s, turn.args, turn.now, turn.gone).reply]
  }

  lemma CountOne(a: R.Answer)
    ensures CountYes([a]) == if Yes(a) then 1 else 0
  {
    assert [a][..0] == [];
  }

  /** The command does what its run of operations does, and says what their answers make it say. */
  ghost predicate Performs(h: string -> nat, cfg: Spec.Config, s: Spec.St, last: int, cmd: Cmd, turn: Turn, ok: bool,
                           answers: seq<R.Answer>)
    requires Enough(cmd, |turn.args|)
  {
    var o := Run(cfg, s, cmd, turn.args, turn.now, turn.gone);
    Leads(h, cfg, s, last, OpsOf(cmd, turn, ok), o.s, answers) && Says(cmd, turn, |s.m|, answers) == o.reply
  }

  lemma SetLeads(h: string -> nat, cfg: Spec.Config, s: Spec.St, last: int, turn: Turn, ok: bool)
    returns (answers: seq<R.Answer>)
    requires IsPow2(s.buckets) && last <= turn.now && |turn.args| >= 3
    requires SetChoice(cfg, s, turn.args, turn.now, turn.sample, turn.gone) && ok == SetTaken(cfg, s, turn)
    ensures Performs(h, cfg, s, last, Set, turn, ok, answers)
  {
    var t;
    t, answers := LeadsFew(h, cfg, s, last, OpsOf(Set, turn, ok));
  }

  lemma ExpireLeads(h: string -> nat, cfg: Spec.Config, s: Spec.St, last: int, turn: Turn, ok: bool)
    returns (answers: seq<R.Answer>)
    requires IsPow2(s.buckets) && last <= turn.now && |turn.args| == 3
    ensures Performs(h, cfg, s, last, Expire, turn, ok, answers)
  {
    var secs := ParseInt(turn.args[2]);
    if secs.Some? && secs.value > 0 {
      DeadlineExact(secs.value, MS_PER_SEC, turn.now);
    }
    var t;
    t, answers := LeadsFew(h, cfg, s, last, OpsOf(Expire, turn, ok));
    if answers != [] {
      CountOne(answers[0]);
    }
  }

  lemma PerformsBy(h: string -> nat, cfg: Spec.Config, s: Spec.St, last: int, cmd: Cmd, turn: Turn, ok: bool,
                   run: seq<R.Step>, o: Outcome, answers: seq<R.Answer>)
    requires Enough(cmd, |turn.args|) && run == OpsOf(cmd, turn, ok)
    requires o == Run(cfg, s, cmd, turn.args, turn.now, turn.gone)
    requires Leads(h, cfg, s, last, run, o.s, answers) && Says(cmd, turn, |s.m|, answers) == o.reply
    ensures Performs(h, cfg, s, last, cmd, turn, ok, answers)
  {
  }

  lemma DelLeads(h: string -> nat, cfg: Spec.Config, s: Spec.St, last: int, turn: Turn, ok: bool)
    returns (answers: seq<R.Answer>)
    requires IsPow2(s.buckets) && last <= turn.now && |turn.args| >= 2
    ensures Performs(h, cfg, s, last, Del, turn, ok, answers)
  {
    answers := KeysLead(h, cfg, s, last, true, turn.args[1..], |turn.args| - 1, turn.now);
    var t := Mentions(true, s, turn.args[1..], |turn.args| - 1, turn.now);
    PerformsBy(h, cfg, s, last, Del, turn, ok, KeySteps(true, turn.args[1..], |turn.args| - 1, turn.now),
               Outcome(t.s, Integer(t.n), false), answers);
  }

  lemma ExistsLeads(h: string -> nat, cfg: Spec.Config, s: Spec.St, last: int, turn: Turn, ok: bool)
    returns (answers: seq<R.Answer>)
    requires IsPow2(s.buckets) && last <= turn.now && |turn.args| >= 2
    ensures Performs(h, cfg, s, last, Exists, turn, ok, answers)
  {
    answers := KeysLead(h, cfg, s, last, false, turn.args[1..], |turn.args| - 1, turn.now);
    var t := Mentions(false, s, turn.args[1..], |turn.args| - 1, turn.now);
    PerformsBy(h, cfg, s, last, Exists, turn, ok, KeySteps(false, turn.args[1..], |turn.args| - 1, turn.now),
               Outcome(t.s, Integer(t.n), false), answers);
  }

  /** The commands of one operation or none. */
  lemma PlainLeads(h: string -> nat, cfg: Spec.Config, s: Spec.St, last: int, cmd: Cmd, turn: Turn, ok: bool)
    returns (answers: seq<R.Answer>)
    requires IsPow2(s.buckets) && last <= turn.now && Enough(cmd, |turn.args|)
    requires !cmd.Set? && !cmd.Del? && !cmd.Exists? && !cmd.Expire?
    ensures Performs(h, cfg, s, last, cmd, turn, ok, answers)
  {
    var t;
    t, answers := LeadsFew(h, cfg, s, last, OpsOf(cmd, turn, ok));
  }

  lemma FitLeads(h: string -> nat, cfg: Spec.Config, s: Spec.St, last: int, cmd: Cmd, turn: Turn, ok: bool)
    returns (answers: seq<R.Answer>)
    requires IsPow2(s.buckets) && last <= turn.now && Enough(cmd, |turn.args|)
    requires cmd.Set? ==> SetChoice(cfg, s, turn.args, turn.now, turn.sample, turn.gone) && ok == SetTaken(cfg, s, turn)
    ensures Performs(h, cfg, s, last, cmd, turn, ok, answers)
  {
    if cmd.Set? {
      answers := SetLeads(h, cfg, s, last, turn, ok);
    } else if cmd.Del? {
      answers := DelLeads(h, cfg, s, last, turn, ok);
    } else if cmd.Exists? {
      answers := ExistsLeads(h, cfg, s, last, turn, ok);
    } else if cmd.Expire? {
      answers := ExpireLeads(h, cfg, s, last, turn, ok);
    } else {
      answers := PlainLeads(h, cfg, s, last, cmd, turn, ok);
    }
  }

  /** Every command, and every expire cycle, is a legal run of the store at its clock; it leaves
      the state the run ends in, and its reply depends on the run's answers alone. */
  lemma EventLeads(h: string -> nat, cfg: Spec.Config, s: Spec.St, last: int, e: Event) returns (answers: seq<R.Answer>)
    requires IsPow2(s.buckets) && Could(cfg, s, last, e)
    ensures Leads(h, cfg, s, last, StepsOf(e), After(h, cfg, s, e), answers)
    ensures SaysOf(e, answers) == RepliesTo(cfg, s, e)
  {
    if e.Tick? {
      LeadsOne(h, cfg, s, last, R.Step(e.now, R.Cycle(e.limit)));
      answers := [R.Done];
    } else if e.turn.args != [] && Pick(e.turn.args).Fit? {
      answers := FitLeads(h, cfg, s, last, Pick(e.turn.args).cmd, e.turn, e.ok);
    } else {
      LeadsNowhere(h, cfg, s, last);
      answers := [];
    }
  }

  // ---- sessions ---------------------------------------------------------------------------------

  /** Commands and cycles in any order, the clock never going back. */
  ghost predicate Session(h: string -> nat, cfg: Spec.Config, s: Spec.St, last: int, events: seq<Event>)
    decreases |events|
  {
    events == [] || (&& IsPow2(s.buckets) && Could(cfg, s, last, events[0])
                     && Session(h, cfg, After(h, cfg, s, events[0]), ClockOf(events[0]), events[1..]))
  }

  /** The state after the first `i` events. */
  ghost function StateAt(h: string -> nat, cfg: Spec.Config, s: Spec.St, last: int, events: seq<Event>, i: nat): Spec.St
    requires Session(h, cfg, s, last, events) && i <= |events|
    decreases i
  {
    if i == 0 then s else StateAt(h, cfg, After(h, cfg, s, events[0]), ClockOf(events[0]), events[1..], i - 1)
  }

  ghost function AllReplies(h: string -> nat, cfg: Spec.Config, s: Spec.St, last: int, events: seq<Event>): seq<Reply>
    requires Session(h, cfg, s, last, events)
    decreases |events|
  {
    if events == [] then []
    else RepliesTo(cfg, s, events[0]) + AllReplies(h, cfg, After(h, cfg, s, events[0]), ClockOf(events[0]), events[1..])
  }

  function RunOf(events: seq<Event>): seq<R.Step> {
    if events == [] then [] else StepsOf(events[0]) + RunOf(events[1..])
  }

  lemma {:induction false} KeyClocks(erase: bool, keys: seq<string>, i: nat, now: int, last: int)
    requires i <= |keys|
    ensures EndClock(last, KeySteps(erase, keys, i, now)) == if i == 0 then last else now
  {
  }

  /** A session stands at the clock of its last event or before it. */
  lemma EndsBy(e: Event, last: int)
    requires last <= ClockOf(e)
    ensures EndClock(last, StepsOf(e)) <= ClockOf(e)
  {
    if e.Ran? && e.turn.args != [] && Pick(e.turn.args).Fit? {
      var keys := e.turn.args[1..];
      KeyClocks(true, keys, |keys|, e.turn.now, last);
      KeyClocks(false, keys, |keys|, e.turn.now, last);
    }
  }

  /** A whole session is one legal run of the store, so what holds of every run holds of it. */
  lemma {:induction false} SessionIsRun(h: string -> nat, cfg: Spec.Config, s: Spec.St, last: int, events: seq<Event>)
    returns (answers: seq<R.Answer>)
    requires IsPow2(s.buckets) && Session(h, cfg, s, last, events)
    ensures Leads(h, cfg, s, last, RunOf(events), StateAt(h, cfg, s, last, events, |events|), answers)
    decreases |events|
  {
    if events == [] {
      answers := [];
      LeadsNowhere(h, cfg, s, last);
    } else {
      var e := events[0];
      var t := After(h, cfg, s, e);
      var x := EventLeads(h, cfg, s, last, e);
      var y := SessionIsRun(h, cfg, t, ClockOf(e), events[1..]);
      var u := StateAt(h, cfg, t, ClockOf(e), events[1..], |events| - 1);
      EndsBy(e, last);
      LeadsSooner(h, cfg, t, EndClock(last, StepsOf(e)), ClockOf(e), RunOf(events[1..]), u, y);
      LeadsOn(h, cfg, s, last, StepsOf(e), t, x, RunOf(events[1..]), u, y);
      answers := x + y;
    }
  }

  // ---- the plain map ----------------------------------------------------------------------------

  /** What a server over the plain map would reply. */
  ghost function PlainSession(p: R.Plain, events: seq<Event>): seq<Reply>
    decreases |events|
  {
    if events == [] then []
    else
      var steps := StepsOf(events[0]);
      SaysOf(events[0], R.PlainReplies(p, steps)) + PlainSession(R.PlainAfter(p, steps), events[1..])
  }

  lemma {:induction false} RunStillAgrees(h: string -> nat, cfg: Spec.Config, s: Spec.St, p: R.Plain, last: int,
                                          run: seq<R.Step>)
    requires R.Agrees(s.m, p, last) && R.Legal(h, cfg, s, last, run)
    ensures R.Agrees(R.Final(h, cfg, s, last, run).m, R.PlainAfter(p, run), EndClock(last, run))
    decreases |run|
  {
    if run == [] {
    } else {
      R.StepAgrees(h, cfg, s, p, last, run[0]);
      RunStillAgrees(h, cfg, R.Next(h, cfg, s, run[0]), R.PlainNext(p, run[0]), run[0].now, run[1..]);
    }
  }

  /** End to end: over any session of commands and expire cycles, every reply is the one a server
      over the plain map would give. */
  lemma {:induction false} SessionAgrees(h: string -> nat, cfg: Spec.Config, s: Spec.St, p: R.Plain, last: int,
                                         events: seq<Event>)
    requires IsPow2(s.buckets) && R.Agrees(s.m, p, last) && Session(h, cfg, s, last, events)
    ensures AllReplies(h, cfg, s, last, events) == PlainSession(p, events)
    decreases |events|
  {
    if events == [] {
    } else {
      var e := events[0];
      var t := After(h, cfg, s, e);
      var x := EventLeads(h, cfg, s, last, e);
      R.RunAgrees(h, cfg, s, p, last, StepsOf(e));
      RunStillAgrees(h, cfg, s, p, last, StepsOf(e));
      EndsBy(e, last);
      R.AgreesLater(t.m, R.PlainAfter(p, StepsOf(e)), EndClock(last, StepsOf(e)), ClockOf(e));
      SessionAgrees(h, cfg, t, R.PlainAfter(p, StepsOf(e)), ClockOf(e), events[1..]);
    }
  }

  /** What that server says to a GET, and what a SET it takes leaves for later ones. */
  lemma PlainGet(p: R.Plain, turn: Turn, ok: bool, size: nat)
    requires |turn.args| == 2 && Lowered(turn.args[0]) == "get"
    ensures SaysOf(Ran(turn, ok, size), R.PlainReplies(p, StepsOf(Ran(turn, ok, size))))
         == [if R.Visible(p, turn.args[1], turn.now) then BulkString(p[turn.args[1]].value) else NullBulk]
    ensures R.PlainAfter(p, StepsOf(Ran(turn, ok, size))) == p
  {
    PickIs(turn.args, Get);
    var steps := StepsOf(Ran(turn, ok, size));
    assert steps[1..] == [];
  }

  lemma PlainSetTakes(p: R.Plain, turn: Turn, size: nat, k: string)
    requires |turn.args| >= 3 && Lowered(turn.args[0]) == "set"
    requires SetOptions(turn.args, 3, turn.now, NO_EXPIRY, false).At?
    ensures var e := Ran(turn, true, size);
            var q := R.PlainAfter(p, StepsOf(e));
            && SaysOf(e, R.PlainReplies(p, StepsOf(e))) == [Simple("OK")]
            && R.Visible(q, turn.args[1], turn.now) && q[turn.args[1]].value == turn.args[2]
            && (k != turn.args[1] && k !in turn.gone ==> (k in q <==> k in p) && (k in p ==> q[k] == p[k]))
  {
    PickIs(turn.args, Set);
    var steps := StepsOf(Ran(turn, true, size));
    assert steps[1..] == [];
    SetOptionsGood(turn.args, 3, turn.now, NO_EXPIRY, false);
  }

  // ---- what sessions keep -----------------------------------------------------------------------

  /** The books balance, the cap holds and every entry carries its true last use, over any session. */
  lemma SessionBooks(h: string -> nat, cfg: Spec.Config, s: Spec.St, last: int, events: seq<Event>,
                     used: map<string, int>)
    requires R.Good(cfg, s) && Session(h, cfg, s, last, events) && Lru.Stamped(s.m, used)
    ensures var t := StateAt(h, cfg, s, last, events, |events|);
            var run := RunOf(events);
            && R.Legal(h, cfg, s, last, run)
            && StoreLimits.Balanced(cfg, s, t, StoreLimits.TotalIn(h, cfg, s, last, run),
                                    StoreLimits.TotalOut(h, cfg, s, last, run))
            && Lru.Stamped(t.m, Lru.UsedAfter(h, cfg, s, used, last, run))
  {
    var answers := SessionIsRun(h, cfg, s, last, events);
    StoreLimits.BooksBalance(h, cfg, s, last, RunOf(events));
    Lru.RunStamped(h, cfg, s, used, last, RunOf(events));
  }

  lemma AfterDeadlines(h: string -> nat, cfg: Spec.Config, s: Spec.St, e: Event)
    requires IsPow2(s.buckets) && DeadlinesOk(s.m)
    ensures DeadlinesOk(After(h, cfg, s, e).m)
  {
    match e
    case Tick(now, limit) =>
      var gone := R.CycleReaps(h, now, limit, Spec.Cycle(s, 0, 0));
      DeadlinesFewer(s.m, gone);
    case Ran(turn, _, _) =>
      if turn.args != [] {
        ExecDeadlines(cfg, s, turn.args, turn.now, turn.gone);
      }
  }

  /** Throughout any session that starts with good deadlines, and so any from the empty store,
      every stored deadline is none or a positive 64-bit time. */
  lemma {:induction false} DeadlinesThroughout(h: string -> nat, cfg: Spec.Config, s: Spec.St, last: int,
                                               events: seq<Event>, i: nat)
    requires Session(h, cfg, s, last, events) && DeadlinesOk(s.m) && i <= |events|
    ensures DeadlinesOk(StateAt(h, cfg, s, last, events, i).m)
    decreases i
  {
    if i == 0 {
    } else {
      AfterDeadlines(h, cfg, s, events[0]);
      DeadlinesThroughout(h, cfg, After(h, cfg, s, events[0]), ClockOf(events[0]), events[1..], i - 1);
    }
  }

  /** From the empty store, a TTL asked at any point of any session stays within 64 bits when the
      clock has reached 500. */
  lemma TtlFitsThroughout(h: string -> nat, cfg: Spec.Config, s: Spec.St, last: int, events: seq<Event>, i: nat,
                          key: string, now: Clock)
    requires Session(h, cfg, s, last, events) && s.m == map[] && i <= |events| && 500 <= now
    ensures var t := StateAt(h, cfg, s, last, events, i);
            key in t.m && t.m[key].expiresAt != NO_EXPIRY ==> TtlStays(t.m[key].expiresAt, now)
  {
    DeadlinesThroughout(h, cfg, s, last, events, i);
    assert DeadlineOk(StateAt(h, cfg, s, last, events, i).m, key);
  }
}
