/** What sessions answer: rows of commands as sessions, and GET against the SETs before it
    (src/core/command.cpp, src/net/connection.cpp). */
module CommandSessions {
  import opened Bits
  import opened Entries
  import opened Replies
  import opened CommandSpec
  import opened CommandLaws
  import opened CommandRows
  import opened CommandTexts
  import opened CommandRuns
  import opened KeyLives
  import R = StoreRuns
  import Spec = StoreSpec

  // ---- rows of commands are sessions ------------------------------------------------------------

  /** The turn with what becomes of it in `s`. */
  ghost function EventOf(cfg: Spec.Config, s: Spec.St, turn: Turn): Event {
    Ran(turn, turn.args != [] && Pick(turn.args) == Fit(Set) && SetTaken(cfg, s, turn), |s.m|)
  }

  ghost function EventsOf(cfg: Spec.Config, s: Spec.St, turns: seq<Turn>): (es: seq<Event>)
    ensures |es| == |turns|
    decreases |turns|
  {
    if turns == [] then []
    else [EventOf(cfg, s, turns[0])] + EventsOf(cfg, PlayOne(cfg, Played(s, []), turns[0]).s, turns[1..])
  }

  /** The clock never goes back. */
  ghost predicate InTime(last: int, turns: seq<Turn>)
    decreases |turns|
  {
    turns == [] || (last <= turns[0].now && InTime(turns[0].now, turns[1..]))
  }

  lemma PlayFirst(cfg: Spec.Config, p: Played, turns: seq<Turn>)
    requires turns != []
    ensures Play(cfg, p, turns) == Play(cfg, PlayOne(cfg, p, turns[0]), turns[1..])
  {
    var first := [turns[0]];
    assert first[..0] == [];
    assert Play(cfg, p, first) == PlayOne(cfg, p, turns[0]);
    assert turns == first + turns[1..];
    PlayOn(cfg, p, first, turns[1..]);
  }

  /** A fair row is a fair turn and then a fair row. */
  lemma {:induction false} FairFirst(cfg: Spec.Config, p: Played, turns: seq<Turn>)
    requires turns != [] && AllFair(cfg, p, turns)
    ensures Fair(cfg, p.s, turns[0]) && AllFair(cfg, PlayOne(cfg, p, turns[0]), turns[1..])
    decreases |turns|
  {
    var n := |turns| - 1;
    if n == 0 {
      assert turns[..0] == [];
    } else {
      var init, rest := turns[..n], turns[1..];
      FairFirst(cfg, p, init);
      PlayFirst(cfg, p, init);
      assert rest[..|rest| - 1] == init[1..] && rest[|rest| - 1] == turns[n] && init[0] == turns[0];
    }
  }

  /** What was said before does not matter to fairness. */
  lemma {:induction false} FairAfter(cfg: Spec.Config, p: Played, turns: seq<Turn>)
    requires AllFair(cfg, p, turns)
    ensures AllFair(cfg, Played(p.s, []), turns)
    decreases |turns|
  {
    if turns == [] {
    } else {
      FairAfter(cfg, p, turns[..|turns| - 1]);
      PlayAfter(cfg, p, turns[..|turns| - 1]);
    }
  }

  lemma EventCould(cfg: Spec.Config, s: Spec.St, last: int, turn: Turn)
    requires Fair(cfg, s, turn) && last <= turn.now
    ensures Could(cfg, s, last, EventOf(cfg, s, turn))
  {
  }

  lemma EventDoes(h: string -> nat, cfg: Spec.Config, s: Spec.St, turn: Turn)
    requires IsPow2(s.buckets)
    ensures var e, p := EventOf(cfg, s, turn), PlayOne(cfg, Played(s, []), turn);
            After(h, cfg, s, e) == p.s && RepliesTo(cfg, s, e) == p.replies
  {
  }

  /** A row of commands, fairly sampled and in time, is a session with the same end and replies. */
  lemma {:induction false} RowIsSession(h: string -> nat, cfg: Spec.Config, s: Spec.St, last: int, turns: seq<Turn>)
    requires IsPow2(s.buckets) && AllFair(cfg, Played(s, []), turns) && InTime(last, turns)
    ensures var es, p := EventsOf(cfg, s, turns), Play(cfg, Played(s, []), turns);
            && Session(h, cfg, s, last, es) && StateAt(h, cfg, s, last, es, |es|) == p.s
            && AllReplies(h, cfg, s, last, es) == p.replies
    decreases |turns|
  {
    if turns == [] {
    } else {
      var p, e := PlayOne(cfg, Played(s, []), turns[0]), EventOf(cfg, s, turns[0]);
      FairFirst(cfg, Played(s, []), turns);
      EventCould(cfg, s, last, turns[0]);
      EventDoes(h, cfg, s, turns[0]);
      var answers := EventLeads(h, cfg, s, last, e);
      FairAfter(cfg, p, turns[1..]);
      RowIsSession(h, cfg, p.s, turns[0].now, turns[1..]);
      PlayFirst(cfg, Played(s, []), turns);
      PlayAfter(cfg, p, turns[1..]);
      SessionFirst(h, cfg, s, last, e, EventsOf(cfg, p.s, turns[1..]), EventsOf(cfg, s, turns));
    }
  }

  lemma SessionFirst(h: string -> nat, cfg: Spec.Config, s: Spec.St, last: int, e: Event, es: seq<Event>,
                     all: seq<Event>)
    requires IsPow2(s.buckets) && Could(cfg, s, last, e) && all == [e] + es
    requires Session(h, cfg, After(h, cfg, s, e), ClockOf(e), es)
    ensures Session(h, cfg, s, last, all)
    ensures StateAt(h, cfg, s, last, all, |all|) == StateAt(h, cfg, After(h, cfg, s, e), ClockOf(e), es, |es|)
    ensures AllReplies(h, cfg, s, last, all)
              == RepliesTo(cfg, s, e) + AllReplies(h, cfg, After(h, cfg, s, e), ClockOf(e), es)
  {
    assert all[0] == e && all[1..] == es;
  }

  /** What a row of commands answers is what a server over the plain map would, and the store goes
      on agreeing with that map. */
  lemma RowAgrees(h: string -> nat, cfg: Spec.Config, s: Spec.St, p: R.Plain, last: int, turns: seq<Turn>)
    requires IsPow2(s.buckets) && AllFair(cfg, Played(s, []), turns) && InTime(last, turns) && R.Agrees(s.m, p, last)
    ensures var es, r := EventsOf(cfg, s, turns), Play(cfg, Played(s, []), turns);
            && r.replies == PlainSession(p, es) && IsPow2(r.s.buckets)
            && R.Agrees(r.s.m, R.PlainAfter(p, RunOf(es)), EndClock(last, RunOf(es)))
  {
    var es := EventsOf(cfg, s, turns);
    RowIsSession(h, cfg, s, last, turns);
    SessionAgrees(h, cfg, s, p, last, es);
    var answers := SessionIsRun(h, cfg, s, last, es);
    RunStillAgrees(h, cfg, s, p, last, RunOf(es));
  }

  // ---- the plain map at a point of a session ----------------------------------------------------

  function Rows(events: seq<Event>): (rows: seq<seq<R.Step>>)
    ensures |rows| == |events| && forall i :: 0 <= i < |events| ==> rows[i] == StepsOf(events[i])
  {
    seq(|events|, i requires 0 <= i < |events| => StepsOf(events[i]))
  }

  /** The plain map after the first `i` events. */
  ghost function PlainAt(p: R.Plain, events: seq<Event>, i: nat): R.Plain
    requires i <= |events|
  {
    RowsAt(p, Rows(events), i)
  }

  lemma PlainAtFirst(p: R.Plain, events: seq<Event>, i: nat)
    requires 0 < i <= |events|
    ensures PlainAt(p, events, i) == PlainAt(R.PlainAfter(p, StepsOf(events[0])), events[1..], i - 1)
  {
    RowsFirst(p, Rows(events), i);
    assert Rows(events)[1..] == Rows(events[1..]);
  }

  /** The reply to each event is what the plain map at that point makes it. */
  lemma {:induction false} ReplyIsPlain(h: string -> nat, cfg: Spec.Config, s: Spec.St, p: R.Plain, last: int,
                                        events: seq<Event>, j: nat)
    requires IsPow2(s.buckets) && R.Agrees(s.m, p, last) && Session(h, cfg, s, last, events) && j < |events|
    ensures RepliesTo(cfg, StateAt(h, cfg, s, last, events, j), events[j])
         == SaysOf(events[j], R.PlainReplies(PlainAt(p, events, j), StepsOf(events[j])))
    decreases j
  {
    var e := events[0];
    var x := EventLeads(h, cfg, s, last, e);
    R.RunAgrees(h, cfg, s, p, last, StepsOf(e));
    if j > 0 {
      var t := After(h, cfg, s, e);
      RunStillAgrees(h, cfg, s, p, last, StepsOf(e));
      EndsBy(e, last);
      R.AgreesLater(t.m, R.PlainAfter(p, StepsOf(e)), EndClock(last, StepsOf(e)), ClockOf(e));
      ReplyIsPlain(h, cfg, t, R.PlainAfter(p, StepsOf(e)), ClockOf(e), events[1..], j - 1);
      PlainAtFirst(p, events, j);
    }
  }

  // ---- GET --------------------------------------------------------------------------------------

  ghost predicate IsGet(e: Event, k: string) {
    e.Ran? && |e.turn.args| == 2 && Lowered(e.turn.args[0]) == "get" && e.turn.args[1] == k
  }

  /** A SET of `k` to `v` that was answered OK; `at` is what its options say of the deadline. */
  ghost predicate IsTakenSet(e: Event, k: string, v: string, at: int) {
    && e.Ran? && e.ok && |e.turn.args| >= 3 && Lowered(e.turn.args[0]) == "set"
    && e.turn.args[1] == k && e.turn.args[2] == v
    && SetOptions(e.turn.args, 3, e.turn.now, NO_EXPIRY, false) == At(at)
  }

  /** The deadline a SET leaves: what its options say, or with KEEPTTL that of the item it replaces. */
  ghost function DeadlineOf(p: R.Plain, k: string, now: int, at: int): int {
    if at != Spec.KEEP_TTL then at else if R.Visible(p, k, now) then p[k].expiresAt else NO_EXPIRY
  }

  lemma TakenSetPuts(p: R.Plain, e: Event, k: string, v: string, at: int)
    requires IsTakenSet(e, k, v, at)
    ensures var q := R.PlainAfter(p, StepsOf(e)); k in q && q[k] == R.Item(v, DeadlineOf(p, k, ClockOf(e), at))
  {
    PickIs(e.turn.args, Set);
    SetOptionsGood(e.turn.args, 3, e.turn.now, NO_EXPIRY, false);
    assert StepsOf(e)[1..] == [];
  }

  lemma GetSays(h: string -> nat, cfg: Spec.Config, s: Spec.St, p: R.Plain, last: int, events: seq<Event>, j: nat,
                k: string)
    requires IsPow2(s.buckets) && R.Agrees(s.m, p, last) && Session(h, cfg, s, last, events)
    requires j < |events| && IsGet(events[j], k)
    ensures var q, reply := PlainAt(p, events, j), RepliesTo(cfg, StateAt(h, cfg, s, last, events, j), events[j]);
            reply == [if R.Visible(q, k, ClockOf(events[j])) then BulkString(q[k].value) else NullBulk]
  {
    ReplyIsPlain(h, cfg, s, p, last, events, j);
    PlainGet(PlainAt(p, events, j), events[j].turn, events[j].ok, events[j].size);
  }

  /** Over any session, GET answers the value of the last SET of its key answered OK, when nothing
      has deleted, evicted or flushed it or changed its deadline since: exactly until that deadline. */
  lemma GetAnswersLastSet(h: string -> nat, cfg: Spec.Config, s: Spec.St, p: R.Plain, last: int, events: seq<Event>,
                          i: nat, j: nat, k: string, v: string, at: int)
    requires IsPow2(s.buckets) && R.Agrees(s.m, p, last) && Session(h, cfg, s, last, events)
    requires i < j < |events| && IsTakenSet(events[i], k, v, at) && IsGet(events[j], k)
    requires forall m :: i < m < j ==> LeavesAlone(StepsOf(events[m]), k)
    ensures var d := DeadlineOf(PlainAt(p, events, i), k, ClockOf(events[i]), at);
            var reply := RepliesTo(cfg, StateAt(h, cfg, s, last, events, j), events[j]);
            reply == [if Expired(d, ClockOf(events[j])) then NullBulk else BulkString(v)]
  {
    GetSays(h, cfg, s, p, last, events, j, k);
    TakenSetPuts(PlainAt(p, events, i), events[i], k, v, at);
    SetStays(p, Rows(events), i, j, k, R.Item(v, DeadlineOf(PlainAt(p, events, i), k, ClockOf(events[i]), at)));
  }

  /** And it answers nil when the key was not there, or was deleted, evicted or flushed, and no SET
      of it has been answered OK since. */
  lemma GetAnswersNothing(h: string -> nat, cfg: Spec.Config, s: Spec.St, p: R.Plain, last: int, events: seq<Event>,
                          i: nat, j: nat, k: string)
    requires IsPow2(s.buckets) && R.Agrees(s.m, p, last) && Session(h, cfg, s, last, events)
    requires i <= j < |events| && IsGet(events[j], k) && forall m :: i <= m < j ==> NeverPuts(StepsOf(events[m]), k)
    requires k !in PlainAt(p, events, i) || (i < j && TakesAway(StepsOf(events[i]), k))
    ensures RepliesTo(cfg, StateAt(h, cfg, s, last, events, j), events[j]) == [NullBulk]
  {
    GetSays(h, cfg, s, p, last, events, j, k);
    if k !in PlainAt(p, events, i) {
      RowsNeverPut(p, Rows(events), i, j, k);
    } else {
      StaysAway(p, Rows(events), i, j, k);
    }
  }

  // ---- the same, by the texts sent --------------------------------------------------------------

  predicate Named(e: Event, name: string) {
    e.Ran? && e.turn.args != [] && Lowered(e.turn.args[0]) == name
  }

  /** A SET of `k` answered OK. */
  predicate SetsKey(e: Event, k: string) {
    Named(e, "set") && e.ok && |e.turn.args| >= 3 && e.turn.args[1] == k
  }

  /** Nothing sent concerns `k`: no SET of it answered OK, DEL or EXPIRE naming it, eviction of it, or flush. */
  predicate Harmless(e: Event, k: string) {
    && (Named(e, "set") && |e.turn.args| >= 3 ==> !e.ok || (e.turn.args[1] != k && k !in e.turn.gone))
    && (Named(e, "del") ==> k !in e.turn.args[1..])
    && (Named(e, "expire") && |e.turn.args| == 3 ==> e.turn.args[1] != k)
    && (Named(e, "flushall") ==> !FlushOk(e.turn.args))
  }

  lemma {:induction false} KeyStepsAt(erase: bool, keys: seq<string>, i: nat, now: int, j: nat)
    requires j < i <= |keys|
    ensures var run := KeySteps(erase, keys, i, now); |run| == i && run[j] == R.Step(now, KeyOp(erase, keys[j]))
  {
    if i == 1 {
      assert KeySteps(erase, keys, 0, now) == [];
    } else if j < i - 1 {
      KeyStepsAt(erase, keys, i - 1, now, j);
    } else {
      KeyStepsAt(erase, keys, i - 1, now, 0);
    }
  }

  lemma KeyStepsAre(erase: bool, keys: seq<string>, now: int)
    ensures var run := KeySteps(erase, keys, |keys|, now);
            |run| == |keys| && forall j :: 0 <= j < |run| ==> run[j] == R.Step(now, KeyOp(erase, keys[j]))
  {
    forall j | 0 <= j < |keys|
      ensures |KeySteps(erase, keys, |keys|, now)| == |keys|
      ensures KeySteps(erase, keys, |keys|, now)[j] == R.Step(now, KeyOp(erase, keys[j]))
    {
      KeyStepsAt(erase, keys, |keys|, now, j);
    }
  }

  lemma OpsSpare(cmd: Cmd, turn: Turn, ok: bool, k: string)
    requires Enough(cmd, |turn.args|)
    requires cmd.Set? ==> !ok || (turn.args[1] != k && k !in turn.gone)
    requires cmd.Del? ==> k !in turn.args[1..]
    requires cmd.Expire? ==> turn.args[1] != k
    requires cmd.Flushall? ==> !FlushOk(turn.args)
    ensures LeavesAlone(OpsOf(cmd, turn, ok), k)
  {
    match cmd
    case Set =>
      SetOptionsGood(turn.args, 3, turn.now, NO_EXPIRY, false);
    case Del =>
      KeyStepsAre(true, turn.args[1..], turn.now);
    case Exists =>
      KeyStepsAre(false, turn.args[1..], turn.now);
    case _ =>
  }

  lemma HarmlessSpares(e: Event, k: string)
    requires Harmless(e, k)
    ensures LeavesAlone(StepsOf(e), k)
  {
    if e.Ran? && e.turn.args != [] && Pick(e.turn.args).Fit? {
      var cmd := Pick(e.turn.args).cmd;
      PickIs(e.turn.args, cmd);
      OpsSpare(cmd, e.turn, e.ok, k);
    }
  }

  lemma OpsPut(cmd: Cmd, turn: Turn, ok: bool, k: string)
    requires Enough(cmd, |turn.args|) && (cmd.Set? && ok ==> turn.args[1] != k)
    ensures NeverPuts(OpsOf(cmd, turn, ok), k)
  {
    match cmd
    case Del =>
      KeyStepsAre(true, turn.args[1..], turn.now);
    case Exists =>
      KeyStepsAre(false, turn.args[1..], turn.now);
    case _ =>
  }

  lemma OnlySetPuts(e: Event, k: string)
    requires !SetsKey(e, k)
    ensures NeverPuts(StepsOf(e), k)
  {
    if e.Ran? && e.turn.args != [] && Pick(e.turn.args).Fit? {
      var cmd := Pick(e.turn.args).cmd;
      PickIs(e.turn.args, cmd);
      OpsPut(cmd, e.turn, e.ok, k);
    }
  }

  lemma DelTakesAway(e: Event, k: string)
    requires Named(e, "del") && k in e.turn.args[1..]
    ensures TakesAway(StepsOf(e), k)
  {
    PickIs(e.turn.args, Del);
    var keys := e.turn.args[1..];
    KeyStepsAre(true, keys, e.turn.now);
    var i :| 0 <= i < |keys| && keys[i] == k;
    assert Removes(StepsOf(e)[i], k);
  }

  lemma NonePuts(events: seq<Event>, i: nat, j: nat, k: string)
    requires i < j <= |events| && Named(events[i], "del") && forall m :: i < m < j ==> !SetsKey(events[m], k)
    ensures forall m :: i <= m < j ==> NeverPuts(StepsOf(events[m]), k)
  {
    forall m | i <= m < j ensures NeverPuts(StepsOf(events[m]), k) {
      OnlySetPuts(events[m], k);
    }
  }

  lemma AllSpare(events: seq<Event>, i: nat, j: nat, k: string)
    requires i < j <= |events| && forall m :: i < m < j ==> Harmless(events[m], k)
    ensures forall m :: i < m < j ==> LeavesAlone(StepsOf(events[m]), k)
  {
    forall m | i < m < j ensures LeavesAlone(StepsOf(events[m]), k) {
      HarmlessSpares(events[m], k);
    }
  }

  /** Over any session, GET after a DEL of its key answers nil until a SET of it is answered OK. */
  lemma GetAfterDelIsNil(h: string -> nat, cfg: Spec.Config, s: Spec.St, p: R.Plain, last: int, events: seq<Event>,
                         i: nat, j: nat, k: string)
    requires IsPow2(s.buckets) && R.Agrees(s.m, p, last) && Session(h, cfg, s, last, events)
    requires i < j < |events| && Named(events[i], "del") && k in events[i].turn.args[1..] && IsGet(events[j], k)
    requires forall m :: i < m < j ==> !SetsKey(events[m], k)
    ensures RepliesTo(cfg, StateAt(h, cfg, s, last, events, j), events[j]) == [NullBulk]
  {
    DelTakesAway(events[i], k);
    NonePuts(events, i, j, k);
    GetAnswersNothing(h, cfg, s, p, last, events, i, j, k);
  }

  /** And GET after a SET answered OK answers its value until its deadline, while nothing sent concerns the key. */
  lemma GetAfterSetIsValue(h: string -> nat, cfg: Spec.Config, s: Spec.St, p: R.Plain, last: int, events: seq<Event>,
                           i: nat, j: nat, k: string, v: string, at: int)
    requires IsPow2(s.buckets) && R.Agrees(s.m, p, last) && Session(h, cfg, s, last, events)
    requires i < j < |events| && IsTakenSet(events[i], k, v, at) && at != -2 && IsGet(events[j], k)
    requires forall m :: i < m < j ==> Harmless(events[m], k)
    ensures RepliesTo(cfg, StateAt(h, cfg, s, last, events, j), events[j])
         == [if at == -1 || ClockOf(events[j]) <= at then BulkString(v) else NullBulk]
  {
    AllSpare(events, i, j, k);
    GetAnswersLastSet(h, cfg, s, p, last, events, i, j, k, v, at);
  }
}
