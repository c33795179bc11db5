/** Bytes in, the plain map's reply bytes out (src/net/connection.cpp, src/core/command.cpp,
    src/core/store.cpp). */
module EndToEnd {
  import opened Bits
  import opened Replies
  import opened CommandRows
  import opened CommandRuns
  import opened CommandSessions
  import opened Streams
  import opened Conversations
  import opened Connections
  import R = StoreRuns
  import Spec = StoreSpec

  lemma {:induction false} AllInTime(turns: seq<Turn>, now: Clock, last: int)
    requires AllAt(turns, now) && last <= now
    ensures InTime(last, turns)
    decreases |turns|
  {
    if turns == [] {
    } else {
      AllInTime(turns[1..], now, now);
    }
  }

  lemma EndClockOn(last: int, a: seq<R.Step>, b: seq<R.Step>)
    ensures EndClock(last, a + b) == EndClock(EndClock(last, a), b)
  {
  }

  ghost predicate NoneAfter(events: seq<Event>, now: int) {
    forall i :: 0 <= i < |events| ==> ClockOf(events[i]) <= now
  }

  lemma {:induction false} SessionEndsBy(h: string -> nat, cfg: Spec.Config, s: Spec.St, last: int, events: seq<Event>,
                                         now: int)
    requires CommandRuns.Session(h, cfg, s, last, events) && last <= now && NoneAfter(events, now)
    ensures EndClock(last, RunOf(events)) <= now
    decreases |events|
  {
    if events == [] {
    } else {
      var e := events[0];
      EndsBy(e, last);
      EndClockOn(last, StepsOf(e), RunOf(events[1..]));
      SessionEndsBy(h, cfg, After(h, cfg, s, e), ClockOf(e), events[1..], now);
      if RunOf(events[1..]) == [] {
        assert EndClock(last, StepsOf(e)) <= ClockOf(e);
      }
    }
  }

  lemma {:induction false} EventClocks(cfg: Spec.Config, s: Spec.St, turns: seq<Turn>, now: Clock)
    requires AllAt(turns, now)
    ensures NoneAfter(EventsOf(cfg, s, turns), now)
    decreases |turns|
  {
    if turns == [] {
    } else {
      var p := PlayOne(cfg, Played(s, []), turns[0]);
      EventClocks(cfg, p.s, turns[1..], now);
    }
  }

  /** A row of commands at one clock answers as the plain map does, and agrees with it afterwards. */
  lemma RowAt(h: string -> nat, cfg: Spec.Config, s: Spec.St, plain: R.Plain, last: int, turns: seq<Turn>, now: Clock)
    requires IsPow2(s.buckets) && R.Agrees(s.m, plain, last) && last <= now && AllAt(turns, now)
    requires AllFair(cfg, Played(s, []), turns)
    ensures var p, es := Play(cfg, Played(s, []), turns), EventsOf(cfg, s, turns);
            p.replies == PlainSession(plain, es) && IsPow2(p.s.buckets)
            && R.Agrees(p.s.m, R.PlainAfter(plain, RunOf(es)), now)
  {
    var es := EventsOf(cfg, s, turns);
    AllInTime(turns, now, last);
    RowAgrees(h, cfg, s, plain, last, turns);
    RowIsSession(h, cfg, s, last, turns);
    EventClocks(cfg, s, turns, now);
    SessionEndsBy(h, cfg, s, last, es, now);
    R.AgreesLater(Play(cfg, Played(s, []), turns).s.m, R.PlainAfter(plain, RunOf(es)), EndClock(last, RunOf(es)), now);
  }

  /** What a read adds to what a connection has said is what a server over the plain map would say
      to the commands the read completes, and then the reply to malformed bytes. The store goes on
      agreeing with that map, so the same holds of the next read, of this connection or another. */
  lemma ReadSaysPlain(h: string -> nat, cfg: Spec.Config, now: Clock, life: Life, taken: string, life': Life,
                      s: Spec.St, t: Spec.St, turns: seq<Turn>, plain: R.Plain, last: int)
    requires Heeds(cfg, now, life, taken, life', s, t, turns)
    requires IsPow2(s.buckets) && R.Agrees(s.m, plain, last) && last <= now
    ensures var c, d, es := Fed(START, life.seen), Fed(START, life.seen + taken), EventsOf(cfg, s, turns);
            && d.cmds == c.cmds + Args(turns)
            && life'.said == life.said + (PlainSession(plain, es) + ErrorReplies(d.end))
            && IsPow2(t.buckets) && R.Agrees(t.m, R.PlainAfter(plain, RunOf(es)), now)
  {
    Heeded(cfg, now, life, taken, life', s, t, turns);
    RowAt(h, cfg, s, plain, last, turns, now);
  }

  /** An expire cycle between reads does not show. */
  lemma TickKeepsPlain(h: string -> nat, cfg: Spec.Config, s: Spec.St, plain: R.Plain, last: int, now: int, limit: nat)
    requires IsPow2(s.buckets) && R.Agrees(s.m, plain, last) && last <= now
    ensures var t := Spec.ExpireCycle(h, s, now, limit).s; IsPow2(t.buckets) && R.Agrees(t.m, plain, now)
  {
    R.StepAgrees(h, cfg, s, plain, last, R.Step(now, R.Cycle(limit)));
  }

  /** A whole stream read at one clock, in whatever pieces: the reply bytes are the plain map's. */
  lemma StreamSaysPlain(h: string -> nat, cfg: Spec.Config, now: Clock, picks: nat -> Conversations.Pick, s: Spec.St,
                        plain: R.Plain, last: int, chunks: seq<string>)
    requires IsPow2(s.buckets) && R.Agrees(s.m, plain, last) && last <= now
    requires AllFair(cfg, Played(s, []), TurnsOf(ScriptOf(Joined(chunks)).cmds, 0, now, picks))
    ensures var r := ScriptOf(Joined(chunks));
            var x := HeedAll(StoreService(cfg, now, picks), Talk(START, Played(s, [])), chunks);
            var es := EventsOf(cfg, s, TurnsOf(r.cmds, 0, now, picks));
            EncodeAll(x.w.replies) == EncodeAll(PlainSession(plain, es) + ErrorReplies(r.end))
  {
    var bytes := Joined(chunks);
    var r, v, k := ScriptOf(bytes), StoreService(cfg, now, picks), Talk(START, Played(s, []));
    var turns := TurnsOf(r.cmds, 0, now, picks);
    StoreComposes(cfg, now, picks);
    SplitsChangeNothing(v, k, chunks);
    assert START.left + bytes == bytes;
    RowAt(h, cfg, s, plain, last, turns, now);
    var p := Play(cfg, Played(s, []), turns);
    StoreHeeds(cfg, now, picks, k, bytes, r, p, p.replies + ErrorReplies(r.end));
  }
}
