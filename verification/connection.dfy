/** One client connection (src/net/connection.h, src/net/connection.cpp).

    What the socket and epoll do is an argument of the handlers: what a read gives, what each
    write takes, whether a change of interest is accepted. */
module Connections {
  import opened Basics
  import opened Resp
  import opened RespLaws
  import opened RespParser
  import opened Replies
  import opened CommandSpec
  import opened CommandLaws
  import opened CommandRows
  import opened Conversations
  import opened Commands
  import opened Buffers
  import opened Streams
  import opened Stores
  import Spec = StoreSpec

  datatype State = Open | Closing | Closed

  /** EPOLLIN and EPOLLOUT. */
  datatype Mask = Mask(readable: bool, writable: bool)

  datatype ReadResult = Got(bytes: string) | PeerClosed | TryAgain | ReadFailed

  datatype WriteResult = Wrote(n: nat) | Blocked | Interrupted | WriteFailed

  ghost predicate ScriptIs(rest: string -> Script, s: string) {
    match CommandOf(s)
    case Incomplete => rest(s) == Script([], 0, Waiting)
    case Bad(e) => rest(s) == Script([], 0, Failing(e))
    case Ok(args, n) => rest(s) == if Stops(args) then Script([args], n, Quitting) else Before(args, n, rest(s[n..]))
  }

  /** `rest` is the script of any bytes. */
  ghost predicate Scripts(rest: string -> Script) {
    forall s {:trigger ScriptIs(rest, s)} :: ScriptIs(rest, s)
  }

  lemma Scripting(s: string) returns (rest: string -> Script)
    ensures Scripts(rest) && rest(s) == ScriptOf(s)
  {
    rest := (s: string) => ScriptOf(s);
  }

  /** What a row of commands leaves and answers, and whether the sampler could have chosen so. */
  datatype Story = Story(p: Played, fair: bool)

  ghost predicate PlaysAt(cfg: Spec.Config, s: Spec.St, play: seq<Turn> -> Story, turns: seq<Turn>) {
    play(turns) == Story(Play(cfg, Played(s, []), turns), AllFair(cfg, Played(s, []), turns))
  }

  /** `play` tells the story of any row of commands from `s`. */
  ghost predicate Plays(cfg: Spec.Config, s: Spec.St, play: seq<Turn> -> Story) {
    forall turns {:trigger PlaysAt(cfg, s, play, turns)} :: PlaysAt(cfg, s, play, turns)
  }

  lemma Playing(cfg: Spec.Config, s: Spec.St) returns (play: seq<Turn> -> Story)
    ensures Plays(cfg, s, play) && play([]) == Story(Played(s, []), true)
  {
    play := (turns: seq<Turn>) => Story(Play(cfg, Played(s, []), turns), AllFair(cfg, Played(s, []), turns));
  }

  /** One command more: what it adds to the story of `turns`. */
  ghost predicate Adds(play: seq<Turn> -> Story, turns: seq<Turn>, turn: Turn, t: Spec.St, said: seq<Reply>) {
    play(turns + [turn]) == Story(Played(t, play(turns).p.replies + said), play(turns).fair)
  }

  lemma AddsOne(cfg: Spec.Config, s: Spec.St, play: seq<Turn> -> Story, turns: seq<Turn>, turn: Turn, t: Spec.St,
                said: seq<Reply>)
    requires Plays(cfg, s, play) && Fair(cfg, play(turns).p.s, turn)
    requires turn.args == [] ==> t == play(turns).p.s && said == []
    requires turn.args != [] ==>
               var o := Exec(cfg, play(turns).p.s, turn.args, turn.now, turn.gone); t == o.s && said == [o.reply]
    ensures Adds(play, turns, turn, t, said)
  {
    var all := turns + [turn];
    assert PlaysAt(cfg, s, play, turns) && PlaysAt(cfg, s, play, all);
    assert all[..|all| - 1] == turns;
    assert play(turns).p.replies + [] == play(turns).p.replies;
  }

  ghost predicate IsState(store: Store, s: Spec.St)
    reads store, store.table
  {
    s == store.Abs()
  }

  /** A valid store, whose parts are not looked at. */
  ghost predicate Healthy(store: Store)
    reads store, store.table
  {
    forall s {:trigger IsState(store, s)} :: IsState(store, s) ==> store.Valid()
  }

  lemma HealthyIsValid(store: Store)
    ensures Healthy(store) <==> store.Valid()
  {
    assert IsState(store, store.Abs());
  }

  /** Dispatches one command of a row. */
  method Serve(store: Store, cmd: Command, now: Clock, output: Buffer, ghost s: Spec.St, ghost play: seq<Turn> -> Story,
               ghost turns: seq<Turn>)
    returns (quit: bool, ghost turn: Turn, ghost said: seq<Reply>)
    requires Healthy(store) && output.Valid() && cmd.argc <= |cmd.argv| && Within(cmd.argv[..cmd.argc])
    requires Plays(store.Cfg(), s, play) && store.Abs() == play(turns).p.s
    modifies store, store.table, output
    ensures Healthy(store) && output.Valid() && turn.args == cmd.argv[..cmd.argc] && turn.now == now
    ensures Adds(play, turns, turn, store.Abs(), said)
    ensures quit == Stops(cmd.argv[..cmd.argc]) && output.Readable() == old(output.Readable()) + EncodeAll(said)
  {
    ghost var args, s0 := cmd.argv[..cmd.argc], store.Abs();
    ghost var sample, gone;
    HealthyIsValid(store);
    quit, sample, gone := Dispatch(store, cmd, now, output);
    HealthyIsValid(store);
    turn := Turn(args, now, if args == [] then {} else sample, if args == [] then {} else gone);
    said := if args == [] then [] else [Exec(store.Cfg(), s0, args, now, gone).reply];
    AddsOne(store.Cfg(), s, play, turns, turn, store.Abs(), said);
    if args != [] {
      ClosesOnQuit(store.Cfg(), s0, args, now, gone);
      EncodeOne(said[0]);
    }
  }

  lemma EncodeOne(r: Reply)
    ensures EncodeAll([r]) == Encode(r)
  {
    assert EncodeAll([r]) == Encode(r) + EncodeAll([r][1..]);
  }

  /** Parses and dispatches one command: the body of processInput's loop. */
  method HandleOne(store: Store, input: Buffer, output: Buffer, now: Clock, ghost s: Spec.St,
                   ghost play: seq<Turn> -> Story, ghost turns: seq<Turn>)
    returns (r: Result, quit: bool, ghost turn: Turn, ghost said: seq<Reply>)
    requires Healthy(store) && input.Valid() && output.Valid() && input != output
    requires Plays(store.Cfg(), s, play) && store.Abs() == play(turns).p.s
    modifies store, store.table, input`readIdx, input`writeIdx, output
    ensures Healthy(store) && input.Valid() && output.Valid()
    ensures r == ResultOf(CommandOf(old(input.Readable())))
    ensures !r.status.StatusOk? ==>
              store.Abs() == old(store.Abs()) && input.Readable() == old(input.Readable())
              && output.Readable() == old(output.Readable())
    ensures r.status.StatusOk? ==>
              && turn.args == CommandOf(old(input.Readable())).args && turn.now == now
              && input.Readable() == old(input.Readable())[r.consumed..] && Adds(play, turns, turn, store.Abs(), said)
              && quit == Stops(turn.args) && output.Readable() == old(output.Readable()) + EncodeAll(said)
  {
    quit, turn, said := false, Turn([], now, {}, {}), [];
    var cmd;
    r, cmd := ParseCommand(input.Readable(), Command(Blanks(MAX_ARGS), 0));
    if !r.status.StatusOk? {
      return;
    }
    ArgumentsFit(input.Readable());
    assert cmd.argv[..cmd.argc] == CommandOf(input.Readable()).args;
    quit, turn, said := Serve(store, cmd, now, output, s, play, turns);
    input.Consume(r.consumed);
  }

  /** Where processInput's loop stands: what it has dispatched, all at clock `now`, and what the
      bytes left will add. */
  ghost predicate Midway(rest: string -> Script, now: Clock, bytes: string, turns: seq<Turn>, used: nat, left: string) {
    && used <= |bytes| && left == bytes[used..] && AllAt(turns, now)
    && rest(bytes) == Onward(Script(Args(turns), used, Waiting), rest(left))
  }

  ghost predicate AllAt(turns: seq<Turn>, now: Clock) {
    forall i :: 0 <= i < |turns| ==> turns[i].now == now
  }

  lemma MidwayStarts(rest: string -> Script, now: Clock, bytes: string)
    ensures Midway(rest, now, bytes, [], 0, bytes)
  {
    assert bytes[0..] == bytes;
    assert [] + rest(bytes).cmds == rest(bytes).cmds;
  }

  /** One dispatched command further, or the end. */
  lemma MidwayOn(rest: string -> Script, now: Clock, bytes: string, turns: seq<Turn>, used: nat, left: string,
                 turn: Turn, n: nat)
    requires Scripts(rest) && Midway(rest, now, bytes, turns, used, left) && CommandOf(left) == Ok(turn.args, n)
    requires turn.now == now
    ensures AllAt(turns + [turn], now)
    ensures !Stops(turn.args) ==> Midway(rest, now, bytes, turns + [turn], used + n, left[n..])
    ensures Stops(turn.args) ==>
              rest(bytes) == Script(Args(turns + [turn]), used + n, Quitting) && left[n..] == bytes[used + n..]
  {
    assert ScriptIs(rest, left);
    assert left[n..] == bytes[used + n..];
    assert Args(turns + [turn]) == Args(turns) + [turn.args];
    Regroup(Args(turns), [turn.args], rest(left[n..]).cmds);
  }

  lemma MidwayEnds(rest: string -> Script, now: Clock, bytes: string, turns: seq<Turn>, used: nat, left: string)
    requires Scripts(rest) && Midway(rest, now, bytes, turns, used, left)
    ensures CommandOf(left) == Incomplete ==> rest(bytes) == Script(Args(turns), used, Waiting)
    ensures CommandOf(left).Bad? ==> rest(bytes) == Script(Args(turns), used, Failing(CommandOf(left).error))
  {
    assert ScriptIs(rest, left);
    assert Args(turns) + [] == Args(turns);
  }

  lemma EncodeMore(was: string, a: seq<Reply>, b: seq<Reply>)
    ensures was + EncodeAll(a) + EncodeAll(b) == was + EncodeAll(a + b)
  {
    EncodeAllOn(a, b);
    Regroup(was, EncodeAll(a), EncodeAll(b));
  }

  /** The bytes have been taken as their script says: commands dispatched, the rest left, the
      verdict answered when it is an error. */
  ghost predicate Taken(r: Script, now: Clock, bytes: string, left: string, turns: seq<Turn>, replies: seq<Reply>,
                        state: State, said: seq<Reply>) {
    && Args(turns) == r.cmds && AllAt(turns, now) && r.used <= |bytes| && left == bytes[r.used..]
    && state == (if r.end.Waiting? then Open else Closing)
    && said == replies + ErrorReplies(r.end)
  }

  /** One turn of processInput's loop. */
  method ProcessOne(store: Store, input: Buffer, output: Buffer, now: Clock, ghost rest: string -> Script,
                    ghost s: Spec.St, ghost play: seq<Turn> -> Story, ghost bytes: string, ghost was: string,
                    ghost turns: seq<Turn>, ghost used: nat)
    returns (go: bool, state: State, ghost all: seq<Turn>, ghost used': nat, ghost said: seq<Reply>)
    requires Healthy(store) && input.Valid() && output.Valid() && input != output
    requires Scripts(rest) && Plays(store.Cfg(), s, play) && store.Abs() == play(turns).p.s && play(turns).fair
    requires Midway(rest, now, bytes, turns, used, input.Readable())
    requires output.Readable() == was + EncodeAll(play(turns).p.replies)
    modifies store, store.table, input`readIdx, input`writeIdx, output
    ensures Healthy(store) && input.Valid() && output.Valid() && store.Abs() == play(all).p.s && play(all).fair
    ensures go ==> state.Open? && used < used' && Midway(rest, now, bytes, all, used', input.Readable())
    ensures go ==> said == play(all).p.replies
    ensures !go ==> Taken(rest(bytes), now, bytes, input.Readable(), all, play(all).p.replies, state, said)
    ensures output.Readable() == was + EncodeAll(said)
  {
    ghost var left := input.Readable();
    go, state, used', all := false, Open, used, turns;
    var r, quit;
    ghost var turn;
    r, quit, turn, said := HandleOne(store, input, output, now, s, play, turns);
    OneTurn(rest, now, bytes, turns, used, left, r, turn, input.Readable(), play(turns).p.replies,
            play(turns + [turn]).p.replies);
    if r.status.StatusIncomplete? {
      said := play(turns).p.replies;
    } else if r.status.StatusError? {
      said := AnswerError(output, r.error, was, play(turns).p.replies);
      state := Closing;
    } else {
      EncodeMore(was, play(turns).p.replies, said);
      all, used', go := turns + [turn], used + r.consumed, !quit;
      said, state := play(all).p.replies, if quit then Closing else Open;
    }
  }

  /** What one parsed command, or none, makes of where the loop stands. */
  lemma OneTurn(rest: string -> Script, now: Clock, bytes: string, turns: seq<Turn>, used: nat, left: string,
                r: Result, turn: Turn, left': string, replies: seq<Reply>, replies': seq<Reply>)
    requires Scripts(rest) && Midway(rest, now, bytes, turns, used, left) && r == ResultOf(CommandOf(left))
    requires if r.status.StatusOk?
             then turn.args == CommandOf(left).args && turn.now == now && left' == left[r.consumed..]
             else left' == left
    ensures r.status.StatusIncomplete? ==> Taken(rest(bytes), now, bytes, left', turns, replies, Open, replies)
    ensures r.status.StatusError? ==>
              Taken(rest(bytes), now, bytes, left', turns, replies, Closing, replies + [Replies.Error(r.error)])
    ensures r.status.StatusOk? && !Stops(turn.args) ==>
              r.consumed > 0 && Midway(rest, now, bytes, turns + [turn], used + r.consumed, left')
    ensures r.status.StatusOk? && Stops(turn.args) ==>
              Taken(rest(bytes), now, bytes, left', turns + [turn], replies', Closing, replies')
  {
    MidwayEnds(rest, now, bytes, turns, used, left);
    if r.status.StatusOk? {
      MidwayOn(rest, now, bytes, turns, used, left, turn, r.consumed);
    }
    assert replies + [] == replies && replies' + [] == replies';
  }

  /** The reply to a protocol error. */
  method AnswerError(output: Buffer, text: string, ghost was: string, ghost replies: seq<Reply>)
    returns (ghost said: seq<Reply>)
    requires output.Valid() && output.Readable() == was + EncodeAll(replies)
    modifies output
    ensures output.Valid() && said == replies + [Replies.Error(text)] && output.Readable() == was + EncodeAll(said)
  {
    AppendReply(output, Replies.Error(text));
    EncodeOne(Replies.Error(text));
    EncodeMore(was, replies, [Replies.Error(text)]);
    said := replies + [Replies.Error(text)];
  }

  /** The loop itself: commands until one is incomplete, malformed or QUIT. */
  method ProcessLoop(store: Store, input: Buffer, output: Buffer, now: Clock, ghost rest: string -> Script,
                     ghost play: seq<Turn> -> Story)
    returns (state: State, ghost turns: seq<Turn>, ghost said: seq<Reply>)
    requires Healthy(store) && input.Valid() && output.Valid() && input != output
    requires Scripts(rest) && Plays(store.Cfg(), store.Abs(), play) && play([]) == Story(Played(store.Abs(), []), true)
    modifies store, store.table, input`readIdx, input`writeIdx, output
    ensures Healthy(store) && input.Valid() && output.Valid() && store.Abs() == play(turns).p.s && play(turns).fair
    ensures Taken(rest(old(input.Readable())), now, old(input.Readable()), input.Readable(), turns,
                  play(turns).p.replies, state, said)
    ensures output.Readable() == old(output.Readable()) + EncodeAll(said)
  {
    ghost var bytes, was, s, used := input.Readable(), output.Readable(), store.Abs(), 0;
    turns, state, said := [], Open, [];
    MidwayStarts(rest, now, bytes);
    while !input.Empty()
      invariant Healthy(store) && input.Valid() && output.Valid() && state.Open?
      invariant store.Abs() == play(turns).p.s && play(turns).fair
      invariant Midway(rest, now, bytes, turns, used, input.Readable()) && said == play(turns).p.replies
      invariant output.Readable() == was + EncodeAll(said)
      decreases |bytes| - used
    {
      var go;
      go, state, turns, used, said := ProcessOne(store, input, output, now, rest, s, play, bytes, was, turns, used);
      if !go {
        return;
      }
    }
    MidwayEnds(rest, now, bytes, turns, used, input.Readable());
    assert said + [] == said;
  }

  /** processInput of an open connection: the commands its bytes spell are run in order, each is
      answered, and what is left waits. */
  method ProcessInput(store: Store, input: Buffer, output: Buffer, now: Clock)
    returns (state: State, ghost turns: seq<Turn>, ghost said: seq<Reply>)
    requires Healthy(store) && input.Valid() && output.Valid() && input != output
    modifies store, store.table, input`readIdx, input`writeIdx, output
    ensures Healthy(store) && input.Valid() && output.Valid()
    ensures AllFair(store.Cfg(), Played(old(store.Abs()), []), turns)
    ensures var p := Play(store.Cfg(), Played(old(store.Abs()), []), turns);
            && store.Abs() == p.s
            && Taken(ScriptOf(old(input.Readable())), now, old(input.Readable()), input.Readable(), turns, p.replies,
                     state, said)
    ensures output.Readable() == old(output.Readable()) + EncodeAll(said)
  {
    ghost var s := store.Abs();
    ghost var rest := Scripting(input.Readable());
    ghost var play := Playing(store.Cfg(), s);
    state, turns, said := ProcessLoop(store, input, output, now, rest, play);
    assert PlaysAt(store.Cfg(), s, play, turns);
  }

  // ---- the connection ---------------------------------------------------------------------------

  /** The most an open connection's input buffer can hold. */
  const INPUT_BOUND: nat := 2 * (LONGEST - 1 + DEFAULT_CAPACITY)

  /** Every byte taken in while open, every command dispatched, every reply made. */
  datatype Life = Life(seen: string, log: seq<Heard>, said: seq<Reply>)

  ghost predicate Spells(seen: string, c: Session) {
    c == Fed(START, seen)
  }

  /** A connection against the session its bytes spell: the commands of the session are the ones in
      the log, and their replies, with that to malformed bytes, are all that has been said. */
  ghost predicate StandsAt(c: Session, life: Life, state: State, left: string, cfg: Spec.Config) {
    && (state.Open? ==> c.end.Waiting? && left == c.left && CommandOf(left) == Incomplete)
    && (state.Closing? ==> !c.end.Waiting?)
    && Spoken(life.log) == c.cmds && life.said == Answered(cfg, life.log) + ErrorReplies(c.end)
  }

  /** The session that all bytes seen spell is where the connection stands. */
  ghost predicate InStep(life: Life, state: State, left: string, cfg: Spec.Config) {
    forall c {:trigger Spells(life.seen, c)} :: Spells(life.seen, c) ==> StandsAt(c, life, state, left, cfg)
  }

  lemma Stands(life: Life, state: State, left: string, cfg: Spec.Config)
    requires InStep(life, state, left, cfg)
    ensures StandsAt(Fed(START, life.seen), life, state, left, cfg)
  {
    assert Spells(life.seen, Fed(START, life.seen));
  }

  /** A read leaves the connection open exactly when the bytes seen leave it waiting. */
  ghost predicate Leaves(seen: string, state: State) {
    forall c {:trigger Spells(seen, c)} :: Spells(seen, c) ==> state == if c.end.Waiting? then Open else Closing
  }

  ghost predicate IsPlay(cfg: Spec.Config, s: Spec.St, turns: seq<Turn>, p: Played) {
    p == Play(cfg, Played(s, []), turns)
  }

  /** `turns`, whose play is `p`, are what a read of `taken` makes of the life and the store. */
  ghost predicate HeedsAs(cfg: Spec.Config, now: Clock, life: Life, taken: string, life': Life, s: Spec.St, t: Spec.St,
                          turns: seq<Turn>, p: Played) {
    var c, d := Fed(START, life.seen), Fed(START, life.seen + taken);
    && d.cmds == c.cmds + Args(turns) && AllAt(turns, now) && AllFair(cfg, Played(s, []), turns)
    && t == p.s
    && life' == Life(life.seen + taken, life.log + Hears(cfg, s, turns), life.said + (p.replies + ErrorReplies(d.end)))
  }

  /** A read of `taken` that turned store `s` into `t`: the commands it completes, `turns`, were
      played at clock `now`, and what they answered is what has been said since. */
  ghost predicate Heeds(cfg: Spec.Config, now: Clock, life: Life, taken: string, life': Life, s: Spec.St, t: Spec.St,
                        turns: seq<Turn>) {
    forall p {:trigger IsPlay(cfg, s, turns, p)} :: IsPlay(cfg, s, turns, p) ==>
      HeedsAs(cfg, now, life, taken, life', s, t, turns, p)
  }

  lemma Heeded(cfg: Spec.Config, now: Clock, life: Life, taken: string, life': Life, s: Spec.St, t: Spec.St,
               turns: seq<Turn>)
    requires Heeds(cfg, now, life, taken, life', s, t, turns)
    ensures HeedsAs(cfg, now, life, taken, life', s, t, turns, Play(cfg, Played(s, []), turns))
  {
    assert IsPlay(cfg, s, turns, Play(cfg, Played(s, []), turns));
  }

  /** The turns of a read are the commands of the script it completes. */
  lemma HeedsScript(cfg: Spec.Config, now: Clock, life: Life, taken: string, life': Life, s: Spec.St, t: Spec.St,
                    turns: seq<Turn>, c: Session, p: Played)
    requires HeedsAs(cfg, now, life, taken, life', s, t, turns, p) && c == Fed(START, life.seen) && c.end.Waiting?
    ensures var r := ScriptOf(c.left + taken);
            && Fed(START, life'.seen) == Fed(c, taken) && Args(turns) == r.cmds
            && t == p.s && life'.said == life.said + (p.replies + ErrorReplies(r.end))
  {
    FedTwice(START, life.seen, taken);
    SameRest(c.cmds, ScriptOf(c.left + taken).cmds, Args(turns));
  }

  /** A read of a waiting connection is a read of a conversation with the store, for any sampler
      choices that gave these turns; so how its bytes are split does not show. */
  lemma ReadIsHeed(cfg: Spec.Config, now: Clock, picks: nat -> Conversations.Pick, life: Life, taken: string,
                   life': Life, s: Spec.St, t: Spec.St, turns: seq<Turn>)
    requires Heeds(cfg, now, life, taken, life', s, t, turns) && Fed(START, life.seen).end.Waiting?
    requires turns == TurnsOf(Args(turns), |Fed(START, life.seen).cmds|, now, picks)
    ensures Heed(StoreService(cfg, now, picks), Talk(Fed(START, life.seen), Played(s, life.said)), taken)
         == Talk(Fed(START, life'.seen), Played(t, life'.said))
  {
    Heeded(cfg, now, life, taken, life', s, t, turns);
    PlayAfter(cfg, Played(s, life.said), turns);
    ReadMatches(cfg, now, picks, life, taken, life', s, t, turns, Fed(START, life.seen),
                Play(cfg, Played(s, []), turns), Play(cfg, Played(s, life.said), turns));
  }

  lemma ReadMatches(cfg: Spec.Config, now: Clock, picks: nat -> Conversations.Pick, life: Life, taken: string,
                    life': Life, s: Spec.St, t: Spec.St, turns: seq<Turn>, c: Session, p: Played, q: Played)
    requires HeedsAs(cfg, now, life, taken, life', s, t, turns, p) && c == Fed(START, life.seen) && c.end.Waiting?
    requires turns == TurnsOf(Args(turns), |c.cmds|, now, picks)
    requires q == Play(cfg, Played(s, life.said), turns) && q.s == p.s && q.replies == life.said + p.replies
    ensures Heed(StoreService(cfg, now, picks), Talk(c, Played(s, life.said)), taken)
              == Talk(Fed(START, life'.seen), Played(t, life'.said))
  {
    var r := ScriptOf(c.left + taken);
    HeedsScript(cfg, now, life, taken, life', s, t, turns, c, p);
    Regroup(life.said, p.replies, ErrorReplies(r.end));
    StoreHeeds(cfg, now, picks, Talk(c, Played(s, life.said)), taken, r, q, life'.said);
  }

  lemma SameRest<T>(a: seq<T>, b: seq<T>, c: seq<T>)
    requires a + b == a + c
    ensures b == c
  {
    assert b == (a + b)[|a|..] && c == (a + c)[|a|..];
  }

  /** After a read the connection is in step with one byte string more. */
  lemma StepsOn(cfg: Spec.Config, s: Spec.St, now: Clock, life: Life, left: string, taken: string, left': string,
                turns: seq<Turn>, state: State, added: seq<Reply>, life': Life)
    requires InStep(life, Open, left, cfg) && AllFair(cfg, Played(s, []), turns)
    requires Taken(ScriptOf(left + taken), now, left + taken, left', turns,
                   Play(cfg, Played(s, []), turns).replies, state, added)
    requires life' == Life(life.seen + taken, life.log + Hears(cfg, s, turns), life.said + added)
    ensures InStep(life', state, left', cfg) && Leaves(life'.seen, state)
    ensures Heeds(cfg, now, life, taken, life', s, Play(cfg, Played(s, []), turns).s, turns)
  {
    Stands(life, Open, left, cfg);
    FedTwice(START, life.seen, taken);
    if ScriptOf(left + taken).end.Waiting? {
      LeftIsIncomplete(left + taken);
    }
    HearsAnswered(cfg, s, turns);
    HearsSpoken(cfg, s, turns);
    SpokenOn(life.log, Hears(cfg, s, turns));
    SaidOn(cfg, life.log, Hears(cfg, s, turns), life.said, added, ScriptOf(left + taken).end);
  }

  lemma SaidOn(cfg: Spec.Config, log: seq<Heard>, more: seq<Heard>, said: seq<Reply>, added: seq<Reply>, end: End)
    requires said == Answered(cfg, log) + [] && added == Answered(cfg, more) + ErrorReplies(end)
    ensures said + added == Answered(cfg, log + more) + ErrorReplies(end)
  {
    AnsweredOn(cfg, log, more);
    assert Answered(cfg, log) + [] == Answered(cfg, log);
    Regroup(Answered(cfg, log), Answered(cfg, more), ErrorReplies(end));
  }

  lemma ErrorFramed(e: Resp.Error)
    ensures Framed(Replies.Error(ErrorText(e)))
  {
    ArgLengthOneLiner();
    BulkLengthOneLiner();
    InlineLengthOneLiner();
  }

  lemma ArgLengthOneLiner()
    ensures OneLiner("ERR Protocol error: invalid multibulk length")
  {
    OneLinerOn("ERR Protocol error: ", "invalid multibulk length");
    assert "ERR Protocol error: invalid multibulk length" == "ERR Protocol error: " + "invalid multibulk length";
  }

  lemma BulkLengthOneLiner()
    ensures OneLiner("ERR Protocol error: invalid bulk length")
  {
    OneLinerOn("ERR Protocol error: ", "invalid bulk length");
    assert "ERR Protocol error: invalid bulk length" == "ERR Protocol error: " + "invalid bulk length";
  }

  lemma InlineLengthOneLiner()
    ensures OneLiner("ERR Protocol error: too big inline request")
  {
    OneLinerOn("ERR Protocol error: ", "too big inline request");
    assert "ERR Protocol error: too big inline request" == "ERR Protocol error: " + "too big inline request";
  }

  /** processInput, seen from the whole session. */
  method ProcessSeen(store: Store, input: Buffer, output: Buffer, now: Clock, ghost life: Life, ghost sent: string,
                     ghost left: string, ghost taken: string)
    returns (state: State, ghost life': Life, ghost turns: seq<Turn>, ghost added: seq<Reply>)
    requires Healthy(store) && input.Valid() && output.Valid() && input != output
    requires input.Readable() == left + taken && InStep(life, Open, left, store.Cfg())
    requires sent + output.Readable() == EncodeAll(life.said)
    modifies store, store.table, input`readIdx, input`writeIdx, output
    ensures Healthy(store) && input.Valid() && output.Valid()
    ensures InStep(life', state, input.Readable(), store.Cfg()) && Leaves(life'.seen, state) && !state.Closed?
    ensures Heeds(store.Cfg(), now, life, taken, life', old(store.Abs()), store.Abs(), turns)
    ensures life'.seen == life.seen + taken && life'.said == life.said + added
    ensures output.Readable() == old(output.Readable()) + EncodeAll(added)
    ensures sent + output.Readable() == EncodeAll(life'.said)
  {
    ghost var s, was := store.Abs(), output.Readable();
    state, turns, added := ProcessInput(store, input, output, now);
    SaysMore(sent, was, life.said, added);
    life' := Life(life.seen + taken, life.log + Hears(store.Cfg(), s, turns), life.said + added);
    StepsOn(store.Cfg(), s, now, life, left, taken, input.Readable(), turns, state, added, life');
  }

  // ---- writing ----------------------------------------------------------------------------------

  /** What a list of write outcomes makes of the queued bytes. */
  datatype Drained = Drained(left: string, written: string, failed: bool)

  /** write(2) until the queue is empty, the socket is full, or it fails; the end of the list counts
      as a full socket. */
  function DrainOf(queued: string, writes: seq<WriteResult>): (d: Drained)
    ensures d.written + d.left == queued
    decreases |writes|
  {
    if queued == "" || writes == [] then Drained(queued, "", false)
    else
      match writes[0]
      case Wrote(n) =>
        if n == 0 then Drained(queued, "", false)
        else
          var k := Min(n, |queued|);
          var d := DrainOf(queued[k..], writes[1..]);
          Drained(d.left, queued[..k] + d.written, d.failed)
      case Blocked => Drained(queued, "", false)
      case Interrupted => DrainOf(queued, writes[1..])
      case WriteFailed => Drained(queued, "", true)
  }

  /** The connection closes exactly when a write fails, when all is written while it is closing, or
      when epoll refuses a change of interest it needs. */
  predicate Closes(state: State, interest: Mask, queued: string, writes: seq<WriteResult>, accepts: bool) {
    var d := DrainOf(queued, writes);
    d.failed || (d.left == "" && state.Closing?) || (Mask(state.Open?, d.left != "") != interest && !accepts)
  }

  /** What closes a connection on a read event: the peer or an error, or what follows a read. */
  predicate ClosesOn(read: ReadResult, state: State, interest: Mask, queued: string, writes: seq<WriteResult>,
                     accepts: bool) {
    match read
    case Got(_) => Closes(state, interest, queued, writes, accepts)
    case TryAgain => false
    case _ => true
  }

  lemma DrainStep(queued: string, writes: seq<WriteResult>, k: nat, d: Drained, before: string)
    requires k <= |queued| && d == DrainOf(queued[k..], writes)
    ensures before + (queued[..k] + d.written) == before + queued[..k] + d.written
  {
  }

  class Connection {
    const store: Store
    const input: Buffer
    const output: Buffer
    var state: State
    var interest: Mask
    ghost var life: Life
    /** Every byte written out. */
    ghost var sent: string

    ghost predicate Parts()
      reads this, input, output
    {
      input != output && input.Valid() && output.Valid()
    }

    /** What is written and what is queued are the replies to what the bytes seen spell, whole and in order. */
    ghost predicate Talks()
      requires Parts()
      reads this, input, output
    {
      && sent + output.Readable() == EncodeAll(life.said)
      && InStep(life, state, input.Readable(), store.Cfg())
      && (state.Open? ==> input.Capacity() <= Max(DEFAULT_CAPACITY, INPUT_BOUND))
    }

    /** epoll watches for writability exactly while output is pending and for readability exactly
        while open; a closing connection always has output pending. */
    ghost predicate Watches()
      requires Parts()
      reads this, input, output
    {
      !state.Closed? ==> interest == Mask(state.Open?, !output.Empty()) && (state.Closing? ==> !output.Empty())
    }

    constructor (store: Store)
      ensures Parts() && Talks() && Watches() && this.store == store && state.Open?
      ensures life == Life("", [], []) && sent == "" && fresh(input) && fresh(output)
    {
      this.store := store;
      input := new Buffer(DEFAULT_CAPACITY);
      output := new Buffer(DEFAULT_CAPACITY);
      state, interest := Open, Mask(true, false);
      life, sent := Life("", [], []), "";
      new;
      FedNothing(START);
    }

    /** Over its whole life, what the client has been sent and is still to be sent decodes into
        exactly the replies made: one per command with a name, in order, and one to malformed bytes. */
    lemma WholeLifeDecodes()
      requires Parts() && Talks()
      ensures DecodeAll(sent + output.Readable()) == Some(life.said)
      ensures var c := Fed(START, life.seen);
              && Spoken(life.log) == c.cmds && life.said == Answered(store.Cfg(), life.log) + ErrorReplies(c.end)
              && |life.said| == Named(c.cmds) + (if c.end.Failing? then 1 else 0)
    {
      var c := Fed(START, life.seen);
      Stands(life, state, input.Readable(), store.Cfg());
      AnsweredFramed(store.Cfg(), life.log);
      if c.end.Failing? {
        ErrorFramed(c.end.error);
      }
      StreamDecodes(life.said);
    }

    /** Closing is announced to the server once. */
    method MarkClosed() returns (retired: bool)
      modifies this`state
      ensures state.Closed? && retired == !old(state).Closed?
    {
      retired := state != Closed;
      state := Closed;
    }

    method UpdateInterest(accepts: bool) returns (retired: bool)
      requires Parts() && !state.Closed? && (state.Closing? ==> !output.Empty())
      modifies this`state, this`interest
      ensures Watches() && retired == (Mask(old(state).Open?, !output.Empty()) != old(interest) && !accepts)
      ensures state == if retired then Closed else old(state)
    {
      retired := false;
      var wanted := Mask(state == Open, !output.Empty());
      if wanted == interest {
        return;
      }
      if !accepts {
        retired := MarkClosed();
        return;
      }
      interest := wanted;
    }

    /** The write loop. */
    method Drain(writes: seq<WriteResult>) returns (failed: bool)
      requires Parts()
      modifies this`sent, output
      ensures Parts() && output.Capacity() == old(output.Capacity())
      ensures var d := DrainOf(old(output.Readable()), writes);
              output.Readable() == d.left && sent == old(sent) + d.written && failed == d.failed
    {
      ghost var d := DrainOf(output.Readable(), writes);
      var i := 0;
      assert writes[0..] == writes;
      while !output.Empty() && i < |writes|
        invariant Parts() && i <= |writes| && output.buf == old(output.buf)
        invariant var e := DrainOf(output.Readable(), writes[i..]);
                  d.left == e.left && old(sent) + d.written == sent + e.written && d.failed == e.failed
        decreases |writes| - i
      {
        assert writes[i..][1..] == writes[i + 1..];
        match writes[i] {
          case Wrote(n) =>
            if n == 0 {
              return false;
            }
            var k := Min(n, output.Size());
            DrainStep(output.Readable(), writes[i + 1..], k, DrainOf(output.Readable()[k..], writes[i + 1..]), sent);
            sent := sent + output.Readable()[..k];
            output.Consume(k);
          case Blocked => return false;
          case Interrupted =>
          case WriteFailed => return true;
        }
        i := i + 1;
      }
      failed := false;
    }

    /** flushOutput. */
    method FlushOutput(writes: seq<WriteResult>, accepts: bool) returns (retired: bool)
      requires Parts() && Talks() && !state.Closed?
      modifies this`state, this`interest, this`sent, output
      ensures Parts() && Talks() && Watches()
      ensures retired == Closes(old(state), old(interest), old(output.Readable()), writes, accepts)
      ensures state == if retired then Closed else old(state)
      ensures var d := DrainOf(old(output.Readable()), writes);
              output.Readable() == d.left && sent == old(sent) + d.written
    {
      ghost var was := output.Readable();
      var failed := Drain(writes);
      Regroup(old(sent), DrainOf(was, writes).written, output.Readable());
      if failed || (output.Empty() && state == Closing) {
        retired := MarkClosed();
        return;
      }
      retired := UpdateInterest(accepts);
    }

    method OnWritable(writes: seq<WriteResult>, accepts: bool) returns (retired: bool)
      requires Parts() && Talks() && Watches()
      modifies this`state, this`interest, this`sent, output
      ensures Parts() && Talks() && Watches()
      ensures retired
                == (!old(state).Closed? && Closes(old(state), old(interest), old(output.Readable()), writes, accepts))
      ensures state == if retired then Closed else old(state)
      ensures old(state).Closed? ==> sent == old(sent) && output.Readable() == old(output.Readable())
      ensures !old(state).Closed? ==>
                var d := DrainOf(old(output.Readable()), writes);
                output.Readable() == d.left && sent == old(sent) + d.written
    {
      if state == Closed {
        return false;
      }
      retired := FlushOutput(writes, accepts);
    }

    /** Room for a read; an open connection's input stays bounded because what it waits for is. */
    method MakeRoom()
      requires Parts() && Talks()
      modifies input
      ensures Parts() && Talks() && input.Readable() == old(input.Readable())
      ensures input.WritableBytes() >= DEFAULT_CAPACITY
    {
      if state == Open {
        Stands(life, state, input.Readable(), store.Cfg());
        IncompleteIsShort(input.Readable());
      }
      input.EnsureWritable(DEFAULT_CAPACITY);
    }

    /** read(2) takes as many of the bytes that have arrived as there is room for. */
    method Intake(arrived: string) returns (k: nat)
      requires Parts() && |arrived| > 0 && input.WritableBytes() > 0
      modifies input
      ensures Parts() && k == Min(|arrived|, old(input.WritableBytes()))
      ensures input.Readable() == old(input.Readable()) + arrived[..k]
      ensures input.Capacity() == old(input.Capacity())
    {
      k := Min(|arrived|, input.WritableBytes());
      input.Write(arrived[..k]);
      input.Commit(k);
    }

    /** processInput on the bytes just taken. */
    method Process(now: Clock, ghost left: string, ghost taken: string)
      returns (ghost turns: seq<Turn>, ghost added: seq<Reply>)
      requires Parts() && Healthy(store) && state.Open?
      requires input.Readable() == left + taken && InStep(life, Open, left, store.Cfg())
      requires sent + output.Readable() == EncodeAll(life.said)
      requires input.Capacity() <= Max(DEFAULT_CAPACITY, INPUT_BOUND)
      modifies this`state, this`life, store, store.table, input, output
      ensures Parts() && Talks() && Healthy(store) && !state.Closed?
      ensures Heeds(store.Cfg(), now, old(life), taken, life, old(store.Abs()), store.Abs(), turns)
      ensures life.seen == old(life).seen + taken && life.said == old(life).said + added && Leaves(life.seen, state)
      ensures output.Readable() == old(output.Readable()) + EncodeAll(added)
    {
      state, life, turns, added := ProcessSeen(store, input, output, now, life, sent, left, taken);
    }

    /** Bytes that have arrived, on a connection that is not closed. */
    method Receive(now: Clock, arrived: string)
      returns (ghost taken: string, ghost turns: seq<Turn>, ghost added: seq<Reply>)
      requires Parts() && Talks() && !state.Closed? && Healthy(store)
      requires |arrived| > 0 && input.WritableBytes() >= DEFAULT_CAPACITY
      modifies this`state, this`life, store, store.table, input, output
      ensures Parts() && Talks() && Healthy(store) && !state.Closed?
      ensures output.Readable() == old(output.Readable()) + EncodeAll(added) && life.said == old(life).said + added
      ensures taken <= arrived && |taken| >= Min(|arrived|, DEFAULT_CAPACITY)
      ensures if old(state).Open? then
                && Heeds(store.Cfg(), now, old(life), taken, life, old(store.Abs()), store.Abs(), turns)
                && life.seen == old(life).seen + taken && Leaves(life.seen, state)
              else life == old(life) && store.Abs() == old(store.Abs()) && state == old(state)
    {
      ghost var left := input.Readable();
      var k := Intake(arrived);
      taken, turns, added := arrived[..k], [], [];
      if state == Open {
        turns, added := Process(now, left, taken);
      }
    }

    /** Bytes that have arrived are handled, and what they answer is written. */
    method Respond(now: Clock, arrived: string, writes: seq<WriteResult>, accepts: bool)
      returns (retired: bool, ghost mid: State, ghost taken: string, ghost turns: seq<Turn>, ghost added: seq<Reply>)
      requires Parts() && Talks() && !state.Closed? && Healthy(store)
      requires |arrived| > 0 && input.WritableBytes() >= DEFAULT_CAPACITY
      modifies this, store, store.table, input, output
      ensures Parts() && Talks() && Watches() && Healthy(store) && life.said == old(life).said + added
      ensures if old(state).Open? then
                && taken <= arrived && |taken| >= Min(|arrived|, DEFAULT_CAPACITY)
                && life.seen == old(life).seen + taken && Leaves(life.seen, mid)
                && Heeds(store.Cfg(), now, old(life), taken, life, old(store.Abs()), store.Abs(), turns)
              else life == old(life) && store.Abs() == old(store.Abs()) && mid == old(state)
      ensures retired == Closes(mid, old(interest), old(output.Readable()) + EncodeAll(added), writes, accepts)
      ensures state == if retired then Closed else mid
      ensures var d := DrainOf(old(output.Readable()) + EncodeAll(added), writes);
              output.Readable() == d.left && sent == old(sent) + d.written
    {
      taken, turns, added := Receive(now, arrived);
      mid := state;
      retired := FlushOutput(writes, accepts);
    }

    /** Any bytes read are parsed and dispatched at once, and what they answer is written; `mid` is
        the state in between. The connection closes exactly when the peer has, when the read failed,
        or when writing closes it. */
    method OnReadable(now: Clock, read: ReadResult, writes: seq<WriteResult>, accepts: bool)
      returns (retired: bool, ghost mid: State, ghost taken: string, ghost turns: seq<Turn>, ghost added: seq<Reply>)
      requires Parts() && Talks() && Watches() && Healthy(store) && (read.Got? ==> |read.bytes| > 0)
      modifies this, store, store.table, input, output
      ensures Parts() && Talks() && Watches() && Healthy(store) && life.said == old(life).said + added
      ensures if old(state).Open? && read.Got? then
                && taken <= read.bytes && |taken| >= Min(|read.bytes|, DEFAULT_CAPACITY)
                && life.seen == old(life).seen + taken && Leaves(life.seen, mid)
                && Heeds(store.Cfg(), now, old(life), taken, life, old(store.Abs()), store.Abs(), turns)
              else life == old(life) && store.Abs() == old(store.Abs()) && mid == old(state)
      ensures var queued := old(output.Readable()) + EncodeAll(added);
              retired == (!old(state).Closed? && ClosesOn(read, mid, old(interest), queued, writes, accepts))
      ensures state == if retired then Closed else mid
      ensures if read.Got? && !old(state).Closed? then
                var d := DrainOf(old(output.Readable()) + EncodeAll(added), writes);
                output.Readable() == d.left && sent == old(sent) + d.written
              else output.Readable() == old(output.Readable()) && sent == old(sent)
    {
      retired, mid, taken, turns, added := false, state, "", [], [];
      if state == Closed {
        return;
      }
      MakeRoom();
      match read {
        case Got(arrived) =>
          retired, mid, taken, turns, added := Respond(now, arrived, writes, accepts);
        case TryAgain =>
        case _ =>
          retired := MarkClosed();
      }
    }
  }

  lemma SaysMore(sent: string, queued: string, said: seq<Reply>, more: seq<Reply>)
    requires sent + queued == EncodeAll(said)
    ensures sent + (queued + EncodeAll(more)) == EncodeAll(said + more)
  {
    EncodeAllOn(said, more);
    Regroup(sent, queued, EncodeAll(more));
  }
}
