/** Command execution against the store and the output buffer (src/core/command.cpp, src/core/resp.cpp). */
module Commands {
  import opened Entries
  import opened Resp
  import opened RespLaws
  import opened RespParser
  import opened Replies
  import opened CommandSpec
  import opened CommandLaws
  import opened Buffers
  import opened Stores
  import Spec = StoreSpec

  // ---- reply encoders ---------------------------------------------------------------------------

  method AppendLine(out: Buffer, kind: char, body: string)
    requires out.Valid()
    modifies out
    ensures out.Valid() && out.Readable() == old(out.Readable()) + ([kind] + body + CRLF)
  {
    ghost var was := out.Readable();
    out.AppendByte(kind);
    out.Append(body);
    out.Append("\r\n");
    assert was + [kind] + body + CRLF == was + ([kind] + body + CRLF);
  }

  method AppendReply(out: Buffer, r: Reply)
    requires out.Valid()
    modifies out
    ensures out.Valid() && out.Readable() == old(out.Readable()) + Encode(r)
  {
    ghost var was := out.Readable();
    match r {
      case Simple(text) => AppendLine(out, '+', text);
      case Error(text) => AppendLine(out, '-', text);
      case Integer(i) => AppendLine(out, ':', Signed(i));
      case BulkString(bytes) =>
        AppendLine(out, '$', Decimal(|bytes|));
        out.Append(bytes);
        out.Append("\r\n");
        assert was + HeaderLine('$', |bytes|) + bytes + "\r\n" == was + Bulk(bytes);
      case NullBulk => out.Append("$-1\r\n");
    }
  }

  // ---- parsing helpers --------------------------------------------------------------------------

  /** iequals: `lowerRef` is already lowercase. */
  method IEquals(s: string, lowerRef: string) returns (same: bool)
    ensures same == (Lowered(s) == lowerRef)
  {
    if |s| != |lowerRef| {
      return false;
    }
    for i := 0 to |s|
      invariant Lowered(s)[..i] == lowerRef[..i]
    {
      if Lower(s[i]) != lowerRef[i] {
        assert Lowered(s)[i] != lowerRef[i];
        return false;
      }
    }
    assert Lowered(s)[..|s|] == Lowered(s) && lowerRef[..|s|] == lowerRef;
    return true;
  }

  method Lookup(name: string) returns (r: int)
    ensures r == RowFrom(name, 0)
  {
    for i := 0 to |ROWS|
      invariant RowFrom(name, i) == RowFrom(name, 0)
    {
      var same := IEquals(name, ROWS[i].name);
      if same {
        return i;
      }
    }
    return -1;
  }

  /** SET's option loop. */
  method ParseSetOptions(args: seq<string>, now: int) returns (r: Expiry)
    requires |args| >= 3 && 0 <= now <= INT64_MAX
    ensures r == SetOptions(args, 3, now, NO_EXPIRY, false)
  {
    var expireAt, haveExpiryOpt := NO_EXPIRY, false;
    var i := 3;
    while i < |args|
      invariant SetOptions(args, i, now, expireAt, haveExpiryOpt) == SetOptions(args, 3, now, NO_EXPIRY, false)
      decreases |args| - i
    {
      var keep := IEquals(args[i], "keepttl");
      if keep && !haveExpiryOpt {
        expireAt, haveExpiryOpt := Spec.KEEP_TTL, true;
        i := i + 1;
        continue;
      }
      var ex := IEquals(args[i], "ex");
      var px := IEquals(args[i], "px");
      if !(ex || px) || haveExpiryOpt || i + 1 >= |args| {
        return Refused(Syntax);
      }
      var n := ParseInt(args[i + 1]);
      if n.None? {
        return Refused(NotInteger);
      }
      if n.value <= 0 {
        return Refused(InvalidExpire("set"));
      }
      var at := Deadline(n.value, if ex then MS_PER_SEC else 1, now);
      if at.None? {
        return Refused(InvalidExpire("set"));
      }
      expireAt, haveExpiryOpt := at.value, true;
      i := i + 2;
    }
    r := At(expireAt);
  }

  // ---- the commands -----------------------------------------------------------------------------

  /** The result of running `cmd`, with the sampler's choice `gone`. */
  ghost predicate Ran(cfg: Spec.Config, s: Spec.St, cmd: Cmd, args: seq<string>, now: int, sample: set<string>,
                      gone: set<string>, t: Spec.St, reply: Reply, close: bool)
    requires Enough(cmd, |args|) && 0 <= now <= INT64_MAX
  {
    && (if cmd.Set? then SetChoice(cfg, s, args, now, sample, gone) else sample == {} && gone == {})
    && var o := Run(cfg, s, cmd, args, now, gone); t == o.s && reply == o.reply && close == o.close
  }

  method CmdGet(store: Store, args: seq<string>, now: int) returns (reply: Reply)
    requires store.Valid() && Enough(Get, |args|) && 0 <= now <= INT64_MAX
    modifies store, store.table
    ensures store.Valid() && store.rngState == old(store.rngState)
    ensures Ran(store.Cfg(), old(store.Abs()), Get, args, now, {}, {}, store.Abs(), reply, false)
  {
    var p := store.Find(args[1], now, true);
    if p == Null {
      return NullBulk;
    }
    var r := store.table.Record(p.block);
    reply := BulkString(r.value);
  }

  method CmdSet(store: Store, args: seq<string>, now: int)
    returns (reply: Reply, ghost sample: set<string>, ghost gone: set<string>)
    requires store.Valid() && Enough(Set, |args|) && Within(args) && 0 <= now <= INT64_MAX
    modifies store, store.table
    ensures store.Valid() && (reply.Error? ==> store.rngState == old(store.rngState))
    ensures Ran(store.Cfg(), old(store.Abs()), Set, args, now, sample, gone, store.Abs(), reply, false)
  {
    var o := ParseSetOptions(args, now);
    match o {
      case Refused(f) => return Failed(f), {}, {};
      case At(at) =>
        var ok;
        ok, sample, gone := store.Set(args[1], args[2], at, now);
        reply := if ok then Simple("OK") else Failed(OutOfMemory);
    }
  }

  method CmdExpire(store: Store, args: seq<string>, now: int) returns (reply: Reply)
    requires store.Valid() && Enough(Expire, |args|) && 0 <= now <= INT64_MAX
    modifies store, store.table
    ensures store.Valid() && store.rngState == old(store.rngState)
    ensures Ran(store.Cfg(), old(store.Abs()), Expire, args, now, {}, {}, store.Abs(), reply, false)
  {
    var secs := ParseInt(args[2]);
    if secs.None? {
      return Failed(NotInteger);
    }
    var found;
    if secs.value <= 0 {
      found := store.Erase(args[1], now);
      return Integer(if found then 1 else 0);
    }
    var at := Deadline(secs.value, MS_PER_SEC, now);
    if at.None? {
      return Failed(InvalidExpire("expire"));
    }
    DeadlineExact(secs.value, MS_PER_SEC, now);
    found := store.SetExpireAt(args[1], at.value, now);
    reply := Integer(if found then 1 else 0);
  }

  method CmdTtl(store: Store, args: seq<string>, now: int) returns (reply: Reply)
    requires store.Valid() && Enough(Ttl, |args|) && 0 <= now <= INT64_MAX
    modifies store, store.table
    ensures store.Valid() && store.rngState == old(store.rngState)
    ensures Ran(store.Cfg(), old(store.Abs()), Ttl, args, now, {}, {}, store.Abs(), reply, false)
  {
    var ms := store.TtlMs(args[1], now);
    reply := Integer(Rounded(ms));
  }

  ghost predicate MentionIs(erase: bool, s: Spec.St, keys: seq<string>, now: int, at: nat -> Count, i: nat) {
    i <= |keys| ==> at(i) == Mentions(erase, s, keys, i, now)
  }

  /** `at` tells the tally after every number of keys. */
  ghost predicate Counts(erase: bool, s: Spec.St, keys: seq<string>, now: int, at: nat -> Count) {
    forall i {:trigger MentionIs(erase, s, keys, now, at, i)} :: MentionIs(erase, s, keys, now, at, i)
  }

  lemma Counting(erase: bool, s: Spec.St, keys: seq<string>, now: int) returns (at: nat -> Count)
    ensures Counts(erase, s, keys, now, at)
    ensures at(0) == Count(s, 0) && at(|keys|) == Mentions(erase, s, keys, |keys|, now)
  {
    at := (i: nat) => if i <= |keys| then Mentions(erase, s, keys, i, now) else Count(s, 0);
  }

  lemma CountsOn(erase: bool, s: Spec.St, keys: seq<string>, now: int, at: nat -> Count, i: nat)
    requires Counts(erase, s, keys, now, at) && i < |keys|
    ensures at(i + 1) == Mention(erase, at(i), keys[i], now)
  {
    assert MentionIs(erase, s, keys, now, at, i) && MentionIs(erase, s, keys, now, at, i + 1);
  }

  /** One key of an EXISTS: looked up without a touch. */
  method CmdProbe(store: Store, key: string, now: int) returns (found: bool)
    requires store.Valid()
    modifies store, store.table
    ensures store.Valid() && store.rngState == old(store.rngState)
    ensures store.Abs() == Spec.Find(old(store.Abs()), key, now, false)
    ensures found <==> key in Spec.Lookup(old(store.Abs()), key, now).m
  {
    var p := store.Find(key, now, false);
    found := p != Null;
  }

  /** One key of a DEL or an EXISTS. */
  method CmdMention(erase: bool, store: Store, key: string, now: int, ghost t: Count) returns (found: bool)
    requires store.Valid() && store.Abs() == t.s
    modifies store, store.table
    ensures store.Valid() && store.rngState == old(store.rngState)
    ensures Mention(erase, t, key, now) == Count(store.Abs(), t.n + if found then 1 else 0)
  {
    if erase {
      found := store.Erase(key, now);
    } else {
      found := CmdProbe(store, key, now);
    }
    MentionFrom(erase, t, key, now, store.Abs(), found);
  }

  lemma MentionFrom(erase: bool, t: Count, key: string, now: int, s: Spec.St, found: bool)
    requires s == if erase then Spec.Erase(t.s, key, now) else Spec.Find(t.s, key, now, false)
    requires found <==> key in Spec.Lookup(t.s, key, now).m
    ensures Mention(erase, t, key, now) == Count(s, t.n + if found then 1 else 0)
  {
  }

  method CountKeys(erase: bool, store: Store, keys: seq<string>, now: int, ghost s: Spec.St, ghost at: nat -> Count)
    returns (n: nat)
    requires store.Valid() && Counts(erase, s, keys, now, at) && at(0) == Count(store.Abs(), 0)
    modifies store, store.table
    ensures store.Valid() && store.rngState == old(store.rngState) && store.Abs() == at(|keys|).s && n == at(|keys|).n
  {
    n := 0;
    for i := 0 to |keys|
      invariant store.Valid() && store.rngState == old(store.rngState)
      invariant store.Abs() == at(i).s && n == at(i).n
    {
      CountsOn(erase, s, keys, now, at, i);
      var found := CmdMention(erase, store, keys[i], now, at(i));
      n := n + if found then 1 else 0;
    }
  }

  /** DEL and EXISTS: the number of mentions of live keys. */
  method CmdCount(erase: bool, store: Store, args: seq<string>, now: int) returns (reply: Reply)
    requires store.Valid() && |args| >= 2 && 0 <= now <= INT64_MAX
    modifies store, store.table
    ensures store.Valid() && store.rngState == old(store.rngState)
    ensures Ran(store.Cfg(), old(store.Abs()), if erase then Del else Exists, args,
                now, {}, {}, store.Abs(), reply, false)
  {
    ghost var s := store.Abs();
    ghost var at := Counting(erase, s, args[1..], now);
    var n := CountKeys(erase, store, args[1..], now, s, at);
    reply := Integer(n);
    RanCount(erase, store.Cfg(), s, args, now, store.Abs(), n);
  }

  lemma RanCount(erase: bool, cfg: Spec.Config, s: Spec.St, args: seq<string>, now: int, t: Spec.St, n: nat)
    requires |args| >= 2 && 0 <= now <= INT64_MAX && Mentions(erase, s, args[1..], |args[1..]|, now) == Count(t, n)
    ensures Ran(cfg, s, if erase then Del else Exists, args, now, {}, {}, t, Integer(n), false)
  {
  }

  method CmdPing(args: seq<string>, ghost cfg: Spec.Config, ghost s: Spec.St, ghost now: int) returns (reply: Reply)
    requires |args| >= 1 && 0 <= now <= INT64_MAX
    ensures Ran(cfg, s, Ping, args, now, {}, {}, s, reply, false)
  {
    if |args| > 2 {
      reply := Failed(WrongArity("ping"));
    } else if |args| == 2 {
      reply := BulkString(args[1]);
    } else {
      reply := Simple("PONG");
    }
  }

  method CmdFlushall(store: Store, args: seq<string>, ghost now: int) returns (reply: Reply)
    requires store.Valid() && |args| >= 1 && 0 <= now <= INT64_MAX
    modifies store, store.table
    ensures store.Valid() && store.rngState == old(store.rngState)
    ensures Ran(store.Cfg(), old(store.Abs()), Flushall, args, now, {}, {}, store.Abs(), reply, false)
  {
    if |args| > 2 {
      return Failed(Syntax);
    }
    if |args| == 2 {
      var async := IEquals(args[1], "async");
      var sync := IEquals(args[1], "sync");
      if !async && !sync {
        return Failed(Syntax);
      }
    }
    store.Clear();
    reply := Simple("OK");
  }

  /** ECHO, DBSIZE and QUIT. */
  method CmdPlain(store: Store, cmd: Cmd, args: seq<string>, ghost now: int) returns (reply: Reply, close: bool)
    requires store.Valid() && Enough(cmd, |args|) && (cmd.Echo? || cmd.Dbsize? || cmd.Quit?) && 0 <= now <= INT64_MAX
    ensures Ran(store.Cfg(), store.Abs(), cmd, args, now, {}, {}, store.Abs(), reply, close)
  {
    close := cmd == Quit;
    if cmd == Echo {
      reply := BulkString(args[1]);
    } else if cmd == Dbsize {
      SameSize(store.table.shape.contents, store.table.shape.index);
      reply := Integer(store.Size());
    } else {
      reply := Simple("OK");
    }
  }

  method Execute(store: Store, cmd: Cmd, args: seq<string>, now: int)
    returns (reply: Reply, close: bool, ghost sample: set<string>, ghost gone: set<string>)
    requires store.Valid() && Enough(cmd, |args|) && Within(args) && 0 <= now <= INT64_MAX
    modifies store, store.table
    ensures store.Valid() && Ran(store.Cfg(), old(store.Abs()), cmd, args, now, sample, gone, store.Abs(), reply, close)
    ensures reply.Error? ==> store.rngState == old(store.rngState)
  {
    close, sample, gone := false, {}, {};
    match cmd {
      case Get => reply := CmdGet(store, args, now);
      case Set => reply, sample, gone := CmdSet(store, args, now);
      case Del => reply := CmdCount(true, store, args, now);
      case Exists => reply := CmdCount(false, store, args, now);
      case Expire => reply := CmdExpire(store, args, now);
      case Ttl => reply := CmdTtl(store, args, now);
      case Ping => reply := CmdPing(args, store.Cfg(), store.Abs(), now);
      case Flushall => reply := CmdFlushall(store, args, now);
      case _ => reply, close := CmdPlain(store, cmd, args, now);
    }
  }

  /** The reply and the new state are those of the command, with the sampler's choice `gone`. */
  ghost predicate Answers(cfg: Spec.Config, s: Spec.St, args: seq<string>, now: int, sample: set<string>,
                          gone: set<string>, t: Spec.St, reply: Reply, close: bool)
    requires args != [] && 0 <= now <= INT64_MAX
  {
    && ExecChoice(cfg, s, args, now, sample, gone)
    && var o := Exec(cfg, s, args, now, gone); t == o.s && reply == o.reply && close == o.close
  }

  /** Looks the command up, checks its arity and runs it. */
  method Answer(store: Store, args: seq<string>, now: int)
    returns (reply: Reply, close: bool, ghost sample: set<string>, ghost gone: set<string>)
    requires store.Valid() && args != [] && Within(args) && 0 <= now <= INT64_MAX
    modifies store, store.table
    ensures store.Valid() && Answers(store.Cfg(), old(store.Abs()), args, now, sample, gone, store.Abs(), reply, close)
    ensures reply.Error? ==> store.Abs() == old(store.Abs()) && store.rngState == old(store.rngState)
  {
    close, sample, gone := false, {}, {};
    ghost var s := store.Abs();
    var i := Lookup(args[0]);
    if i == -1 {
      reply := Failed(Unknown(args));
    } else if !ArityOk(ROWS[i], |args|) {
      reply := Failed(WrongArity(ROWS[i].name));
    } else {
      RowEnough(i, |args|);
      reply, close, sample, gone := Execute(store, ROWS[i].cmd, args, now);
    }
    AnswerIs(store.Cfg(), s, args, now, sample, gone, store.Abs(), reply, close, i);
  }

  lemma AnswerIs(cfg: Spec.Config, s: Spec.St, args: seq<string>, now: int, sample: set<string>, gone: set<string>,
                 t: Spec.St, reply: Reply, close: bool, i: int)
    requires args != [] && 0 <= now <= INT64_MAX && i == RowFrom(args[0], 0) && |s.m| <= cfg.maxKeys
    requires i == -1 ==> sample == {} && gone == {} && t == s && !close && reply == Failed(Unknown(args))
    requires i != -1 && !ArityOk(ROWS[i], |args|) ==>
               sample == {} && gone == {} && t == s && !close && reply == Failed(WrongArity(ROWS[i].name))
    requires i != -1 && ArityOk(ROWS[i], |args|) ==>
               Enough(ROWS[i].cmd, |args|) && Ran(cfg, s, ROWS[i].cmd, args, now, sample, gone, t, reply, close)
    ensures Answers(cfg, s, args, now, sample, gone, t, reply, close)
    ensures reply.Error? ==> t == s
  {
    if reply.Error? {
      ErrorChangesNothing(cfg, s, args, now, gone);
    }
  }

  /** dispatch: one reply for a command with a name, none for an empty one. */
  method Dispatch(store: Store, cmd: Command, now: int, out: Buffer)
    returns (close: bool, ghost sample: set<string>, ghost gone: set<string>)
    requires store.Valid() && out.Valid() && cmd.argc <= |cmd.argv| && Within(cmd.argv[..cmd.argc])
    requires 0 <= now <= INT64_MAX
    modifies store, store.table, out
    ensures store.Valid() && out.Valid()
    ensures var args := cmd.argv[..cmd.argc];
            if args == [] then
              !close && store.Abs() == old(store.Abs()) && store.rngState == old(store.rngState)
              && out.Readable() == old(out.Readable())
            else
              && ExecChoice(store.Cfg(), old(store.Abs()), args, now, sample, gone)
              && var o := Exec(store.Cfg(), old(store.Abs()), args, now, gone);
                 && store.Abs() == o.s && close == o.close && out.Readable() == old(out.Readable()) + Encode(o.reply)
                 && (o.reply.Error? ==> store.Abs() == old(store.Abs()) && store.rngState == old(store.rngState))
  {
    close, sample, gone := false, {}, {};
    if cmd.argc == 0 {
      return;
    }
    var args := cmd.argv[..cmd.argc];
    var reply;
    reply, close, sample, gone := Answer(store, args, now);
    AppendReply(out, reply);
  }
}
