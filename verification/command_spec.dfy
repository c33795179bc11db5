/** What a command does to the store and what it answers (src/core/command.cpp). */
module CommandSpec {
  import opened Basics
  import opened Entries
  import opened Resp
  import opened Replies
  import Spec = StoreSpec

  const MS_PER_SEC: int := 1000
  const INT64_MAX: int := 0x7fff_ffff_ffff_ffff
  const INT64_MIN: int := -0x8000_0000_0000_0000

  predicate IsInt64(i: int) {
    INT64_MIN <= i <= INT64_MAX
  }

  // ---- names and numbers ------------------------------------------------------------------------

  /** ASCII letters only. */
  function Lower(c: char): char {
    if 'A' <= c <= 'Z' then (c as int - 'A' as int + 'a' as int) as char else c
  }

  function Lowered(s: string): (r: string)
    ensures |r| == |s| && forall i :: 0 <= i < |s| ==> r[i] == Lower(s[i])
  {
    seq(|s|, i requires 0 <= i < |s| => Lower(s[i]))
  }

  datatype Cmd = Get | Set | Del | Exists | Expire | Ttl | Ping | Echo | Dbsize | Flushall | Quit

  /** Arity counts the name; positive is exact, negative a minimum. */
  datatype Row = Row(name: string, cmd: Cmd, arity: int)

  const ROWS: seq<Row> := [
    Row("get", Get, 2), Row("set", Set, -3), Row("del", Del, -2), Row("exists", Exists, -2), Row("expire", Expire, 3),
    Row("ttl", Ttl, 2), Row("ping", Ping, -1), Row("echo", Echo, 2), Row("dbsize", Dbsize, 1),
    Row("flushall", Flushall, -1), Row("quit", Quit, -1)]

  /** The first row from `i` on with this name in any case, or -1. */
  function RowFrom(name: string, i: nat): (r: int)
    requires i <= |ROWS|
    ensures r == -1 || (i <= r < |ROWS| && ROWS[r].name == Lowered(name))
    ensures forall k :: i <= k < (if r == -1 then |ROWS| else r) ==> ROWS[k].name != Lowered(name)
    decreases |ROWS| - i
  {
    if i == |ROWS| then -1 else if Lowered(name) == ROWS[i].name then i else RowFrom(name, i + 1)
  }

  predicate ArityOk(row: Row, argc: nat) {
    if row.arity > 0 then argc == row.arity else argc >= -row.arity
  }

  /** The same test, command by command. */
  predicate Enough(cmd: Cmd, argc: nat) {
    match cmd
    case Get => argc == 2
    case Set => argc >= 3
    case Del => argc >= 2
    case Exists => argc >= 2
    case Expire => argc == 3
    case Ttl => argc == 2
    case Echo => argc == 2
    case Dbsize => argc == 1
    case _ => argc >= 1
  }

  lemma RowEnough(i: nat, argc: nat)
    requires i < |ROWS|
    ensures ArityOk(ROWS[i], argc) <==> Enough(ROWS[i].cmd, argc)
  {
  }

  /** No such command, a wrong number of arguments, or the command. */
  datatype Picked = Nothing | Misfit(name: string) | Fit(cmd: Cmd)

  function Pick(args: seq<string>): (p: Picked)
    requires args != []
    ensures p.Fit? ==> Enough(p.cmd, |args|)
  {
    var i := RowFrom(args[0], 0);
    if i == -1 then Nothing
    else if ArityOk(ROWS[i], |args|) then RowEnough(i, |args|); Fit(ROWS[i].cmd)
    else Misfit(ROWS[i].name)
  }

  /** std::from_chars over the whole string: an optional minus sign and digits, within 64 bits. */
  function ParseInt(s: string): (r: Option<int>)
    ensures r.Some? ==> IsInt64(r.value)
  {
    var neg := s != [] && s[0] == '-';
    var digits := if neg then s[1..] else s;
    if digits == [] || !AllDigits(digits) then None
    else
      var n: int := Resp.Value(digits);
      var v := if neg then -n else n;
      if IsInt64(v) then Some(v) else None
  }

  /** The absolute deadline, or none when it would pass the largest 64-bit integer. */
  function Deadline(n: int, unitMs: int, now: int): Option<int>
    requires n > 0 && unitMs > 0 && 0 <= now <= INT64_MAX
  {
    if n > (INT64_MAX - now) / unitMs then None else Some(now + n * unitMs)
  }

  /** At most 128 bytes, with line breaks blanked. */
  function Sanitized(s: string): (r: string)
    ensures OneLiner(r)
  {
    var t := s[..Min(|s|, 128)];
    seq(|t|, i requires 0 <= i < |t| => if t[i] == '\r' || t[i] == '\n' then ' ' else t[i])
  }

  // ---- error replies ----------------------------------------------------------------------------

  datatype Fault =
    | Syntax
    | NotInteger
    | OutOfMemory
    | WrongArity(name: string)
    | InvalidExpire(name: string)
    | Unknown(args: seq<string>)

  function QuotedArgs(args: seq<string>): string {
    if args == [] then "" else "'" + Sanitized(args[0]) + "' " + QuotedArgs(args[1..])
  }

  function FaultText(f: Fault): string
    requires f.Unknown? ==> f.args != []
  {
    match f
    case Syntax => "ERR syntax error"
    case NotInteger => "ERR value is not an integer or out of range"
    case OutOfMemory => "OOM command not allowed when used memory > 'maxmemory'."
    case WrongArity(name) => "ERR wrong number of arguments for '" + name + "' command"
    case InvalidExpire(name) => "ERR invalid expire time in '" + name + "' command"
    case Unknown(args) =>
      "ERR unknown command '" + Sanitized(args[0]) + "', with args beginning with: " + QuotedArgs(args[1..])
  }

  function Failed(f: Fault): Reply
    requires f.Unknown? ==> f.args != []
  {
    Error(FaultText(f))
  }

  // ---- the commands -----------------------------------------------------------------------------

  datatype Expiry = At(at: int) | Refused(fault: Fault)

  /** SET's options from `i` on: at most one of EX s, PX ms and KEEPTTL. */
  function SetOptions(args: seq<string>, i: nat, now: int, at: int, have: bool): (r: Expiry)
    requires 0 <= now <= INT64_MAX
    ensures r.Refused? ==> r.fault in {Syntax, NotInteger, InvalidExpire("set")}
    decreases |args| - i
  {
    if i >= |args| then At(at)
    else
      var opt := Lowered(args[i]);
      if opt == "keepttl" && !have then SetOptions(args, i + 1, now, Spec.KEEP_TTL, true)
      else if !(opt == "ex" || opt == "px") || have || i + 1 >= |args| then Refused(Syntax)
      else
        match ParseInt(args[i + 1])
        case None => Refused(NotInteger)
        case Some(n) =>
          if n <= 0 then Refused(InvalidExpire("set"))
          else
            match Deadline(n, if opt == "ex" then MS_PER_SEC else 1, now)
            case None => Refused(InvalidExpire("set"))
            case Some(d) => SetOptions(args, i + 2, now, d, true)
  }

  /** What a command leaves: the state, its reply, and whether the connection closes. */
  datatype Outcome = Outcome(s: Spec.St, reply: Reply, close: bool)

  datatype Count = Count(s: Spec.St, n: nat)

  /** One key of DEL (`erase`) or EXISTS: a mention of a live key counts. */
  ghost function Mention(erase: bool, t: Count, key: string, now: int): Count {
    Count(if erase then Spec.Erase(t.s, key, now) else Spec.Find(t.s, key, now, false),
          t.n + if key in Spec.Lookup(t.s, key, now).m then 1 else 0)
  }

  ghost function Mentions(erase: bool, s: Spec.St, keys: seq<string>, i: nat, now: int): Count
    requires i <= |keys|
  {
    if i == 0 then Count(s, 0) else Mention(erase, Mentions(erase, s, keys, i - 1, now), keys[i - 1], now)
  }

  ghost function DoSet(cfg: Spec.Config, s: Spec.St, args: seq<string>, now: int, gone: set<string>): Outcome
    requires |args| >= 3 && 0 <= now <= INT64_MAX
  {
    match SetOptions(args, 3, now, NO_EXPIRY, false)
    case Refused(f) => Outcome(s, Failed(f), false)
    case At(at) =>
      Outcome(Spec.Set(cfg, s, args[1], args[2], at, now, gone),
              if Spec.SetOk(cfg, s, args[1], at, now) then Simple("OK") else Failed(OutOfMemory), false)
  }

  /** The sampler's choice is only open where a set reaches the store. */
  ghost predicate SetChoice(cfg: Spec.Config, s: Spec.St, args: seq<string>, now: int, sample: set<string>,
                            gone: set<string>)
    requires |args| >= 3 && 0 <= now <= INT64_MAX
  {
    match SetOptions(args, 3, now, NO_EXPIRY, false)
    case Refused(_) => sample == {} && gone == {}
    case At(at) => Spec.ChoiceOk(cfg, s, args[1], at, now, sample, gone)
  }

  ghost function DoExpire(s: Spec.St, key: string, text: string, now: int): Outcome
    requires 0 <= now <= INT64_MAX
  {
    var found := key in Spec.Lookup(s, key, now).m;
    match ParseInt(text)
    case None => Outcome(s, Failed(NotInteger), false)
    case Some(secs) =>
      if secs <= 0 then Outcome(Spec.Erase(s, key, now), Integer(if found then 1 else 0), false)
      else
        match Deadline(secs, MS_PER_SEC, now)
        case None => Outcome(s, Failed(InvalidExpire("expire")), false)
        case Some(at) => Outcome(Spec.SetExpireAt(s, key, at, now), Integer(if found then 1 else 0), false)
  }

  /** Seconds, rounded to the nearest; negative answers pass through. */
  function Rounded(ms: int): int {
    if ms < 0 then ms else (ms + MS_PER_SEC / 2) / MS_PER_SEC
  }

  ghost function DoGet(s: Spec.St, key: string, now: int): Outcome {
    var t := Spec.Find(s, key, now, true);
    Outcome(t, if key in t.m then BulkString(t.m[key].value) else NullBulk, false)
  }

  function PingReply(args: seq<string>): Reply {
    if |args| > 2 then Failed(WrongArity("ping")) else if |args| == 2 then BulkString(args[1]) else Simple("PONG")
  }

  /** At most one argument, ASYNC or SYNC. */
  predicate FlushOk(args: seq<string>) {
    |args| <= 1 || (|args| == 2 && (Lowered(args[1]) == "async" || Lowered(args[1]) == "sync"))
  }

  ghost function DoFlushall(s: Spec.St, args: seq<string>): Outcome {
    if FlushOk(args) then Outcome(Spec.Clear(s), Simple("OK"), false) else Outcome(s, Failed(Syntax), false)
  }

  ghost function Run(cfg: Spec.Config, s: Spec.St, cmd: Cmd, args: seq<string>, now: int, gone: set<string>): Outcome
    requires Enough(cmd, |args|) && 0 <= now <= INT64_MAX
  {
    match cmd
    case Get => DoGet(s, args[1], now)
    case Set => DoSet(cfg, s, args, now, gone)
    case Del =>
      var t := Mentions(true, s, args[1..], |args| - 1, now);
      Outcome(t.s, Integer(t.n), false)
    case Exists =>
      var t := Mentions(false, s, args[1..], |args| - 1, now);
      Outcome(t.s, Integer(t.n), false)
    case Expire => DoExpire(s, args[1], args[2], now)
    case Ttl => Outcome(Spec.Lookup(s, args[1], now), Integer(Rounded(Spec.TtlOf(s, args[1], now))), false)
    case Ping => Outcome(s, PingReply(args), false)
    case Echo => Outcome(s, BulkString(args[1]), false)
    case Dbsize => Outcome(s, Integer(|s.m|), false)
    case Flushall => DoFlushall(s, args)
    case Quit => Outcome(s, Simple("OK"), true)
  }

  /** dispatch of a command with at least a name. */
  ghost function Exec(cfg: Spec.Config, s: Spec.St, args: seq<string>, now: int, gone: set<string>): Outcome
    requires args != [] && 0 <= now <= INT64_MAX
  {
    match Pick(args)
    case Nothing => Outcome(s, Failed(Unknown(args)), false)
    case Misfit(name) => Outcome(s, Failed(WrongArity(name)), false)
    case Fit(cmd) => Run(cfg, s, cmd, args, now, gone)
  }

  /** The sampler's choice, where the command has one. */
  ghost predicate ExecChoice(cfg: Spec.Config, s: Spec.St, args: seq<string>, now: int, sample: set<string>,
                             gone: set<string>)
    requires args != [] && 0 <= now <= INT64_MAX
  {
    if Pick(args) == Fit(Set) then SetChoice(cfg, s, args, now, sample, gone) else sample == {} && gone == {}
  }
}
