/** What holds of every command (src/core/command.cpp). */
module CommandLaws {
  import opened Entries
  import opened Resp
  import opened Replies
  import opened CommandSpec
  import Spec = StoreSpec

  // ---- numbers ----------------------------------------------------------------------------------

  /** What a number prints as reads back, exactly when it fits 64 bits. */
  lemma ParseIntReadsBack(i: int)
    ensures ParseInt(Signed(i)) == if IsInt64(i) then Some(i) else None
  {
    DecimalCanonical(if i < 0 then -i else i);
    if i < 0 {
      assert Signed(i)[1..] == Decimal(-i);
    }
  }

  lemma MulDiv(n: int, unit: int, room: int)
    requires unit > 0 && room >= 0 && n > 0
    ensures n > room / unit <==> n * unit > room
  {
    var q := room / unit;
    assert room == q * unit + room % unit;
    if n > q {
      MulMono(q + 1, n, unit);
      assert (q + 1) * unit == q * unit + unit;
    } else {
      MulMono(n, q, unit);
    }
  }

  lemma MulMono(a: int, b: int, unit: int)
    requires a <= b && unit > 0
    ensures a * unit <= b * unit
  {
    assert b * unit == a * unit + (b - a) * unit;
  }

  /** A deadline is refused exactly when the sum does not fit 64 bits, and one that is given is
      neither sentinel and later than now. */
  lemma DeadlineExact(n: int, unit: int, now: int)
    requires n > 0 && unit > 0 && 0 <= now <= INT64_MAX
    ensures Deadline(n, unit, now).Some? <==> now + n * unit <= INT64_MAX
    ensures Deadline(n, unit, now).Some? ==>
              var d := Deadline(n, unit, now).value;
              d == now + n * unit && now < d <= INT64_MAX && d != NO_EXPIRY && d != Spec.KEEP_TTL
  {
    MulDiv(n, unit, INT64_MAX - now);
    assert n * unit >= unit;
  }

  predicate GoodDeadline(at: int) {
    at == NO_EXPIRY || 0 < at <= INT64_MAX
  }

  /** What SET passes to the store: no deadline, the old one, or one later than now. */
  lemma {:induction false} SetOptionsGood(args: seq<string>, i: nat, now: int, at: int, have: bool)
    requires 0 <= now <= INT64_MAX && (at == NO_EXPIRY || at == Spec.KEEP_TTL || now < at <= INT64_MAX)
    ensures var r := SetOptions(args, i, now, at, have);
            r.At? ==> r.at == NO_EXPIRY || r.at == Spec.KEEP_TTL || now < r.at <= INT64_MAX
    decreases |args| - i
  {
    if i >= |args| {
    } else {
      var opt := Lowered(args[i]);
      if opt == "keepttl" && !have {
        SetOptionsGood(args, i + 1, now, Spec.KEEP_TTL, true);
      } else if (opt == "ex" || opt == "px") && !have && i + 1 < |args| && ParseInt(args[i + 1]).Some? {
        var n, unit := ParseInt(args[i + 1]).value, if opt == "ex" then MS_PER_SEC else 1;
        if n > 0 && Deadline(n, unit, now).Some? {
          DeadlineExact(n, unit, now);
          SetOptionsGood(args, i + 2, now, Deadline(n, unit, now).value, true);
        }
      }
    }
  }

  // ---- errors change nothing --------------------------------------------------------------------

  /** A set refused for want of room has not even freed an expired key. */
  lemma RefusedSet(cfg: Spec.Config, s: Spec.St, key: string, value: string, at: int, now: int, gone: set<string>)
    requires |s.m| <= cfg.maxKeys && !Spec.SetOk(cfg, s, key, at, now)
    ensures Spec.Set(cfg, s, key, value, at, now, gone) == s
  {
    assert Spec.Dead(s.m, key, now) ==> |s.m - {key}| == |s.m| - 1;
  }

  /** Every error reply leaves the whole store as it was. */
  lemma ErrorChangesNothing(cfg: Spec.Config, s: Spec.St, args: seq<string>, now: int, gone: set<string>)
    requires args != [] && 0 <= now <= INT64_MAX && |s.m| <= cfg.maxKeys
    requires Exec(cfg, s, args, now, gone).reply.Error?
    ensures Exec(cfg, s, args, now, gone).s == s
  {
    if Pick(args) == Fit(Set) {
      var o := SetOptions(args, 3, now, NO_EXPIRY, false);
      if o.At? && !Spec.SetOk(cfg, s, args[1], o.at, now) {
        RefusedSet(cfg, s, args[1], args[2], o.at, now, gone);
      }
    }
  }

  // ---- framing ----------------------------------------------------------------------------------

  lemma OneLinerOn(a: string, b: string)
    requires OneLiner(a) && OneLiner(b)
    ensures OneLiner(a + b)
  {
  }

  lemma NotIntegerOneLiner()
    ensures OneLiner("ERR value is not an integer or out of range")
  {
    OneLinerOn("ERR value is not an ", "integer or out of range");
    assert "ERR value is not an integer or out of range" == "ERR value is not an " + "integer or out of range";
  }

  lemma OutOfMemoryText()
    ensures "OOM command not allowed when used memory > 'maxmemory'."
              == "OOM command not allowed when " + "used memory > 'maxmemory'."
  {
  }

  lemma OutOfMemoryParts()
    ensures OneLiner("OOM command not allowed when ") && OneLiner("used memory > 'maxmemory'.")
  {
  }

  lemma OutOfMemoryOneLiner()
    ensures OneLiner("OOM command not allowed when used memory > 'maxmemory'.")
  {
    OutOfMemoryText();
    OutOfMemoryParts();
    OneLinerOn("OOM command not allowed when ", "used memory > 'maxmemory'.");
  }

  lemma {:induction false} QuotedArgsOneLiner(args: seq<string>)
    ensures OneLiner(QuotedArgs(args))
  {
    if args == [] {
    } else {
      QuotedArgsOneLiner(args[1..]);
      OneLinerOn("'" + Sanitized(args[0]) + "' ", QuotedArgs(args[1..]));
    }
  }

  /** Every name in an error text is one of the server's own. */
  predicate OwnName(f: Fault) {
    match f
    case WrongArity(name) => OneLiner(name)
    case InvalidExpire(name) => OneLiner(name)
    case Unknown(args) => args != []
    case _ => true
  }

  lemma FaultOneLiner(f: Fault)
    requires OwnName(f)
    ensures OneLiner(FaultText(f))
  {
    match f
    case NotInteger => NotIntegerOneLiner();
    case OutOfMemory => OutOfMemoryOneLiner();
    case WrongArity(name) =>
      OneLinerOn("ERR wrong number of arguments for '", name);
      OneLinerOn("ERR wrong number of arguments for '" + name, "' command");
    case InvalidExpire(name) =>
      OneLinerOn("ERR invalid expire time in '", name);
      OneLinerOn("ERR invalid expire time in '" + name, "' command");
    case Unknown(args) =>
      QuotedArgsOneLiner(args[1..]);
      UnknownOneLiner(Sanitized(args[0]), QuotedArgs(args[1..]));
    case _ =>
  }

  lemma UnknownOneLiner(a: string, b: string)
    requires OneLiner(a) && OneLiner(b)
    ensures OneLiner("ERR unknown command '" + a + "', with args beginning with: " + b)
  {
    OneLinerOn("ERR unknown command '", a);
    OneLinerOn("ERR unknown command '" + a, "', with args beginning with: ");
    OneLinerOn("ERR unknown command '" + a + "', with args beginning with: ", b);
  }

  lemma NamesOneLiner(i: nat)
    requires i < |ROWS|
    ensures OneLiner(ROWS[i].name)
  {
    if i < 6 {
      assert OneLiner("get") && OneLiner("set") && OneLiner("del") && OneLiner("exists") && OneLiner("expire")
             && OneLiner("ttl");
    } else {
      assert OneLiner("ping") && OneLiner("echo") && OneLiner("dbsize") && OneLiner("flushall") && OneLiner("quit");
    }
  }

  /** No argument can break the frame of a reply. */
  lemma ReplyFramed(cfg: Spec.Config, s: Spec.St, args: seq<string>, now: int, gone: set<string>)
    requires args != [] && 0 <= now <= INT64_MAX
    ensures Framed(Exec(cfg, s, args, now, gone).reply)
  {
    match Pick(args)
    case Nothing =>
      FaultOneLiner(Unknown(args));
    case Misfit(name) =>
      NamesOneLiner(RowFrom(args[0], 0));
      FaultOneLiner(WrongArity(name));
    case Fit(cmd) =>
      RunFramed(cfg, s, cmd, args, now, gone);
  }

  lemma RunFramed(cfg: Spec.Config, s: Spec.St, cmd: Cmd, args: seq<string>, now: int, gone: set<string>)
    requires Enough(cmd, |args|) && 0 <= now <= INT64_MAX
    ensures Framed(Run(cfg, s, cmd, args, now, gone).reply)
  {
    match cmd
    case Set =>
      SetFramed(cfg, s, args, now, gone);
    case Expire =>
      FaultOneLiner(NotInteger);
      FaultOneLiner(InvalidExpire("expire"));
    case Ping =>
      FaultOneLiner(WrongArity("ping"));
    case Flushall =>
      FaultOneLiner(Syntax);
    case _ =>
  }

  lemma SetFramed(cfg: Spec.Config, s: Spec.St, args: seq<string>, now: int, gone: set<string>)
    requires |args| >= 3 && 0 <= now <= INT64_MAX
    ensures Framed(DoSet(cfg, s, args, now, gone).reply)
  {
    var o := SetOptions(args, 3, now, NO_EXPIRY, false);
    SetFault(if o.Refused? then o.fault else OutOfMemory);
  }

  lemma SetFault(f: Fault)
    requires f in {Syntax, NotInteger, InvalidExpire("set"), OutOfMemory}
    ensures Framed(Failed(f))
  {
    FaultOneLiner(f);
  }

  lemma QuitRow(name: string)
    ensures RowFrom(name, 0) == 10 <==> Lowered(name) == "quit"
  {
  }

  /** Only QUIT, in any case, closes the connection. */
  lemma ClosesOnQuit(cfg: Spec.Config, s: Spec.St, args: seq<string>, now: int, gone: set<string>)
    requires args != [] && 0 <= now <= INT64_MAX
    ensures Exec(cfg, s, args, now, gone).close <==> Lowered(args[0]) == "quit"
  {
    QuitRow(args[0]);
    PicksQuit(args);
    if Pick(args).Fit? {
      RunCloses(cfg, s, Pick(args).cmd, args, now, gone);
    }
  }

  lemma RunCloses(cfg: Spec.Config, s: Spec.St, cmd: Cmd, args: seq<string>, now: int, gone: set<string>)
    requires Enough(cmd, |args|) && 0 <= now <= INT64_MAX
    ensures Run(cfg, s, cmd, args, now, gone).close <==> cmd.Quit?
  {
  }

  lemma PicksQuit(args: seq<string>)
    requires args != []
    ensures Pick(args) == Fit(Quit) <==> RowFrom(args[0], 0) == 10
  {
  }

  // ---- deadlines over time ----------------------------------------------------------------------

  ghost predicate DeadlineOk(m: map<string, Rec>, k: string) {
    k in m ==> GoodDeadline(m[k].expiresAt)
  }

  /** Every stored deadline is none or a positive 64-bit time. */
  ghost predicate DeadlinesOk(m: map<string, Rec>) {
    forall k {:trigger DeadlineOk(m, k)} :: DeadlineOk(m, k)
  }

  /** The steps of TTL's arithmetic: the milliseconds left, and half a second more to round. */
  predicate TtlStays(at: int, now: int) {
    IsInt64(at - now) && IsInt64(at - now + MS_PER_SEC / 2)
  }

  /** For a stored deadline the milliseconds left always fit; rounding them overflows exactly when
      the deadline is in the last half second that 64 bits can say, seen from `now`. */
  lemma TtlFits(m: map<string, Rec>, k: string, now: int)
    requires DeadlinesOk(m) && k in m && m[k].expiresAt != NO_EXPIRY && 0 <= now <= INT64_MAX
    ensures IsInt64(m[k].expiresAt - now)
    ensures TtlStays(m[k].expiresAt, now) <==> m[k].expiresAt <= INT64_MAX - MS_PER_SEC / 2 + now
  {
    assert DeadlineOk(m, k);
  }

  /** TTL stays within 64 bits for every deadline there can be exactly from 500 on. */
  lemma TtlFitsFrom(now: int)
    requires 0 <= now <= INT64_MAX
    ensures (forall at {:trigger TtlStays(at, now)} :: GoodDeadline(at) && at != NO_EXPIRY ==> TtlStays(at, now)) <==>
              now >= 500
  {
    if now < 500 {
      assert !TtlStays(INT64_MAX, now);
    }
  }

  /** Before that, `SET k v PX` with the longest deadline accepted makes `TTL k` overflow at once. */
  lemma TtlOverflows(cfg: Spec.Config, s: Spec.St, key: string, value: string, now: int, gone: set<string>)
    requires 0 <= now < 500 && Spec.SetOk(cfg, s, key, INT64_MAX, now)
    ensures var o := DoSet(cfg, s, ["SET", key, value, "PX", Signed(INT64_MAX - now)], now, gone);
            && o.reply == Simple("OK") && Spec.TtlOf(o.s, key, now) == INT64_MAX - now
            && !IsInt64(Spec.TtlOf(o.s, key, now) + MS_PER_SEC / 2)
  {
    var args := ["SET", key, value, "PX", Signed(INT64_MAX - now)];
    ParseIntReadsBack(INT64_MAX - now);
    DeadlineExact(INT64_MAX - now, 1, now);
    assert Lowered("PX") == "px";
    assert SetOptions(args, 3, now, NO_EXPIRY, false) == At(INT64_MAX);
  }

  lemma DeadlinesPut(m: map<string, Rec>, key: string, r: Rec)
    requires DeadlinesOk(m) && GoodDeadline(r.expiresAt)
    ensures DeadlinesOk(m[key := r])
  {
    var m' := m[key := r];
    forall k ensures DeadlineOk(m', k) {
      assert DeadlineOk(m, k);
    }
  }

  lemma DeadlinesFewer(m: map<string, Rec>, gone: set<string>)
    requires DeadlinesOk(m)
    ensures DeadlinesOk(m - gone)
  {
    var m' := m - gone;
    forall k ensures DeadlineOk(m', k) {
      assert DeadlineOk(m, k);
    }
  }

  lemma LookupDeadlines(s: Spec.St, key: string, now: int)
    requires DeadlinesOk(s.m)
    ensures DeadlinesOk(Spec.Lookup(s, key, now).m) && DeadlinesOk(Spec.Erase(s, key, now).m)
    ensures forall touch :: DeadlinesOk(Spec.Find(s, key, now, touch).m)
  {
    DeadlinesFewer(s.m, {key});
    var t := Spec.Lookup(s, key, now);
    DeadlinesFewer(t.m, {key});
    if key in t.m {
      assert DeadlineOk(t.m, key);
      DeadlinesPut(t.m, key, t.m[key].(lru := Spec.Clock32(now)));
    }
  }

  lemma SetDeadlines(cfg: Spec.Config, s: Spec.St, key: string, value: string, at: int, now: int, gone: set<string>)
    requires DeadlinesOk(s.m) && 0 <= now && (at == NO_EXPIRY || at == Spec.KEEP_TTL || now < at <= INT64_MAX)
    ensures DeadlinesOk(Spec.Set(cfg, s, key, value, at, now, gone).m)
  {
    LookupDeadlines(s, key, now);
    var t := Spec.Lookup(s, key, now);
    if key in t.m {
      assert DeadlineOk(t.m, key);
      DeadlinesPut(t.m, key, Rec(value, if at == Spec.KEEP_TTL then t.m[key].expiresAt else at, Spec.Clock32(now)));
    } else {
      var r := Rec(value, if at == Spec.KEEP_TTL then NO_EXPIRY else at, Spec.Clock32(now));
      DeadlinesPut(t.m, key, r);
      DeadlinesFewer(t.m, gone);
      DeadlinesPut(t.m - gone, key, r);
    }
  }

  lemma ExpireDeadlines(s: Spec.St, key: string, at: int, now: int)
    requires DeadlinesOk(s.m) && GoodDeadline(at)
    ensures DeadlinesOk(Spec.SetExpireAt(s, key, at, now).m)
  {
    LookupDeadlines(s, key, now);
    var t := Spec.Lookup(s, key, now);
    DeadlinesPut(t.m, key, Rec(if key in t.m then t.m[key].value else "", at, Spec.Clock32(now)));
  }

  lemma {:induction false} AllDeadlines(erase: bool, s: Spec.St, keys: seq<string>, i: nat, now: int)
    requires DeadlinesOk(s.m) && i <= |keys|
    ensures DeadlinesOk(Mentions(erase, s, keys, i, now).s.m)
  {
    if i == 0 {
    } else {
      AllDeadlines(erase, s, keys, i - 1, now);
      LookupDeadlines(Mentions(erase, s, keys, i - 1, now).s, keys[i - 1], now);
    }
  }

  /** Every command keeps every stored deadline good. */
  lemma ExecDeadlines(cfg: Spec.Config, s: Spec.St, args: seq<string>, now: int, gone: set<string>)
    requires args != [] && 0 <= now <= INT64_MAX && DeadlinesOk(s.m)
    ensures DeadlinesOk(Exec(cfg, s, args, now, gone).s.m)
  {
    if Pick(args).Fit? {
      RunDeadlines(cfg, s, Pick(args).cmd, args, now, gone);
    }
  }

  lemma RunDeadlines(cfg: Spec.Config, s: Spec.St, cmd: Cmd, args: seq<string>, now: int, gone: set<string>)
    requires Enough(cmd, |args|) && 0 <= now <= INT64_MAX && DeadlinesOk(s.m)
    ensures DeadlinesOk(Run(cfg, s, cmd, args, now, gone).s.m)
  {
    match cmd
    case Get =>
      LookupDeadlines(s, args[1], now);
    case Set =>
      var o := SetOptions(args, 3, now, NO_EXPIRY, false);
      SetOptionsGood(args, 3, now, NO_EXPIRY, false);
      if o.At? {
        SetDeadlines(cfg, s, args[1], args[2], o.at, now, gone);
      }
    case Del =>
      AllDeadlines(true, s, args[1..], |args| - 1, now);
    case Exists =>
      AllDeadlines(false, s, args[1..], |args| - 1, now);
    case Expire =>
      LookupDeadlines(s, args[1], now);
      var secs := ParseInt(args[2]);
      if secs.Some? && secs.value > 0 && Deadline(secs.value, MS_PER_SEC, now).Some? {
        DeadlineExact(secs.value, MS_PER_SEC, now);
        ExpireDeadlines(s, args[1], Deadline(secs.value, MS_PER_SEC, now).value, now);
      }
    case Ttl =>
      LookupDeadlines(s, args[1], now);
    case _ =>
  }

  /** `SET k v EX n` followed at once by `TTL k` answers n. */
  lemma TtlOfFreshSet(cfg: Spec.Config, s: Spec.St, key: string, value: string, n: int, now: int, gone: set<string>)
    requires 0 <= now && n > 0 && now + n * MS_PER_SEC <= INT64_MAX
    requires Spec.SetOk(cfg, s, key, now + n * MS_PER_SEC, now)
    ensures DoSet(cfg, s, ["SET", key, value, "EX", Signed(n)], now, gone).reply == Simple("OK")
    ensures var t := DoSet(cfg, s, ["SET", key, value, "EX", Signed(n)], now, gone).s;
            Rounded(Spec.TtlOf(t, key, now)) == n
  {
    var args := ["SET", key, value, "EX", Signed(n)];
    ParseIntReadsBack(n);
    DeadlineExact(n, MS_PER_SEC, now);
    assert Lowered("EX") == "ex";
    assert SetOptions(args, 3, now, NO_EXPIRY, false) == At(now + n * MS_PER_SEC);
  }

  // ---- reading back -----------------------------------------------------------------------------

  ghost predicate Alive(m: map<string, Rec>, k: string, now: int) {
    k in m && !Expired(m[k].expiresAt, now)
  }

  /** A set that succeeds is read back by GET. */
  lemma GetAfterSet(cfg: Spec.Config, s: Spec.St, args: seq<string>, now: int, gone: set<string>)
    requires |args| >= 3 && 0 <= now <= INT64_MAX && DoSet(cfg, s, args, now, gone).reply == Simple("OK")
    ensures DoGet(DoSet(cfg, s, args, now, gone).s, args[1], now).reply == BulkString(args[2])
  {
    SetOptionsGood(args, 3, now, NO_EXPIRY, false);
    var at := SetOptions(args, 3, now, NO_EXPIRY, false).at;
    SetIsAlive(cfg, s, args[1], args[2], at, now, gone);
  }

  lemma SetIsAlive(cfg: Spec.Config, s: Spec.St, key: string, value: string, at: int, now: int, gone: set<string>)
    requires Spec.SetOk(cfg, s, key, at, now) && !Spec.PastDeadline(at, now)
    ensures var t := Spec.Set(cfg, s, key, value, at, now, gone); Alive(t.m, key, now) && t.m[key].value == value
  {
  }

  ghost function FirstKeys(keys: seq<string>, i: nat): set<string>
    requires i <= |keys|
  {
    if i == 0 then {} else FirstKeys(keys, i - 1) + {keys[i - 1]}
  }

  ghost function AliveAmong(m: map<string, Rec>, keys: set<string>, now: int): set<string> {
    set k | k in keys && Alive(m, k, now)
  }

  lemma AliveOneMore(m: map<string, Rec>, keys: set<string>, key: string, now: int)
    ensures |AliveAmong(m, keys + {key}, now)|
         == |AliveAmong(m, keys, now)| + if Alive(m, key, now) && key !in keys then 1 else 0
  {
    var a, b := AliveAmong(m, keys, now), AliveAmong(m, keys + {key}, now);
    if Alive(m, key, now) && key !in keys {
      assert b == a + {key};
    } else {
      assert b == a;
    }
  }

  /** DEL removes every key it names and counts each live one once. */
  lemma {:induction false} DelCounts(s: Spec.St, keys: seq<string>, i: nat, now: int)
    requires i <= |keys|
    ensures var t := Mentions(true, s, keys, i, now);
            t.s.m == s.m - FirstKeys(keys, i) && t.n == |AliveAmong(s.m, FirstKeys(keys, i), now)|
  {
    if i == 0 {
      assert s.m - {} == s.m;
    } else {
      var key, t := keys[i - 1], Mentions(true, s, keys, i - 1, now);
      DelCounts(s, keys, i - 1, now);
      DelOne(s.m, t.s.m, FirstKeys(keys, i - 1), key, Spec.Erase(t.s, key, now).m);
      AliveOneMore(s.m, FirstKeys(keys, i - 1), key, now);
    }
  }

  lemma DelOne(m: map<string, Rec>, t: map<string, Rec>, named: set<string>, key: string, u: map<string, Rec>)
    requires t == m - named && u.Keys == t.Keys - {key} && forall k :: k in u ==> u[k] == t[k]
    ensures u == m - (named + {key})
  {
  }

  function Mentioned(m: map<string, Rec>, keys: seq<string>, i: nat, now: int): nat
    requires i <= |keys|
  {
    if i == 0 then 0
    else Mentioned(m, keys, i - 1, now) + if keys[i - 1] in m && !Expired(m[keys[i - 1]].expiresAt, now) then 1 else 0
  }

  /** EXISTS counts every mention of a live key and touches no live key. */
  lemma {:induction false} ExistsCounts(s: Spec.St, keys: seq<string>, i: nat, now: int)
    requires i <= |keys|
    ensures var t := Mentions(false, s, keys, i, now);
            t.n == Mentioned(s.m, keys, i, now) && t.s.m.Keys <= s.m.Keys
            && forall k :: k in s.m && Alive(s.m, k, now) ==> k in t.s.m && t.s.m[k] == s.m[k]
    ensures var t := Mentions(false, s, keys, i, now); forall k :: k in t.s.m ==> t.s.m[k] == s.m[k]
  {
    if i == 0 {
    } else {
      ExistsCounts(s, keys, i - 1, now);
    }
  }

  /** EXPIRE that finds its key is answered by TTL at once with the same number of seconds. */
  lemma TtlAfterExpire(s: Spec.St, key: string, n: int, now: int)
    requires 0 <= now && n > 0 && now + n * MS_PER_SEC <= INT64_MAX
    ensures var o := DoExpire(s, key, Signed(n), now);
            o.reply == Integer(1) ==> Rounded(Spec.TtlOf(o.s, key, now)) == n
  {
    ParseIntReadsBack(n);
    DeadlineExact(n, MS_PER_SEC, now);
  }
}
