/** What each command answers and leaves, by its text (src/core/command.cpp, src/core/store.cpp). */
module CommandAnswers {
  import opened Entries
  import opened Resp
  import opened Replies
  import opened CommandSpec
  import opened CommandLaws
  import opened CommandTexts
  import Spec = StoreSpec

  // ---- what a client can see --------------------------------------------------------------------

  /** The key is there: it has no deadline, or the clock has not passed it. */
  ghost predicate Live(s: Spec.St, k: string, now: int) {
    k in s.m && (s.m[k].expiresAt == -1 || now <= s.m[k].expiresAt)
  }

  /** The command, named in any case, with as many texts as it takes. */
  predicate Asks(args: seq<string>, cmd: Cmd) {
    args != [] && Lowered(args[0]) == NameOf(cmd) && Enough(cmd, |args|)
  }

  /** `k` is there in both or in neither, with the same value and deadline. */
  ghost predicate SameFor(s: Spec.St, t: Spec.St, k: string, now: int) {
    && (Live(s, k, now) <==> Live(t, k, now))
    && (Live(s, k, now) ==> t.m[k].value == s.m[k].value && t.m[k].expiresAt == s.m[k].expiresAt)
  }

  ghost predicate Untouched(s: Spec.St, t: Spec.St, k: string) {
    (k in s.m <==> k in t.m) && (k in s.m ==> t.m[k] == s.m[k])
  }

  lemma Runs(cfg: Spec.Config, s: Spec.St, args: seq<string>, cmd: Cmd, now: int, gone: set<string>)
    requires Asks(args, cmd) && 0 <= now <= INT64_MAX
    ensures Exec(cfg, s, args, now, gone) == Run(cfg, s, cmd, args, now, gone)
  {
    PickIs(args, cmd);
  }

  // ---- reading ----------------------------------------------------------------------------------

  /** GET answers the value of a live key and nil for any other, and counts as a use of the key. */
  lemma GetAnswers(cfg: Spec.Config, s: Spec.St, args: seq<string>, now: int, gone: set<string>)
    requires args != [] && Lowered(args[0]) == "get" && |args| == 2 && 0 <= now <= INT64_MAX
    ensures var o, k := Exec(cfg, s, args, now, gone), args[1];
            && o.reply == (if Live(s, k, now) then BulkString(s.m[k].value) else NullBulk)
            && (Live(s, k, now) ==> k in o.s.m && o.s.m[k].lru == now % 0x1_0000_0000)
            && forall j :: SameFor(s, o.s, j, now) && (j != k ==> Untouched(s, o.s, j))
  {
    Runs(cfg, s, args, Get, now, gone);
  }

  lemma RoundedIs(ms: int)
    ensures ms >= 0 ==> 1000 * Rounded(ms) - 500 <= ms < 1000 * Rounded(ms) + 500
    ensures ms < 0 ==> Rounded(ms) == ms
  {
  }

  /** TTL answers the nearest second to what is left, -1 without a deadline and -2 without the key. */
  lemma TtlAnswers(cfg: Spec.Config, s: Spec.St, args: seq<string>, now: int, gone: set<string>)
    requires args != [] && Lowered(args[0]) == "ttl" && |args| == 2 && 0 <= now <= INT64_MAX
    ensures var o, k := Exec(cfg, s, args, now, gone), args[1];
            && o.reply.Integer?
            && (!Live(s, k, now) ==> o.reply.value == -2)
            && (Live(s, k, now) && s.m[k].expiresAt == -1 ==> o.reply.value == -1)
            && (Live(s, k, now) && s.m[k].expiresAt != -1 ==>
                  1000 * o.reply.value - 500 <= s.m[k].expiresAt - now < 1000 * o.reply.value + 500)
            && forall j :: SameFor(s, o.s, j, now) && (Live(s, j, now) ==> o.s.m[j] == s.m[j])
  {
    Runs(cfg, s, args, Ttl, now, gone);
    RoundedIs(Spec.TtlOf(s, args[1], now));
  }

  /** EXISTS counts every mention of a live key and leaves every live key as it was, uncounted as a use. */
  lemma ExistsAnswers(cfg: Spec.Config, s: Spec.St, args: seq<string>, now: int, gone: set<string>)
    requires args != [] && Lowered(args[0]) == "exists" && |args| >= 2 && 0 <= now <= INT64_MAX
    ensures var o := Exec(cfg, s, args, now, gone);
            && o.reply == Integer(|LiveMentions(s, args, |args|, now)|)
            && forall j :: SameFor(s, o.s, j, now) && (Live(s, j, now) ==> o.s.m[j] == s.m[j])
  {
    Runs(cfg, s, args, Exists, now, gone);
    ExistsMentions(s, args[1..], now);
    MentionedIs(s, args, args[1..], |args| - 1, now);
  }

  ghost function LiveMentions(s: Spec.St, args: seq<string>, n: nat, now: int): set<int>
    requires n <= |args|
  {
    set i | 1 <= i < n && Live(s, args[i], now)
  }

  lemma OneMention(s: Spec.St, args: seq<string>, n: nat, now: int)
    requires 1 <= n < |args|
    ensures var a, b := LiveMentions(s, args, n, now), LiveMentions(s, args, n + 1, now);
            |b| == |a| + if Live(s, args[n], now) then 1 else 0
  {
    var a, b := LiveMentions(s, args, n, now), LiveMentions(s, args, n + 1, now);
    if Live(s, args[n], now) {
      assert b == a + {n};
    } else {
      assert b == a;
    }
  }

  lemma {:induction false} MentionedIs(s: Spec.St, args: seq<string>, keys: seq<string>, n: nat, now: int)
    requires n < |args| && keys == args[1..]
    ensures Mentioned(s.m, keys, n, now) == |LiveMentions(s, args, n + 1, now)|
  {
    if n == 0 {
      assert LiveMentions(s, args, 1, now) == {};
    } else {
      MentionedIs(s, args, keys, n - 1, now);
      OneMention(s, args, n, now);
    }
  }

  lemma ExistsMentions(s: Spec.St, keys: seq<string>, now: int)
    ensures var t := Mentions(false, s, keys, |keys|, now);
            && t.n == Mentioned(s.m, keys, |keys|, now)
            && forall j :: SameFor(s, t.s, j, now) && (Live(s, j, now) ==> t.s.m[j] == s.m[j])
  {
    ExistsCounts(s, keys, |keys|, now);
  }

  // ---- removing ---------------------------------------------------------------------------------

  /** DEL removes every key it names, counts each live one once, and leaves the others as they were. */
  lemma DelAnswers(cfg: Spec.Config, s: Spec.St, args: seq<string>, now: int, gone: set<string>)
    requires args != [] && Lowered(args[0]) == "del" && |args| >= 2 && 0 <= now <= INT64_MAX
    ensures var o := Exec(cfg, s, args, now, gone);
            && o.reply == Integer(|set k | k in args[1..] && Live(s, k, now)|)
            && (forall j :: j in args[1..] ==> j !in o.s.m)
            && (forall j :: j !in args[1..] ==> Untouched(s, o.s, j))
  {
    Runs(cfg, s, args, Del, now, gone);
    DelMentions(s, args[1..], now);
  }

  lemma DelMentions(s: Spec.St, keys: seq<string>, now: int)
    ensures var t := Mentions(true, s, keys, |keys|, now);
            && t.n == |set k | k in keys && Live(s, k, now)|
            && (forall j :: j in keys ==> j !in t.s.m) && (forall j :: j !in keys ==> Untouched(s, t.s, j))
  {
    var t, named := Mentions(true, s, keys, |keys|, now), FirstKeys(keys, |keys|);
    DelCounts(s, keys, |keys|, now);
    FirstKeysAre(keys, |keys|);
    assert keys[..|keys|] == keys;
    NamedLive(s, keys, named, now);
    NamedGone(s, t.s, keys, named);
  }

  lemma NamedLive(s: Spec.St, keys: seq<string>, named: set<string>, now: int)
    requires forall k :: k in named <==> k in keys
    ensures AliveAmong(s.m, named, now) == set k | k in keys && Live(s, k, now)
  {
  }

  lemma NamedGone(s: Spec.St, t: Spec.St, keys: seq<string>, named: set<string>)
    requires (forall k :: k in named <==> k in keys) && t.m == s.m - named
    ensures (forall j :: j in keys ==> j !in t.m) && forall j :: j !in keys ==> Untouched(s, t, j)
  {
  }

  lemma {:induction false} FirstKeysAre(keys: seq<string>, i: nat)
    requires i <= |keys|
    ensures forall k :: k in FirstKeys(keys, i) <==> k in keys[..i]
  {
    if i > 0 {
      FirstKeysAre(keys, i - 1);
      assert keys[..i] == keys[..i - 1] + [keys[i - 1]];
    }
  }

  /** After DEL, GET answers nil whenever it is asked. */
  lemma GetAfterDel(cfg: Spec.Config, s: Spec.St, del: seq<string>, now: int, get: seq<string>, later: int)
    requires del != [] && Lowered(del[0]) == "del" && |del| >= 2 && 0 <= now <= INT64_MAX
    requires get != [] && Lowered(get[0]) == "get" && |get| == 2 && get[1] in del[1..] && 0 <= later <= INT64_MAX
    ensures Exec(cfg, Exec(cfg, s, del, now, {}).s, get, later, {}).reply == NullBulk
  {
    DelAnswers(cfg, s, del, now, {});
    GetAnswers(cfg, Exec(cfg, s, del, now, {}).s, get, later, {});
  }

  /** FLUSHALL, alone or with ASYNC or SYNC, leaves no key; anything else after it is bad syntax. */
  lemma FlushallAnswers(cfg: Spec.Config, s: Spec.St, args: seq<string>, now: int, gone: set<string>)
    requires args != [] && Lowered(args[0]) == "flushall" && 0 <= now <= INT64_MAX
    ensures var o := Exec(cfg, s, args, now, gone);
            if |args| == 1 || (|args| == 2 && (Lowered(args[1]) == "async" || Lowered(args[1]) == "sync"))
            then o.reply == Simple("OK") && o.s.m == map[] else o.reply == Error("ERR syntax error") && o.s == s
  {
    Runs(cfg, s, args, Flushall, now, gone);
  }

  // ---- writing ----------------------------------------------------------------------------------

  /** A key that is not there needs room, and without eviction there may be none. */
  ghost predicate NoRoom(cfg: Spec.Config, s: Spec.St, k: string, now: int) {
    cfg.policy.NoEviction? && !Live(s, k, now) && |s.m - {k}| >= cfg.maxKeys
  }

  lemma WithoutDead(s: Spec.St, k: string, now: int)
    requires !Live(s, k, now)
    ensures Spec.Lookup(s, k, now).m == s.m - {k}
  {
  }

  /** SET is refused for want of room and for nothing else. When it is not, the key is live with the value; its
      deadline is the one asked for, and with KEEPTTL (-2) the one it had. */
  lemma SetAnswers(cfg: Spec.Config, s: Spec.St, args: seq<string>, at: int, now: int, gone: set<string>)
    requires args != [] && Lowered(args[0]) == "set" && |args| >= 3 && 0 <= now <= INT64_MAX
    requires SetOptions(args, 3, now, NO_EXPIRY, false) == At(at)
    ensures var o, k := Exec(cfg, s, args, now, gone), args[1];
            if NoRoom(cfg, s, k, now)
            then o.reply == Error("OOM command not allowed when used memory > 'maxmemory'.")
            else && o.reply == Simple("OK") && Live(o.s, k, now) && o.s.m[k].value == args[2]
                 && o.s.m[k].lru == now % 0x1_0000_0000
                 && o.s.m[k].expiresAt == if at != -2 then at else if Live(s, k, now) then s.m[k].expiresAt else -1
  {
    Runs(cfg, s, args, Set, now, gone);
    SetOptionsGood(args, 3, now, NO_EXPIRY, false);
    SetLeaves(cfg, s, args[1], args[2], at, now, gone);
  }

  lemma SetLeaves(cfg: Spec.Config, s: Spec.St, k: string, v: string, at: int, now: int, gone: set<string>)
    requires !Spec.PastDeadline(at, now)
    ensures Spec.SetOk(cfg, s, k, at, now) <==> !NoRoom(cfg, s, k, now)
    ensures var t := Spec.Set(cfg, s, k, v, at, now, gone);
            var d := if at != -2 then at else if Live(s, k, now) then s.m[k].expiresAt else -1;
            Spec.SetOk(cfg, s, k, at, now) ==> k in t.m && t.m[k] == Rec(v, d, now % 0x1_0000_0000)
  {
    if !Live(s, k, now) {
      WithoutDead(s, k, now);
    }
  }

  /** SET touches no other key but those its eviction chose, and evicts only for a new key in a full store. */
  lemma SetSpares(cfg: Spec.Config, s: Spec.St, args: seq<string>, now: int, gone: set<string>, j: string)
    requires args != [] && Lowered(args[0]) == "set" && |args| >= 3 && 0 <= now <= INT64_MAX && j != args[1]
    requires j !in gone || Live(s, args[1], now) || |s.m - {args[1]}| < cfg.maxKeys
    ensures Untouched(s, Exec(cfg, s, args, now, gone).s, j)
  {
    Runs(cfg, s, args, Set, now, gone);
    var r := SetOptions(args, 3, now, NO_EXPIRY, false);
    if r.At? {
      SetSparesKey(cfg, s, args[1], args[2], r.at, now, gone, j);
    }
  }

  lemma SetSparesKey(cfg: Spec.Config, s: Spec.St, k: string, v: string, at: int, now: int, gone: set<string>,
                     j: string)
    requires j != k && (j !in gone || Live(s, k, now) || |s.m - {k}| < cfg.maxKeys)
    ensures Untouched(s, Spec.Set(cfg, s, k, v, at, now, gone), j)
  {
    var t := Spec.Lookup(s, k, now);
    if !Live(s, k, now) {
      WithoutDead(s, k, now);
      NewSpares(cfg, t, k, v, at, now, gone, j);
    } else {
      assert t == s;
    }
  }

  lemma NewSpares(cfg: Spec.Config, t: Spec.St, k: string, v: string, at: int, now: int, gone: set<string>, j: string)
    requires j != k && (j !in gone || |t.m| < cfg.maxKeys)
    ensures Untouched(t, Spec.SetNew(cfg, t, k, v, at, now, gone), j)
  {
    PutSpares(t, k, v, at, now, j);
    PutSpares(Spec.Evict(t, now, gone), k, v, at, now, j);
  }

  lemma PutSpares(t: Spec.St, k: string, v: string, at: int, now: int, j: string)
    requires j != k
    ensures Untouched(t, Spec.Put(t, k, v, at, now), j)
  {
  }

  /** `SET k w KEEPTTL` on a live key leaves what TTL answers, at that time and at any other. */
  lemma KeepTtlKeeps(cfg: Spec.Config, s: Spec.St, args: seq<string>, now: int, gone: set<string>, ttl: seq<string>,
                     later: int)
    requires args != [] && Lowered(args[0]) == "set" && |args| == 4 && Lowered(args[3]) == "keepttl"
    requires 0 <= now <= INT64_MAX && 0 <= later <= INT64_MAX && Live(s, args[1], now)
    requires ttl != [] && Lowered(ttl[0]) == "ttl" && |ttl| == 2 && ttl[1] == args[1]
    ensures var o := Exec(cfg, s, args, now, gone);
            && o.reply == Simple("OK") && args[1] in o.s.m && o.s.m[args[1]].value == args[2]
            && Exec(cfg, o.s, ttl, later, gone).reply == Exec(cfg, s, ttl, later, gone).reply
  {
    SetOptionsAre(args, now);
    SetAnswers(cfg, s, args, -2, now, gone);
    Runs(cfg, s, ttl, Ttl, later, gone);
    Runs(cfg, Exec(cfg, s, args, now, gone).s, ttl, Ttl, later, gone);
  }

  /** `SET k v` alone leaves no deadline: TTL answers -1 and GET the value, however late. */
  lemma PlainSetStays(cfg: Spec.Config, s: Spec.St, args: seq<string>, now: int, gone: set<string>, get: seq<string>,
                      later: int)
    requires args != [] && Lowered(args[0]) == "set" && |args| == 3
    requires 0 <= now <= INT64_MAX && 0 <= later <= INT64_MAX && !NoRoom(cfg, s, args[1], now)
    requires get != [] && Lowered(get[0]) == "get" && |get| == 2 && get[1] == args[1]
    ensures Exec(cfg, Exec(cfg, s, args, now, gone).s, get, later, gone).reply == BulkString(args[2])
  {
    SetOptionsAre(args, now);
    SetAnswers(cfg, s, args, -1, now, gone);
    GetAnswers(cfg, Exec(cfg, s, args, now, gone).s, get, later, gone);
  }

  /** `SET k v EX n` or `PX n`: GET answers the value up to and including the deadline, and nil after it. */
  lemma CountedSetEnds(cfg: Spec.Config, s: Spec.St, args: seq<string>, unit: int, n: int, now: int, gone: set<string>,
                       get: seq<string>, later: int)
    requires args != [] && Lowered(args[0]) == "set" && |args| == 5 && Counts(args[3], unit)
    requires ParseInt(args[4]) == Some(n) && n > 0 && 0 <= now && now + n * unit <= INT64_MAX
    requires 0 <= later <= INT64_MAX && !NoRoom(cfg, s, args[1], now)
    requires get != [] && Lowered(get[0]) == "get" && |get| == 2 && get[1] == args[1]
    ensures Exec(cfg, Exec(cfg, s, args, now, gone).s, get, later, gone).reply
         == if later <= now + n * unit then BulkString(args[2]) else NullBulk
  {
    SetCounts(args, now, unit);
    SetAnswers(cfg, s, args, now + n * unit, now, gone);
    GetAnswers(cfg, Exec(cfg, s, args, now, gone).s, get, later, gone);
  }

  /** EXPIRE of a count that is not positive removes the key; else it sets the deadline, when the sum fits 64 bits. */
  lemma ExpireAnswers(cfg: Spec.Config, s: Spec.St, args: seq<string>, now: int, gone: set<string>)
    requires args != [] && Lowered(args[0]) == "expire" && |args| == 3 && 0 <= now <= INT64_MAX
    ensures var o, k, n := Exec(cfg, s, args, now, gone), args[1], ParseInt(args[2]);
            if n.None? then o.reply == Error("ERR value is not an integer or out of range") && o.s == s
            else if n.value > 0 && now + n.value * 1000 > INT64_MAX
            then o.reply == Error("ERR invalid expire time in 'expire' command") && o.s == s
            else && o.reply == Integer(if Live(s, k, now) then 1 else 0)
                 && (forall j :: j != k ==> Untouched(s, o.s, j))
                 && (if n.value > 0 && Live(s, k, now)
                     then k in o.s.m && o.s.m[k] == Rec(s.m[k].value, now + n.value * 1000, now % 0x1_0000_0000)
                     else k !in o.s.m)
  {
    Runs(cfg, s, args, Expire, now, gone);
    var n := ParseInt(args[2]);
    ExpireText();
    if n.Some? && n.value > 0 {
      DeadlineExact(n.value, 1000, now);
    }
  }

  lemma ExpireText()
    ensures FaultText(InvalidExpire("expire")) == "ERR invalid expire time in 'expire' command"
  {
  }

  // ---- the rest ---------------------------------------------------------------------------------

  lemma PingText()
    ensures FaultText(WrongArity("ping")) == "ERR wrong number of arguments for 'ping' command"
  {
  }

  lemma PingAnswers(cfg: Spec.Config, s: Spec.St, args: seq<string>, now: int, gone: set<string>)
    requires args != [] && Lowered(args[0]) == "ping" && 0 <= now <= INT64_MAX
    ensures var o := Exec(cfg, s, args, now, gone);
            && o.s == s && (|args| == 1 ==> o.reply == Simple("PONG"))
            && (|args| == 2 ==> o.reply == BulkString(args[1]))
            && (|args| > 2 ==> o.reply == Error("ERR wrong number of arguments for 'ping' command"))
  {
    Runs(cfg, s, args, Ping, now, gone);
    PingText();
  }

  lemma EchoAnswers(cfg: Spec.Config, s: Spec.St, args: seq<string>, now: int, gone: set<string>)
    requires args != [] && Lowered(args[0]) == "echo" && |args| == 2 && 0 <= now <= INT64_MAX
    ensures Exec(cfg, s, args, now, gone) == Outcome(s, BulkString(args[1]), false)
  {
    Runs(cfg, s, args, Echo, now, gone);
  }

  /** DBSIZE counts what is stored, keys whose deadline has passed unnoticed included. */
  lemma DbsizeAnswers(cfg: Spec.Config, s: Spec.St, args: seq<string>, now: int, gone: set<string>)
    requires args != [] && Lowered(args[0]) == "dbsize" && |args| == 1 && 0 <= now <= INT64_MAX
    ensures Exec(cfg, s, args, now, gone) == Outcome(s, Integer(|s.m|), false)
  {
    Runs(cfg, s, args, Dbsize, now, gone);
  }

  lemma QuitAnswers(cfg: Spec.Config, s: Spec.St, args: seq<string>, now: int, gone: set<string>)
    requires args != [] && Lowered(args[0]) == "quit" && 0 <= now <= INT64_MAX
    ensures Exec(cfg, s, args, now, gone) == Outcome(s, Simple("OK"), true)
  {
    Runs(cfg, s, args, Quit, now, gone);
  }

  predicate Short(s: string) {
    |s| <= 128 && OneLiner(s)
  }

  /** A short text is quoted as it is; of a longer one the first 128 bytes are, with line breaks as blanks. */
  lemma SanitizedIs(s: string)
    ensures Short(s) ==> Sanitized(s) == s
    ensures |s| > 128 ==> Sanitized(s) == Sanitized(s[..128]) && |Sanitized(s)| == 128
    ensures forall i :: 0 <= i < |Sanitized(s)| && i < |s| && s[i] != Sanitized(s)[i] ==>
              (s[i] == '\r' || s[i] == '\n') && Sanitized(s)[i] == ' '
  {
  }

  /** An unknown command with two short arguments, to the byte. */
  lemma UnknownAnswers(cfg: Spec.Config, s: Spec.St, name: string, a: string, b: string, now: int, gone: set<string>)
    requires 0 <= now <= INT64_MAX && Short(name) && Short(a) && Short(b) && forall c :: Lowered(name) != NameOf(c)
    ensures Exec(cfg, s, [name, a, b], now, gone).reply
         == Error("ERR unknown command '" + name + "', with args beginning with: " + ("'" + a + "' '" + b + "' "))
  {
    RefusalsAnswer(cfg, s, [name, a, b], Get, now, gone);
    SanitizedIs(name);
    SanitizedIs(a);
    SanitizedIs(b);
    QuotedTwo(a, b);
  }

  lemma QuotedTwo(a: string, b: string)
    requires Short(a) && Short(b)
    ensures QuotedArgs([a, b]) == "'" + a + "' '" + b + "' "
  {
    SanitizedIs(a);
    SanitizedIs(b);
    assert [a, b][1..] == [b] && [b][1..] == [];
    assert QuotedArgs([b]) == "'" + b + "' ";
  }

  /** A name that is none of the eleven, and a known one with the wrong number of arguments, change nothing. */
  lemma RefusalsAnswer(cfg: Spec.Config, s: Spec.St, args: seq<string>, cmd: Cmd, now: int, gone: set<string>)
    requires args != [] && 0 <= now <= INT64_MAX
    ensures var o := Exec(cfg, s, args, now, gone);
            && ((forall c :: Lowered(args[0]) != NameOf(c)) ==> o == Outcome(s, Failed(Unknown(args)), false))
            && (Lowered(args[0]) == NameOf(cmd) && !Enough(cmd, |args|) ==>
                  o == Outcome(s, Error("ERR wrong number of arguments for '" + NameOf(cmd) + "' command"), false))
  {
    PickIsNot(args);
  }
}
