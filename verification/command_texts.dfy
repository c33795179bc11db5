/** The commands as texts (src/core/command.cpp): what a client types decides what runs, and with what. */
module CommandTexts {
  import opened Entries
  import opened Resp
  import opened Replies
  import opened CommandSpec
  import opened CommandLaws
  import RespLaws
  import Spec = StoreSpec

  // ---- names ------------------------------------------------------------------------------------

  function NameOf(cmd: Cmd): string {
    match cmd
    case Get => "get"
    case Set => "set"
    case Del => "del"
    case Exists => "exists"
    case Expire => "expire"
    case Ttl => "ttl"
    case Ping => "ping"
    case Echo => "echo"
    case Dbsize => "dbsize"
    case Flushall => "flushall"
    case Quit => "quit"
  }

  lemma RowNamed(i: nat)
    requires i < |ROWS|
    ensures ROWS[i].name == NameOf(ROWS[i].cmd)
  {
  }

  function RowOf(cmd: Cmd): (i: nat)
    ensures i < |ROWS|
  {
    match cmd
    case Get => 0
    case Set => 1
    case Del => 2
    case Exists => 3
    case Expire => 4
    case Ttl => 5
    case Ping => 6
    case Echo => 7
    case Dbsize => 8
    case Flushall => 9
    case Quit => 10
  }

  lemma RowOfIs(cmd: Cmd)
    ensures ROWS[RowOf(cmd)].cmd == cmd
  {
  }

  lemma NamesDiffer(a: Cmd, b: Cmd)
    requires NameOf(a) == NameOf(b)
    ensures a == b
  {
    var x, y := NameOf(a), NameOf(b);
    assert |x| == |y| && x[0] == y[0] && x[|x| - 1] == y[|y| - 1] && x[1] == y[1];
  }

  /** The name in any case and a fitting number of arguments decide the command. */
  lemma PickIs(args: seq<string>, cmd: Cmd)
    requires args != []
    ensures Pick(args) == Fit(cmd) <==> Lowered(args[0]) == NameOf(cmd) && Enough(cmd, |args|)
  {
    var i := RowFrom(args[0], 0);
    RowOfIs(cmd);
    RowNamed(RowOf(cmd));
    if i != -1 {
      RowNamed(i);
      RowEnough(i, |args|);
      if Lowered(args[0]) == NameOf(cmd) {
        NamesDiffer(cmd, ROWS[i].cmd);
      }
    }
  }

  /** Any other name is unknown, and a known one with another number of arguments is refused by its name. */
  lemma PickIsNot(args: seq<string>)
    requires args != []
    ensures Pick(args) == Nothing <==> forall cmd :: Lowered(args[0]) != NameOf(cmd)
    ensures forall cmd :: Lowered(args[0]) == NameOf(cmd) && !Enough(cmd, |args|) ==> Pick(args) == Misfit(NameOf(cmd))
  {
    var i := RowFrom(args[0], 0);
    if i != -1 {
      RowNamed(i);
      RowEnough(i, |args|);
    }
    forall cmd | Lowered(args[0]) == NameOf(cmd)
      ensures i != -1 && cmd == ROWS[i].cmd
    {
      RowOfIs(cmd);
      RowNamed(RowOf(cmd));
      NamesDiffer(cmd, ROWS[i].cmd);
    }
  }

  const UPPER := "ABCDEFGHIJKLMNOPQRSTUVWXYZ"
  const LOWER := "abcdefghijklmnopqrstuvwxyz"

  /** Case is ignored for the 26 letters and for nothing else. */
  lemma LowerIs(c: char, i: nat)
    requires i < |UPPER|
    ensures Lower(UPPER[i]) == LOWER[i]
    ensures c !in UPPER ==> Lower(c) == c
  {
    LettersAt(i);
    if 'A' <= c <= 'Z' {
      LetterIn(c);
    }
  }

  lemma LettersAt(i: nat)
    requires i < |UPPER|
    ensures UPPER[i] as int == 'A' as int + i && LOWER[i] as int == 'a' as int + i
  {
  }

  lemma LetterIn(c: char)
    requires 'A' <= c <= 'Z'
    ensures c in UPPER
  {
    var j := c as int - 'A' as int;
    assert UPPER[j] == c;
  }

  // ---- numbers ----------------------------------------------------------------------------------

  predicate IsDigits(s: string) {
    s != [] && forall i :: 0 <= i < |s| ==> '0' <= s[i] <= '9'
  }

  /** What digits are worth by their places. */
  function Worth(s: string): int
    requires forall i :: 0 <= i < |s| ==> '0' <= s[i] <= '9'
  {
    if s == [] then 0 else (s[0] as int - '0' as int) * RespLaws.Pow10(|s| - 1) + Worth(s[1..])
  }

  lemma Tenfold(d: int, p: int)
    ensures d * (10 * p) == d * p * 10
  {
  }

  lemma {:induction false} WorthOn(s: string, c: char)
    requires (forall i :: 0 <= i < |s| ==> '0' <= s[i] <= '9') && '0' <= c <= '9'
    ensures forall i :: 0 <= i < |s + [c]| ==> '0' <= (s + [c])[i] <= '9'
    ensures Worth(s + [c]) == Worth(s) * 10 + (c as int - '0' as int)
  {
    if s == [] {
      assert Worth([c][1..]) == 0;
    } else {
      assert (s + [c])[1..] == s[1..] + [c];
      WorthOn(s[1..], c);
      Tenfold(s[0] as int - '0' as int, RespLaws.Pow10(|s| - 1));
    }
  }

  lemma {:induction false} WorthIsValue(s: string)
    requires AllDigits(s)
    ensures (forall i :: 0 <= i < |s| ==> '0' <= s[i] <= '9') && Worth(s) == Resp.Value(s)
  {
    if s != [] {
      var front, last := s[..|s| - 1], s[|s| - 1];
      assert s == front + [last];
      WorthIsValue(front);
      WorthOn(front, last);
    }
  }

  /** An optional minus sign and digits worth `v`. */
  predicate Spells(s: string, v: int) {
    || (IsDigits(s) && v == Worth(s))
    || (s != [] && s[0] == '-' && IsDigits(s[1..]) && -v == Worth(s[1..]))
  }

  lemma ParseIntIs(s: string, v: int)
    ensures ParseInt(s) == Some(v) <==> -0x8000_0000_0000_0000 <= v <= 0x7fff_ffff_ffff_ffff && Spells(s, v)
  {
    if AllDigits(s) {
      WorthIsValue(s);
    }
    if s != [] && AllDigits(s[1..]) {
      WorthIsValue(s[1..]);
    }
  }

  // ---- the options of SET -----------------------------------------------------------------------

  /** `unit` is the milliseconds in one of what the option counts. */
  predicate Counts(opt: string, unit: int) {
    (Lowered(opt) == "ex" && unit == 1000) || (Lowered(opt) == "px" && unit == 1)
  }

  /** The texts after the value: none, KEEPTTL, or a count; anything else is bad syntax. */
  lemma SetOptionsAre(args: seq<string>, now: int)
    requires |args| >= 3 && 0 <= now <= INT64_MAX
    ensures var r := SetOptions(args, 3, now, NO_EXPIRY, false);
            && (|args| == 3 ==> r == At(-1))
            && (|args| == 4 && Lowered(args[3]) == "keepttl" ==> r == At(-2))
            && (|args| == 4 && Lowered(args[3]) != "keepttl" ==> r == Refused(Syntax))
            && (|args| > 4 && Lowered(args[3]) != "ex" && Lowered(args[3]) != "px" ==> r == Refused(Syntax))
  {
  }

  lemma Done(args: seq<string>, i: nat, now: int, at: int)
    requires 3 <= i <= |args| && 0 <= now <= INT64_MAX
    ensures SetOptions(args, i, now, at, true) == if i == |args| then At(at) else Refused(Syntax)
  {
  }

  /** EX seconds or PX milliseconds, exactly once: what is not a number, not positive, or past the last
      64-bit time is refused as such, and only then is anything more. */
  lemma SetCounts(args: seq<string>, now: int, unit: int)
    requires |args| > 4 && 0 <= now <= INT64_MAX && Counts(args[3], unit)
    ensures var r := SetOptions(args, 3, now, NO_EXPIRY, false);
            && (ParseInt(args[4]) == None ==> r == Refused(NotInteger))
            && (forall n :: ParseInt(args[4]) == Some(n) && (n <= 0 || now + n * unit > 0x7fff_ffff_ffff_ffff) ==>
                  r == Refused(InvalidExpire("set")))
            && (forall n :: ParseInt(args[4]) == Some(n) && n > 0 && now + n * unit <= 0x7fff_ffff_ffff_ffff ==>
                  r == if |args| == 5 then At(now + n * unit) else Refused(Syntax))
  {
    var m := ParseInt(args[4]);
    if m.Some? && m.value > 0 {
      DeadlineExact(m.value, unit, now);
      Done(args, 5, now, now + m.value * unit);
    }
  }
}
