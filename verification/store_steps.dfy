/** Every call of the store is a step of the run model (src/core/store.h, src/core/store.cpp). */
module StoreSteps {
  import opened Bits
  import opened Entries
  import opened StoreRuns
  import opened Stores
  import Spec = StoreSpec

  /** A call as the caller makes it; what a set evicts is not the caller's to say. */
  datatype Call =
    | CallFind(key: string, touch: bool)
    | CallSet(key: string, value: string, at: int)
    | CallErase(key: string)
    | CallExpireAt(key: string, at: int)
    | CallTtl(key: string)
    | CallCycle(limit: nat)
    | CallClear

  /** `op` is the call with an outcome. */
  ghost predicate IsCall(call: Call, op: Op) {
    match call
    case CallFind(key, touch) => op == Op.Find(key, touch)
    case CallSet(key, value, at) => op.Set? && op.key == key && op.value == value && op.at == at
    case CallErase(key) => op == Op.Erase(key)
    case CallExpireAt(key, at) => op == Op.ExpireAt(key, at)
    case CallTtl(key) => op == Op.Ttl(key)
    case CallCycle(limit) => op == Op.Cycle(limit)
    case CallClear => op == Op.Clear
  }

  /** From `s` to `t` with this answer is a step of the run model. */
  ghost predicate IsStep(h: string -> nat, cfg: Spec.Config, s: Spec.St, now: int, op: Op, t: Spec.St, a: Answer) {
    IsPow2(s.buckets) && Allowed(cfg, s, now, Step(now, op)) && t == Next(h, cfg, s, Step(now, op))
    && a == Reply(s, Step(now, op))
  }

  method DoFind(store: Store, key: string, touch: bool, now: int) returns (a: Answer)
    requires store.Valid()
    modifies store, store.table
    ensures store.Valid()
    ensures IsStep(store.table.hashOf, store.Cfg(), old(store.Abs()), now, Op.Find(key, touch), store.Abs(), a)
  {
    var p := store.Find(key, now, touch);
    if p == Null {
      return Missing;
    }
    var r := store.table.Record(p.block);
    a := Hit(r.value);
  }

  method DoSet(store: Store, key: string, value: string, at: int, now: int) returns (a: Answer, ghost op: Op)
    requires store.Valid() && |key| + |value| < U32
    modifies store, store.table
    ensures store.Valid() && IsCall(CallSet(key, value, at), op)
    ensures IsStep(store.table.hashOf, store.Cfg(), old(store.Abs()), now, op, store.Abs(), a)
  {
    var ok;
    ghost var sample, gone;
    ok, sample, gone := store.Set(key, value, at, now);
    a, op := Did(ok), Op.Set(key, value, at, sample, gone, ok);
  }

  method DoErase(store: Store, key: string, now: int) returns (a: Answer)
    requires store.Valid()
    modifies store, store.table
    ensures store.Valid()
    ensures IsStep(store.table.hashOf, store.Cfg(), old(store.Abs()), now, Op.Erase(key), store.Abs(), a)
  {
    var existed := store.Erase(key, now);
    a := Did(existed);
  }

  method DoExpireAt(store: Store, key: string, at: int, now: int) returns (a: Answer)
    requires store.Valid() && at != Spec.KEEP_TTL && at != NO_EXPIRY
    modifies store, store.table
    ensures store.Valid()
    ensures IsStep(store.table.hashOf, store.Cfg(), old(store.Abs()), now, Op.ExpireAt(key, at), store.Abs(), a)
  {
    var existed := store.SetExpireAt(key, at, now);
    a := Did(existed);
  }

  method DoTtl(store: Store, key: string, now: int) returns (a: Answer)
    requires store.Valid()
    modifies store, store.table
    ensures store.Valid() && IsStep(store.table.hashOf, store.Cfg(), old(store.Abs()), now, Op.Ttl(key), store.Abs(), a)
  {
    var ms := store.TtlMs(key, now);
    a := Ms(ms);
  }

  method DoCycle(store: Store, limit: nat, now: int) returns (a: Answer)
    requires store.Valid()
    modifies store, store.table
    ensures store.Valid()
    ensures IsStep(store.table.hashOf, store.Cfg(), old(store.Abs()), now, Op.Cycle(limit), store.Abs(), a)
  {
    var reaped, passes := store.ActiveExpireCycle(now, limit);
    a := Done;
  }

  method DoClear(store: Store, ghost now: int) returns (a: Answer)
    requires store.Valid()
    modifies store, store.table
    ensures store.Valid() && IsStep(store.table.hashOf, store.Cfg(), old(store.Abs()), now, Op.Clear, store.Abs(), a)
  {
    store.Clear();
    a := Done;
  }

  /** Any call: the store moves and answers as the run model does, so every theorem about runs is
      one about the store. */
  method Perform(store: Store, call: Call, now: int) returns (a: Answer, ghost op: Op)
    requires store.Valid()
    requires call.CallSet? ==> |call.key| + |call.value| < U32
    requires call.CallExpireAt? ==> call.at != Spec.KEEP_TTL && call.at != NO_EXPIRY
    modifies store, store.table
    ensures store.Valid() && IsCall(call, op)
    ensures IsStep(store.table.hashOf, store.Cfg(), old(store.Abs()), now, op, store.Abs(), a)
  {
    match call {
      case CallFind(key, touch) =>
        a := DoFind(store, key, touch, now);
        op := Op.Find(key, touch);
      case CallSet(key, value, at) =>
        a, op := DoSet(store, key, value, at, now);
      case CallErase(key) =>
        a := DoErase(store, key, now);
        op := Op.Erase(key);
      case CallExpireAt(key, at) =>
        a := DoExpireAt(store, key, at, now);
        op := Op.ExpireAt(key, at);
      case CallTtl(key) =>
        a := DoTtl(store, key, now);
        op := Op.Ttl(key);
      case CallCycle(limit) =>
        a := DoCycle(store, limit, now);
        op := Op.Cycle(limit);
      case CallClear =>
        a := DoClear(store, now);
        op := Op.Clear;
    }
  }

  datatype Timed = Timed(now: int, call: Call)

  /** What the source asks of its callers, and a clock that never goes back. */
  ghost predicate Proper(last: int, calls: seq<Timed>)
    decreases |calls|
  {
    calls == [] ||
    (&& last <= calls[0].now
     && (calls[0].call.CallSet? ==> |calls[0].call.key| + |calls[0].call.value| < U32)
     && (calls[0].call.CallExpireAt? ==> calls[0].call.at != Spec.KEEP_TTL && calls[0].call.at != NO_EXPIRY)
     && Proper(calls[0].now, calls[1..]))
  }

  /** The run makes these calls at these times. */
  ghost predicate Makes(run: seq<Step>, calls: seq<Timed>)
    decreases |calls|
  {
    && |run| == |calls|
    && (calls != [] ==> run[0].now == calls[0].now && IsCall(calls[0].call, run[0].op) && Makes(run[1..], calls[1..]))
  }

  /** The run that begins with `step` and goes on as `run`. */
  lemma RunFrom(h: string -> nat, cfg: Spec.Config, s: Spec.St, last: int, now: int, op: Op, t: Spec.St, a: Answer,
                run: seq<Step>)
    requires last <= now && IsStep(h, cfg, s, now, op, t, a) && Legal(h, cfg, t, now, run)
    ensures var all := [Step(now, op)] + run;
            && Legal(h, cfg, s, last, all) && Final(h, cfg, s, last, all) == Final(h, cfg, t, now, run)
            && Replies(h, cfg, s, last, all) == [a] + Replies(h, cfg, t, now, run)
  {
    var all := [Step(now, op)] + run;
    assert all[0] == Step(now, op) && all[1..] == run;
  }

  /** Any calls in a row are a legal run of the model, with its answers. */
  method PerformAll(store: Store, calls: seq<Timed>, ghost last: int)
    returns (answers: seq<Answer>, ghost run: seq<Step>)
    requires store.Valid() && Proper(last, calls)
    modifies store, store.table
    ensures store.Valid() && Makes(run, calls) && Legal(store.table.hashOf, store.Cfg(), old(store.Abs()), last, run)
    ensures answers == Replies(store.table.hashOf, store.Cfg(), old(store.Abs()), last, run)
    ensures store.Abs() == Final(store.table.hashOf, store.Cfg(), old(store.Abs()), last, run)
    decreases |calls|
  {
    if |calls| == 0 {
      return [], [];
    }
    ghost var s := store.Abs();
    ghost var op;
    var a;
    a, op := Perform(store, calls[0].call, calls[0].now);
    ghost var t := store.Abs();
    answers, run := PerformAll(store, calls[1..], calls[0].now);
    RunFrom(store.table.hashOf, store.Cfg(), s, last, calls[0].now, op, t, a, run);
    ghost var all := [Step(calls[0].now, op)] + run;
    assert all[1..] == run;
    answers, run := [a] + answers, all;
  }

  /** From an empty store any calls in a row answer as the plain map does. */
  method PerformFromEmpty(store: Store, calls: seq<Timed>, ghost last: int)
    returns (answers: seq<Answer>, ghost run: seq<Step>)
    requires store.Valid() && store.Abs().m == map[] && Proper(last, calls)
    modifies store, store.table
    ensures store.Valid() && Makes(run, calls) && Legal(store.table.hashOf, store.Cfg(), old(store.Abs()), last, run)
    ensures answers == PlainReplies(map[], run)
  {
    ghost var s := store.Abs();
    answers, run := PerformAll(store, calls, last);
    RunAgrees(store.table.hashOf, store.Cfg(), s, map[], last, run);
  }
}
