/** What the store's operations do, on values (src/core/store.h, src/core/store.cpp).

    A state is the key/record map with the bucket count, the expire cursor and the two
    counters. The one choice an operation leaves open is which entries the eviction sampler
    meets; it is an argument here, constrained by `EvictionOk`. */
module StoreSpec {
  import opened Bits
  import opened Entries
  import opened TableModel

  const KEEP_TTL: int := -2
  const MAX_PASSES: nat := 16
  const TTL_MISSING: int := -2

  datatype Policy = NoEviction | AllKeysLru

  datatype Config = Config(maxKeys: nat, lruSamples: nat, policy: Policy)

  datatype St = St(m: map<string, Rec>, buckets: nat, cursor: nat, evictions: nat, expired: nat)

  /** The low 32 bits of a clock reading. */
  function Clock32(now: int): nat {
    now % U32
  }

  /** Unsigned 32-bit difference between the clock and the entry's last use. */
  function Idle(r: Rec, now: int): nat {
    (Clock32(now) - r.lru) % U32
  }

  /** The visitor of the expire cycle and of evictions: what it removes. */
  function Stale(now: int): Rec -> bool {
    (r: Rec) => Expired(r.expiresAt, now)
  }

  ghost predicate Dead(m: map<string, Rec>, k: string, now: int) {
    k in m && Expired(m[k].expiresAt, now)
  }

  // ---- lookups ---------------------------------------------------------------------------------

  /** Every access first frees the entry it meets if its deadline has passed. */
  ghost function Lookup(s: St, key: string, now: int): St {
    if Dead(s.m, key, now) then s.(m := s.m - {key}, expired := s.expired + 1) else s
  }

  ghost function Find(s: St, key: string, now: int, touch: bool): St {
    var t := Lookup(s, key, now);
    if key in t.m && touch then t.(m := t.m[key := t.m[key].(lru := Clock32(now))]) else t
  }

  ghost function Erase(s: St, key: string, now: int): St {
    var t := Lookup(s, key, now);
    t.(m := t.m - {key})
  }

  /** A deadline before the clock removes the key at once. */
  ghost function SetExpireAt(s: St, key: string, at: int, now: int): St {
    var t := Lookup(s, key, now);
    if key !in t.m then t
    else if at < now then t.(m := t.m - {key})
    else t.(m := t.m[key := Rec(t.m[key].value, at, Clock32(now))])
  }

  ghost function TtlOf(s: St, key: string, now: int): int {
    var t := Lookup(s, key, now);
    if key !in t.m then TTL_MISSING
    else if t.m[key].expiresAt == NO_EXPIRY then NO_EXPIRY
    else t.m[key].expiresAt - now
  }

  // ---- set ---------------------------------------------------------------------------------------

  predicate PastDeadline(at: int, now: int) {
    at != NO_EXPIRY && at != KEEP_TTL && at < now
  }

  /** What the sampler may return from a non-empty table: distinct entries, at most the
      sample size, and all of them when the walk covers the table. */
  ghost predicate SampleOk(cfg: Config, s: St, sample: set<string>) {
    && sample <= s.m.Keys && sample != {} && |sample| <= cfg.lruSamples
    && (|s.m| <= cfg.lruSamples && s.buckets <= 10 * cfg.lruSamples ==> sample == s.m.Keys)
  }

  /** One eviction frees every expired entry of the sample, or else one longest-idle entry. */
  ghost predicate EvictionOk(cfg: Config, s: St, now: int, sample: set<string>, gone: set<string>) {
    && SampleOk(cfg, s, sample)
    && (if Dropped(s.m, sample, Stale(now)) != {} then gone == Dropped(s.m, sample, Stale(now))
        else exists v :: gone == {v} && Victim(s.m, now, sample, v))
  }

  ghost predicate Victim(m: map<string, Rec>, now: int, sample: set<string>, v: string) {
    v in sample && v in m && forall k :: k in sample && k in m ==> Idle(m[k], now) <= Idle(m[v], now)
  }

  ghost function Evict(s: St, now: int, gone: set<string>): St {
    if Dropped(s.m, gone, Stale(now)) != {}
    then s.(m := s.m - gone, expired := s.expired + |gone|)
    else s.(m := s.m - gone, evictions := s.evictions + 1)
  }

  ghost function Put(s: St, key: string, value: string, at: int, now: int): St {
    var m := s.m[key := Rec(value, if at == KEEP_TTL then NO_EXPIRY else at, Clock32(now))];
    s.(m := m, buckets := Grown(|m|, s.buckets))
  }

  /** There is room for a new key, or the policy makes some. */
  ghost predicate RoomOk(cfg: Config, t: St) {
    cfg.policy.NoEviction? ==> |t.m| < cfg.maxKeys
  }

  /** The sampler's choice, where a new key needs one. */
  ghost predicate RoomChoiceOk(cfg: Config, t: St, now: int, sample: set<string>, gone: set<string>) {
    if |t.m| >= cfg.maxKeys && cfg.policy.AllKeysLru?
    then EvictionOk(cfg, t, now, sample, gone)
    else sample == {} && gone == {}
  }

  ghost function SetNew(cfg: Config, t: St, key: string, value: string, at: int, now: int, gone: set<string>): St {
    if |t.m| < cfg.maxKeys then Put(t, key, value, at, now)
    else if cfg.policy.NoEviction? then t
    else Put(Evict(t, now, gone), key, value, at, now)
  }

  /** The set reaches the point where a new key needs a slot. */
  ghost predicate NeedsSlot(s: St, key: string, at: int, now: int) {
    !PastDeadline(at, now) && key !in Lookup(s, key, now).m
  }

  /** A set is refused exactly when its key needs a slot and there is no room. */
  ghost predicate SetOk(cfg: Config, s: St, key: string, at: int, now: int) {
    NeedsSlot(s, key, at, now) ==> RoomOk(cfg, Lookup(s, key, now))
  }

  ghost predicate ChoiceOk(cfg: Config, s: St, key: string, at: int, now: int, sample: set<string>, gone: set<string>) {
    if NeedsSlot(s, key, at, now) then RoomChoiceOk(cfg, Lookup(s, key, now), now, sample, gone)
    else sample == {} && gone == {}
  }

  ghost function Set(cfg: Config, s: St, key: string, value: string, at: int, now: int, gone: set<string>): St {
    var t := Lookup(s, key, now);
    if PastDeadline(at, now) then t.(m := t.m - {key})
    else if key in t.m then
      var e := if at == KEEP_TTL then t.m[key].expiresAt else at;
      t.(m := t.m[key := Rec(value, e, Clock32(now))])
    else SetNew(cfg, t, key, value, at, now, gone)
  }

  // ---- the expire cycle -----------------------------------------------------------------------------

  ghost function Here(h: string -> nat, s: St): set<string>
    requires s.buckets > 0
  {
    KeysAt(h, s.m.Keys, s.buckets, s.cursor)
  }

  ghost function DeadHere(h: string -> nat, s: St, now: int): set<string>
    requires s.buckets > 0
  {
    Dropped(s.m, Here(h, s), Stale(now))
  }

  /** One scanned bucket: its expired entries go and the cursor moves on. */
  ghost function ScanOne(h: string -> nat, s: St, now: int): St
    requires IsPow2(s.buckets)
  {
    s.(m := s.m - DeadHere(h, s, now), cursor := NextCursor(s.cursor, s.buckets))
  }

  datatype Pass = Pass(s: St, buckets: nat, sampled: nat, expired: nat, wrapped: bool)

  /** The rest of a pass that has scanned `p.buckets` buckets: it stops at the sample limit,
      at 20 buckets per sample, or when the cursor comes back to 0. */
  ghost function RunPass(h: string -> nat, now: int, limit: nat, p: Pass): (r: Pass)
    requires IsPow2(p.s.buckets)
    ensures r.s.buckets == p.s.buckets
    decreases limit * 20 - p.buckets
  {
    if p.wrapped || p.sampled >= limit || p.buckets >= limit * 20 then p
    else RunPass(h, now, limit, PassStep(h, now, p))
  }

  ghost function PassStep(h: string -> nat, now: int, p: Pass): (r: Pass)
    requires IsPow2(p.s.buckets)
    ensures r.s.buckets == p.s.buckets && r.buckets == p.buckets + 1
  {
    var t := ScanOne(h, p.s, now);
    Pass(t, p.buckets + 1, p.sampled + |Here(h, p.s)|, p.expired + |DeadHere(h, p.s, now)|, t.cursor == 0)
  }

  ghost predicate RunsFrom(h: string -> nat, now: int, limit: nat, run: Pass -> Pass, p: Pass) {
    IsPow2(p.s.buckets) ==> run(p) == RunPass(h, now, limit, p)
  }

  /** `run` takes every pass to its end. */
  ghost predicate Runs(h: string -> nat, now: int, limit: nat, run: Pass -> Pass) {
    forall p {:trigger RunsFrom(h, now, limit, run, p)} :: RunsFrom(h, now, limit, run, p)
  }

  lemma PassRunner(h: string -> nat, now: int, limit: nat) returns (run: Pass -> Pass)
    ensures Runs(h, now, limit, run)
  {
    run := (p: Pass) => if IsPow2(p.s.buckets) then RunPass(h, now, limit, p) else p;
  }

  lemma {:induction false} RunnerRuns(h: string -> nat, now: int, limit: nat, run: Pass -> Pass, p: Pass)
    requires IsPow2(p.s.buckets) && Runs(h, now, limit, run)
    ensures run(p) == RunPass(h, now, limit, p)
  {
    assert RunsFrom(h, now, limit, run, p);
  }

  /** A pass that has not stopped takes one more step. */
  lemma {:induction false} PassGoesOn(h: string -> nat, now: int, limit: nat, run: Pass -> Pass, p: Pass)
    requires IsPow2(p.s.buckets) && !p.wrapped && p.sampled < limit && p.buckets < limit * 20
    requires Runs(h, now, limit, run)
    ensures run(p) == run(PassStep(h, now, p))
  {
    RunnerRuns(h, now, limit, run, p);
    RunnerRuns(h, now, limit, run, PassStep(h, now, p));
  }

  lemma {:induction false} PassStops(h: string -> nat, now: int, limit: nat, run: Pass -> Pass, p: Pass)
    requires IsPow2(p.s.buckets) && (p.wrapped || p.sampled >= limit || p.buckets >= limit * 20)
    requires Runs(h, now, limit, run)
    ensures run(p) == p
  {
    RunnerRuns(h, now, limit, run, p);
  }

  ghost predicate PassResult(p: Pass, s: St, sampled: nat, expired: nat, wrapped: bool) {
    p.s == s && p.sampled == sampled && p.expired == expired && p.wrapped == wrapped
  }

  datatype Cycle = Cycle(s: St, reaped: nat, passes: nat)

  /** The rest of a cycle after `c.passes` passes: another one while more than a tenth of the
      last was expired, up to MAX_PASSES. */
  ghost function RunCycle(h: string -> nat, now: int, limit: nat, c: Cycle): (r: Cycle)
    requires IsPow2(c.s.buckets)
    ensures r.s.buckets == c.s.buckets
    decreases MAX_PASSES - c.passes
  {
    if c.passes >= MAX_PASSES then c
    else
      var p := RunPass(h, now, limit, Pass(c.s, 0, 0, 0, false));
      var d := AfterPass(c, p);
      if p.wrapped || p.expired * 10 <= p.sampled then d else RunCycle(h, now, limit, d)
  }

  ghost function AfterPass(c: Cycle, p: Pass): Cycle {
    Cycle(p.s.(expired := p.s.expired + p.expired), c.reaped + p.expired, c.passes + 1)
  }

  ghost function CycleFrom(h: string -> nat, now: int, limit: nat, c: Cycle, done: bool): Cycle
    requires IsPow2(c.s.buckets)
  {
    if done then c else RunCycle(h, now, limit, c)
  }

  /** A cycle goes on from the counters its last pass leaves. */
  lemma {:induction false} CycleGoesOn(h: string -> nat, now: int, limit: nat, c: Cycle, s: St, sampled: nat,
                                       expired: nat, wrapped: bool)
    requires IsPow2(c.s.buckets) && c.passes < MAX_PASSES && s.expired >= expired
    requires PassResult(RunPass(h, now, limit, Pass(c.s, 0, 0, 0, false)), s.(expired := s.expired - expired), sampled,
                        expired, wrapped)
    ensures s.buckets == c.s.buckets
    ensures CycleFrom(h, now, limit, c, false)
         == CycleFrom(h, now, limit, Cycle(s, c.reaped + expired, c.passes + 1), wrapped || expired * 10 <= sampled)
  {
  }

  ghost function ExpireCycle(h: string -> nat, s: St, now: int, limit: nat): Cycle
    requires IsPow2(s.buckets)
  {
    CycleFrom(h, now, limit, Cycle(s, 0, 0), false)
  }

  ghost function Clear(s: St): St {
    s.(m := map[], cursor := 0)
  }
}
