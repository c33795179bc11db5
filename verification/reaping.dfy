/** How soon expire cycles free an expired entry (src/core/store.h, src/core/store.cpp). */
module Reaping {
  import opened Bits
  import opened Entries
  import opened StoreRuns
  import Spec = StoreSpec
  import Scan

  /** How many buckets the scan has to go before `k`'s. */
  ghost function Gap(h: string -> nat, s: Spec.St, k: string): nat
    requires IsPow2(s.buckets)
  {
    var at, here := Rev(h(k) % U32, s.buckets), Rev(s.cursor, s.buckets);
    if at >= here then at - here else s.buckets - here + at
  }

  /** Scanning one bucket frees an expired key or brings its bucket one nearer. */
  lemma ScanCloser(h: string -> nat, s: Spec.St, now: int, k: string)
    requires IsPow2(s.buckets) && s.cursor < s.buckets && Spec.Dead(s.m, k, now)
    ensures var t := Spec.ScanOne(h, s, now);
            k in t.m ==> Gap(h, s, k) > 0 && Gap(h, t, k) == Gap(h, s, k) - 1 && t.m[k] == s.m[k]
  {
    Scan.HereWhenEqual(h, Scan.View(s.m.Keys, s.buckets, s.cursor), k);
    NextCursorSteps(s.cursor, s.buckets);
    RevZero(s.buckets);
  }

  /** A pass frees an expired key or brings it nearer, and moves at least once unless it has stopped. */
  lemma {:induction false} PassCloser(h: string -> nat, now: int, limit: nat, p: Spec.Pass, k: string)
    requires IsPow2(p.s.buckets) && p.s.cursor < p.s.buckets && Spec.Dead(p.s.m, k, now)
    ensures var r := Spec.RunPass(h, now, limit, p);
            k in r.s.m ==> && r.s.m[k] == p.s.m[k] && r.s.cursor < r.s.buckets && r.buckets >= p.buckets
                           && Gap(h, p.s, k) >= r.buckets - p.buckets
                           && Gap(h, r.s, k) == Gap(h, p.s, k) - (r.buckets - p.buckets)
    decreases limit * 20 - p.buckets
  {
    if p.wrapped || p.sampled >= limit || p.buckets >= limit * 20 {
    } else {
      var q := Spec.PassStep(h, now, p);
      ScanCloser(h, p.s, now, k);
      if k in q.s.m {
        PassCloser(h, now, limit, q, k);
      } else {
        var gone := PassReaps(h, now, limit, q);
      }
    }
  }

  /** Total buckets a cycle scans. */
  ghost function Scanned(h: string -> nat, now: int, limit: nat, c: Spec.Cycle): nat
    requires IsPow2(c.s.buckets)
    decreases Spec.MAX_PASSES - c.passes
  {
    if c.passes >= Spec.MAX_PASSES then 0
    else
      var p := Spec.RunPass(h, now, limit, Spec.Pass(c.s, 0, 0, 0, false));
      p.buckets + if p.wrapped || p.expired * 10 <= p.sampled then 0 else Scanned(h, now, limit, Spec.AfterPass(c, p))
  }

  lemma {:induction false} ScannedBound(h: string -> nat, now: int, limit: nat, c: Spec.Cycle)
    requires IsPow2(c.s.buckets) && c.passes <= Spec.MAX_PASSES
    ensures Scanned(h, now, limit, c) <= (Spec.MAX_PASSES - c.passes) * (20 * limit)
    decreases Spec.MAX_PASSES - c.passes
  {
    if c.passes == Spec.MAX_PASSES {
    } else {
      var p := Spec.RunPass(h, now, limit, Spec.Pass(c.s, 0, 0, 0, false));
      var gone := PassReaps(h, now, limit, Spec.Pass(c.s, 0, 0, 0, false));
      OneLess(Spec.MAX_PASSES - c.passes, 20 * limit);
      if !p.wrapped && p.expired * 10 > p.sampled {
        ScannedBound(h, now, limit, Spec.AfterPass(c, p));
      }
    }
  }

  lemma OneLess(left: nat, unit: nat)
    requires left > 0
    ensures left * unit == (left - 1) * unit + unit && (left - 1) * unit >= 0
  {
  }

  /** A cycle brings an expired key nearer by the buckets it scans, or frees it. */
  lemma {:induction false} CycleCloser(h: string -> nat, now: int, limit: nat, c: Spec.Cycle, k: string)
    requires IsPow2(c.s.buckets) && c.s.cursor < c.s.buckets && Spec.Dead(c.s.m, k, now)
    ensures var d := Spec.RunCycle(h, now, limit, c);
            k in d.s.m ==> && d.s.m[k] == c.s.m[k] && d.s.cursor < d.s.buckets
                           && Gap(h, d.s, k) + Scanned(h, now, limit, c) == Gap(h, c.s, k)
    decreases Spec.MAX_PASSES - c.passes
  {
    if c.passes >= Spec.MAX_PASSES {
    } else {
      var start := Spec.Pass(c.s, 0, 0, 0, false);
      var p := Spec.RunPass(h, now, limit, start);
      PassCloser(h, now, limit, start, k);
      var d := Spec.AfterPass(c, p);
      if !p.wrapped && p.expired * 10 > p.sampled {
        if k in p.s.m {
          CycleCloser(h, now, limit, d, k);
        } else {
          var gone := CycleReaps(h, now, limit, d);
        }
      }
    }
  }

  lemma {:induction false} PassBuckets(h: string -> nat, now: int, limit: nat, p: Spec.Pass)
    requires IsPow2(p.s.buckets)
    ensures Spec.RunPass(h, now, limit, p).buckets >= p.buckets
    decreases limit * 20 - p.buckets
  {
    if p.wrapped || p.sampled >= limit || p.buckets >= limit * 20 {
    } else {
      PassBuckets(h, now, limit, Spec.PassStep(h, now, p));
    }
  }

  lemma ScansSome(h: string -> nat, now: int, limit: nat, s: Spec.St)
    requires IsPow2(s.buckets) && limit >= 1
    ensures Scanned(h, now, limit, Spec.Cycle(s, 0, 0)) >= 1
  {
    PassBuckets(h, now, limit, Spec.PassStep(h, now, Spec.Pass(s, 0, 0, 0, false)));
  }

  // ---- over runs --------------------------------------------------------------------------------

  ghost predicate IsCycle(step: Step) {
    step.op.Cycle? && step.op.limit >= 1
  }

  ghost function Cycles(run: seq<Step>): nat
    decreases |run|
  {
    if run == [] then 0 else Cycles(run[1..]) + if IsCycle(run[0]) then 1 else 0
  }

  /** The bucket count never changes and the entry under `k` is there, expired, all along. */
  ghost predicate Lingers(h: string -> nat, cfg: Spec.Config, s: Spec.St, last: int, run: seq<Step>, k: string)
    requires Legal(h, cfg, s, last, run)
    decreases |run|
  {
    && Spec.Dead(s.m, k, last)
    && (run != [] ==>
          && Next(h, cfg, s, run[0]).buckets == s.buckets
          && Lingers(h, cfg, Next(h, cfg, s, run[0]), run[0].now, run[1..], k))
  }

  /** An operation on a key finds its expired entry and frees it, so others leave the gap alone. */
  lemma StepCloser(h: string -> nat, cfg: Spec.Config, s: Spec.St, last: int, step: Step, k: string)
    requires IsPow2(s.buckets) && s.cursor < s.buckets && Spec.Dead(s.m, k, last) && Allowed(cfg, s, last, step)
    requires var t := Next(h, cfg, s, step); t.buckets == s.buckets && Spec.Dead(t.m, k, step.now)
    ensures var t := Next(h, cfg, s, step);
            t.cursor < t.buckets && Gap(h, t, k) + (if IsCycle(step) then 1 else 0) <= Gap(h, s, k)
  {
    if step.op.Cycle? {
      assert Spec.Dead(s.m, k, step.now);
      CycleCloser(h, step.now, step.op.limit, Spec.Cycle(s, 0, 0), k);
      if IsCycle(step) {
        ScansSome(h, step.now, step.op.limit, s);
      }
    } else if !step.op.Clear? {
      OpGrows(h, cfg, s, step);
    }
  }

  lemma {:induction false} RunCloser(h: string -> nat, cfg: Spec.Config, s: Spec.St, last: int, run: seq<Step>,
                                     k: string)
    requires IsPow2(s.buckets) && s.cursor < s.buckets && Legal(h, cfg, s, last, run)
    requires Lingers(h, cfg, s, last, run, k)
    ensures Cycles(run) <= Gap(h, s, k)
    decreases |run|
  {
    if run == [] {
    } else {
      var t := Next(h, cfg, s, run[0]);
      assert Lingers(h, cfg, t, run[0].now, run[1..], k);
      StepCloser(h, cfg, s, last, run[0], k);
      RunCloser(h, cfg, t, run[0].now, run[1..], k);
    }
  }

  /** With the bucket count fixed, no entry stays expired through as many cycles as there are
      buckets, whatever else happens between them. */
  lemma ReapedInTime(h: string -> nat, cfg: Spec.Config, s: Spec.St, last: int, run: seq<Step>, k: string)
    requires IsPow2(s.buckets) && s.cursor < s.buckets && Legal(h, cfg, s, last, run)
    requires Cycles(run) >= s.buckets
    ensures !Lingers(h, cfg, s, last, run, k)
  {
    if Lingers(h, cfg, s, last, run, k) {
      RunCloser(h, cfg, s, last, run, k);
    }
  }

  ghost predicate CyclesOnly(run: seq<Step>)
    decreases |run|
  {
    run == [] || (IsCycle(run[0]) && CyclesOnly(run[1..]))
  }

  /** As many successive cycles as there are buckets free every entry expired at the first. */
  lemma {:induction false} GoneAfterCycles(h: string -> nat, cfg: Spec.Config, s: Spec.St, last: int, run: seq<Step>,
                                           k: string)
    requires IsPow2(s.buckets) && s.cursor < s.buckets && Legal(h, cfg, s, last, run) && CyclesOnly(run)
    requires k in s.m ==> Spec.Dead(s.m, k, last) && |run| > Gap(h, s, k)
    ensures k !in Final(h, cfg, s, last, run).m
    decreases |run|
  {
    if run == [] {
    } else {
      var t := Next(h, cfg, s, run[0]);
      var gone := CycleReaps(h, run[0].now, run[0].op.limit, Spec.Cycle(s, 0, 0));
      if k in t.m {
        StepCloser(h, cfg, s, last, run[0], k);
      }
      GoneAfterCycles(h, cfg, t, run[0].now, run[1..], k);
    }
  }

  lemma ReapedByCycles(h: string -> nat, cfg: Spec.Config, s: Spec.St, last: int, run: seq<Step>, k: string)
    requires IsPow2(s.buckets) && s.cursor < s.buckets && Legal(h, cfg, s, last, run) && CyclesOnly(run)
    requires |run| >= s.buckets && Spec.Dead(s.m, k, last)
    ensures k !in Final(h, cfg, s, last, run).m
  {
    GoneAfterCycles(h, cfg, s, last, run, k);
  }

  // ---- through growth ---------------------------------------------------------------------------

  /** 1 when the scan has yet to reach `k`'s bucket before it wraps, else 0. */
  ghost function AheadOf(h: string -> nat, s: Spec.St, k: string): nat
    requires IsPow2(s.buckets) && s.cursor < s.buckets
  {
    Scan.Ahead(h, Scan.View(s.m.Keys, s.buckets, s.cursor), k)
  }

  lemma AheadAtStart(h: string -> nat, s: Spec.St, k: string)
    requires IsPow2(s.buckets) && s.cursor == 0
    ensures s.cursor < s.buckets && AheadOf(h, s, k) == 1
  {
    RevZero(s.buckets);
  }

  /** A scanned bucket that keeps an expired key is not the key's, so the scan has passed that
      bucket before it can wrap. */
  lemma ScanAhead(h: string -> nat, s: Spec.St, now: int, k: string)
    requires IsPow2(s.buckets) && s.cursor < s.buckets && Spec.Dead(s.m, k, now) && k in Spec.ScanOne(h, s, now).m
    ensures var t := Spec.ScanOne(h, s, now);
            t.cursor < t.buckets && AheadOf(h, t, k) == AheadOf(h, s, k) + if t.cursor == 0 then 1 else 0
  {
    var v, op := Scan.View(s.m.Keys, s.buckets, s.cursor), Scan.Visit(Spec.DeadHere(h, s, now));
    NextCursorSteps(s.cursor, s.buckets);
    if Scan.Wraps(v, op) {
      Scan.WrapFinishes(h, v, op, k);
      AheadAtStart(h, Spec.ScanOne(h, s, now), k);
    } else {
      Scan.StepPasses(h, v, op, k);
    }
  }

  /** 1 when the rest of the pass brings the cursor back to 0. */
  ghost function PassWraps(h: string -> nat, now: int, limit: nat, p: Spec.Pass): nat
    requires IsPow2(p.s.buckets)
  {
    if !p.wrapped && Spec.RunPass(h, now, limit, p).wrapped then 1 else 0
  }

  lemma {:induction false} PassAhead(h: string -> nat, now: int, limit: nat, p: Spec.Pass, k: string)
    requires IsPow2(p.s.buckets) && p.s.cursor < p.s.buckets && Spec.Dead(p.s.m, k, now)
    requires k in Spec.RunPass(h, now, limit, p).s.m
    ensures var r := Spec.RunPass(h, now, limit, p);
            && r.s.cursor < r.s.buckets && r.s.m[k] == p.s.m[k]
            && AheadOf(h, r.s, k) == AheadOf(h, p.s, k) + PassWraps(h, now, limit, p)
    decreases limit * 20 - p.buckets
  {
    if p.wrapped || p.sampled >= limit || p.buckets >= limit * 20 {
    } else {
      var q := Spec.PassStep(h, now, p);
      var gone := PassReaps(h, now, limit, q);
      ScanAhead(h, p.s, now, k);
      PassAhead(h, now, limit, q, k);
    }
  }

  /** 1 when a pass of the cycle brings the cursor back to 0, which ends the cycle. */
  ghost function CycleWraps(h: string -> nat, now: int, limit: nat, c: Spec.Cycle): nat
    requires IsPow2(c.s.buckets)
    decreases Spec.MAX_PASSES - c.passes
  {
    if c.passes >= Spec.MAX_PASSES then 0
    else
      var p := Spec.RunPass(h, now, limit, Spec.Pass(c.s, 0, 0, 0, false));
      if p.wrapped then 1
      else if p.expired * 10 <= p.sampled then 0 else CycleWraps(h, now, limit, Spec.AfterPass(c, p))
  }

  lemma {:induction false} CycleAhead(h: string -> nat, now: int, limit: nat, c: Spec.Cycle, k: string)
    requires IsPow2(c.s.buckets) && c.s.cursor < c.s.buckets && Spec.Dead(c.s.m, k, now)
    requires k in Spec.RunCycle(h, now, limit, c).s.m
    ensures var d := Spec.RunCycle(h, now, limit, c);
            && d.s.cursor < d.s.buckets
            && AheadOf(h, d.s, k) == AheadOf(h, c.s, k) + CycleWraps(h, now, limit, c)
    decreases Spec.MAX_PASSES - c.passes
  {
    if c.passes >= Spec.MAX_PASSES {
    } else {
      var start := Spec.Pass(c.s, 0, 0, 0, false);
      var p := Spec.RunPass(h, now, limit, start);
      var d := Spec.AfterPass(c, p);
      if p.wrapped || p.expired * 10 <= p.sampled {
        PassAhead(h, now, limit, start, k);
      } else {
        var gone := CycleReaps(h, now, limit, d);
        PassAhead(h, now, limit, start, k);
        CycleAhead(h, now, limit, d, k);
      }
    }
  }

  ghost function StepWraps(h: string -> nat, s: Spec.St, step: Step): nat
    requires IsPow2(s.buckets)
  {
    if step.op.Cycle? then CycleWraps(h, step.now, step.op.limit, Spec.Cycle(s, 0, 0)) else 0
  }

  lemma StepAhead(h: string -> nat, cfg: Spec.Config, s: Spec.St, last: int, step: Step, k: string)
    requires IsPow2(s.buckets) && s.cursor < s.buckets && Spec.Dead(s.m, k, last) && Allowed(cfg, s, last, step)
    requires k in Next(h, cfg, s, step).m
    ensures var t := Next(h, cfg, s, step);
            && IsPow2(t.buckets) && t.cursor < t.buckets
            && AheadOf(h, t, k) == AheadOf(h, s, k) + StepWraps(h, s, step)
  {
    if step.op.Cycle? {
      assert Spec.Dead(s.m, k, step.now);
      CycleAhead(h, step.now, step.op.limit, Spec.Cycle(s, 0, 0), k);
    } else {
      OpGrows(h, cfg, s, step);
      var v := Scan.View(s.m.Keys, s.buckets, s.cursor);
      Scan.DoublingKeepsAhead(h, v, k);
      AheadOfKeys(h, v, Scan.View(Next(h, cfg, s, step).m.Keys, s.buckets, s.cursor), k);
      AheadOfKeys(h, v.(buckets := 2 * v.buckets), Scan.View(Next(h, cfg, s, step).m.Keys, 2 * s.buckets, s.cursor), k);
    }
  }

  /** Only the bucket count and the cursor matter. */
  lemma AheadOfKeys(h: string -> nat, v: Scan.View, w: Scan.View, k: string)
    requires Scan.Ok(v) && w == v.(keys := w.keys)
    ensures Scan.Ahead(h, v, k) == Scan.Ahead(h, w, k)
  {
  }

  /** How often the run brings the cursor back to 0. */
  ghost function WrapsIn(h: string -> nat, cfg: Spec.Config, s: Spec.St, last: int, run: seq<Step>): nat
    requires Legal(h, cfg, s, last, run)
    decreases |run|
  {
    if run == [] then 0
    else StepWraps(h, s, run[0]) + WrapsIn(h, cfg, Next(h, cfg, s, run[0]), run[0].now, run[1..])
  }

  /** The entry under `k` is there, expired, all along, however the table grows. */
  ghost predicate Outstays(h: string -> nat, cfg: Spec.Config, s: Spec.St, last: int, run: seq<Step>, k: string)
    requires Legal(h, cfg, s, last, run)
    decreases |run|
  {
    && Spec.Dead(s.m, k, last)
    && (run != [] ==> Outstays(h, cfg, Next(h, cfg, s, run[0]), run[0].now, run[1..], k))
  }

  lemma {:induction false} RunAhead(h: string -> nat, cfg: Spec.Config, s: Spec.St, last: int, run: seq<Step>,
                                    k: string)
    requires IsPow2(s.buckets) && s.cursor < s.buckets && Legal(h, cfg, s, last, run)
    requires Outstays(h, cfg, s, last, run, k)
    ensures var t := Final(h, cfg, s, last, run);
            && IsPow2(t.buckets) && t.cursor < t.buckets
            && AheadOf(h, t, k) == AheadOf(h, s, k) + WrapsIn(h, cfg, s, last, run)
    decreases |run|
  {
    if run == [] {
    } else {
      var t := Next(h, cfg, s, run[0]);
      assert Outstays(h, cfg, t, run[0].now, run[1..], k);
      StepAhead(h, cfg, s, last, run[0], k);
      RunAhead(h, cfg, t, run[0].now, run[1..], k);
    }
  }

  /** However the table grows meanwhile, no entry stays expired while the cursor comes back to 0
      twice, or once when it starts there. */
  lemma ReapedByWrap(h: string -> nat, cfg: Spec.Config, s: Spec.St, last: int, run: seq<Step>, k: string)
    requires IsPow2(s.buckets) && s.cursor < s.buckets && Legal(h, cfg, s, last, run)
    requires WrapsIn(h, cfg, s, last, run) >= if s.cursor == 0 then 1 else 2
    ensures !Outstays(h, cfg, s, last, run, k)
  {
    if Outstays(h, cfg, s, last, run, k) {
      RunAhead(h, cfg, s, last, run, k);
      if s.cursor == 0 {
        AheadAtStart(h, s, k);
      }
    }
  }
}
