/** What a connection answers, however its bytes are split into reads
    (src/net/connection.cpp, src/core/command.cpp). */
module Conversations {
  import opened Resp
  import opened RespParser
  import opened Replies
  import opened CommandRows
  import opened Streams
  import Spec = StoreSpec

  // ---- any service ------------------------------------------------------------------------------

  /** A session and the state its commands have made of whatever serves them. */
  datatype Talk<W> = Talk(c: Session, w: W)

  /** What serves commands: a row of them after `n` others, and malformed bytes. */
  datatype Service<!W> = Service(serve: (W, seq<seq<string>>, nat) -> W, fail: (W, Error) -> W)

  ghost predicate ComposesAt<W(!new)>(v: Service<W>, w: W, a: seq<seq<string>>, b: seq<seq<string>>, n: nat) {
    v.serve(w, a + b, n) == v.serve(v.serve(w, a, n), b, n + |a|) && v.serve(w, [], n) == w
  }

  /** Serving two rows one after the other is serving them as one. */
  ghost predicate Composes<W(!new)>(v: Service<W>) {
    forall w, a, b, n {:trigger ComposesAt(v, w, a, b, n)} :: ComposesAt(v, w, a, b, n)
  }

  ghost function Ended<W>(v: Service<W>, w: W, end: End): W {
    if end.Failing? then v.fail(w, end.error) else w
  }

  /** One read: the commands it completes are served at once. */
  ghost function Heed<W>(v: Service<W>, k: Talk<W>, bytes: string): Talk<W> {
    if !k.c.end.Waiting? then Talk(Fed(k.c, bytes), k.w)
    else Talk(Fed(k.c, bytes), Taking(v, k.w, |k.c.cmds|, ScriptOf(k.c.left + bytes)))
  }

  ghost function HeedAll<W>(v: Service<W>, k: Talk<W>, chunks: seq<string>): Talk<W>
    decreases |chunks|
  {
    if chunks == [] then k else HeedAll(v, Heed(v, k, chunks[0]), chunks[1..])
  }

  /** What a script makes of the state after `n` commands. */
  ghost function Taking<W>(v: Service<W>, w: W, n: nat, r: Script): W {
    Ended(v, v.serve(w, r.cmds, n), r.end)
  }

  lemma TakingOn<W(!new)>(v: Service<W>, w: W, n: nat, m: nat, first: Script, rest: Script, both: Script)
    requires Composes(v) && first.end.Waiting? && m == n + |first.cmds| && both == Onward(first, rest)
    ensures Taking(v, w, n, both) == Taking(v, Taking(v, w, n, first), m, rest)
  {
    assert ComposesAt(v, w, first.cmds, rest.cmds, n);
  }

  lemma HeedWorld<W>(v: Service<W>, k: Talk<W>, bytes: string)
    ensures Heed(v, k, bytes).c == Fed(k.c, bytes)
    ensures Heed(v, k, bytes).w == if k.c.end.Waiting? then Taking(v, k.w, |k.c.cmds|, ScriptOf(k.c.left + bytes))
              else k.w
  {
  }

  /** What a session's two reads dispatch is what one dispatches. */
  lemma ScriptTwice(c: Session, a: string, b: string) returns (r: Script, q: Script)
    requires c.end.Waiting?
    ensures r == ScriptOf(c.left + a) && ScriptOf(c.left + (a + b)) == if r.end.Waiting? then Onward(r, q) else r
    ensures var d := Fed(c, a);
            d.end == r.end && |d.cmds| == |c.cmds| + |r.cmds| && (r.end.Waiting? ==> q == ScriptOf(d.left + b))
  {
    var s := c.left + a;
    r := ScriptOf(s);
    q := ScriptOf(s[r.used..] + b);
    assert c.left + (a + b) == s + b;
    ScriptGoesOn(s, b);
  }

  lemma WorldTwice<W(!new)>(v: Service<W>, k: Talk<W>, a: string, b: string)
    requires Composes(v) && k.c.end.Waiting?
    ensures Heed(v, Heed(v, k, a), b).w == Heed(v, k, a + b).w
  {
    var r, q := ScriptTwice(k.c, a, b);
    var x := Heed(v, k, a);
    HeedWorld(v, k, a);
    HeedWorld(v, k, a + b);
    HeedWorld(v, x, b);
    if r.end.Waiting? {
      TakingOn(v, k.w, |k.c.cmds|, |x.c.cmds|, r, q, ScriptOf(k.c.left + (a + b)));
    }
  }

  /** Two reads are one. */
  lemma HeedTwice<W(!new)>(v: Service<W>, k: Talk<W>, a: string, b: string)
    requires Composes(v)
    ensures Heed(v, Heed(v, k, a), b) == Heed(v, k, a + b)
  {
    FedTwice(k.c, a, b);
    if k.c.end.Waiting? {
      WorldTwice(v, k, a, b);
    }
    HeedWorld(v, k, a);
    HeedWorld(v, k, a + b);
    HeedWorld(v, Heed(v, k, a), b);
  }

  lemma HeedNothing<W(!new)>(v: Service<W>, k: Talk<W>)
    requires Composes(v) && (k.c.end.Waiting? ==> CommandOf(k.c.left) == Incomplete)
    ensures Heed(v, k, "") == k
  {
    FedNothing(k.c);
    assert k.c.left + "" == k.c.left;
    assert ComposesAt(v, k.w, [], [], |k.c.cmds|);
  }

  lemma HeedLeaves<W>(v: Service<W>, k: Talk<W>, bytes: string)
    ensures var c := Heed(v, k, bytes).c; c.end.Waiting? ==> CommandOf(c.left) == Incomplete
  {
    if Fed(k.c, bytes).end.Waiting? {
      LeftIsIncomplete(k.c.left + bytes);
    }
  }

  /** However a stream is split, every service ends as if all the bytes had been read at once. */
  lemma {:induction false} SplitsChangeNothing<W(!new)>(v: Service<W>, k: Talk<W>, chunks: seq<string>)
    requires Composes(v) && (k.c.end.Waiting? ==> CommandOf(k.c.left) == Incomplete)
    ensures HeedAll(v, k, chunks) == Heed(v, k, Joined(chunks))
    decreases |chunks|
  {
    if chunks == [] {
      HeedNothing(v, k);
    } else {
      HeedLeaves(v, k, chunks[0]);
      SplitsChangeNothing(v, Heed(v, k, chunks[0]), chunks[1..]);
      HeedTwice(v, k, chunks[0], Joined(chunks[1..]));
    }
  }

  // ---- the store --------------------------------------------------------------------------------

  /** The sampler's choice for one command. */
  datatype Pick = Pick(sample: set<string>, gone: set<string>)

  /** The commands as turns at one clock; `picks` is for the first of the session, the second, and so on. */
  function TurnsOf(cmds: seq<seq<string>>, from: nat, now: Clock, picks: nat -> Pick): (r: seq<Turn>)
    ensures |r| == |cmds|
  {
    seq(|cmds|, i requires 0 <= i < |cmds| => Turn(cmds[i], now, picks(from + i).sample, picks(from + i).gone))
  }

  /** The reply to malformed bytes. */
  function ErrorReplies(end: End): seq<Reply> {
    if end.Failing? then [Replies.Error(ErrorText(end.error))] else []
  }

  ghost function Served(cfg: Spec.Config, now: Clock, picks: nat -> Pick, p: Played, cmds: seq<seq<string>>,
                        n: nat): Played
  {
    Play(cfg, p, TurnsOf(cmds, n, now, picks))
  }

  /** The store and the replies so far, served at clock `now` with these choices of the sampler. */
  ghost function StoreService(cfg: Spec.Config, now: Clock, picks: nat -> Pick): Service<Played> {
    Service((p: Played, cmds: seq<seq<string>>, n: nat) => Served(cfg, now, picks, p, cmds, n),
            (p: Played, e: Error) => Played(p.s, p.replies + ErrorReplies(Failing(e))))
  }

  lemma TurnsOn(a: seq<seq<string>>, b: seq<seq<string>>, from: nat, now: Clock, picks: nat -> Pick)
    ensures TurnsOf(a + b, from, now, picks) == TurnsOf(a, from, now, picks) + TurnsOf(b, from + |a|, now, picks)
  {
  }

  lemma StoreComposes(cfg: Spec.Config, now: Clock, picks: nat -> Pick)
    ensures Composes(StoreService(cfg, now, picks))
  {
    forall w, a, b, n: nat ensures ComposesAt(StoreService(cfg, now, picks), w, a, b, n) {
      StoreComposesAt(cfg, now, picks, w, a, b, n, n + |a|);
    }
  }

  lemma StoreComposesAt(cfg: Spec.Config, now: Clock, picks: nat -> Pick, w: Played, a: seq<seq<string>>,
                        b: seq<seq<string>>, n: nat, m: nat)
    requires m == n + |a|
    ensures ComposesAt(StoreService(cfg, now, picks), w, a, b, n)
  {
    ServedOn(cfg, now, picks, w, a, b, n, m);
  }

  lemma ServedOn(cfg: Spec.Config, now: Clock, picks: nat -> Pick, w: Played, a: seq<seq<string>>,
                 b: seq<seq<string>>, n: nat, m: nat)
    requires m == n + |a|
    ensures Served(cfg, now, picks, w, a + b, n) == Served(cfg, now, picks, Served(cfg, now, picks, w, a, n), b, m)
    ensures Served(cfg, now, picks, w, [], n) == w
  {
    TurnsOn(a, b, n, now, picks);
    PlayRows(cfg, w, TurnsOf(a, n, now, picks), TurnsOf(b, m, now, picks), TurnsOf(a + b, n, now, picks));
  }

  lemma PlayRows(cfg: Spec.Config, w: Played, x: seq<Turn>, y: seq<Turn>, z: seq<Turn>)
    requires z == x + y
    ensures Play(cfg, w, z) == Play(cfg, Play(cfg, w, x), y)
  {
    PlayOn(cfg, w, x, y);
  }

  /** A read as the store sees it: these turns are played, and malformed bytes answered. */
  lemma StoreHeeds(cfg: Spec.Config, now: Clock, picks: nat -> Pick, k: Talk<Played>, taken: string, r: Script,
                   p: Played, all: seq<Reply>)
    requires k.c.end.Waiting? && r == ScriptOf(k.c.left + taken) && all == p.replies + ErrorReplies(r.end)
    requires p == Play(cfg, k.w, TurnsOf(r.cmds, |k.c.cmds|, now, picks))
    ensures var x := Heed(StoreService(cfg, now, picks), k, taken);
            x.c == Fed(k.c, taken) && x.w.s == p.s && x.w.replies == all
  {
    assert p.replies + [] == p.replies;
  }

  /** At one clock and with the same sampler choices, two ways of splitting one stream give the same
      reply bytes, the same store, and the same bytes left. */
  lemma SameStreamSameReplies(cfg: Spec.Config, now: Clock, picks: nat -> Pick, k: Talk<Played>, a: seq<string>,
                              b: seq<string>)
    requires Joined(a) == Joined(b) && (k.c.end.Waiting? ==> CommandOf(k.c.left) == Incomplete)
    ensures var v := StoreService(cfg, now, picks);
            var x, y := HeedAll(v, k, a), HeedAll(v, k, b);
            EncodeAll(x.w.replies) == EncodeAll(y.w.replies) && x.w.s == y.w.s && x.c == y.c
  {
    var v := StoreService(cfg, now, picks);
    StoreComposes(cfg, now, picks);
    SplitsChangeNothing(v, k, a);
    SplitsChangeNothing(v, k, b);
  }
}
