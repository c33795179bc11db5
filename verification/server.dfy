/** Connection bookkeeping and the batch loop (src/net/server.cpp, src/net/event_loop.cpp).

    An event carries the address of its handler. Addresses and descriptors are reused once
    freed, so every handler also has a serial number that is never reused: an event is safe
    when the handler at its address is still the one it was reported for. What epoll reports,
    which descriptor accept returns, where a connection is allocated and whether a handler's
    onReadable or onWritable closes its connection are arbitrary choices. */
module Servers {
  import opened Basics

  /** A handler: where it is, which one it is, and its descriptor. */
  datatype Handle = Handle(address: nat, serial: nat, fd: nat)

  /** connections_ and retired_, with the process's descriptors, the addresses in use, and the
      connections whose state is closed. */
  datatype World = World(acceptor: Handle, connections: map<nat, Handle>, retired: seq<Handle>,
                         openFds: set<nat>, addresses: set<nat>, nextSerial: nat, closed: set<nat>)

  /** One epoll event: what is ready, how many connections the acceptor would find pending, and
      whether each of the two callbacks would close the connection. */
  datatype Event = Event(handler: Handle, readable: bool, writable: bool, pending: nat, closesReading: bool,
                         closesWriting: bool)

  ghost predicate Apart(a: Handle, b: Handle) {
    a != b ==> a.address != b.address && a.serial != b.serial && a.fd != b.fd
  }

  function Handles(m: map<nat, Handle>): set<Handle> {
    set fd | fd in m :: m[fd]
  }

  /** The handlers that exist: constructed and not destroyed. */
  function All(w: World): set<Handle> {
    {w.acceptor} + Handles(w.connections) + set h | h in w.retired
  }

  ghost predicate Held(w: World, h: Handle) {
    h.fd in w.openFds && h.address in w.addresses && h.serial < w.nextSerial
  }

  /** The bookkeeping alone. */
  ghost predicate Kept(w: World) {
    && (forall a, b {:trigger Apart(a, b)} :: a in All(w) && b in All(w) ==> Apart(a, b))
    && (forall h {:trigger Held(w, h)} :: h in All(w) ==> Held(w, h))
    && (forall fd :: fd in w.connections ==>
        w.connections[fd].fd == fd && w.connections[fd] != w.acceptor && w.connections[fd] !in w.retired)
    && (forall i, j :: 0 <= i < j < |w.retired| ==> w.retired[i] != w.retired[j])
    && w.acceptor !in w.retired
  }

  /** A connection is in the map exactly while it is not closed. */
  ghost predicate Ok(w: World) {
    && Kept(w)
    && (forall fd :: fd in w.connections ==> w.connections[fd].serial !in w.closed)
    && (forall h :: h in w.retired ==> h.serial in w.closed)
    && (forall s :: s in w.closed ==> s < w.nextSerial)
  }

  datatype Phase = Unborn | Live | Retired | Destroyed

  ghost predicate HasLive(w: World, s: nat) {
    s == w.acceptor.serial || exists h :: h in Handles(w.connections) && h.serial == s
  }

  ghost predicate HasRetired(w: World, s: nat) {
    exists h :: h in w.retired && h.serial == s
  }

  /** Where the handler with this serial number is in its life. */
  ghost function PhaseOf(w: World, s: nat): Phase {
    if s >= w.nextSerial then Unborn
    else if HasLive(w, s) then Live else if HasRetired(w, s) then Retired else Destroyed
  }

  /** The lookup by descriptor alone finds this very connection, exactly when it is not closed. */
  lemma LookupFinds(w: World, c: Handle)
    requires Ok(w) && c in All(w) && c != w.acceptor
    ensures c.serial !in w.closed <==> c.fd in w.connections && w.connections[c.fd] == c
    ensures c.serial in w.closed <==> c.fd !in w.connections
  {
    if c.fd in w.connections {
      assert w.connections[c.fd] in Handles(w.connections);
      assert Apart(c, w.connections[c.fd]);
    }
  }

  // ---- the three changes ------------------------------------------------------------------------

  /** A connection on a descriptor and an address that were free. */
  ghost function Accepted(w: World, fd: nat, address: nat): World {
    var h := Handle(address, w.nextSerial, fd);
    w.(connections := w.connections[fd := h], openFds := w.openFds + {fd},
       addresses := w.addresses + {address}, nextSerial := w.nextSerial + 1)
  }

  /** retire: whatever connection the map has under the descriptor leaves it. */
  ghost function RetiredAt(w: World, fd: nat): World {
    if fd in w.connections then w.(connections := w.connections - {fd}, retired := w.retired + [w.connections[fd]])
    else w
  }

  /** A connection closed for the first time. */
  ghost function ClosedOne(w: World, c: Handle): World {
    RetiredAt(w.(closed := w.closed + {c.serial}), c.fd)
  }

  /** Destroying a handler frees its descriptor and its address. */
  ghost function Swept(w: World): World {
    w.(retired := [], openFds := w.openFds - (set h | h in w.retired :: h.fd),
       addresses := w.addresses - (set h | h in w.retired :: h.address))
  }

  /** A new connection's descriptor and address are nobody else's, live or retired. */
  lemma AcceptKeeps(w: World, fd: nat, address: nat)
    requires Ok(w) && fd !in w.openFds && address !in w.addresses
    ensures fd !in w.connections && forall h :: h in All(w) ==> h.fd != fd && h.address != address
    ensures Ok(Accepted(w, fd, address)) && All(w) <= All(Accepted(w, fd, address))
    ensures All(Accepted(w, fd, address)) == All(w) + {Handle(address, w.nextSerial, fd)}
  {
    var h, t := Handle(address, w.nextSerial, fd), Accepted(w, fd, address);
    forall x | x in All(w) ensures x.fd != fd && x.address != address && x.serial < w.nextSerial {
      assert Held(w, x);
    }
    assert forall k :: k in w.connections ==> w.connections[k] in All(w);
    ValuesWith(w.connections, fd, h);
    assert All(t) == All(w) + {h};
    forall a, b | a in All(t) && b in All(t) ensures Apart(a, b) {
      assert a in All(w) && b in All(w) ==> Apart(a, b);
    }
    forall x | x in All(t) ensures Held(t, x) {
      assert x in All(w) ==> Held(w, x);
    }
  }

  lemma ValuesWith(m: map<nat, Handle>, fd: nat, h: Handle)
    requires fd !in m
    ensures Handles(m[fd := h]) == Handles(m) + {h}
  {
    forall x | x in Handles(m) ensures x in Handles(m[fd := h]) {
      var k :| k in m && m[k] == x;
      assert m[fd := h][k] == x;
    }
    assert m[fd := h][fd] == h;
  }

  lemma ValuesWithout(m: map<nat, Handle>, fd: nat)
    requires fd in m && forall k :: k in m ==> m[k].fd == k
    ensures Handles(m - {fd}) == Handles(m) - {m[fd]}
  {
    forall x | x in Handles(m) && x != m[fd] ensures x in Handles(m - {fd}) {
      var k :| k in m && m[k] == x;
      assert (m - {fd})[k] == x;
    }
  }

  /** Retiring destroys nothing. */
  lemma RetireKeeps(w: World, fd: nat)
    requires Kept(w) && fd in w.connections
    ensures Kept(RetiredAt(w, fd)) && All(RetiredAt(w, fd)) == All(w)
  {
    var h, t := w.connections[fd], RetiredAt(w, fd);
    ValuesWithout(w.connections, fd);
    assert h in Handles(w.connections);
    assert forall x :: x in t.retired <==> x in w.retired || x == h;
    assert All(t) == All(w);
    forall x | x in All(t) ensures Held(t, x) {
      assert Held(w, x);
    }
  }

  /** Closing keeps the map and the closed states in step. */
  lemma CloseKeeps(w: World, c: Handle)
    requires Ok(w) && c in All(w) && c != w.acceptor && c.serial !in w.closed
    ensures Ok(ClosedOne(w, c)) && All(ClosedOne(w, c)) == All(w)
    ensures c.fd in w.connections && w.connections[c.fd] == c
  {
    LookupFinds(w, c);
    var v := w.(closed := w.closed + {c.serial});
    assert All(v) == All(w);
    assert Kept(v) by {
      forall x | x in All(v) ensures Held(v, x) {
        assert Held(w, x);
      }
    }
    assert Held(w, c);
    RetireKeeps(v, c.fd);
    forall fd | fd in w.connections && fd != c.fd ensures w.connections[fd].serial != c.serial {
      assert w.connections[fd] in Handles(w.connections);
      assert Apart(w.connections[fd], c);
    }
  }

  lemma SweepKeeps(w: World)
    requires Ok(w)
    ensures Ok(Swept(w)) && All(Swept(w)) == All(w) - set h | h in w.retired
  {
    var t := Swept(w);
    assert All(t) == {w.acceptor} + Handles(w.connections);
    forall x | x in Handles(w.connections) ensures x !in w.retired {
      var k :| k in w.connections && w.connections[k] == x;
    }
    forall x | x in All(t) ensures Held(t, x) {
      assert Held(w, x);
      forall h | h in w.retired ensures h.fd != x.fd && h.address != x.address {
        assert Apart(x, h);
      }
    }
  }

  // ---- lives ------------------------------------------------------------------------------------

  /** Exactly the live ones among `gone` are retired, the ones accepted are live, and nothing else
      has changed. */
  ghost predicate Became(w: World, t: World, gone: set<nat>) {
    && w.acceptor == t.acceptor && w.nextSerial <= t.nextSerial
    && forall s: nat {:trigger PhaseOf(t, s)} ::
         PhaseOf(t, s) == if w.nextSerial <= s < t.nextSerial then Live
                          else if s in gone && PhaseOf(w, s) == Live then Retired else PhaseOf(w, s)
  }

  lemma BecameOn(w: World, t: World, u: World, a: set<nat>, b: set<nat>)
    requires Became(w, t, a) && Became(t, u, b) && forall s :: s in b ==> s < w.nextSerial
    ensures Became(w, u, a + b)
  {
    forall s: nat ensures PhaseOf(u, s) == if w.nextSerial <= s < u.nextSerial then Live
                                      else if s in a + b && PhaseOf(w, s) == Live then Retired else PhaseOf(w, s) {
      assert PhaseOf(t, s) == PhaseOf(t, s);
    }
  }

  lemma AcceptPhases(w: World, fd: nat, address: nat)
    requires Ok(w) && fd !in w.openFds && address !in w.addresses
    ensures Became(w, Accepted(w, fd, address), {})
  {
    AcceptKeeps(w, fd, address);
    var h, t := Handle(address, w.nextSerial, fd), Accepted(w, fd, address);
    ValuesWith(w.connections, fd, h);
    assert h in Handles(t.connections);
    forall s: nat | s != w.nextSerial ensures PhaseOf(t, s) == PhaseOf(w, s) {
      assert HasLive(t, s) <==> HasLive(w, s);
      assert HasRetired(t, s) <==> HasRetired(w, s);
    }
  }

  lemma ClosePhases(w: World, c: Handle)
    requires Ok(w) && c in All(w) && c != w.acceptor && c.serial !in w.closed
    ensures Became(w, ClosedOne(w, c), {c.serial}) && PhaseOf(w, c.serial) == Live
  {
    CloseKeeps(w, c);
    var t := ClosedOne(w, c);
    ValuesWithout(w.connections, c.fd);
    assert c in Handles(w.connections) && c in t.retired && w.acceptor in All(w);
    assert Held(w, c) && Apart(c, w.acceptor);
    forall x | x in Handles(w.connections) && x != c ensures x.serial != c.serial {
      assert Apart(x, c);
    }
    forall s: nat | s != c.serial ensures PhaseOf(t, s) == PhaseOf(w, s) {
      assert HasLive(t, s) <==> HasLive(w, s);
      assert HasRetired(t, s) <==> HasRetired(w, s) by {
        assert forall x :: x in t.retired <==> x in w.retired || x == c;
      }
    }
  }

  /** A connection that exists is live exactly while it is not closed, and retired after that. */
  lemma ClosedIsRetired(w: World, c: Handle)
    requires Ok(w) && c in All(w) && c != w.acceptor
    ensures PhaseOf(w, c.serial) == if c.serial in w.closed then Retired else Live
  {
    if c.serial !in w.closed {
      ClosePhases(w, c);
    } else {
      assert Held(w, c) && w.acceptor in All(w);
      assert Apart(c, w.acceptor);
      LookupFinds(w, c);
      forall x | x in Handles(w.connections) ensures x.serial != c.serial {
        assert Apart(x, c);
      }
    }
  }

  lemma SweepPhases(w: World, s: nat)
    ensures PhaseOf(Swept(w), s) == if PhaseOf(w, s) == Retired then Destroyed else PhaseOf(w, s)
  {
    assert HasLive(Swept(w), s) <==> HasLive(w, s);
  }

  // ---- whole runs -------------------------------------------------------------------------------

  /** The event makes its connection close, if it is not closed already. */
  predicate Closes(acceptor: Handle, e: Event) {
    e.handler != acceptor && ((e.readable && e.closesReading) || (e.writable && e.closesWriting))
  }

  ghost function Closing(acceptor: Handle, batch: seq<Event>): set<nat> {
    set i | 0 <= i < |batch| && Closes(acceptor, batch[i]) :: batch[i].handler.serial
  }

  ghost function ClosingOne(acceptor: Handle, e: Event): set<nat> {
    if Closes(acceptor, e) then {e.handler.serial} else {}
  }

  lemma ClosingOn(acceptor: Handle, batch: seq<Event>, i: nat)
    requires i < |batch|
    ensures Closing(acceptor, batch[..i + 1]) == Closing(acceptor, batch[..i]) + ClosingOne(acceptor, batch[i])
  {
    var one, more := batch[..i], batch[..i + 1];
    assert forall k :: 0 <= k < i ==> more[k] == one[k];
    assert more[i] == batch[i];
    forall s | s in Closing(acceptor, one) ensures s in Closing(acceptor, more) {
      var k :| 0 <= k < |one| && Closes(acceptor, one[k]) && one[k].handler.serial == s;
      assert more[k] == one[k];
    }
    if Closes(acceptor, batch[i]) {
      assert batch[i].handler.serial == more[i].handler.serial;
    }
  }

  /** A whole tick: a batch of events reported for handlers that exist, then the sweep. Live ones
      that close and ones already retired are destroyed; the other live ones are live still. */
  ghost predicate Ticked(w: World, batch: seq<Event>, t: World) {
    && w.acceptor == t.acceptor && w.nextSerial <= t.nextSerial && t.retired == []
    && (forall i :: 0 <= i < |batch| ==> batch[i].handler in All(w))
    && forall s: nat {:trigger PhaseOf(t, s)} ::
         PhaseOf(t, s) == if w.nextSerial <= s < t.nextSerial then Live
                          else match PhaseOf(w, s)
                               case Live => if s in Closing(w.acceptor, batch) then Destroyed else Live
                               case Retired => Destroyed
                               case p => p
  }

  lemma TickedBy(w: World, batch: seq<Event>, t: World)
    requires forall i :: 0 <= i < |batch| ==> batch[i].handler in All(w)
    requires Became(w, t, Closing(w.acceptor, batch))
    ensures Ticked(w, batch, Swept(t))
  {
    forall s: nat ensures PhaseOf(Swept(t), s) == if PhaseOf(t, s) == Retired then Destroyed else PhaseOf(t, s) {
      SweepPhases(t, s);
    }
  }

  /** The ticks of a run, each from the world the one before it left. */
  ghost predicate Ticks(ws: seq<World>, batches: seq<seq<Event>>) {
    |ws| == |batches| + 1 && forall i :: 0 <= i < |batches| ==> Ticked(ws[i], batches[i], ws[i + 1])
  }

  /** It closes in a tick from `i` to before `j`. */
  ghost predicate ClosesBetween(ws: seq<World>, batches: seq<seq<Event>>, i: nat, j: nat, s: nat)
    requires Ticks(ws, batches) && j < |ws|
  {
    exists k :: i <= k < j && s in Closing(ws[k].acceptor, batches[k])
  }

  /** Over any run, a live connection stays live until a tick in which it closes and is destroyed
      by the end of that tick; a destroyed one never comes back. */
  lemma {:induction false} LivesUntilItCloses(ws: seq<World>, batches: seq<seq<Event>>, i: nat, j: nat, s: nat)
    requires Ticks(ws, batches) && i <= j < |ws|
    ensures PhaseOf(ws[i], s) == Live ==>
              PhaseOf(ws[j], s) == if ClosesBetween(ws, batches, i, j, s) then Destroyed else Live
    ensures PhaseOf(ws[i], s) == Destroyed ==> PhaseOf(ws[j], s) == Destroyed
    ensures i < j && PhaseOf(ws[i], s) == Retired ==> PhaseOf(ws[j], s) == Destroyed
  {
    if i < j {
      LivesUntilItCloses(ws, batches, i, j - 1, s);
      assert Ticked(ws[j - 1], batches[j - 1], ws[j - 1 + 1]);
    }
  }

  class Server {
    var w: World

    constructor (acceptor: Handle)
      requires acceptor.serial == 0
      ensures Ok(w) && All(w) == {acceptor} && w.acceptor == acceptor && w.nextSerial == 1
    {
      w := World(acceptor, map[], [], {acceptor.fd}, {acceptor.address}, 1, {});
    }

    /** acceptPending's step: the kernel gives any free descriptor, the allocator any free address. */
    method AcceptOne()
      requires Ok(w)
      modifies this
      ensures Ok(w) && All(old(w)) <= All(w) && Became(old(w), w, {}) && w.nextSerial == old(w).nextSerial + 1
      ensures exists h :: && All(w) == All(old(w)) + {h} && h !in All(old(w))
                          && forall x :: x in All(old(w)) ==> x.fd != h.fd
    {
      assert Above(w.openFds) !in w.openFds;
      var fd: nat :| fd !in w.openFds;
      assert Above(w.addresses) !in w.addresses;
      var address: nat :| address !in w.addresses;
      AcceptKeeps(w, fd, address);
      AcceptPhases(w, fd, address);
      var connection := Handle(address, w.nextSerial, fd);
      w := w.(connections := w.connections[fd := connection], openFds := w.openFds + {fd},
              addresses := w.addresses + {address}, nextSerial := w.nextSerial + 1);
    }

    /** retire: the connection under this descriptor leaves the map but is kept until the end of
        the batch. */
    method Retire(c: Handle)
      modifies this
      ensures w == RetiredAt(old(w), c.fd)
    {
      if c.fd !in w.connections {
        return;
      }
      w := w.(connections := w.connections - {c.fd}, retired := w.retired + [w.connections[c.fd]]);
    }

    /** markClosed: the first time, the connection found in the map is this one. */
    method MarkClosed(c: Handle)
      requires Ok(w) && c in All(w) && c != w.acceptor
      modifies this
      ensures Ok(w) && All(w) == All(old(w)) && Became(old(w), w, {c.serial}) && w.nextSerial == old(w).nextSerial
      ensures c.serial in w.closed && PhaseOf(w, c.serial) == Retired
      ensures c.serial !in old(w).closed ==> c.fd in old(w).connections && old(w).connections[c.fd] == c
    {
      if c.serial in w.closed {
        ClosedIsRetired(w, c);
        return;
      }
      CloseKeeps(w, c);
      ClosePhases(w, c);
      w := w.(closed := w.closed + {c.serial});
      Retire(c);
    }

    /** onReadable: the acceptor accepts all that is pending; a connection may close. */
    method OnReadable(h: Handle, pending: nat, closes: bool)
      requires Ok(w) && h in All(w)
      modifies this
      ensures Ok(w) && All(old(w)) <= All(w) && Became(old(w), w, if h != w.acceptor && closes then {h.serial} else {})
      ensures w.nextSerial == old(w).nextSerial + if h == w.acceptor then pending else 0
    {
      if h == w.acceptor {
        for i := 0 to pending
          invariant Ok(w) && All(old(w)) <= All(w) && Became(old(w), w, {}) && w.nextSerial == old(w).nextSerial + i
        {
          ghost var before := w;
          AcceptOne();
          BecameOn(old(w), before, w, {}, {});
        }
      } else if h.serial !in w.closed {
        if closes {
          MarkClosed(h);
        }
      } else {
        ClosedIsRetired(w, h);
      }
    }

    /** onWritable: nothing to do for the acceptor or a closed connection. */
    method OnWritable(h: Handle, closes: bool)
      requires Ok(w) && h in All(w)
      modifies this
      ensures Ok(w) && All(w) == All(old(w)) && Became(old(w), w, if h != w.acceptor && closes then {h.serial} else {})
      ensures w.nextSerial == old(w).nextSerial
    {
      if h != w.acceptor {
        if h.serial !in w.closed {
          if closes {
            MarkClosed(h);
          }
        } else {
          ClosedIsRetired(w, h);
        }
      }
    }

    /** One event: the handler at its address is the one it was reported for. Reading comes before
        writing, and a connection either closes is retired afterwards, and no other one. */
    method Dispatch(e: Event)
      requires Ok(w) && e.handler in All(w)
      modifies this
      ensures forall h :: h in All(old(w)) && h.address == e.handler.address ==> h == e.handler
      ensures Ok(w) && All(old(w)) <= All(w) && Became(old(w), w, ClosingOne(w.acceptor, e))
      ensures Closes(w.acceptor, e) ==> PhaseOf(w, e.handler.serial) == Retired
      ensures w.nextSerial == old(w).nextSerial + if e.handler == w.acceptor && e.readable then e.pending else 0
    {
      forall h | h in All(w) && h.address == e.handler.address ensures h == e.handler {
        assert Apart(h, e.handler);
      }
      assert Held(w, e.handler);
      if e.handler != w.acceptor {
        ClosedIsRetired(w, e.handler);
      }
      if e.readable {
        OnReadable(e.handler, e.pending, e.closesReading);
      }
      ghost var before := w;
      if e.writable {
        OnWritable(e.handler, e.closesWriting);
        BecameOn(old(w), before, w,
                 if e.readable && e.handler != w.acceptor && e.closesReading then {e.handler.serial} else {},
                 if e.handler != w.acceptor && e.closesWriting then {e.handler.serial} else {});
      }
    }

    /** A batch of events, each reported for a handler that existed when the batch was taken:
        when its turn comes that handler still exists, at the same address. */
    method DispatchBatch(batch: seq<Event>)
      requires Ok(w) && forall i :: 0 <= i < |batch| ==> batch[i].handler in All(w)
      modifies this
      ensures Ok(w) && All(old(w)) <= All(w) && Became(old(w), w, Closing(w.acceptor, batch))
    {
      for i := 0 to |batch|
        invariant Ok(w) && All(old(w)) <= All(w) && Became(old(w), w, Closing(w.acceptor, batch[..i]))
      {
        ghost var before := w;
        assert Held(old(w), batch[i].handler);
        Dispatch(batch[i]);
        BecameOn(old(w), before, w, Closing(w.acceptor, batch[..i]), ClosingOne(w.acceptor, batch[i]));
        ClosingOn(w.acceptor, batch, i);
      }
      assert batch[..|batch|] == batch;
    }

    /** destroyRetired. */
    method DestroyRetired()
      requires Ok(w)
      modifies this
      ensures Ok(w) && All(w) == All(old(w)) - (set h | h in old(w).retired) && w == Swept(old(w))
    {
      SweepKeeps(w);
      w := w.(retired := [], openFds := w.openFds - (set h | h in w.retired :: h.fd),
              addresses := w.addresses - (set h | h in w.retired :: h.address));
    }

    /** The loop: any number of ticks, each over events for any handlers there are. */
    method Run(ticks: nat) returns (ghost ws: seq<World>, ghost batches: seq<seq<Event>>)
      requires Ok(w)
      modifies this
      ensures Ok(w) && w.retired == [] && |batches| == ticks
      ensures Ticks(ws, batches) && ws[0] == old(w) && w == Swept(ws[ticks])
    {
      ws, batches := [w], [];
      for i := 0 to ticks
        invariant Ok(w) && |batches| == i && Ticks(ws, batches) && ws[0] == old(w) && ws[i] == w
      {
        var batch: seq<Event> :| forall i :: 0 <= i < |batch| ==> batch[i].handler in All(w);
        ghost var before := w;
        DispatchBatch(batch);
        TickedBy(before, batch, w);
        DestroyRetired();
        ws, batches := ws + [w], batches + [batch];
      }
      DestroyRetired();
    }
  }
}
