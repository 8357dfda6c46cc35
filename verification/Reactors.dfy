/**
 The reactor over all connections (src/event_loop/reactor.c): accepting, closing, and
 working through one batch of ready events.
 */
module Reactors {
  import opened Histories
  import opened Connections
  import opened Batches
  import opened Managers
  import opened DataPath
  import opened Sockets
  import opened Packets
  import opened Sessions

  /** The two connections share no part. */
  ghost predicate Apart(c: Connection, d: Connection)
    reads c.readBuf, c.writeBuf, d.readBuf, d.writeBuf
  {
    c.Footprint() !! d.Footprint()
  }

  /** All that the connections own. */
  ghost function Owned(live: set<Connection>): set<object>
    reads *
  {
    set c: Connection, o: object | c in live && o in c.Footprint() :: o
  }

  /** Their sockets. */
  ghost function SocketsOf(live: set<Connection>): set<object> {
    set c | c in live :: c.sock
  }

  lemma OwnedHas(live: set<Connection>)
    ensures forall c :: c in live ==> c in Owned(live) && c.Footprint() <= Owned(live)
    ensures SocketsOf(live) <= Owned(live)
  {
    hide Connection.Footprint;
    forall c | c in live ensures c in Owned(live) && c.sock in Owned(live) {
      PartsOwned(c);
    }
  }

  /** Every connection is sound, and no two share a part. */
  ghost predicate AllSound(live: set<Connection>)
    reads *
  {
    && (forall c :: c in live ==> c.Valid() && c.Healthy())
    && (forall c, d :: c in live && d in live && c != d ==> Apart(c, d))
  }

  /** Nothing of `d` has changed, save perhaps its index in the table. */
  twostate predicate Untouched(d: Connection)
    reads *
  {
    && d.path == old(d.path) && d.trace == old(d.trace) && d.turns == old(d.turns)
    && unchanged(d.readBuf, d.writeBuf, d.parser, d.fsm, d.fsm.bitmap, d.sock)
    && (d.readBuf.data != null ==> unchanged(d.readBuf.data))
    && (d.writeBuf.data != null ==> unchanged(d.writeBuf.data))
    && d.Footprint() == old(d.Footprint())
  }

  /** Neither the state of `d` as its peer sees it nor its parts have changed. */
  twostate predicate Same(d: Connection)
    reads *
  {
    d.Now() == old(d.Now()) && d.turns == old(d.turns) && d.Footprint() == old(d.Footprint())
  }

  /** All that has happened to `d` is that bytes arrived. */
  twostate predicate OnlyArrivals(d: Connection)
    reads *
  {
    ArrivedOnly(old(d.Now()), d.Now()) && d.turns == old(d.turns) && d.Footprint() == old(d.Footprint())
  }

  /** No other connection is part of a connection. */
  lemma OnlyItself(c: Connection)
    ensures forall d: Connection :: d in c.Footprint() ==> d == c
  {
  }

  lemma PartsOwned(c: Connection)
    ensures c in c.Footprint() && c.sock in c.Footprint()
  {
  }

  twostate lemma StaysSound(d: Connection)
    requires old(d.Valid()) && old(d.Healthy()) && Untouched(d)
    ensures d.Valid() && d.Healthy() && d.Footprint() == old(d.Footprint())
    ensures forall o :: o in d.Footprint() ==> !fresh(o)
  {
    hide Connection.Valid, Connection.Healthy;
  }

  /** A set of connections none of which has changed is as sound as before. */
  twostate lemma AllStaySound(live: set<Connection>)
    requires old(AllSound(live)) && forall d :: d in live ==> Untouched(d)
    ensures AllSound(live)
    ensures forall d, o :: d in live && o in d.Footprint() ==> !fresh(o)
  {
    hide Connection.Valid, Connection.Healthy, Connection.Footprint, Untouched;
    forall d | d in live
      ensures d.Valid() && d.Healthy() && d.Footprint() == old(d.Footprint())
      ensures forall o :: o in d.Footprint() ==> !fresh(o)
    {
      StaysSound(d);
    }
  }

  class Reactor {
    const manager: Manager
    ghost var registered: set<Connection>   // clients registered with epoll, beside the listener

    ghost predicate Valid()
      reads *
    {
      manager.Valid() && registered == manager.Live() && AllSound(registered)
    }

    constructor (manager: Manager)
      requires manager.Valid() && manager.Live() == {}
      ensures Valid() && this.manager == manager
    {
      this.manager := manager;
      this.registered := {};
    }

    /** Take an unregistered connection out of the table; every registered one is untouched. */
    method Discard(c: Connection)
      requires manager.Valid() && c !in registered && manager.Live() == registered + {c}
      requires AllSound(registered)
      modifies manager, manager.slots, manager.Live()`slot
      ensures Valid() && manager.slots == old(manager.slots)
      ensures forall d :: d in registered ==> Untouched(d)
    {
      hide Connection.Valid, Connection.Healthy, AllSound;
      manager.Destroy(c);
      AllStaySound(registered);
    }

    /** Take a connection out of epoll and out of the table; every other one is untouched. */
    method Close(c: Connection)
      requires manager.Valid() && registered == manager.Live() && c in registered
      requires AllSound(registered - {c})
      modifies this, manager, manager.slots, registered`slot
      ensures Valid() && registered == old(registered) - {c}
      ensures manager.slots == old(manager.slots)
      ensures forall d :: d in registered ==> Untouched(d)
    {
      hide Connection.Valid, Connection.Healthy, Connection.Footprint;
      registered := registered - {c};
      Discard(c);
    }

    /** Let one connection handle its event: the table does not change. */
    method Trigger(c: Connection, readable: bool, writable: bool, memory: bool) returns (end: EventEnd)
      requires manager.Valid() && c.Valid() && c.Healthy()
      modifies c.Footprint()
      ensures manager.Valid() && manager.Live() == old(manager.Live()) && registered == old(registered)
      ensures manager.slots == old(manager.slots)
      ensures fresh(c.Footprint() - old(c.Footprint()))
      ensures c.Coherent() && old(c.trace) <= c.trace && (end.Survived? ==> c.Valid() && c.Healthy())
      ensures var turn := Turn(readable, writable, memory, old(c.Now()), c.Now(), end);
        c.turns == old(c.turns) + [turn] && Handled(turn)
    {
      hide Connection.Valid, Connection.Healthy, Connection.Coherent, Handled;
      end := c.HandleEvent(readable, writable, memory);
    }

    /** Let one connection handle its event: no other changes, and it takes nothing of theirs. */
    method Deliver(c: Connection, readable: bool, writable: bool, memory: bool, ghost others: set<Connection>)
      returns (end: EventEnd)
      requires manager.Valid() && c.Valid() && c.Healthy() && c !in others
      requires forall d :: d in others ==> Apart(c, d)
      modifies c.Footprint()
      ensures manager.Valid() && manager.Live() == old(manager.Live()) && registered == old(registered)
      ensures manager.slots == old(manager.slots)
      ensures c.Coherent() && old(c.trace) <= c.trace && (end.Survived? ==> c.Valid() && c.Healthy())
      ensures var turn := Turn(readable, writable, memory, old(c.Now()), c.Now(), end);
        c.turns == old(c.turns) + [turn] && Handled(turn)
      ensures fresh(c.Footprint() - old(c.Footprint()))
      ensures forall d :: d in others ==> Untouched(d) && Apart(c, d)
    {
      hide Connection.Valid, Connection.Healthy, Connection.Coherent, Connection.Now, Handled, Manager.Valid, Manager.Live;
      end := Trigger(c, readable, writable, memory);
      forall d | d in others ensures Untouched(d) {
        assert old(Apart(c, d));
      }
      forall d | d in others ensures Apart(c, d) {
        assert d.Footprint() == old(d.Footprint());
      }
    }

    /** All connections that are kept stay sound. */
    method Dispatch(c: Connection, readable: bool, writable: bool, memory: bool) returns (end: EventEnd)
      requires Valid() && c in registered
      modifies c.Footprint()
      ensures manager.Valid() && registered == manager.Live() == old(registered)
      ensures manager.slots == old(manager.slots)
      ensures fresh(c.Footprint() - old(c.Footprint()))
      ensures forall d :: d in registered && d != c ==> Untouched(d)
      ensures AllSound(if end.MustClose? then registered - {c} else registered)
      ensures var turn := Turn(readable, writable, memory, old(c.Now()), c.Now(), end);
        c.turns == old(c.turns) + [turn] && Handled(turn)
    {
      hide Connection.Valid, Connection.Healthy, Connection.Footprint, Handled, Untouched;
      ghost var others := registered - {c};
      end := Deliver(c, readable, writable, memory, others);
      AllStaySound(others);
    }

    /** One event on one connection: that connection is closed exactly when the event ended so,
        for the reason given, and no other changes. */
    method HandleClient(c: Connection, readable: bool, writable: bool, memory: bool) returns (end: EventEnd)
      requires Valid() && c in registered
      modifies this, manager, manager.slots, registered`slot, c.Footprint()
      ensures Valid() && registered == if end.MustClose? then old(registered) - {c} else old(registered)
      ensures var turn := Turn(readable, writable, memory, old(c.Now()), c.Now(), end);
        c.turns == old(c.turns) + [turn] && Handled(turn)
      ensures manager.slots == old(manager.slots)
      ensures forall d :: d in old(registered) && d != c ==> Untouched(d)
      ensures forall o :: o in Owned(registered) ==> o in old(Owned(registered)) || fresh(o)
    {
      hide AllSound, Manager.Valid, Manager.Live, Connection.Footprint, Handled;
      end := Dispatch(c, readable, writable, memory);
      if end.MustClose? {
        Close(c);
      }
    }

    /** Make a connection for an accepted socket and put it in the table. */
    method Enter(memory: bool) returns (c: Connection?)
      requires Valid()
      modifies manager, manager.slots
      ensures manager.Valid() && (manager.slots == old(manager.slots) || fresh(manager.slots))
      ensures manager.Live() == registered + if c == null then {} else {c}
      ensures c != null ==> fresh(c) && fresh(c.Footprint()) && c.turns == []
      ensures c == null ==> manager.slots == null || !memory
      ensures manager.slots == null <==> old(manager.slots) == null
      ensures AllSound(manager.Live()) && AllSound(registered)
      ensures forall d :: d in registered ==> Untouched(d)
    {
      hide Connection.Valid, Connection.Healthy, Connection.Footprint;
      c := manager.Create(memory);
      AllStaySound(registered);
    }

    /** Register a connection of the table with epoll. */
    ghost method Register(c: Connection)
      requires manager.Valid() && c !in registered && manager.Live() == registered + {c} && AllSound(manager.Live())
      modifies `registered
      ensures Valid() && registered == old(registered) + {c}
      ensures forall d :: d in old(registered) ==> Untouched(d)
    {
      hide Connection.Valid, Connection.Healthy, Connection.Footprint;
      registered := registered + {c};
    }

    /** Enter one accepted socket.  It is registered exactly if it is in the table; if making it
        non-blocking or registering it fails, it is taken out again. */
    method AcceptOne(usable: bool, memory: bool) returns (added: Connection?)
      requires Valid()
      modifies this, manager, manager.slots, registered`slot
      ensures Valid() && registered == old(registered) + if added == null then {} else {added}
      ensures added != null ==> fresh(added) && fresh(added.Footprint()) && added.turns == []
      ensures if !usable then added == null else memory && manager.slots != null ==> added != null
      ensures manager.slots == old(manager.slots) || fresh(manager.slots)
      ensures manager.slots == null <==> old(manager.slots) == null
      ensures forall d :: d in old(registered) ==> Untouched(d)
      ensures forall o :: o in Owned(registered) ==> o in old(Owned(registered)) || fresh(o)
    {
      hide Connection.Valid, Connection.Healthy, Manager.Valid, Manager.Live, AllSound;
      added := Enter(memory);
      if added != null {
        if usable {
          Register(added);
        } else {
          Discard(added);
          added := null;
        }
      }
    }

    /** Accept until the backlog is empty; each entry says whether the socket can be used. */
    method HandleListener(backlog: seq<bool>, memory: bool)
      requires Valid()
      modifies this, manager, manager.slots, registered`slot
      ensures Valid() && old(registered) <= registered
      ensures manager.slots == old(manager.slots) || fresh(manager.slots)
      ensures manager.slots == null <==> old(manager.slots) == null
      ensures forall c :: c in registered ==> c in old(registered) || (fresh(c) && c.turns == [])
      ensures forall d :: d in old(registered) ==> Same(d)
      ensures Tally(registered - old(registered), Usable(backlog), memory && manager.slots != null)
      ensures forall o :: o in Owned(registered) ==> o in old(Owned(registered)) || fresh(o)
    {
      hide AllSound, Connection.Footprint, Manager.Valid, Manager.Live, Owned, Connection.Now, Usable;
      UsableNone();
      assert backlog[..0] == [];
      for n := 0 to |backlog|
        invariant Valid() && old(registered) <= registered
        invariant manager.slots == old(manager.slots) || fresh(manager.slots)
        invariant manager.slots == null <==> old(manager.slots) == null
        invariant forall c :: c in registered ==> c in old(registered) || (fresh(c) && c.turns == [])
        invariant forall d :: d in old(registered) ==> Same(d)
        invariant |registered| <= |old(registered)| + Usable(backlog[..n])
        invariant memory && manager.slots != null ==> |registered| == |old(registered)| + Usable(backlog[..n])
        invariant forall o :: o in Owned(registered) ==> o in old(Owned(registered)) || fresh(o)
      {
        var added := AcceptOne(backlog[n], memory);
        UsableNext(backlog, n);
      }
      assert backlog[..|backlog|] == backlog;
      assert registered == old(registered) + (registered - old(registered));
    }

    /** One entry of a batch: only the connection it names changes or goes away, and the listener
        makes connections of the sockets that can be used. */
    method HandleReady(e: Ready, memory: bool) returns (end: Option<EventEnd>)
      requires Valid() && (e.Client? ==> e.conn in registered)
      modifies this, manager, manager.slots, registered`slot, if e.Client? then e.conn.Footprint() else {}
      ensures Valid() && (manager.slots == old(manager.slots) || fresh(manager.slots))
      ensures manager.slots == null <==> old(manager.slots) == null
      ensures end.Some? <==> e.Client?
      ensures forall c :: c in registered ==> c in old(registered) || (fresh(c) && c.turns == [])
      ensures Tally(registered - old(registered), Newcomers(e), memory && manager.slots != null)
      ensures forall o :: o in Owned(registered) ==> o in old(Owned(registered)) || fresh(o)
      ensures forall d :: d in old(registered) && !(e.Client? && e.conn == d) ==> d in registered && Same(d)
      ensures forall d: Connection :: allocated(d) && old(allocated(d)) && !(e.Client? && e.conn == d) ==>
        d.turns == old(d.turns) && d.path == old(d.path)
      ensures e.Client? ==>
        var c := e.conn;
        Finished(e, memory, old(c.Now()), old(c.turns), end, c.turns, c.path, c in registered, c.Now())
    {
      hide AllSound, Connection.Valid, Connection.Healthy, Handled, Owned, Usable, Finished, Connection.Footprint;
      if e.Client? {
        OnlyItself(e.conn);
      }
      match e {
        case Listener(backlog) =>
          HandleListener(backlog, memory);
          end := None;
        case Client(c, readable, writable) =>
          var how := HandleClient(c, readable, writable, memory);
          end := Some(how);
          JustFinished(e, memory, old(c.Now()), old(c.turns), how, c.turns, c in registered, c.Now());
      }
    }

    /** Bytes arrive on one socket. */
    method Arrival(c: Connection)
      requires Valid() && c in registered
      modifies c.sock
      ensures Valid() && registered == old(registered) && manager.slots == old(manager.slots)
      ensures forall d :: d in registered ==> OnlyArrivals(d)
    {
      hide Connection.Valid, Connection.Healthy, ArrivedOnly;
      ghost var others := registered - {c};
      forall d | d in others ensures c.sock != d.sock {
        assert Apart(c, d);
      }
      c.BytesArrive();
      AllStaySound(others);
      forall d | d in others ensures ArrivedOnly(old(d.Now()), d.Now()) {
        ArrivedNothing(d.Now());
      }
    }

    /** Bytes arrive on any of the sockets, given by their place in the table. */
    method Arrivals(places: seq<nat>)
      requires Valid()
      modifies SocketsOf(registered)
      ensures Valid() && registered == old(registered) && manager.slots == old(manager.slots)
      ensures forall d :: d in registered ==> OnlyArrivals(d)
      ensures Owned(registered) == old(Owned(registered))
      ensures forall d: Connection :: allocated(d) && old(allocated(d)) ==> d.turns == old(d.turns) && d.path == old(d.path)
    {
      hide AllSound, Connection.Valid, Connection.Healthy, Connection.Footprint, Manager.Valid, Manager.Live;
      hide ArrivedOnly, Connection.Now;
      forall d | d in registered ensures OnlyArrivals(d) {
        ArrivedNothing(d.Now());
      }
      for n := 0 to |places|
        invariant Valid() && registered == old(registered) && manager.slots == old(manager.slots)
        invariant forall d :: d in registered ==> OnlyArrivals(d)
      {
        var c := manager.At(places[n]);
        if c != null {
          label before:
          Arrival(c);
          forall d | d in registered ensures OnlyArrivals(d) {
            ArrivedTrans(old(d.Now()), old@before(d.Now()), d.Now());
          }
        }
      }
    }

    /** One entry of a batch, before which bytes may arrive on any socket. */
    method HandleNext(e: Ready, places: seq<nat>, memory: bool) returns (end: Option<EventEnd>)
      requires Valid() && (e.Client? ==> e.conn in registered)
      modifies this, manager, manager.slots, Owned(registered)
      ensures Valid() && (manager.slots == old(manager.slots) || fresh(manager.slots))
      ensures manager.slots == null <==> old(manager.slots) == null
      ensures end.Some? <==> e.Client?
      ensures forall c :: c in registered ==> c in old(registered) || (fresh(c) && c.turns == [])
      ensures Tally(registered - old(registered), Newcomers(e), memory && manager.slots != null)
      ensures forall o :: o in Owned(registered) ==> o in old(Owned(registered)) || fresh(o)
      ensures forall d :: d in old(registered) && !(e.Client? && e.conn == d) ==> d in registered && OnlyArrivals(d)
      ensures forall d: Connection :: allocated(d) && old(allocated(d)) && !(e.Client? && e.conn == d) ==>
        d.turns == old(d.turns) && d.path == old(d.path)
      ensures e.Client? ==>
        var c := e.conn;
        Finished(e, memory, old(c.Now()), old(c.turns), end, c.turns, c.path, c in registered, c.Now())
    {
      hide AllSound, Connection.Valid, Connection.Healthy, Connection.Footprint, Manager.Valid, Manager.Live;
      hide ArrivedOnly, Connection.Now, Finished, Owned, SocketsOf, Newcomers;
      OwnedHas(registered);
      Arrivals(places);
      OwnedHas(registered);
      label arrived:
      end := HandleReady(e, memory);
      if e.Client? {
        var c := e.conn;
        FinishedSince(e, memory, old(c.Now()), old@arrived(c.Now()), old(c.turns), end, c.turns, c.path, c in registered, c.Now());
      }
    }

    /** Work through one batch, while bytes go on arriving.  The listener appears in it at any
        place and any number of times; each connection at most once, and then it is still in the
        table, and as the batch found it but for bytes that arrived, when its turn comes.  Its
        event is handled as it should be, it is gone afterwards exactly if that ended with
        closing it, and to a connection not in the batch nothing happens but that bytes arrive.
        Memory permitting, each socket that can be used is a connection afterwards. */
    method RunBatch(events: seq<Ready>, meanwhile: seq<seq<nat>>, memory: bool)
      returns (ends: seq<Option<EventEnd>>)
      requires Valid() && IsBatch(events, registered)
      modifies this, manager, manager.slots, Owned(registered)
      ensures Valid() && |ends| == |events| && forall i :: 0 <= i < |events| ==> (ends[i].Some? <==> events[i].Client?)
      ensures manager.slots == old(manager.slots) || fresh(manager.slots)
      ensures manager.slots == null <==> old(manager.slots) == null
      ensures forall c :: c in registered ==> c in old(registered) || (fresh(c) && c.turns == [])
      ensures Tally(registered - old(registered), AllNewcomers(events, |events|), memory && manager.slots != null)
      ensures forall o :: o in Owned(registered) ==> o in old(Owned(registered)) || fresh(o)
      ensures forall i :: 0 <= i < |events| && events[i].Client? ==>
        var c := events[i].conn;
        Finished(events[i], memory, old(c.Now()), old(c.turns), ends[i], c.turns, c.path, c in registered, c.Now())
      ensures forall d :: d in old(registered) && d !in Named(events) ==> d in registered && OnlyArrivals(d)
      ensures forall d: Connection :: allocated(d) && old(allocated(d)) && d !in old(registered) ==>
        d.turns == old(d.turns) && d.path == old(d.path)
    {
      hide AllSound, Connection.Valid, Connection.Healthy, Served, Connection.Footprint, Manager.Valid, Manager.Live;
      hide Named, Owned, Connection.Now, ArrivedOnly, Finished, AllNewcomers, Newcomers, Shut, Tally;
      ends := [];
      NobodyYet(events, registered, memory && manager.slots != null);
      ghost var waiting := registered;   // those that have not had a turn
      forall d | d in registered ensures OnlyArrivals(d) {
        ArrivedNothing(d.Now());
      }
      for k := 0 to |events|
        invariant Valid() && (manager.slots == old(manager.slots) || fresh(manager.slots))
        invariant manager.slots == null <==> old(manager.slots) == null
        invariant forall c :: c in registered ==> c in old(registered) || (fresh(c) && c.turns == [])
        invariant Tally(registered - old(registered), AllNewcomers(events, k), memory && manager.slots != null)
        invariant forall o :: o in Owned(registered) ==> o in old(Owned(registered)) || fresh(o)
        invariant waiting <= old(registered)
        invariant forall d: Connection :: allocated(d) && old(allocated(d)) && d !in old(registered) ==>
          d.turns == old(d.turns) && d.path == old(d.path)
        invariant forall d :: d in waiting ==> d in registered && OnlyArrivals(d)
        invariant forall i :: k <= i < |events| && events[i].Client? ==> events[i].conn in waiting
        invariant forall d :: d in old(registered) && d !in waiting ==> d in Named(events)
        invariant |ends| == k && forall i :: 0 <= i < k ==> (ends[i].Some? <==> events[i].Client?)
        invariant forall i :: 0 <= i < k && events[i].Client? ==> events[i].conn !in waiting
        invariant forall i :: 0 <= i < k && events[i].Client? ==>
          var c := events[i].conn;
          Finished(events[i], memory, old(c.Now()), old(c.turns), ends[i], c.turns, c.path, c in registered, c.Now())
      {
        label before:
        var end := HandleNext(events[k], if k < |meanwhile| then meanwhile[k] else [], memory);
        forall i | 0 <= i < k && events[i].Client?
          ensures var c := events[i].conn;
            Finished(events[i], memory, old(c.Now()), old(c.turns), ends[i], c.turns, c.path, c in registered, c.Now())
        {
          var c := events[i].conn;
          StillFinished(events[i], memory, old(c.Now()), old(c.turns), ends[i], c.turns, c.path, c in registered,
                        old@before(c.Now()), c.Now());
        }
        ends := ends + [end];
        TallyNext(old(registered), old@before(registered), registered, events, k, memory && manager.slots != null);
        if events[k].Client? {
          NamedIs(events, k);
          var c := events[k].conn;
          FinishedSince(events[k], memory, old(c.Now()), old@before(c.Now()), old(c.turns), end, c.turns, c.path,
                        c in registered, c.Now());
          waiting := waiting - {c};
        }
        forall d | d in waiting ensures OnlyArrivals(d) {
          ArrivedTrans(old(d.Now()), old@before(d.Now()), d.Now());
        }
      }
    }

    /** What epoll_wait may report: any of the registered connections, each at most once, and the
        listener.  The picks are arbitrary; those that name no connection, or one that was named
        before, are passed over, and every other is reported with its flags. */
    method Wait(picks: seq<Pick>) returns (events: seq<Ready>, ghost table: seq<Connection?>, ghost kept: seq<nat>)
      requires Valid()
      ensures IsBatch(events, registered)
      ensures Lists(table, registered) && Reports(picks, |picks|, table, events, kept)
    {
      hide AllSound, Reports;
      events, table, kept := [], manager.Table(), [];
      ReportsNothing(picks, table);
      var seen: set<nat> := {};
      for n := 0 to |picks|
        invariant IsBatch(events, registered)
        invariant forall i :: 0 <= i < |events| && events[i].Client? ==> events[i].conn.slot in seen
        invariant forall place: nat :: place in seen <==> place < |table| && Picked(picks, n, place)
        invariant Reports(picks, n, table, events, kept)
      {
        var report := None;
        match picks[n] {
          case PickListener(backlog) =>
            report := Some(Listener(backlog));
          case PickClient(place, readable, writable) =>
            var c := manager.At(place);
            if c != null && place !in seen {
              seen := seen + {place};
              report := Some(Client(c, readable, writable));
            }
        }
        if report.Some? {
          ReportOne(picks, n, table, events, kept, report.value);
          events, kept := events + [report.value], kept + [n];
        } else {
          ReportNone(picks, n, table, events, kept);
        }
      }
    }

    /** The batch, as each connection sees it: it handles exactly the events that name it. */
    method ServeBatch(events: seq<Ready>, meanwhile: seq<seq<nat>>, memory: bool) returns (ends: seq<Option<EventEnd>>)
      requires Valid() && IsBatch(events, registered)
      modifies this, manager, manager.slots, Owned(registered)
      ensures Valid() && |ends| == |events| && forall i :: 0 <= i < |events| ==> (ends[i].Some? <==> events[i].Client?)
      ensures manager.slots == old(manager.slots) || fresh(manager.slots)
      ensures manager.slots == null <==> old(manager.slots) == null
      ensures registered == old(registered) + (registered - old(registered)) - Shut(events, ends)
      ensures forall c :: c in registered ==> c in old(registered) || (fresh(c) && c.turns == [])
      ensures Tally(registered - old(registered), AllNewcomers(events, |events|), memory && manager.slots != null)
      ensures forall o :: o in Owned(registered) ==> o in old(Owned(registered)) || fresh(o)
      ensures forall d: Connection :: allocated(d) && old(allocated(d)) ==>
        Grown(old(d.turns), d.turns, Asked(events, ends, memory, d, |events|))
    {
      hide AllSound, Manager.Valid, Manager.Live, Connection.Footprint, Connection.Now, ArrivedOnly, Finished, Named, Owned;
      hide Connection.Valid, Connection.Healthy, Shut, Asked, Grown, AllNewcomers, Tally;
      ends := RunBatch(events, meanwhile, memory);
      forall i | 0 <= i < |events| && events[i].Client?
        ensures
          var c := events[i].conn;
          && (c in registered <==> ends[i].value.Survived?)
          && Grown(old(c.turns), c.turns, Asked(events, ends, memory, c, |events|))
      {
        var c := events[i].conn;
        FinishedGrows(events, ends, memory, old(registered), i, old(c.Now()), old(c.turns), c.turns, c.path, c in registered, c.Now());
      }
      forall d: Connection | allocated(d) && old(allocated(d)) && d !in Named(events)
        ensures Grown(old(d.turns), d.turns, Asked(events, ends, memory, d, |events|))
      {
        UnnamedNotAsked(events, ends, memory, d);
        GrownNot(d.turns);
      }
      NamedHas(events);
      WhoIsLeft(events, ends, old(registered), registered - old(registered), registered);
    }

    /** One turn of the event loop: bytes arrive, epoll reports, the batch is handled.  Every
        connection handles exactly the events of the batch that name it. */
    method Round(it: Iteration) returns (ghost entry: Entry)
      requires Valid()
      modifies this, manager, manager.slots, Owned(registered)
      ensures Valid() && (manager.slots == old(manager.slots) || fresh(manager.slots))
      ensures manager.slots == null <==> old(manager.slots) == null
      ensures |entry.ends| == |entry.batch| && Right(it, entry, old(registered), manager.slots != null)
      ensures registered == old(registered) + entry.joined - Shut(entry.batch, entry.ends)
      ensures forall c :: c in entry.joined ==> fresh(c) && c.turns == []
      ensures forall o :: o in Owned(registered) ==> o in old(Owned(registered)) || fresh(o)
      ensures forall d: Connection :: allocated(d) && old(allocated(d)) ==>
        Grown(old(d.turns), d.turns, Asked(entry.batch, entry.ends, it.memory, d, |entry.batch|))
    {
      hide AllSound, Manager.Valid, Manager.Live, Connection.Footprint, Connection.Now, ArrivedOnly, Owned;
      hide Connection.Valid, Connection.Healthy, Shut, Asked, Grown, Reports, AllNewcomers, Tally, Lists;
      OwnedHas(registered);
      Arrivals(it.arrivals);
      var events;
      ghost var table, kept;
      events, table, kept := Wait(it.picks);
      var ends := ServeBatch(events, it.meanwhile, it.memory);
      entry := Entry(table, kept, events, ends, registered - old(registered));
    }

    /** The event loop, for any number of rounds.  The log says what was reported in each, who
        joined and who was closed; the connections registered in the end are those it leaves, and
        every connection, whether it was there before or joined on the way, and whether or not it
        is still there, has handled exactly the events that the log puts to it, in order. */
    method Loop(rounds: seq<Iteration>) returns (ghost log: seq<Entry>)
      requires Valid()
      modifies this, manager, manager.slots, Owned(registered)
      ensures Valid() && |log| == |rounds|
      ensures Logged(rounds, log, old(registered), manager.slots != null)
      ensures registered == Left(old(registered), log)
      ensures forall d: Connection :: allocated(d) && old(allocated(d)) ==>
        Grown(old(d.turns), d.turns, AllAsked(rounds, log, d))
      ensures forall c :: c in Joined(log) ==> fresh(c) && Grown([], c.turns, AllAsked(rounds, log, c))
    {
      hide AllSound, Manager.Valid, Manager.Live, Connection.Footprint, Connection.Now, ArrivedOnly, Owned;
      hide Grown, Logged, Left, AllAsked, Joined, Right, Asked, Shut, NamesOnly;
      log := [];
      LogEmpty(rounds, registered, manager.slots != null);
      forall d: Connection | allocated(d) ensures Grown(d.turns, d.turns, AllAsked(rounds, log, d)) {
        GrownNot(d.turns);
        AskedBefore(rounds, d);
      }
      for n := 0 to |rounds|
        invariant Valid() && (manager.slots == old(manager.slots) || fresh(manager.slots))
        invariant manager.slots == null <==> old(manager.slots) == null
        invariant |log| == n && Logged(rounds, log, old(registered), manager.slots != null)
        invariant registered == Left(old(registered), log) <= old(registered) + Joined(log)
        invariant NamesOnly(log, old(registered) + Joined(log))
        invariant forall o :: o in Owned(registered) ==> o in old(Owned(registered)) || fresh(o)
        invariant forall d: Connection :: allocated(d) && old(allocated(d)) ==>
          Grown(old(d.turns), d.turns, AllAsked(rounds, log, d))
        invariant forall c :: c in Joined(log) ==> allocated(c) && fresh(c) && Grown([], c.turns, AllAsked(rounds, log, c))
      {
        ghost var ever := Joined(log);
        assert forall c :: c in ever ==> allocated(c);
        label before:
        ghost var entry := Round(rounds[n]);
        LoggedNext(rounds, log, old(registered), manager.slots != null, entry);
        NamesNext(log, old(registered), entry, rounds[n], old@before(registered), manager.slots != null);
        forall d: Connection | allocated(d) && old(allocated(d))
          ensures Grown(old(d.turns), d.turns, AllAsked(rounds, log + [entry], d))
        {
          AllAskedNext(rounds, log, entry, d);
          GrownTrans(old(d.turns), old@before(d.turns), d.turns, AllAsked(rounds, log, d),
                     Asked(entry.batch, entry.ends, rounds[n].memory, d, |entry.batch|));
        }
        forall c | c in Joined(log + [entry])
          ensures fresh(c) && Grown([], c.turns, AllAsked(rounds, log + [entry], c))
        {
          AllAskedNext(rounds, log, entry, c);
          if c in ever {
            assert old@before(allocated(c));
            GrownTrans([], old@before(c.turns), c.turns, AllAsked(rounds, log, c),
                       Asked(entry.batch, entry.ends, rounds[n].memory, c, |entry.batch|));
          } else {
            assert c !in old(registered) + Joined(log);
            NeverAsked(rounds, log, old(registered) + Joined(log), c);
            NewcomerNotAsked(rounds[n], entry, old@before(registered), manager.slots != null, c);
            GrownNot([]);
          }
        }
        log := log + [entry];
      }
    }
  }

  /** At every turn of the event loop, every connection of the server has turned the bytes it received into
      packets and those into replies as the protocol says, asks for EPOLLOUT exactly when it has
      something to send, and its events account for how it is.  As long as memory suffices and
      no event has overflowed its write ring, the bytes sent and to be sent are a function of
      the bytes received. */
  lemma EveryConnectionServed(r: Reactor, c: Connection)
    requires r.Valid() && c in r.registered
    ensures Faithful(c.path)
    ensures c.sock.received == SerializeAll(c.path.handled) + c.parser.Unparsed(c.readBuf)
    ensures c.fsm.Abs() == Run(FRESH, c.path.handled).session
    ensures c.sock.sent + c.writeBuf.Contents() == SerializeAll(Select(Run(FRESH, c.path.handled).replies, c.path.kept))
    ensures !c.sock.ctlFailed ==> (c.sock.interestOut <==> c.writeBuf.Contents() != [])
    ensures Explained(c.turns, c.Now())
    ensures AllMemory(c.turns) && NoneOverflows(c.turns) ==>
      c.sock.sent + c.writeBuf.Contents() == Wire(c.sock.received)
  {
    hide Explained, NoneOverflows, AllMemory;
    EveryRunFaithful(c.trace);
    if AllMemory(c.turns) && NoneOverflows(c.turns) {
      ServedInFull(c.turns, c.Now());
    }
  }
}
