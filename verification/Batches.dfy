/**
 What a batch of ready events and a run of the event loop amount to (src/event_loop/reactor.c):
 which events are reported, which connection handles what, who joins and who is closed.
 */
module Batches {
  import opened Sessions
  import opened DataPath
  import opened Histories
  import opened Connections

  /** One entry of a batch: the listener with the sockets to accept, each usable or not, or a
      client. */
  datatype Ready = Listener(backlog: seq<bool>) | Client(conn: Connection, readable: bool, writable: bool)

  /** What epoll_wait picks, clients by their place in the table. */
  datatype Pick = PickListener(backlog: seq<bool>) | PickClient(place: nat, readable: bool, writable: bool)

  /** One turn of the event loop, as far as the outside decides it: the sockets on which bytes
      arrive while it waits and before each event is handled, what epoll picks, and whether
      memory suffices. */
  datatype Iteration = Iteration(arrivals: seq<nat>, picks: seq<Pick>, meanwhile: seq<seq<nat>>, memory: bool)

  /** The connections a batch names. */
  ghost function Named(events: seq<Ready>): set<Connection> {
    set i | 0 <= i < |events| && events[i].Client? :: events[i].conn
  }

  lemma NamedIs(events: seq<Ready>, k: nat)
    requires k < |events| && events[k].Client?
    ensures events[k].conn in Named(events)
  {
  }

  lemma NamedHas(events: seq<Ready>)
    ensures forall d :: d in Named(events) ==> exists i :: 0 <= i < |events| && events[i].Client? && events[i].conn == d
  {
  }

  /** The events name registered connections, each at most once. */
  ghost predicate IsBatch(events: seq<Ready>, registered: set<Connection>) {
    && (forall i :: 0 <= i < |events| && events[i].Client? ==> events[i].conn in registered)
    && (forall i, j :: 0 <= i < j < |events| && events[i].Client? && events[j].Client? ==> events[i].conn != events[j].conn)
  }

  // ----- Reporting

  /** The table holds the live connections, each once. */
  ghost predicate Lists(table: seq<Connection?>, live: set<Connection>) {
    && live == (set c: Connection | c in table)
    && forall i, j :: 0 <= i < j < |table| ==> table[i] != table[j]
  }

  /** One of the first `n` picks is of that place. */
  ghost predicate Picked(picks: seq<Pick>, n: nat, place: nat)
    requires n <= |picks|
  {
    exists m :: 0 <= m < n && picks[m].PickClient? && picks[m].place == place
  }

  /** The pick is of the listener, or the first of a place that is taken. */
  ghost predicate Counts(picks: seq<Pick>, size: nat, n: nat) {
    && n < |picks|
    && (picks[n].PickClient? ==> picks[n].place < size && !Picked(picks, n, picks[n].place))
  }

  /** The event that the pick stands for. */
  ghost predicate Shows(pick: Pick, table: seq<Connection?>, e: Ready) {
    match pick
    case PickListener(backlog) => e == Listener(backlog)
    case PickClient(place, readable, writable) =>
      place < |table| && table[place] != null && e == Client(table[place], readable, writable)
  }

  /** The events are those of the first `n` picks that count, all of them and no others, in order;
      `kept` gives their places among the picks. */
  ghost predicate Reports(picks: seq<Pick>, n: nat, table: seq<Connection?>, events: seq<Ready>, kept: seq<nat>) {
    && |kept| == |events|
    && (forall i, j :: 0 <= i < j < |kept| ==> kept[i] < kept[j])
    && (forall m: nat :: m in kept <==> m < n && Counts(picks, |table|, m))
    && (forall i :: 0 <= i < |kept| ==> kept[i] < |picks| && Shows(picks[kept[i]], table, events[i]))
  }

  lemma ReportOne(picks: seq<Pick>, n: nat, table: seq<Connection?>, events: seq<Ready>, kept: seq<nat>, e: Ready)
    requires Reports(picks, n, table, events, kept)
    requires Counts(picks, |table|, n) && Shows(picks[n], table, e)
    ensures Reports(picks, n + 1, table, events + [e], kept + [n])
  {
    hide Counts, Shows;
    assert n < |picks| by { CountsPick(picks, |table|, n); }
    assert forall i :: 0 <= i < |kept| ==> kept[i] in kept;
  }

  lemma ReportsNothing(picks: seq<Pick>, table: seq<Connection?>)
    ensures Reports(picks, 0, table, [], [])
  {
  }

  lemma CountsPick(picks: seq<Pick>, size: nat, n: nat)
    requires Counts(picks, size, n)
    ensures n < |picks|
  {
  }

  lemma ReportNone(picks: seq<Pick>, n: nat, table: seq<Connection?>, events: seq<Ready>, kept: seq<nat>)
    requires Reports(picks, n, table, events, kept) && !Counts(picks, |table|, n)
    ensures Reports(picks, n + 1, table, events, kept)
  {
    hide Counts, Shows;
  }

  // ----- One event

  /** The event `e`, of a batch that found the connection as `found` with `past` events handled,
      ended with `end`; it is the one event handled since, only bytes had arrived before it, and
      it was handled as it should be. */
  ghost predicate Served(e: Ready, memory: bool, found: Scene, past: seq<Turn>, end: Option<EventEnd>, turns: seq<Turn>) {
    e.Client? ==>
      && end.Some? && turns != []
      && var turn := Latest(turns);
      && turns == past + [turn]
      && turn == Turn(e.readable, e.writable, memory, turn.before, turn.after, end.value)
      && ArrivedOnly(found, turn.before)
      && Handled(turn)
  }

  /** Besides, the connection is kept exactly if the event did not end with closing it; its path is
      as the event left it, and so is all of it, but for bytes that arrived, if it is kept. */
  ghost predicate Finished(e: Ready, memory: bool, found: Scene, past: seq<Turn>, end: Option<EventEnd>,
                           turns: seq<Turn>, path: Path, kept: bool, now: Scene) {
    e.Client? ==>
      && Served(e, memory, found, past, end, turns)
      && path == Latest(turns).after.path
      && (kept <==> end.value.Survived?)
      && (kept ==> ArrivedOnly(Latest(turns).after, now))
  }

  lemma JustFinished(e: Ready, memory: bool, found: Scene, past: seq<Turn>, end: EventEnd, turns: seq<Turn>, kept: bool, now: Scene)
    requires e.Client? && (kept <==> end.Survived?)
    requires var turn := Turn(e.readable, e.writable, memory, found, now, end); turns == past + [turn] && Handled(turn)
    ensures Finished(e, memory, found, past, Some(end), turns, now.path, kept, now)
  {
    ArrivedNothing(found);
    ArrivedNothing(now);
    hide Handled, ArrivedOnly;
  }

  /** Bytes may have arrived before the event. */
  lemma FinishedSince(e: Ready, memory: bool, was: Scene, found: Scene, past: seq<Turn>, end: Option<EventEnd>,
                      turns: seq<Turn>, path: Path, kept: bool, now: Scene)
    requires Finished(e, memory, found, past, end, turns, path, kept, now) && ArrivedOnly(was, found)
    ensures Finished(e, memory, was, past, end, turns, path, kept, now)
  {
    hide Handled, ArrivedOnly;
    if e.Client? {
      ArrivedTrans(was, found, Latest(turns).before);
    }
  }

  /** Bytes may arrive after the event. */
  lemma StillFinished(e: Ready, memory: bool, found: Scene, past: seq<Turn>, end: Option<EventEnd>,
                      turns: seq<Turn>, path: Path, kept: bool, was: Scene, now: Scene)
    requires Finished(e, memory, found, past, end, turns, path, kept, was)
    requires kept ==> ArrivedOnly(was, now)
    ensures Finished(e, memory, found, past, end, turns, path, kept, now)
  {
    hide Handled, ArrivedOnly;
    if e.Client? && kept {
      ArrivedTrans(Latest(turns).after, was, now);
    }
  }

  function Latest(turns: seq<Turn>): Turn
    requires turns != []
  {
    turns[|turns| - 1]
  }

  // ----- Joining and leaving

  /** How many sockets of the backlog can be used. */
  ghost function Usable(backlog: seq<bool>): nat {
    |set i | 0 <= i < |backlog| && backlog[i]|
  }

  lemma UsableNone()
    ensures Usable([]) == 0
  {
  }

  lemma UsableNext(backlog: seq<bool>, n: nat)
    requires n < |backlog|
    ensures Usable(backlog[..n + 1]) == Usable(backlog[..n]) + if backlog[n] then 1 else 0
  {
    var front, longer := backlog[..n], backlog[..n + 1];
    var some := set i | 0 <= i < |front| && front[i];
    var more := set i | 0 <= i < |longer| && longer[i];
    assert more == if backlog[n] then some + {n} else some;
  }

  ghost function Newcomers(e: Ready): nat {
    if e.Listener? then Usable(e.backlog) else 0
  }

  /** How many sockets the first `k` events could make connections of. */
  ghost function AllNewcomers(events: seq<Ready>, k: nat): nat
    requires k <= |events|
  {
    if k == 0 then 0 else AllNewcomers(events, k - 1) + Newcomers(events[k - 1])
  }

  /** At most so many have joined, and all of them if `all`. */
  ghost predicate Tally(joined: set<Connection>, most: nat, all: bool) {
    |joined| <= most && (all ==> |joined| == most)
  }

  lemma NobodyYet(events: seq<Ready>, live: set<Connection>, all: bool)
    ensures Tally(live - live, AllNewcomers(events, 0), all)
  {
    assert live - live == {};
  }

  lemma TallyNext(start: set<Connection>, was: set<Connection>, now: set<Connection>, events: seq<Ready>, k: nat, all: bool)
    requires k < |events| && Tally(was - start, AllNewcomers(events, k), all) && Tally(now - was, Newcomers(events[k]), all)
    requires (now - was) !! start && was - start <= now
    ensures Tally(now - start, AllNewcomers(events, k + 1), all)
  {
    hide Newcomers;
    assert now - start == (was - start) + (now - was);
  }

  /** The connections that their events closed. */
  ghost function Shut(events: seq<Ready>, ends: seq<Option<EventEnd>>): set<Connection> {
    set i | 0 <= i < |events| && i < |ends| && events[i].Client? && ends[i].Some? && ends[i].value.MustClose? :: events[i].conn
  }

  lemma WhoIsLeft(events: seq<Ready>, ends: seq<Option<EventEnd>>, was: set<Connection>, joined: set<Connection>,
                  now: set<Connection>)
    requires |ends| == |events| && IsBatch(events, was) && was !! joined
    requires joined <= now <= was + joined
    requires forall d :: d in was && d !in Named(events) ==> d in now
    requires forall i :: 0 <= i < |events| && events[i].Client? ==>
      ends[i].Some? && (events[i].conn in now <==> ends[i].value.Survived?)
    ensures now == was + joined - Shut(events, ends)
  {
    forall d | d in was && d in Named(events) ensures d in now <==> d !in Shut(events, ends) {
      var i :| 0 <= i < |events| && events[i].Client? && events[i].conn == d;
      if d in Shut(events, ends) {
        var j :| 0 <= j < |events| && events[j].Client? && ends[j].Some? && ends[j].value.MustClose? && events[j].conn == d;
        assert i == j;
      }
    }
    assert Shut(events, ends) <= Named(events);
  }

  // ----- What each connection handles

  /** One event as it was put to a connection, and how that ended. */
  datatype Ask = Ask(readable: bool, writable: bool, memory: bool, end: EventEnd)

  /** What the first `k` events put to the connection `d`. */
  ghost function Asked(events: seq<Ready>, ends: seq<Option<EventEnd>>, memory: bool, d: Connection, k: nat): seq<Ask>
    requires k <= |events| == |ends|
  {
    if k == 0 then []
    else
      var e, end := events[k - 1], ends[k - 1];
      Asked(events, ends, memory, d, k - 1)
      + if e.Client? && e.conn == d && end.Some? then [Ask(e.readable, e.writable, memory, end.value)] else []
  }

  lemma {:induction false} AskedNothing(events: seq<Ready>, ends: seq<Option<EventEnd>>, memory: bool, d: Connection, k: nat)
    requires k <= |events| == |ends|
    requires forall i :: 0 <= i < k && events[i].Client? ==> events[i].conn != d
    ensures Asked(events, ends, memory, d, k) == []
  {
    if k > 0 {
      AskedNothing(events, ends, memory, d, k - 1);
    }
  }

  lemma {:induction false} AskedOnce(events: seq<Ready>, ends: seq<Option<EventEnd>>, memory: bool, i: nat, k: nat)
    requires i < k <= |events| == |ends| && events[i].Client? && ends[i].Some?
    requires forall j :: 0 <= j < k && j != i && events[j].Client? ==> events[j].conn != events[i].conn
    ensures Asked(events, ends, memory, events[i].conn, k)
         == [Ask(events[i].readable, events[i].writable, memory, ends[i].value)]
  {
    if i == k - 1 {
      AskedNothing(events, ends, memory, events[i].conn, i);
    } else {
      AskedOnce(events, ends, memory, i, k - 1);
    }
  }

  function AskOf(turn: Turn): Ask {
    Ask(turn.readable, turn.writable, turn.memory, turn.end)
  }

  /** The history has grown by one event for each of the `asks`, in order, with what was asked, and
      each was handled as it should be. */
  ghost predicate Grown(past: seq<Turn>, turns: seq<Turn>, asks: seq<Ask>) {
    && past <= turns && |turns| == |past| + |asks|
    && (forall i :: 0 <= i < |asks| ==> AskOf(turns[|past| + i]) == asks[i])
    && (forall i :: |past| <= i < |turns| ==> Handled(turns[i]))
  }

  lemma GrownNot(turns: seq<Turn>)
    ensures Grown(turns, turns, [])
  {
  }

  lemma GrownTrans(a: seq<Turn>, b: seq<Turn>, c: seq<Turn>, asks: seq<Ask>, more: seq<Ask>)
    requires Grown(a, b, asks) && Grown(b, c, more)
    ensures Grown(a, c, asks + more)
  {
    hide Handled;
    forall i | |a| <= i < |c| ensures Handled(c[i]) {
      if i < |b| {
        assert c[i] == b[i];
      }
    }
    forall i | 0 <= i < |asks + more| ensures AskOf(c[|a| + i]) == (asks + more)[i] {
      if i < |asks| {
        assert c[|a| + i] == b[|a| + i];
      } else {
        assert c[|b| + (i - |asks|)] == c[|a| + i];
      }
    }
  }

  /** A connection's history after a batch that serves it once. */
  lemma ServedGrows(events: seq<Ready>, ends: seq<Option<EventEnd>>, memory: bool, live: set<Connection>, i: nat,
                    found: Scene, past: seq<Turn>, turns: seq<Turn>)
    requires |ends| == |events| && IsBatch(events, live) && i < |events| && events[i].Client?
    requires Served(events[i], memory, found, past, ends[i], turns)
    ensures Grown(past, turns, Asked(events, ends, memory, events[i].conn, |events|))
  {
    hide Handled, ArrivedOnly;
    AskedOnce(events, ends, memory, i, |events|);
  }

  lemma FinishedGrows(events: seq<Ready>, ends: seq<Option<EventEnd>>, memory: bool, live: set<Connection>, i: nat,
                      found: Scene, past: seq<Turn>, turns: seq<Turn>, path: Path, kept: bool, now: Scene)
    requires |ends| == |events| && IsBatch(events, live) && i < |events| && events[i].Client?
    requires Finished(events[i], memory, found, past, ends[i], turns, path, kept, now)
    ensures ends[i].Some? && (kept <==> ends[i].value.Survived?)
    ensures Grown(past, turns, Asked(events, ends, memory, events[i].conn, |events|))
  {
    hide Handled, ArrivedOnly, Grown, Asked;
    ServedGrows(events, ends, memory, live, i, found, past, turns);
  }

  lemma UnnamedNotAsked(events: seq<Ready>, ends: seq<Option<EventEnd>>, memory: bool, d: Connection)
    requires |ends| == |events| && d !in Named(events)
    ensures Asked(events, ends, memory, d, |events|) == []
  {
    AskedNothing(events, ends, memory, d, |events|);
  }

  // ----- The event loop

  /** What one turn of the event loop did: the table it found, the batch reported and the places of
      its entries among the picks, how each event ended, and the connections that joined. */
  datatype Entry = Entry(
    table: seq<Connection?>, kept: seq<nat>, batch: seq<Ready>, ends: seq<Option<EventEnd>>, joined: set<Connection>)

  /** The entry is right for the outside's part `it` and the connections live before it: the table
      holds these, each once; all that was picked is in the batch; each socket that can be used
      is a connection if memory suffices and there is a table. */
  ghost predicate Right(it: Iteration, entry: Entry, live: set<Connection>, usable: bool) {
    var Entry(table, kept, batch, ends, joined) := entry;
    && Lists(table, live)
    && Reports(it.picks, |it.picks|, table, batch, kept) && IsBatch(batch, live)
    && |ends| == |batch| && (forall i :: 0 <= i < |batch| ==> (ends[i].Some? <==> batch[i].Client?))
    && live !! joined && Tally(joined, AllNewcomers(batch, |batch|), it.memory && usable)
  }

  /** The connections live after the rounds of the log, which began with `live`. */
  ghost function Left(live: set<Connection>, log: seq<Entry>): set<Connection> {
    if log == [] then live
    else
      var Entry(_, _, batch, ends, joined) := log[|log| - 1];
      Left(live, log[..|log| - 1]) + joined - Shut(batch, ends)
  }

  /** The log, which began with the connections `live`, is right for the rounds. */
  ghost predicate Logged(rounds: seq<Iteration>, log: seq<Entry>, live: set<Connection>, usable: bool)
    requires |log| <= |rounds|
  {
    forall n :: 0 <= n < |log| ==> Right(rounds[n], log[n], Left(live, log[..n]), usable)
  }

  lemma LoggedNext(rounds: seq<Iteration>, log: seq<Entry>, live: set<Connection>, usable: bool, entry: Entry)
    requires |log| < |rounds| && Logged(rounds, log, live, usable)
    requires Right(rounds[|log|], entry, Left(live, log), usable)
    ensures Logged(rounds, log + [entry], live, usable)
    ensures Left(live, log + [entry]) == Left(live, log) + entry.joined - Shut(entry.batch, entry.ends)
  {
    hide Right, Shut;
    var all := log + [entry];
    assert all[..|log|] == log;
    forall n | 0 <= n < |all| ensures Right(rounds[n], all[n], Left(live, all[..n]), usable) {
      if n < |log| {
        assert all[..n] == log[..n];
      }
    }
  }

  /** All who joined. */
  ghost function Joined(log: seq<Entry>): set<Connection> {
    if log == [] then {} else Joined(log[..|log| - 1]) + log[|log| - 1].joined
  }

  /** What the rounds put to the connection `d`, in order. */
  ghost function AllAsked(rounds: seq<Iteration>, log: seq<Entry>, d: Connection): seq<Ask>
    requires |log| <= |rounds|
  {
    if log == [] then []
    else
      var n := |log| - 1;
      var Entry(_, _, batch, ends, _) := log[n];
      AllAsked(rounds, log[..n], d)
      + if |ends| == |batch| then Asked(batch, ends, rounds[n].memory, d, |batch|) else []
  }

  /** Only the connections `ever` are named in the log. */
  ghost predicate NamesOnly(log: seq<Entry>, ever: set<Connection>) {
    forall n, i :: 0 <= n < |log| && 0 <= i < |log[n].batch| && log[n].batch[i].Client? ==> log[n].batch[i].conn in ever
  }

  lemma {:induction false} NeverAsked(rounds: seq<Iteration>, log: seq<Entry>, ever: set<Connection>, d: Connection)
    requires |log| <= |rounds| && NamesOnly(log, ever) && d !in ever
    ensures AllAsked(rounds, log, d) == []
  {
    if log != [] {
      var n := |log| - 1;
      NeverAsked(rounds, log[..n], ever, d);
      var Entry(_, _, batch, ends, _) := log[n];
      if |ends| == |batch| {
        AskedNothing(batch, ends, rounds[n].memory, d, |batch|);
      }
    }
  }

  lemma AllAskedNext(rounds: seq<Iteration>, log: seq<Entry>, entry: Entry, d: Connection)
    requires |log| < |rounds| && |entry.ends| == |entry.batch|
    ensures AllAsked(rounds, log + [entry], d)
         == AllAsked(rounds, log, d) + Asked(entry.batch, entry.ends, rounds[|log|].memory, d, |entry.batch|)
    ensures Joined(log + [entry]) == Joined(log) + entry.joined
  {
    assert (log + [entry])[..|log|] == log;
  }

  lemma LogEmpty(rounds: seq<Iteration>, live: set<Connection>, usable: bool)
    ensures Logged(rounds, [], live, usable) && Left(live, []) == live && Joined([]) == {} && NamesOnly([], live + Joined([]))
  {
  }

  lemma AskedBefore(rounds: seq<Iteration>, d: Connection)
    ensures AllAsked(rounds, [], d) == []
  {
  }

  lemma NamesNext(log: seq<Entry>, start: set<Connection>, entry: Entry, it: Iteration, live: set<Connection>, usable: bool)
    requires NamesOnly(log, start + Joined(log)) && live <= start + Joined(log) && Right(it, entry, live, usable)
    ensures NamesOnly(log + [entry], start + Joined(log + [entry]))
    ensures Joined(log + [entry]) == Joined(log) + entry.joined
  {
    hide Reports, AllNewcomers;
    assert (log + [entry])[..|log|] == log;
  }

  lemma NewcomerNotAsked(it: Iteration, entry: Entry, live: set<Connection>, usable: bool, c: Connection)
    requires Right(it, entry, live, usable) && c in entry.joined
    ensures Asked(entry.batch, entry.ends, it.memory, c, |entry.batch|) == []
  {
    hide Reports, AllNewcomers;
    AskedNothing(entry.batch, entry.ends, it.memory, c, |entry.batch|);
  }
}
