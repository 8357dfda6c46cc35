/**
 One connection end to end, as a state machine over bytes: receive a chunk, handle the
 packet at the head of the unparsed bytes, transmit some of the pending bytes.  The
 connection of src/event_loop/reactor.c takes only these steps (see module Connections),
 so what is proved here of every run holds for it, however the peer, the kernel and the
 allocator behave.
 */
module DataPath {
  import opened Packets
  import opened Framing
  import opened Sessions

  const MAX_PENDING: nat := 65536

  /** `kept[i]` says whether the i-th reply was queued or lost for want of space or memory. */
  datatype Path = Path(
    received: seq<byte>, unparsed: seq<byte>, handled: seq<Packet>,
    session: Session, kept: seq<bool>, pending: seq<byte>, sent: seq<byte>)

  const START := Path([], [], [], FRESH, [], [], [])

  datatype Action = Receive(chunk: seq<byte>) | Handle(queue: bool) | Transmit(n: nat)

  /** The outcome of handling the packet at the head of the unparsed bytes. */
  function Next(p: Path): Outcome
    requires FirstFrame(p.unparsed).Complete?
  {
    Step(p.session, FirstFrame(p.unparsed).packet)
  }

  /** There is room for the reply to the next packet, if it has one. */
  predicate Room(p: Path)
    requires FirstFrame(p.unparsed).Complete?
  {
    Next(p).reply.Some? ==> |p.pending| + HEADER_SIZE <= MAX_PENDING
  }

  predicate Enabled(p: Path, a: Action) {
    match a
    case Receive(chunk) => chunk != []
    case Handle(queue) => FirstFrame(p.unparsed).Complete? && (queue ==> Room(p))
    case Transmit(n) => 0 < n <= |p.pending|
  }

  function Act(p: Path, a: Action): Path
    requires Enabled(p, a)
  {
    match a
    case Receive(chunk) => p.(received := p.received + chunk, unparsed := p.unparsed + chunk)
    case Handle(queue) =>
      CompleteFrame(p.unparsed);
      var packet, o := FirstFrame(p.unparsed).packet, Next(p);
      var q := p.(unparsed := p.unparsed[|Serialize(packet)|..], handled := p.handled + [packet], session := o.session);
      if o.reply.None? then q
      else q.(kept := p.kept + [queue], pending := if queue then p.pending + Serialize(o.reply.value) else p.pending)
    case Transmit(n) => p.(pending := p.pending[n..], sent := p.sent + p.pending[..n])
  }

  /** Take the actions in order from the start, if each is enabled when its turn comes. */
  function Exec(acts: seq<Action>): Option<Path> {
    if acts == [] then Some(START)
    else
      var before := Exec(acts[..|acts| - 1]);
      if before.Some? && Enabled(before.value, acts[|acts| - 1])
      then Some(Act(before.value, acts[|acts| - 1]))
      else None
  }

  lemma ExecSnoc(acts: seq<Action>, p: Path, a: Action)
    requires Exec(acts) == Some(p) && Enabled(p, a)
    ensures Exec(acts + [a]) == Some(Act(p, a))
  {
  }

  // ----- What every run keeps

  function Select(ps: seq<Packet>, kept: seq<bool>): seq<Packet>
    requires |ps| == |kept|
  {
    if ps == [] then []
    else
      var n := |ps| - 1;
      if kept[n] then Select(ps[..n], kept[..n]) + [ps[n]] else Select(ps[..n], kept[..n])
  }

  /** The bytes received are the packets handled followed by the unparsed bytes; the session is
      the protocol's after those packets; and the bytes sent followed by the bytes pending are
      whole replies, in order, exactly those that were queued. */
  ghost predicate Faithful(p: Path) {
    var run := Run(FRESH, p.handled);
    && AllAcceptable(p.handled)
    && p.received == SerializeAll(p.handled) + p.unparsed
    && p.session == run.session
    && |p.kept| == |run.replies|
    && p.sent + p.pending == SerializeAll(Select(run.replies, p.kept))
    && |p.pending| <= MAX_PENDING
  }

  lemma HandleKeepsBytes(p: Path, queue: bool)
    requires Enabled(p, Handle(queue))
    requires AllAcceptable(p.handled) && p.received == SerializeAll(p.handled) + p.unparsed
    ensures var q := Act(p, Handle(queue));
      AllAcceptable(q.handled) && q.received == SerializeAll(q.handled) + q.unparsed
  {
    hide FirstFrame, Serialize, SerializeAll, Step;
    var packet := FirstFrame(p.unparsed).packet;
    CompleteFrame(p.unparsed);
    SerializeAllSnoc(p.handled, packet);
    var tail := p.unparsed[|Serialize(packet)|..];
    assert SerializeAll(p.handled) + (Serialize(packet) + tail) == (SerializeAll(p.handled) + Serialize(packet)) + tail;
  }

  lemma SelectSnoc(ps: seq<Packet>, kept: seq<bool>, p: Packet, k: bool)
    requires |ps| == |kept|
    ensures Select(ps + [p], kept + [k]) == if k then Select(ps, kept) + [p] else Select(ps, kept)
  {
  }

  /** The marks that handling a packet adds to `kept`. */
  function Marks(o: Outcome, queue: bool): seq<bool> {
    if o.reply.Some? then [queue] else []
  }

  /** What handling the next packet does to the path, field by field. */
  lemma HandleShape(p: Path, queue: bool)
    requires Enabled(p, Handle(queue))
    ensures var packet, o, q := FirstFrame(p.unparsed).packet, Next(p), Act(p, Handle(queue));
      && Acceptable(packet)
      && p.unparsed == Serialize(packet) + q.unparsed
      && q.session == o.session && q.handled == p.handled + [packet]
      && q.kept == p.kept + Marks(o, queue)
      && q.pending == p.pending + (if queue then SerializeAll(ReplyOf(o)) else [])
      && q.received == p.received && q.sent == p.sent
  {
    CompleteFrame(p.unparsed);
    var o := Next(p);
    hide FirstFrame, Serialize, Step;
    if o.reply.Some? {
      assert SerializeAll([o.reply.value]) == Serialize(o.reply.value) + SerializeAll([]);
    }
  }

  lemma ReplySize(p: Path)
    requires FirstFrame(p.unparsed).Complete?
    ensures |SerializeAll(ReplyOf(Next(p)))| == HEADER_SIZE * |ReplyOf(Next(p))|
  {
  }

  lemma SelectReply(replies: seq<Packet>, kept: seq<bool>, o: Outcome, queue: bool)
    requires |replies| == |kept|
    ensures |replies + ReplyOf(o)| == |kept + Marks(o, queue)|
    ensures SerializeAll(Select(replies + ReplyOf(o), kept + Marks(o, queue)))
         == SerializeAll(Select(replies, kept)) + if queue then SerializeAll(ReplyOf(o)) else []
  {
    hide SerializeAll, Select;
    NoPackets();
    if o.reply.Some? {
      SelectSnoc(replies, kept, o.reply.value, queue);
      SerializeAllConcat(Select(replies, kept), [o.reply.value]);
    } else {
      assert replies + ReplyOf(o) == replies && kept + Marks(o, queue) == kept;
    }
  }

  lemma NoPackets()
    ensures SerializeAll([]) == []
  {
  }

  lemma HandleKeepsReplies(p: Path, queue: bool)
    requires Enabled(p, Handle(queue))
    requires Faithful(p)
    ensures var q := Act(p, Handle(queue)); var run := Run(FRESH, q.handled);
      && q.session == run.session
      && |q.kept| == |run.replies|
      && q.sent + q.pending == SerializeAll(Select(run.replies, q.kept))
      && |q.pending| <= MAX_PENDING
  {
    hide Run, Step, FirstFrame, SerializeAll, Select, Act, ReplyOf, Marks, AllAcceptable;
    HandleShape(p, queue);
    RunSnoc(FRESH, p.handled, FirstFrame(p.unparsed).packet);
    SelectReply(Run(FRESH, p.handled).replies, p.kept, Next(p), queue);
    var more := if queue then SerializeAll(ReplyOf(Next(p))) else [];
    assert p.sent + (p.pending + more) == (p.sent + p.pending) + more;
    FitsRoom(p, queue);
  }

  lemma FitsRoom(p: Path, queue: bool)
    requires Enabled(p, Handle(queue)) && |p.pending| <= MAX_PENDING
    ensures |Act(p, Handle(queue)).pending| <= MAX_PENDING
  {
  }

  lemma ActFaithful(p: Path, a: Action)
    requires Faithful(p) && Enabled(p, a)
    ensures Faithful(Act(p, a))
  {
    match a
    case Receive(chunk) =>
    case Transmit(n) =>
      assert p.pending == p.pending[..n] + p.pending[n..];
    case Handle(queue) =>
      HandleKeepsBytes(p, queue);
      HandleKeepsReplies(p, queue);
  }

  /** Every run of the connection, of any length, is faithful. */
  lemma {:induction false} EveryRunFaithful(acts: seq<Action>)
    requires Exec(acts).Some?
    ensures Faithful(Exec(acts).value)
  {
    if acts != [] {
      EveryRunFaithful(acts[..|acts| - 1]);
      ActFaithful(Exec(acts[..|acts| - 1]).value, acts[|acts| - 1]);
    } else {
      assert Faithful(START);
    }
  }

  // ----- What faithfulness means for the peer

  ghost predicate Lossless(p: Path) {
    forall i :: 0 <= i < |p.kept| ==> p.kept[i]
  }

  /** Nothing more can be handled: the unparsed bytes hold no complete packet. */
  predicate Settled(p: Path) {
    !FirstFrame(p.unparsed).Complete?
  }

  lemma {:induction false} SelectAll(ps: seq<Packet>, kept: seq<bool>)
    requires |ps| == |kept| && forall i :: 0 <= i < |kept| ==> kept[i]
    ensures Select(ps, kept) == ps
  {
    if ps != [] {
      var n := |ps| - 1;
      SelectAll(ps[..n], kept[..n]);
    }
  }

  /** The packets handled are always a prefix of what the one-shot parser finds in the received
      bytes, and all of them once settled; a bad header is met at the same place. */
  lemma HandledIsParsed(p: Path)
    requires Faithful(p)
    ensures ParseAll(p.received) == Prepend(p.handled, ParseAll(p.unparsed))
    ensures Settled(p) ==> ParseAll(p.received) == Parsed(p.handled, p.unparsed, FirstFrame(p.unparsed).Malformed?)
  {
    RoundTrip(p.handled, p.unparsed);
    assert p.handled + [] == p.handled;
  }

  /** Once settled, every packet whose bytes have been received has been handled, however long it is
      and in however many pieces it came. */
  lemma ReceivedIsHandled(p: Path, ps: seq<Packet>, t: seq<byte>)
    requires Faithful(p) && Settled(p)
    requires AllAcceptable(ps) && p.received == SerializeAll(ps) + t
    ensures ps <= p.handled
  {
    hide Run, Select, FirstFrame, SerializeAll, ParseAll;
    HandledIsParsed(p);
    RoundTrip(ps, t);
  }

  /** The reply bytes that the received bytes call for. */
  function Wire(received: seq<byte>): seq<byte> {
    SerializeAll(Run(FRESH, ParseAll(received).packets).replies)
  }

  // ----- An exchange, in bytes

  /** Messages of one type without payload, one on each of the streams `ids`. */
  function Each(kind: byte, ids: seq<byte>): seq<byte> {
    if ids == [] then [] else Eight(kind, ids[0]) + Each(kind, ids[1..])
  }

  /** A client that connects and then pings any streams gets the acknowledgement and then one pong
      for each ping, on its stream and in order. */
  lemma PingsAnswered(ids: seq<byte>)
    ensures Wire(Eight(1, 0) + Each(3, ids)) == Eight(2, 0) + Each(4, ids)
  {
    var connect, pings := Reply(CONNECT, 0), Replies(PING, ids);
    var up := Session(Established, {0}, 1);
    hide ParseAll, Run, Step, Serialize;
    ReplyBytes(CONNECT, 0);
    ReplyBytes(CONNECT_ACK, 0);
    EachSerialized(PING, ids);
    EachSerialized(PONG, ids);
    assert ([connect] + pings)[1..] == pings;
    SerializedParses([connect] + pings);
    RunCons(FRESH, connect, pings);
    assert Step(FRESH, connect) == Outcome(up, Some(Reply(CONNECT_ACK, 0))) by { Connects(); }
    PongsFor(up, ids);
    assert ([Reply(CONNECT_ACK, 0)] + Replies(PONG, ids))[1..] == Replies(PONG, ids);
  }

  function Replies(kind: byte, ids: seq<byte>): seq<Packet> {
    seq(|ids|, i requires 0 <= i < |ids| => Reply(kind, ids[i]))
  }

  lemma Connects()
    ensures Step(FRESH, Reply(CONNECT, 0)) == Outcome(Session(Established, {0}, 1), Some(Reply(CONNECT_ACK, 0)))
  {
  }

  lemma {:induction false} EachSerialized(kind: byte, ids: seq<byte>)
    requires kind <= ERROR
    ensures AllAcceptable(Replies(kind, ids)) && SerializeAll(Replies(kind, ids)) == Each(kind, ids)
  {
    if ids != [] {
      EachSerialized(kind, ids[1..]);
      ReplyBytes(kind, ids[0]);
      assert Replies(kind, ids)[1..] == Replies(kind, ids[1..]);
    }
  }

  lemma {:induction false} PongsFor(s: Session, ids: seq<byte>)
    requires s.phase.Established?
    ensures Run(s, Replies(PING, ids)) == RunResult(s, Replies(PONG, ids))
  {
    if ids != [] {
      PongsFor(s, ids[1..]);
      RunCons(s, Reply(PING, ids[0]), Replies(PING, ids[1..]));
      assert Replies(PING, ids) == [Reply(PING, ids[0])] + Replies(PING, ids[1..]);
      assert Replies(PONG, ids) == [Reply(PONG, ids[0])] + Replies(PONG, ids[1..]);
    }
  }

  /** End to end: in a settled lossless run the bytes sent followed by the bytes pending are a
      function of the bytes received, whatever the chunks, the partial sends and their order. */
  lemma EndToEnd(p: Path)
    requires Faithful(p) && Settled(p) && Lossless(p)
    ensures p.sent + p.pending == Wire(p.received)
  {
    HandledIsParsed(p);
    SelectAll(Run(FRESH, p.handled).replies, p.kept);
  }

  /** Two runs that received the same bytes agree on everything the peer can see. */
  lemma RunsAgree(acts: seq<Action>, bcts: seq<Action>)
    requires Exec(acts).Some? && Exec(bcts).Some?
    requires var p, q := Exec(acts).value, Exec(bcts).value;
      p.received == q.received && Settled(p) && Settled(q) && Lossless(p) && Lossless(q)
    ensures var p, q := Exec(acts).value, Exec(bcts).value;
      p.sent + p.pending == q.sent + q.pending && p.handled == q.handled && p.session == q.session
  {
    var p, q := Exec(acts).value, Exec(bcts).value;
    EveryRunFaithful(acts);
    EveryRunFaithful(bcts);
    hide *;
    EndToEnd(p);
    EndToEnd(q);
    HandledIsParsed(p);
    HandledIsParsed(q);
  }

  /** What the peer gets can always be parsed: whole acceptable replies, in order. */
  lemma PeerCanParse(p: Path)
    requires Faithful(p)
    ensures ParseAll(p.sent + p.pending) == Parsed(Select(Run(FRESH, p.handled).replies, p.kept), [], false)
  {
    var replies := Run(FRESH, p.handled).replies;
    RepliesAcceptable(FRESH, p.handled);
    SelectAcceptable(replies, p.kept);
    hide *;
    SerializedParses(Select(replies, p.kept));
  }

  lemma {:induction false} SelectAcceptable(ps: seq<Packet>, kept: seq<bool>)
    requires |ps| == |kept| && AllAcceptable(ps)
    ensures AllAcceptable(Select(ps, kept))
  {
    if ps != [] {
      var n := |ps| - 1;
      SelectAcceptable(ps[..n], kept[..n]);
    }
  }

  // ----- Back pressure

  lemma {:induction false} PacketsAreLong(ps: seq<Packet>)
    ensures HEADER_SIZE * |ps| <= |SerializeAll(ps)|
  {
    if ps != [] {
      PacketsAreLong(ps[1..]);
    }
  }

  lemma {:induction false} SelectedAreShort(s: Session, ps: seq<Packet>, kept: seq<bool>)
    requires |kept| == |Run(s, ps).replies|
    ensures |SerializeAll(Select(Run(s, ps).replies, kept))| <= HEADER_SIZE * |ps|
  {
    RepliesAcceptable(s, ps);
    SelectSize(Run(s, ps).replies, kept);
  }

  lemma {:induction false} SelectSize(ps: seq<Packet>, kept: seq<bool>)
    requires |ps| == |kept|
    ensures |SerializeAll(Select(ps, kept))| <= |SerializeAll(ps)|
  {
    if ps != [] {
      var n := |ps| - 1;
      SelectSize(ps[..n], kept[..n]);
      SerializeAllSnoc(ps[..n], ps[n]);
      SerializeAllSnoc(Select(ps[..n], kept[..n]), ps[n]);
      assert ps == ps[..n] + [ps[n]];
    }
  }

  /** Over the life of a connection the reply bytes never exceed the request bytes consumed. */
  lemma RepliesNeverExceedRequests(p: Path)
    requires Faithful(p)
    ensures |p.sent| + |p.pending| <= |p.received| - |p.unparsed|
  {
    hide Select, SerializeAll, Run;
    PacketsAreLong(p.handled);
    SelectedAreShort(FRESH, p.handled, p.kept);
    assert |p.sent + p.pending| == |p.sent| + |p.pending|;
  }

  datatype Stop = Quiet | Rejected | Dropped

  datatype Processed = Processed(path: Path, stop: Stop)

  /** Handle packets until none is complete, one is malformed, or a reply does not fit:
      what packet processing does while allocation succeeds. */
  function Process(p: Path): Processed
    decreases |p.unparsed|
  {
    match FirstFrame(p.unparsed)
    case NeedMore => Processed(p, Quiet)
    case Malformed => Processed(p, Rejected)
    case Complete(packet) =>
      var fits := Room(p);
      var q := Act(p, Handle(fits));
      CompleteFrame(p.unparsed);
      if fits then Process(q) else Processed(q, Dropped)
  }

  /** All the replies that the unparsed bytes call for. */
  function Due(p: Path): seq<Packet> {
    Run(p.session, ParseAll(p.unparsed).packets).replies
  }

  /** Handling one packet takes its reply off what is due, and it off what parses. */
  lemma DueStep(p: Path, queue: bool)
    requires Enabled(p, Handle(queue))
    ensures var q := Act(p, Handle(queue));
      && ParseAll(p.unparsed) == Prepend([FirstFrame(p.unparsed).packet], ParseAll(q.unparsed))
      && Due(p) == ReplyOf(Next(p)) + Due(q)
  {
    hide FirstFrame, Serialize, Act, ParseAll, Run, SerializeAll, Step;
    HandleShape(p, queue);
    var packet, q := FirstFrame(p.unparsed).packet, Act(p, Handle(queue));
    ParsePeel(packet, q.unparsed);
    RunCons(p.session, packet, ParseAll(q.unparsed).packets);
  }

  lemma NothingDue(p: Path)
    requires Settled(p)
    ensures ParseAll(p.unparsed) == Parsed([], p.unparsed, FirstFrame(p.unparsed).Malformed?)
    ensures Due(p) == [] && SerializeAll(Due(p)) == []
  {
  }

  /** Processing loses a reply if and only if the replies due do not fit behind what is pending,
      which can be told before it starts. */
  lemma {:induction false} DropsExactly(p: Path)
    requires |p.pending| <= MAX_PENDING
    ensures Process(p).stop.Dropped? <==> |p.pending| + HEADER_SIZE * |Due(p)| > MAX_PENDING
    decreases |p.unparsed|
  {
    hide FirstFrame, Serialize, ParseAll, Due, Step, SerializeAll, Act;
    if FirstFrame(p.unparsed).Complete? {
      var fits := Room(p);
      DueStep(p, fits);
      HandleShape(p, fits);
      ReplySize(p);
      if fits {
        DropsExactly(Act(p, Handle(true)));
      }
    } else {
      NothingDue(p);
    }
  }

  /** If the pending and the unparsed bytes together fit the write ring, nothing is lost. */
  lemma SmallBacklogNeverDrops(p: Path)
    requires |p.pending| + |p.unparsed| <= MAX_PENDING
    ensures !Process(p).stop.Dropped?
  {
    hide FirstFrame, Serialize, Process, SerializeAll;
    var ps := ParseAll(p.unparsed).packets;
    ParseSound(p.unparsed);
    PacketsAreLong(ps);
    RepliesAcceptable(p.session, ps);
    DropsExactly(p);
  }

  /** Handling a packet never increases the pending and unparsed bytes together. */
  lemma BacklogShrinks(p: Path, queue: bool)
    requires Enabled(p, Handle(queue))
    ensures var q := Act(p, Handle(queue));
      |q.pending| + |q.unparsed| <= |p.pending| + |p.unparsed|
  {
  }

  /** Without a loss, processing queues exactly what is due and leaves what does not parse. */
  lemma {:induction false} ProcessAnswersAll(p: Path)
    requires !Process(p).stop.Dropped?
    ensures var r, parsed := Process(p), ParseAll(p.unparsed);
      && r.path.pending == p.pending + SerializeAll(Due(p))
      && r.path.unparsed == parsed.rest
      && r.path.handled == p.handled + parsed.packets
      && r.stop == if parsed.bad then Rejected else Quiet
    decreases |p.unparsed|
  {
    hide FirstFrame, Serialize, ParseAll, Due, Step, SerializeAll, Act;
    if FirstFrame(p.unparsed).Complete? {
      var q := Act(p, Handle(true));
      DueStep(p, true);
      HandleShape(p, true);
      ProcessAnswersAll(q);
      SerializeAllConcat(ReplyOf(Next(p)), Due(q));
    } else {
      NothingDue(p);
    }
  }

  /** A serialized list of packets whose replies fit is handled packet by packet and leaves
      nothing behind. */
  lemma StreamRoundTrip(p: Path, ps: seq<Packet>)
    requires AllAcceptable(ps) && p.unparsed == SerializeAll(ps)
    requires |p.pending| + HEADER_SIZE * |Run(p.session, ps).replies| <= MAX_PENDING
    ensures var r := Process(p);
      r.stop.Quiet? && r.path.unparsed == [] && r.path.handled == p.handled + ps
  {
    hide Process, ParseAll;
    SerializedParses(ps);
    DropsExactly(p);
    ProcessAnswersAll(p);
  }

  /** A reply is lost only when the write ring is full. */
  lemma {:induction false} DroppedLeavesFull(p: Path)
    requires Process(p).stop.Dropped?
    ensures |Process(p).path.pending| + HEADER_SIZE > MAX_PENDING
    decreases |p.unparsed|
  {
    hide FirstFrame, Serialize, Step, SerializeAll, Act;
    if FirstFrame(p.unparsed).Complete? {
      HandleShape(p, Room(p));
      if Room(p) {
        DroppedLeavesFull(Act(p, Handle(true)));
      }
    }
  }

  /** Processing leaves nothing pending exactly when nothing was pending or due. */
  lemma ProcessSilent(p: Path)
    requires |p.pending| <= MAX_PENDING
    ensures Process(p).path.pending == [] <==> p.pending == [] && Due(p) == []
  {
    hide Process, Due, SerializeAll;
    DropsExactly(p);
    if Process(p).stop.Dropped? {
      DroppedLeavesFull(p);
    } else {
      ProcessAnswersAll(p);
      PacketsAreLong(Due(p));
      if Due(p) == [] {
        assert SerializeAll([]) == [] by { NoPackets(); }
      }
    }
  }

  /** Processing ends at a bad header or without a complete packet, as it says. */
  lemma {:induction false} ProcessSettles(p: Path)
    ensures var r := Process(p);
      && (r.stop.Quiet? ==> FirstFrame(r.path.unparsed).NeedMore?)
      && (r.stop.Rejected? ==> FirstFrame(r.path.unparsed).Malformed?)
    decreases |p.unparsed|
  {
    hide FirstFrame, Serialize, Step, SerializeAll, Act;
    if FirstFrame(p.unparsed).Complete? {
      HandleShape(p, Room(p));
      if Room(p) {
        ProcessSettles(Act(p, Handle(true)));
      }
    }
  }

  /** A run of processing is without loss exactly when nothing was lost before and no reply is dropped. */
  lemma {:induction false} ProcessKeeps(p: Path)
    ensures Lossless(Process(p).path) <==> Lossless(p) && !Process(p).stop.Dropped?
    decreases |p.unparsed|
  {
    hide FirstFrame, Serialize, Step, SerializeAll, Act;
    if FirstFrame(p.unparsed).Complete? {
      var fits := Room(p);
      var q := Act(p, Handle(fits));
      HandleShape(p, fits);
      assert Lossless(q) <==> Lossless(p) && fits by { MarksLossless(p, q, fits); }
      if fits {
        ProcessKeeps(q);
      }
    }
  }

  lemma MarksLossless(p: Path, q: Path, fits: bool)
    requires FirstFrame(p.unparsed).Complete? && fits == Room(p)
    requires q.kept == p.kept + Marks(Next(p), fits)
    ensures Lossless(q) <==> Lossless(p) && fits
  {
    hide FirstFrame, Step;
    if Next(p).reply.Some? {
      assert q.kept[|p.kept|] == fits;
    }
    assert forall i :: 0 <= i < |p.kept| ==> q.kept[i] == p.kept[i];
  }

  // ----- Processing that memory cuts short

  /** Handle `n` packets, each answered. */
  function Steps(p: Path, n: nat): Option<Path> {
    if n == 0 then Some(p)
    else
      var q := Steps(p, n - 1);
      if q.Some? && Enabled(q.value, Handle(true)) then Some(Act(q.value, Handle(true))) else None
  }

  /** After some packets, each answered, the next one waits for memory. */
  ghost predicate CutBefore(p: Path, q: Path) {
    exists n: nat :: Steps(p, n) == Some(q) && FirstFrame(q.unparsed).Complete?
  }

  /** After some packets, each answered, the reply to the next one is lost. */
  ghost predicate CutAfter(p: Path, q: Path) {
    exists n: nat :: Steps(p, n).Some? && CutsAt(Steps(p, n).value, q)
  }

  predicate CutsAt(m: Path, q: Path) {
    FirstFrame(m.unparsed).Complete? && Next(m).reply.Some? && q == Act(m, Handle(false))
  }
}
