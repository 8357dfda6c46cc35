/**
 What the events of one connection amount to: what each does to the path and to the bytes
 waiting in the kernel, and what the whole history says of replies lost and bytes stranded
 (src/event_loop/reactor.c).
 */
module Histories {
  import opened Packets
  import opened Framing
  import opened Sessions
  import opened Sockets
  import opened Rings
  import opened Parsers
  import opened Protocol
  import opened DataPath

  datatype WriteStop = Emptied | WriteBlocked | WriteError

  datatype ReadStop = ReadBlocked | RingFull | ReadNoMemory | PeerClosed | ReadError

  /** How packet processing ended: as the machine says, or early for want of memory. */
  datatype ProcessStop = Ran(stop: Stop) | PayloadNoMemory | ReplyNoMemory

  /** The path after sending up to `sent`. */
  ghost function Flushed(p: Path, sent: seq<byte>): Path
    requires p.sent <= sent <= p.sent + p.pending
  {
    p.(sent := sent, pending := (p.sent + p.pending)[|sent|..])
  }

  /** The path after receiving up to `received`. */
  ghost function Fed(p: Path, received: seq<byte>): Path
    requires p.received <= received
  {
    p.(received := received, unparsed := p.unparsed + received[|p.received|..])
  }

  lemma FedSame(p: Path)
    ensures Fed(p, p.received) == p
  {
  }

  lemma FlushedSame(p: Path)
    ensures Flushed(p, p.sent) == p
  {
  }

  lemma FlushedIs(p: Path, q: Path)
    requires Sends(p, q)
    ensures q.sent <= p.sent + p.pending && q == Flushed(p, q.sent)
  {
    assert q.pending == (q.sent + q.pending)[|q.sent|..];
  }

  /** The path `q` is `p` after some of the pending bytes have been sent. */
  ghost predicate Sends(p: Path, q: Path) {
    && q == p.(sent := q.sent, pending := q.pending)
    && p.sent <= q.sent && q.sent + q.pending == p.sent + p.pending
  }

  /** The path `q` is `p` after more bytes have been received. */
  ghost predicate Extends(p: Path, q: Path) {
    p.received <= q.received && q == Fed(p, q.received)
  }

  lemma ExtendsSame(p: Path)
    ensures Extends(p, p)
  {
    FedSame(p);
  }

  lemma ExtendsBy(p: Path, chunk: seq<byte>)
    ensures Extends(p, p.(received := p.received + chunk, unparsed := p.unparsed + chunk))
  {
  }

  lemma ExtendsTrans(p: Path, q: Path, r: Path)
    requires Extends(p, q) && Extends(q, r)
    ensures Extends(p, r)
  {
    var got1, got2 := q.received[|p.received|..], r.received[|q.received|..];
    assert r.received[|p.received|..] == got1 + got2;
    assert r.unparsed == p.unparsed + (got1 + got2);
  }

  /** How one round of packet processing ended. */
  datatype Round = NoPacket | BadPacket | NoPayload | Answered | NoRoom | NoReply

  /** The round `r` takes the path `p` to `q`. */
  ghost predicate Rounds(p: Path, r: Round, q: Path) {
    var frame := FirstFrame(p.unparsed);
    match r
    case NoPacket => frame.NeedMore? && q == p
    case BadPacket => frame.Malformed? && q == p
    case NoPayload => frame.Complete? && q == p
    case Answered => frame.Complete? && Room(p) && q == Act(p, Handle(true))
    case NoRoom => frame.Complete? && !Room(p) && q == Act(p, Handle(false))
    case NoReply => CutsAt(p, q)
  }

  /** What a round means for the rest of the processing. */
  lemma RoundProgress(p: Path, r: Round, q: Path)
    requires Rounds(p, r, q)
    ensures q.received == p.received && q.sent == p.sent && |q.pending| >= |p.pending|
    ensures match r
      case NoPacket => Process(p) == Processed(q, Quiet)
      case BadPacket => Process(p) == Processed(q, Rejected)
      case Answered => Process(p) == Process(q) && |q.unparsed| < |p.unparsed|
      case NoRoom => Process(p) == Processed(q, Dropped)
      case _ => true
  {
  }

  /** Counting the packets handled since `start`. */
  lemma RoundCounts(start: Path, n: nat, p: Path, r: Round, q: Path)
    requires Steps(start, n) == Some(p) && Rounds(p, r, q)
    ensures r.Answered? ==> Steps(start, n + 1) == Some(q)
    ensures r.NoPayload? ==> CutBefore(start, q)
    ensures r.NoReply? ==> CutAfter(start, q)
  {
    hide FirstFrame, Act;
  }

  /** Processing from `p` stopped at `q` for the reason `stop`. */
  ghost predicate Stops(p: Path, stop: ProcessStop, q: Path) {
    match stop
    case Ran(s) => Process(p) == Processed(q, s)
    case PayloadNoMemory => CutBefore(p, q)
    case ReplyNoMemory => CutAfter(p, q)
  }

  /** The connection is closed after packet processing ended this way. */
  predicate Fatal(stop: ProcessStop) {
    stop == Ran(Rejected) || stop.PayloadNoMemory?
  }

  datatype CloseReason = WriteFailed | ClientGone | ReadFailed | ProtocolError | PayloadMemory

  datatype EventEnd = MustClose(why: CloseReason) | Survived(read: ReadStop, stop: ProcessStop)

  /** A connection and its socket at one moment: the path, the bytes the socket has handed over and
      taken, those in the read ring, those waiting in the kernel, all that have arrived, and
      whether those waiting will be reported. */
  datatype Scene = Scene(
    path: Path, received: seq<byte>, sent: seq<byte>, queued: nat, inbox: seq<byte>, arrived: seq<byte>, safe: bool,
    blocked: bool, eof: bool, failed: bool, ctlFailed: bool)

  /** An event: what was ready, whether memory sufficed, what it found, what it left, how it ended. */
  datatype Turn = Turn(readable: bool, writable: bool, memory: bool, before: Scene, after: Scene, end: EventEnd)

  /** What the end of an event says about the path. */
  ghost predicate Justified(end: EventEnd, p: Path) {
    && Faithful(p)
    && match end
       case MustClose(why) => why.ProtocolError? ==> ParseAll(p.received) == Parsed(p.handled, p.unparsed, true)
       case Survived(_, stop) =>
         && !Fatal(stop)
         && (stop == Ran(Dropped) ==> |p.pending| + HEADER_SIZE > MAX_PENDING)
         && (stop == Ran(Quiet) ==>
               FirstFrame(p.unparsed).NeedMore? && (Lossless(p) ==> p.sent + p.pending == Wire(p.received)))
  }

  lemma JustifyClose(trace: seq<Action>, p: Path, why: CloseReason)
    requires Exec(trace) == Some(p) && !why.ProtocolError?
    ensures Justified(MustClose(why), p)
  {
    EveryRunFaithful(trace);
  }

  lemma JustifyProcessing(trace: seq<Action>, before: Path, after: Path, stop: ProcessStop, read: ReadStop)
    requires Exec(trace) == Some(after)
    requires Stops(before, stop, after)
    ensures if Fatal(stop) then Justified(MustClose(if stop.Ran? then ProtocolError else PayloadMemory), after)
            else Justified(Survived(read, stop), after)
  {
    EveryRunFaithful(trace);
    if stop.Ran? {
      ProcessSettles(before);
      hide Process, Exec;
      if stop.stop.Dropped? {
        DroppedLeavesFull(before);
      } else {
        HandledIsParsed(after);
        if Lossless(after) {
          EndToEnd(after);
        }
      }
    }
  }

  /** The event did not end as it did without a reason. */
  predicate Caused(turn: Turn) {
    match turn.end
    case MustClose(ClientGone) => turn.after.eof
    case MustClose(ProtocolError) => true
    case MustClose(PayloadMemory) => !turn.memory
    case MustClose(_) => turn.after.failed
    case Survived(read, stop) => read.ReadNoMemory? || !stop.Ran? ==> !turn.memory
  }

  /** How the path `now`, which an event left, comes from `mid`, the path after it had sent and
      received: by processing, up to where memory failed if it did. */
  ghost predicate Stepped(mid: Path, end: EventEnd, now: Path) {
    match end
    case Survived(_, stop) => Stops(mid, stop, now)
    case MustClose(ProtocolError) => Stops(mid, Ran(Rejected), now)
    case MustClose(PayloadMemory) => Stops(mid, PayloadNoMemory, now)
    case MustClose(_) => now == mid
  }

  /** Bytes are only added: to what was sent, from what was pending, and to what was received. */
  predicate Grew(was: Path, now: Path) {
    was.sent <= now.sent <= was.sent + was.pending && was.received <= now.received
  }

  /** The path between receiving and processing. */
  ghost function Mid(was: Path, now: Path): Path
    requires Grew(was, now)
  {
    Fed(Flushed(was, now.sent), now.received)
  }

  /** An event was handled as it should be.

      It sent, received and processed: the path it left is the path it found with bytes moved from
      pending to sent, with bytes received, and with packets processed as the machine does, and it
      agrees with what the socket handed over and took.  It ended for a reason: on a connection
      that stays, either no complete packet is left, or the reply that could not be queued left the
      write ring full, so that the next writable event processes packets again; and while no
      reply has been lost the bytes sent and pending are the function `Wire` of the bytes
      received.  A connection closed for a protocol error had received exactly the packets
      handled and then a bad header.

      A writable event sent all that was pending or found the socket full.  A readable event
      read until the socket had nothing, or the ring was full; it made progress if there was
      anything to read and room for it; and it left readable bytes with no event to come exactly
      when it was not also writable, nothing arrived meanwhile, and `Strands` held before it. */
  ghost predicate Handled(turn: Turn) {
    var Turn(readable, writable, memory, before, after, end) := turn;
    var was, now := before.path, after.path;
    && now.received == after.received && now.sent == after.sent
    && Grew(was, now) && Stepped(Mid(was, now), end, now)
    && Justified(end, now) && Caused(turn)
    && (!readable ==> now.received == was.received)
    && (!writable ==> now.sent == was.sent)
    && (before.ctlFailed ==> after.ctlFailed)
    && before.arrived <= after.arrived
    && (end.Survived? ==>
          && (end.stop == Ran(Quiet) ==> after.queued < MAX_SIZE - 1)
          && (writable ==> after.blocked || now.sent == was.sent + was.pending)
          && (readable && end.read.ReadBlocked? ==> after.inbox == [])
          && (readable && end.read.RingFull? ==> |now.received| - |was.received| == MAX_SIZE - before.queued)
          && (readable && memory && before.inbox != [] && before.queued < MAX_SIZE ==> |now.received| > |was.received|)
          && Waking(turn))
  }

  /** What an event does to the bytes waiting in the kernel. */
  ghost predicate Waking(turn: Turn) {
    var Turn(readable, writable, memory, before, after, end) := turn;
    && (!after.ctlFailed && (after.path.pending != [] || (writable && !readable)) ==> after.safe)
    && (!readable ==> after.arrived == before.arrived && (before.safe ==> after.safe))
    && (!readable && !writable && after.path.pending == [] ==> after.safe == before.safe)
    && (readable && memory && !after.ctlFailed ==>
          (!after.safe <==>
           !writable && after.arrived == before.arrived && Strands(before.path, before.queued, before.inbox)))
  }

  /** More bytes had arrived than the read ring can hold, and those it can hold, with what was
      there, call for no reply while nothing is pending. */
  ghost predicate Strands(p: Path, count: nat, inbox: seq<byte>) {
    && count <= MAX_SIZE < count + |inbox|
    && p.pending == []
    && Due(p.(unparsed := p.unparsed + inbox[..MAX_SIZE - count])) == []
  }

  lemma StrandsNeeds(p: Path, count: nat, inbox: seq<byte>)
    ensures Strands(p, count, inbox) ==> inbox != [] && p.pending == []
  {
  }

  /** It does happen: on a fresh connection any packet longer than the read ring, if all of it
      has arrived when it is read, leaves its last bytes in the kernel without an event. */
  lemma LongPacketStrands(p: Packet)
    requires Acceptable(p) && |Serialize(p)| > MAX_SIZE
    ensures Strands(START, 0, Serialize(p))
  {
  }

  /** Receiving some of the `before` bytes waiting until the ring was full or none was left. */
  lemma StrandedExactly(p: Path, q: Path, count: nat, before: seq<byte>, after: seq<byte>)
    requires Extends(p, q) && p.received + before == q.received + after
    requires count + |q.received| - |p.received| <= MAX_SIZE && |q.pending| <= MAX_PENDING
    requires after == [] || count + |q.received| - |p.received| == MAX_SIZE
    ensures Strands(p, count, before) <==> after != [] && Process(q).path.pending == []
  {
    var got := q.received[|p.received|..];
    assert before == (p.received + before)[|p.received|..] == got + after;
    ProcessSilent(q);
    hide Process, Run, ParseAll;
    if after != [] {
      assert before[..MAX_SIZE - count] == got;
    }
  }

  // ----- The parts of an event

  /** Sending: what is pending goes out if the event is writable, and no more is changed. */
  ghost predicate SentFirst(readable: bool, writable: bool, was: Scene, now: Scene) {
    && Sends(was.path, now.path) && (!writable ==> now.path == was.path)
    && now.received == now.path.received && now.sent == now.path.sent
    && now.queued == was.queued && now.inbox == was.inbox && now.arrived == was.arrived
    && (was.ctlFailed ==> now.ctlFailed)
    && (now.failed ==> Justified(MustClose(WriteFailed), now.path))
    && (!now.failed && writable ==> now.blocked || now.sent == was.path.sent + was.path.pending)
    && (!now.failed && writable && !now.ctlFailed ==> now.path.pending != [] || now.safe)
    && (readable && !writable && now.inbox != [] ==> !now.safe)
    && (!readable && was.safe ==> now.safe)
    && (!readable && !writable ==> now.safe == was.safe)
  }

  /** Receiving and processing.  Allocation and epoll_ctl permitting, a readable event leaves
      bytes in the kernel with no event to come exactly when none was to come before, nothing
      arrived meanwhile, more had arrived than the read ring can ever hold, and the packets that
      fit it call for no reply. */
  ghost predicate TookInput(readable: bool, memory: bool, was: Scene, now: Scene, end: EventEnd) {
    && was.path.received <= now.path.received && Stepped(Fed(was.path, now.path.received), end, now.path)
    && now.received == now.path.received && now.sent == now.path.sent == was.path.sent
    && Justified(end, now.path) && end != MustClose(WriteFailed)
    && Caused(Turn(readable, false, memory, was, now, end))
    && now.blocked == was.blocked && was.arrived <= now.arrived
    && (was.ctlFailed ==> now.ctlFailed)
    && (!readable ==> now.received == was.path.received && now.arrived == was.arrived && (was.safe ==> now.safe))
    && (end.Survived? ==>
          && |now.path.pending| >= |was.path.pending|
          && (end.stop == Ran(Quiet) ==> now.queued < MAX_SIZE - 1)
          && (readable ==> Reading(memory, was, now, end))
          && (now.path.pending != [] && !now.ctlFailed ==> now.safe)
          && (!readable && now.path.pending == [] ==> now.safe == was.safe))
  }

  ghost predicate Reading(memory: bool, was: Scene, now: Scene, end: EventEnd)
    requires end.Survived?
  {
    var got := |now.path.received| - |was.path.received|;
    && (end.read.ReadBlocked? ==> now.inbox == [])
    && (end.read.RingFull? ==> got == MAX_SIZE - was.queued)
    && (memory && was.inbox != [] && was.queued < MAX_SIZE ==> got > 0)
    && (memory && !now.ctlFailed ==>
          (!now.safe <==> !was.safe && now.arrived == was.arrived && Strands(was.path, was.queued, was.inbox)))
  }

  /** Receiving: until the socket has nothing or the ring is full, if memory suffices. */
  ghost predicate Filled(memory: bool, was: Scene, now: Scene, read: ReadStop) {
    var got := |now.path.received| - |was.path.received|;
    && Extends(was.path, now.path)
    && now.received == now.path.received && now.sent == now.path.sent
    && now.queued - was.queued == got && was.arrived <= now.arrived
    && now.blocked == was.blocked && now.ctlFailed == was.ctlFailed
    && (read.PeerClosed? ==> now.eof && Justified(MustClose(ClientGone), now.path))
    && (read.ReadError? ==> now.failed && Justified(MustClose(ReadFailed), now.path))
    && (read.ReadNoMemory? ==> !memory)
    && (read.ReadBlocked? ==> now.inbox == [])
    && (read.RingFull? ==> now.queued == MAX_SIZE)
    && (read.ReadBlocked? || read.RingFull? ==>
          && (was.inbox != [] && was.queued < MAX_SIZE ==> got > 0)
          && (now.safe <==> now.inbox == [] || now.arrived != was.arrived || was.safe)
          && (now.arrived == was.arrived ==>
                (Strands(was.path, was.queued, was.inbox) <==> now.inbox != [] && Process(now.path).path.pending == [])))
  }

  /** What receiving means for the bytes left in the kernel; `edge` says whether a readable event
      is to come. */
  lemma FilledIs(memory: bool, was: Scene, now: Scene, read: ReadStop, edgeWas: bool, edge: bool)
    requires Extends(was.path, now.path) && Faithful(now.path)
    requires was.received == was.path.received && now.received == now.path.received && now.sent == now.path.sent
    requires was.arrived == was.received + was.inbox && now.arrived == now.received + now.inbox
    requires now.queued - was.queued == |now.received| - |was.received| && now.queued <= MAX_SIZE
    requires was.arrived <= now.arrived && now.blocked == was.blocked && now.ctlFailed == was.ctlFailed
    requires now.eof == (was.eof || read.PeerClosed?) && now.failed == (was.failed || read.ReadError?)
    requires read.ReadNoMemory? ==> !memory
    requires read.ReadBlocked? ==> now.inbox == []
    requires read.RingFull? ==> now.queued == MAX_SIZE
    requires was.safe == (was.inbox == [] || edgeWas) && now.safe == (now.inbox == [] || edge)
    requires edge == (edgeWas || now.arrived != was.arrived)
    ensures Filled(memory, was, now, read)
  {
    hide Strands, Process, Faithful;
    assert |now.path.pending| <= MAX_PENDING by { FaithfulFits(now.path); }
    if (read.ReadBlocked? || read.RingFull?) && now.arrived == was.arrived {
      StrandedExactly(was.path, now.path, was.queued, was.inbox, now.inbox);
    }
  }

  lemma FaithfulFits(p: Path)
    requires Faithful(p)
    ensures |p.pending| <= MAX_PENDING
  {
  }

  /** Processing, after receiving stopped for the reason `read`. */
  ghost predicate Finishes(read: ReadStop, memory: bool, was: Scene, now: Scene, end: EventEnd) {
    && Stepped(was.path, end, now.path) && Justified(end, now.path)
    && now.received == now.path.received == was.path.received && now.sent == now.path.sent == was.path.sent
    && now.blocked == was.blocked && now.inbox == was.inbox && now.arrived == was.arrived
    && (was.ctlFailed ==> now.ctlFailed) && (was.safe ==> now.safe)
    && match end
       case MustClose(why) => why.ProtocolError? || (why.PayloadMemory? && !memory)
       case Survived(how, stop) =>
         && how == read && (!stop.Ran? ==> !memory)
         && (stop == Ran(Quiet) ==> now.queued < MAX_SIZE - 1)
         && |now.path.pending| >= |was.path.pending|
         && (!now.ctlFailed ==> (now.safe <==> now.path.pending != [] || was.safe))
         && (now.path.pending == [] ==> now.safe == was.safe)
  }

  lemma OnlyProcessed(memory: bool, was: Scene, now: Scene, read: ReadStop, end: EventEnd)
    requires Finishes(read, memory, was, now, end) && read.ReadBlocked?
    ensures TookInput(false, memory, was, now, end)
  {
    hide Justified, Stepped;
    FedSame(was.path);
  }

  lemma ReceivingEnded(memory: bool, was: Scene, now: Scene, read: ReadStop)
    requires Filled(memory, was, now, read) && (read.PeerClosed? || read.ReadError?)
    ensures TookInput(true, memory, was, now, MustClose(if read.PeerClosed? then ClientGone else ReadFailed))
  {
    hide Justified, Strands, Process;
  }

  lemma ReceivedProcessed(memory: bool, was: Scene, filled: Scene, now: Scene, read: ReadStop, end: EventEnd)
    requires Filled(memory, was, filled, read) && !read.PeerClosed? && !read.ReadError?
    requires Finishes(read, memory, filled, now, end)
    ensures TookInput(true, memory, was, now, end)
  {
    hide Justified, Strands, Process;
  }

  lemma SendingFailed(readable: bool, writable: bool, memory: bool, was: Scene, now: Scene)
    requires SentFirst(readable, writable, was, now) && now.failed
    ensures Handled(Turn(readable, writable, memory, was, now, MustClose(WriteFailed)))
  {
    hide Justified, Process, Strands;
    FlushedIs(was.path, now.path);
    FedSame(now.path);
  }

  /** The parts make up the event. */
  lemma Completed(readable: bool, writable: bool, memory: bool, was: Scene, sent: Scene, now: Scene, end: EventEnd)
    requires SentFirst(readable, writable, was, sent) && !sent.failed
    requires TookInput(readable, memory, sent, now, end)
    ensures Handled(Turn(readable, writable, memory, was, now, end))
  {
    hide Justified, Stepped, Strands;
    FlushedIs(was.path, sent.path);
    StrandsNeeds(sent.path, sent.queued, sent.inbox);
  }

  /** Between the two moments nothing happened to the connection but that bytes may have arrived,
      and if any did a readable event is to come. */
  predicate ArrivedOnly(was: Scene, now: Scene) {
    && now == was.(inbox := now.inbox, arrived := now.arrived, safe := now.safe)
    && was.arrived <= now.arrived && was.inbox <= now.inbox
    && (now.arrived == was.arrived ==> now == was)
    && (now.arrived != was.arrived ==> now.safe)
  }

  lemma ArrivedNothing(now: Scene)
    ensures ArrivedOnly(now, now)
  {
  }

  lemma ArrivedTrans(a: Scene, b: Scene, c: Scene)
    requires ArrivedOnly(a, b) && ArrivedOnly(b, c)
    ensures ArrivedOnly(a, c)
  {
  }

  // ----- Whole histories

  /** The last event that was readable or writable. */
  function LastMoved(turns: seq<Turn>): Option<Turn> {
    if turns == [] then None
    else
      var turn := turns[|turns| - 1];
      if turn.readable || turn.writable then Some(turn) else LastMoved(turns[..|turns| - 1])
  }

  /** The event met the conditions under which bytes are stranded. */
  ghost predicate StrandsAt(turn: Turn) {
    turn.readable && !turn.writable && Strands(turn.before.path, turn.before.queued, turn.before.inbox)
  }

  /** The last event that could change it stranded bytes, and none has arrived since it began. */
  ghost predicate Stuck(turns: seq<Turn>, now: Scene) {
    var last := LastMoved(turns);
    last.Some? && StrandsAt(last.value) && now.arrived == last.value.before.arrived
  }

  /** With what it received, the event had more replies due than the write ring could take. */
  ghost predicate Overflows(turn: Turn) {
    && Grew(turn.before.path, turn.after.path)
    && var mid := Mid(turn.before.path, turn.after.path);
    |mid.pending| + HEADER_SIZE * |Due(mid)| > MAX_PENDING
  }

  /** A connection that has received nothing. */
  predicate Starting(s: Scene) {
    s.path == START && s.queued == 0
  }

  /** The path is that of a run, and the bytes that have arrived are those received and those that
      wait. */
  ghost predicate Consistent(s: Scene) {
    && Faithful(s.path)
    && s.received == s.path.received && s.arrived == s.received + s.inbox
  }

  predicate AllMemory(turns: seq<Turn>) {
    forall i :: 0 <= i < |turns| ==> turns[i].memory
  }

  /** The events follow one another: between them, before the first and since the last, nothing
      happened to the connection but that bytes arrived. */
  predicate Chained(turns: seq<Turn>, now: Scene) {
    && (forall i :: 0 < i < |turns| ==> ArrivedOnly(turns[i - 1].after, turns[i].before))
    && Starting(if turns == [] then now else turns[0].before)
    && (turns != [] ==> ArrivedOnly(turns[|turns| - 1].after, now))
  }

  ghost predicate NoneOverflows(turns: seq<Turn>) {
    forall i :: 0 <= i < |turns| ==> !Overflows(turns[i])
  }

  /** Every reply is kept exactly if no event overflowed the write ring; then nothing is left to
      handle either. */
  ghost predicate LossExplained(turns: seq<Turn>, now: Scene) {
    (Lossless(now.path) <==> NoneOverflows(turns)) && (Lossless(now.path) ==> Settled(now.path))
  }

  /** Bytes are stranded exactly if the last event to move bytes stranded them and none has come
      since; then nothing is left to handle or to send. */
  ghost predicate StrandingExplained(turns: seq<Turn>, now: Scene) {
    !now.ctlFailed ==>
      && (!now.safe <==> Stuck(turns, now))
      && (!now.safe ==> now.path.pending == [] && Settled(now.path))
  }

  /** The events account for how the connection is now.  Each was handled as it should be, they
      follow one another, and while memory sufficed they say exactly whether a reply has been
      lost and whether bytes are stranded. */
  ghost predicate Explained(turns: seq<Turn>, now: Scene) {
    && (forall i :: 0 <= i < |turns| ==> Handled(turns[i]) && turns[i].end.Survived? && Consistent(turns[i].before))
    && Chained(turns, now)
    && Consistent(now)
    && (LastMoved(turns).Some? ==> LastMoved(turns).value.before.arrived <= now.arrived)
    && (AllMemory(turns) ==> LossExplained(turns, now) && StrandingExplained(turns, now))
  }

  lemma ExplainedFresh(now: Scene)
    requires Starting(now) && now.safe && Consistent(now)
    ensures Explained([], now)
  {
  }

  /** Bytes that arrive leave the account as it is. */
  lemma ExplainedArrive(turns: seq<Turn>, was: Scene, now: Scene)
    requires Explained(turns, was) && ArrivedOnly(was, now) && Consistent(now)
    ensures Explained(turns, now)
  {
    hide Handled, Overflows, StrandsAt, Lossless, Faithful;
    if turns != [] {
      ArrivedTrans(turns[|turns| - 1].after, was, now);
    }
  }

  /** An event that is handled as it should be and does not close the connection extends the
      account. */
  lemma ExplainedStep(turns: seq<Turn>, turn: Turn)
    requires Explained(turns, turn.before) && Handled(turn) && turn.end.Survived? && Consistent(turn.after)
    ensures Explained(turns + [turn], turn.after)
  {
    hide Handled, Faithful, LossExplained, StrandingExplained, Chained, ArrivedOnly, LastMoved;
    var all := turns + [turn];
    assert forall i :: 0 <= i < |turns| ==> all[i] == turns[i];
    assert all[|turns|] == turn;
    LastMovedSnoc(turns, turn);
    HandledGrows(turn);
    ChainedStep(turns, turn);
    if AllMemory(all) {
      assert AllMemory(turns);
      LossStep(turns, turn);
      StrandingStep(turns, turn);
    }
  }

  lemma ChainedStep(turns: seq<Turn>, turn: Turn)
    requires Chained(turns, turn.before)
    ensures Chained(turns + [turn], turn.after)
  {
    var all := turns + [turn];
    assert ArrivedOnly(turn.after, turn.after);
    assert all[|turns|] == turn;
    hide ArrivedOnly;
    forall i | 0 < i < |all| ensures ArrivedOnly(all[i - 1].after, all[i].before) {
      if i < |turns| {
        assert all[i - 1] == turns[i - 1] && all[i] == turns[i];
      }
    }
  }

  lemma LastMovedSnoc(turns: seq<Turn>, turn: Turn)
    ensures LastMoved(turns + [turn]) == if turn.readable || turn.writable then Some(turn) else LastMoved(turns)
  {
    assert (turns + [turn])[..|turns|] == turns;
  }

  lemma HandledGrows(turn: Turn)
    requires Handled(turn)
    ensures turn.before.arrived <= turn.after.arrived && Grew(turn.before.path, turn.after.path)
    ensures turn.after.received == turn.after.path.received
  {
    hide Process, Strands, Mid;
  }

  /** With memory, an event that does not close the connection processes to the end. */
  lemma RanToEnd(turn: Turn)
    requires Handled(turn) && turn.end.Survived? && turn.memory
    ensures Grew(turn.before.path, turn.after.path) && turn.end.stop.Ran?
    ensures Process(Mid(turn.before.path, turn.after.path)) == Processed(turn.after.path, turn.end.stop.stop)
    ensures turn.end.stop == Ran(Dropped) || (turn.end.stop == Ran(Quiet) && Settled(turn.after.path))
  {
    hide Process, Waking, Lossless, FirstFrame, Mid, Faithful;
    assert !turn.end.stop.stop.Rejected?;
  }

  /** With memory, an event loses a reply exactly if it overflows. */
  lemma LosesExactly(turn: Turn)
    requires Handled(turn) && turn.end.Survived? && turn.memory && |turn.before.path.pending| <= MAX_PENDING
    ensures Lossless(turn.after.path) <==> Lossless(turn.before.path) && !Overflows(turn)
    ensures !Overflows(turn) ==> Settled(turn.after.path) && turn.end.stop == Ran(Quiet)
  {
    hide Process, Due, Handled, Settled;
    RanToEnd(turn);
    var mid := Mid(turn.before.path, turn.after.path);
    DropsExactly(mid);
    ProcessKeeps(mid);
  }

  lemma LossStep(turns: seq<Turn>, turn: Turn)
    requires LossExplained(turns, turn.before) && Faithful(turn.before.path)
    requires Handled(turn) && turn.end.Survived? && turn.memory
    ensures LossExplained(turns + [turn], turn.after)
  {
    LosesExactly(turn);
    hide Handled, Overflows, Lossless, Settled;
    var all := turns + [turn];
    assert forall i :: 0 <= i < |turns| ==> all[i] == turns[i];
    assert all[|turns|] == turn;
  }

  /** As long as memory suffices and no event has overflowed the write ring, the bytes sent and
      pending are a function of the bytes received. */
  lemma ServedInFull(turns: seq<Turn>, now: Scene)
    requires Explained(turns, now) && AllMemory(turns) && NoneOverflows(turns)
    ensures now.path.sent + now.path.pending == Wire(now.path.received)
  {
    hide Handled, Overflows;
    EndToEnd(now.path);
  }

  // ----- No wedge at the size limit

  /** When an event has ended for want of a complete packet, every packet whose bytes have been
      received has been handled, up to the longest there is. */
  lemma QuietHandledAll(turn: Turn, ps: seq<Packet>, t: seq<byte>)
    requires Handled(turn) && turn.end.Survived? && turn.end.stop == Ran(Quiet)
    requires AllAcceptable(ps) && turn.after.received == SerializeAll(ps) + t
    ensures ps <= turn.after.path.handled
  {
    hide Process, Strands, Mid, Stepped, Waking, FirstFrame, Lossless, Wire;
    ReceivedIsHandled(turn.after.path, ps, t);
  }

  /** After such an event the next readable one, if bytes wait and memory suffices, receives some. */
  lemma QuietMakesRoom(was: Turn, turn: Turn)
    requires Handled(was) && was.end.Survived? && was.end.stop == Ran(Quiet)
    requires ArrivedOnly(was.after, turn.before)
    requires Handled(turn) && turn.end.Survived? && turn.readable && turn.memory && turn.before.inbox != []
    ensures |turn.after.received| > |turn.before.path.received|
  {
    hide Process, Strands, Mid, Stepped, Justified, Waking;
  }

  /** What the event `j` of a history found; past the last one, how the connection is. */
  function Found(turns: seq<Turn>, now: Scene, j: nat): Scene
    requires j <= |turns|
  {
    if j < |turns| then turns[j].before else now
  }

  ghost predicate InFull(turns: seq<Turn>, now: Scene) {
    Explained(turns, now) && AllMemory(turns) && NoneOverflows(turns)
  }

  lemma InFullAt(turns: seq<Turn>, now: Scene, j: nat)
    requires InFull(turns, now) && j < |turns|
    ensures var turn := turns[j];
      && Handled(turn) && turn.end.Survived? && turn.memory && turn.end.stop == Ran(Quiet)
      && Consistent(turn.before)
      && ArrivedOnly(turn.after, Found(turns, now, j + 1))
    ensures j == 0 ==> turns[0].before.queued == 0
  {
    hide Handled, Overflows, Faithful, ArrivedOnly;
    FaithfulFits(turns[j].before.path);
    LosesExactly(turns[j]);
  }

  lemma FoundConsistent(turns: seq<Turn>, now: Scene, j: nat)
    requires InFull(turns, now) && j <= |turns|
    ensures Consistent(Found(turns, now, j))
  {
    hide Handled, Overflows, Faithful, ArrivedOnly, LossExplained, StrandingExplained;
  }

  lemma InFullSettled(turns: seq<Turn>, now: Scene)
    requires InFull(turns, now)
    ensures Settled(now.path)
  {
    hide Handled, Overflows, Faithful, ArrivedOnly, StrandingExplained, Settled;
  }

  /** One readable event: all that waited has been received, or at least one more byte. */
  lemma Advances(turns: seq<Turn>, now: Scene, j: nat)
    requires InFull(turns, now) && j < |turns|
    ensures var was, next := Found(turns, now, j), Found(turns, now, j + 1);
      && was.arrived <= next.arrived && |was.received| <= |next.received|
      && (turns[j].readable ==> |next.received| >= Min(|was.arrived|, |was.received| + 1))
  {
    hide InFull, Handled, Faithful;
    var turn := turns[j];
    InFullAt(turns, now, j);
    HandledGrows(turn);
    if turn.readable && turn.before.inbox != [] {
      if j > 0 {
        InFullAt(turns, now, j - 1);
        QuietMakesRoom(turns[j - 1], turn);
      } else {
        ReceivesSome(turn);
      }
    }
  }

  lemma ReceivesSome(turn: Turn)
    requires Handled(turn) && turn.end.Survived? && turn.readable && turn.memory && turn.before.inbox != []
    requires turn.before.queued < MAX_SIZE
    ensures |turn.after.received| > |turn.before.path.received|
  {
    hide Process, Strands, Mid, Stepped, Justified, Waking;
  }

  lemma {:induction false} AdvancesAll(turns: seq<Turn>, now: Scene, i: nat, j: nat)
    requires InFull(turns, now) && i <= j <= |turns|
    requires forall n :: i <= n < j ==> turns[n].readable
    ensures var was, next := Found(turns, now, i), Found(turns, now, j);
      was.arrived <= next.arrived && |next.received| >= Min(|was.arrived|, |was.received| + j - i)
    decreases j
  {
    hide InFull;
    if i == j {
      FoundConsistent(turns, now, i);
    } else {
      AdvancesAll(turns, now, i, j - 1);
      Advances(turns, now, j - 1);
    }
  }

  /** While memory suffices and no event overflows the write ring, after as many readable events
      as bytes were waiting every packet that had arrived by then has been handled. */
  lemma ArrivedIsHandled(turns: seq<Turn>, now: Scene, i: nat, ps: seq<Packet>, t: seq<byte>)
    requires InFull(turns, now) && i <= |turns|
    requires forall n :: i <= n < |turns| ==> turns[n].readable
    requires var found := Found(turns, now, i);
      |turns| - i >= |found.inbox| && AllAcceptable(ps) && found.arrived == SerializeAll(ps) + t
    ensures ps <= now.path.handled
  {
    hide InFull, Faithful, SerializeAll, AllAcceptable, Settled;
    var found := Found(turns, now, i);
    AdvancesAll(turns, now, i, |turns|);
    FoundConsistent(turns, now, i);
    FoundConsistent(turns, now, |turns|);
    InFullSettled(turns, now);
    assert now.received == found.arrived + now.received[|found.arrived|..];
    var rest := t + now.received[|found.arrived|..];
    assert now.path.received == SerializeAll(ps) + rest;
    ReceivedIsHandled(now.path, ps, rest);
  }

  /** An event that neither sends nor receives leaves a settled connection with nothing pending
      as it is. */
  lemma IdleEvent(turn: Turn)
    requires Handled(turn) && turn.end.Survived? && turn.memory && !turn.readable && !turn.writable
    requires turn.before.path.pending == [] && Settled(turn.before.path)
    ensures turn.after.path == turn.before.path && turn.after.safe == turn.before.safe
  {
    FlushedSame(turn.before.path);
    FedSame(turn.before.path);
  }

  /** With memory, an event that leaves nothing pending leaves nothing to handle. */
  lemma NothingPendingSettled(turn: Turn)
    requires Handled(turn) && turn.end.Survived? && turn.memory && turn.after.path.pending == []
    ensures Settled(turn.after.path)
  {
    hide Process, Strands, Mid, Stepped, Waking, FirstFrame, Lossless;
    assert turn.end.stop.stop.Quiet?;
  }

  lemma StrandingStep(turns: seq<Turn>, turn: Turn)
    requires StrandingExplained(turns, turn.before)
    requires Handled(turn) && turn.end.Survived? && turn.memory
    ensures StrandingExplained(turns + [turn], turn.after)
  {
    LastMovedSnoc(turns, turn);
    hide Process, Strands, Mid, LastMoved, Stepped, Justified, Settled;
    if turn.after.path.pending == [] {
      NothingPendingSettled(turn);
    }
    if !turn.readable && !turn.writable && !turn.after.ctlFailed && !turn.before.safe {
      IdleEvent(turn);
    }
  }
}
