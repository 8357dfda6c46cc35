/**
 One client connection and the reactor code that works on it
 (src/event_loop/reactor.c): queue a reply, drain the write ring, fill the read ring,
 process packets, handle one event.

 Every method takes only steps of the machine of module DataPath; the ghost `trace`
 records them.  A flag `memory` says that every allocation during the call succeeds; when
 it is not set, each may fail.
 */
module Connections {
  import opened Packets
  import opened Framing
  import opened Sessions
  import opened Sockets
  import opened Rings
  import opened Parsers
  import opened Protocol
  import opened DataPath
  import opened Histories

  /** Queue a whole reply or nothing.  Memory permitting, it is queued exactly when it fits
      the maximum size of the ring.  The four "impossible" exits of the source are the
      assertions below. */
  method Enqueue(ring: RingBuffer, response: Packet, memory: bool) returns (r: Status)
    requires ring.Valid() && WellFormed(response)
    modifies ring, ring.data
    ensures ring.Valid() && (ring.data == old(ring.data) || fresh(ring.data))
    ensures ring.Contents() == if r.Ok? then old(ring.Contents()) + Serialize(response) else old(ring.Contents())
    ensures r.Refused? ==> |old(ring.Contents())| + |Serialize(response)| > MAX_SIZE
    ensures r.Ok? ==> |old(ring.Contents())| + |Serialize(response)| <= MAX_SIZE
    ensures r.NoMemory? ==> !memory
  {
    hide Serialize, Rotate;
    var packetSize := HEADER_SIZE + response.header.payloadLen;
    r := ring.Reserve(packetSize, memory);
    if !r.Ok? {
      return;
    }
    var region1 := ring.ContiguousWrite();
    assert region1 > 0;                       // a writable region exists
    if region1 >= packetSize {
      EnqueueStraight(ring, response);
    } else {
      assert packetSize - region1 > 0;        // a wrapped packet has a second part
      r := EnqueueWrapped(ring, response, region1, memory);
    }
  }

  /** Fast path: serialize into the ring itself. */
  method EnqueueStraight(ring: RingBuffer, response: Packet)
    requires ring.Valid() && WellFormed(response)
    requires |Serialize(response)| <= Min(ring.capacity - ring.count, ring.capacity - ring.writePos)
    modifies ring, ring.data
    ensures ring.Valid() && ring.data == old(ring.data)
    ensures ring.Contents() == old(ring.Contents()) + Serialize(response)
  {
    hide Serialize, LaidOut, Rotate;
    ghost var cells, at := ring.data[..], ring.count;
    var packetSize := HEADER_SIZE + response.header.payloadLen;
    SerializeInto(response, ring.data, ring.writePos);
    RegionWritten(cells, ring.data[..], ring.readPos, ring.count, packetSize);
    var committed := ring.Commit(packetSize);
    assert committed.Ok?;                     // the commit cannot fail
    SplitAt(ring.Cells(), at, ring.count);
  }

  /** Wrap path: serialize aside, then copy the two parts. */
  method EnqueueWrapped(ring: RingBuffer, response: Packet, region1: nat, memory: bool) returns (r: Status)
    requires ring.Valid() && WellFormed(response)
    requires |Serialize(response)| <= ring.capacity - ring.count
    requires 0 < region1 == Min(ring.capacity - ring.count, ring.capacity - ring.writePos) < |Serialize(response)|
    modifies ring, ring.data
    ensures ring.Valid() && ring.data == old(ring.data) && !r.Refused? && (r.NoMemory? ==> !memory)
    ensures ring.Contents() == if r.Ok? then old(ring.Contents()) + Serialize(response) else old(ring.Contents())
  {
    hide Serialize, LaidOut, RingBuffer.Contents, RingBuffer.Cells;
    var packetSize := HEADER_SIZE + response.header.payloadLen;
    var remaining := packetSize - region1;
    var ok: bool := *;
    if !memory && !ok {
      return NoMemory;
    }
    var staging := new byte[packetSize];
    SerializeInto(response, staging, 0);
    var bytes := staging[..];
    assert bytes == staging[0..0 + packetSize];
    ghost var queue := ring.Contents();
    ring.WriteCommit(bytes[..region1]);
    var region2 := ring.ContiguousWrite();
    assert region2 >= remaining;              // the second region is large enough
    ring.WriteCommit(bytes[region1..]);
    assert bytes == bytes[..region1] + bytes[region1..];
    assert queue + bytes[..region1] + bytes[region1..] == queue + bytes;
    r := Ok;
  }

  class Connection {
    var slot: nat
    const readBuf: RingBuffer
    const writeBuf: RingBuffer
    const parser: Parser
    const fsm: Machine
    const sock: Socket
    ghost var trace: seq<Action>
    ghost var path: Path
    ghost var turns: seq<Turn>   // the events handled so far

    /** The parts are sound and separate. */
    ghost predicate Shape()
      reads readBuf, readBuf.data, writeBuf, writeBuf.data, sock
    {
      && readBuf != writeBuf
      && (readBuf.data != null ==> readBuf.data != writeBuf.data)
      && readBuf.Valid() && writeBuf.Valid() && fsm.Valid() && sock.Valid()
    }

    /** The path is reached by the trace and agrees with the concrete state, but for the parser. */
    ghost predicate Coherent()
      reads `trace, `path, readBuf, readBuf.data, writeBuf, writeBuf.data, fsm, fsm.bitmap, sock
    {
      && Shape()
      && Exec(trace) == Some(path)
      && path.pending == writeBuf.Contents()
      && path.session == fsm.Abs()
      && path.received == sock.received
      && path.sent == sock.sent
    }

    ghost predicate Valid()
      reads `trace, `path, readBuf, readBuf.data, writeBuf, writeBuf.data, parser, fsm, fsm.bitmap, sock
    {
      && Coherent()
      && parser.Valid()
      && path.unparsed == parser.Unparsed(readBuf)
    }

    /** The connection is open, and its events account for how it is. */
    ghost predicate Healthy()
      reads `path, `turns, readBuf, writeBuf, sock
    {
      Open() && Explained(turns, Now())
    }

    /** The socket has neither ended nor failed, and EPOLLOUT is as it should be. */
    ghost predicate Open()
      reads writeBuf, sock
    {
      !sock.eof && !sock.failed && Armed()
    }

    /** The connection at this moment. */
    ghost function Now(): Scene
      reads `path, readBuf, sock
    {
      Scene(path, sock.received, sock.sent, readBuf.count, sock.inbox, sock.arrived, sock.NothingStranded(),
            sock.blocked, sock.eof, sock.failed, sock.ctlFailed)
    }

    /** While epoll_ctl works, EPOLLOUT is registered exactly when there is something to send. */
    ghost predicate Armed()
      reads writeBuf, sock
    {
      !sock.ctlFailed ==> (sock.interestOut <==> writeBuf.count > 0)
    }

    /** Every object the connection owns. */
    ghost function Footprint(): (f: set<object>)
      reads readBuf, writeBuf
    {
      {this, readBuf, writeBuf, parser, fsm, fsm.bitmap, sock}
      + (if readBuf.data == null then {} else {readBuf.data})
      + (if writeBuf.data == null then {} else {writeBuf.data})
    }

    constructor (slot: nat)
      ensures Valid() && Healthy() && this.slot == slot && path == START && turns == []
      ensures fresh(readBuf) && fresh(writeBuf) && fresh(parser) && fresh(fsm) && fresh(fsm.bitmap) && fresh(sock)
      ensures readBuf.data == null && writeBuf.data == null
      ensures sock.NothingStranded()
    {
      this.slot := slot;
      readBuf := new RingBuffer();
      writeBuf := new RingBuffer();
      parser := new Parser();
      fsm := new Machine();
      sock := new Socket();
      trace, path, turns := [], START, [];
      new;
      hide Explained;
      CoherentConsistent();
      ExplainedFresh(Now());
    }

    /** With nothing unparsed the parser waits for a header and the read ring is empty. */
    lemma NothingUnparsed()
      requires Valid() && path.unparsed == []
      ensures parser.state.HeaderWait? && readBuf.count == 0
    {
    }

    lemma ValidCoherent()
      requires Valid()
      ensures Coherent() && writeBuf.count == |path.pending| && path.received == sock.received && path.sent == sock.sent
    {
      hide Exec;
    }

    lemma CoherentConsistent()
      requires Coherent()
      ensures Consistent(Now())
    {
      hide Exec, Faithful;
      EveryRunFaithful(trace);
    }

    /** Record a step. */
    ghost method Take(a: Action)
      requires Exec(trace) == Some(path) && Enabled(path, a)
      modifies `trace, `path
      ensures Exec(trace) == Some(path) && path == Act(old(path), a) && old(trace) <= trace
    {
      ExecSnoc(trace, path, a);
      trace, path := trace + [a], Act(path, a);
    }

    /** Send until the ring is empty or the socket blocks; once empty stop asking for EPOLLOUT. */
    method DrainWrites() returns (stop: WriteStop)
      requires Valid()
      modifies `trace, `path, writeBuf, sock
      ensures Valid() && old(trace) <= trace
      ensures Sends(old(path), path)
      ensures stop.WriteBlocked? ==> sock.blocked
      ensures sock.eof == old(sock.eof) && sock.failed == (old(sock.failed) || stop.WriteError?)
      ensures writeBuf.data == old(writeBuf.data)
      ensures readBuf.data == old(readBuf.data) && readBuf.count == old(readBuf.count)
      ensures stop.WriteError? ==> Justified(MustClose(WriteFailed), path)
      ensures stop.Emptied? ==> writeBuf.count == 0 && path.sent == old(path).sent + old(path).pending
      ensures stop.Emptied? && !sock.ctlFailed ==> !sock.interestOut && sock.NothingStranded()
      ensures old(sock.NothingStranded()) ==> sock.NothingStranded()
      ensures stop.WriteBlocked? ==> sock.interestOut == old(sock.interestOut) && writeBuf.count > 0
      ensures !sock.ctlFailed ==> !old(sock.ctlFailed)
      ensures sock.inbox == old(sock.inbox) && sock.arrived == old(sock.arrived)
      ensures old(sock.Edge()) ==> sock.Edge()
    {
      hide Exec, Act, Rotate, RingBuffer.Cells, Justified, Machine.Abs, Parser.Unparsed;
      while writeBuf.count > 0
        invariant Valid() && writeBuf.data == old(writeBuf.data) && old(trace) <= trace
        invariant Sends(old(path), path)
        invariant sock.eof == old(sock.eof) && sock.failed == old(sock.failed)
        invariant sock.inbox == old(sock.inbox) && sock.arrived == old(sock.arrived)
        invariant sock.interestOut == old(sock.interestOut) && sock.ctlFailed == old(sock.ctlFailed)
        invariant sock.reported == old(sock.reported)
        decreases writeBuf.count
      {
        var r := SendOnce();
        match r {
          case Sent(n) =>
          case SendBlocked =>
            return WriteBlocked;
          case SendFailed =>
            JustifyClose(trace, path, WriteFailed);
            return WriteError;
        }
      }
      assert path.sent + path.pending == path.sent;
      sock.Modify(false);
      stop := Emptied;
    }

    /** Offer the contiguous queued bytes once and drop those that were taken. */
    method SendOnce() returns (r: SendResult)
      requires Valid() && writeBuf.count > 0
      modifies `trace, `path, writeBuf, sock`sent, sock`failed, sock`blocked
      ensures Valid() && writeBuf.data == old(writeBuf.data) && old(trace) <= trace
      ensures Sends(old(path), path)
      ensures sock.failed == (old(sock.failed) || r.SendFailed?) && sock.blocked == r.SendBlocked?
      ensures if r.Sent? then writeBuf.count < old(writeBuf.count) else path == old(path)
    {
      hide Exec, Act, Rotate, RingBuffer.Cells, RingBuffer.Contents, Machine.Abs, Parser.Unparsed;
      var available := writeBuf.ContiguousRead();
      ghost var queue := writeBuf.Contents();
      var bytes := writeBuf.data[writeBuf.readPos..writeBuf.readPos + available];
      r := sock.Send(bytes);
      if r.Sent? {
        assert bytes[..r.n] == queue[..r.n];
        TransmitStep(r.n);
        var consumed := writeBuf.Consume(r.n);
      }
    }

    ghost method TransmitStep(n: nat)
      requires Exec(trace) == Some(path) && 0 < n <= |path.pending|
      modifies `trace, `path
      ensures Exec(trace) == Some(path) && old(trace) <= trace && Sends(old(path), path)
      ensures path == old(path).(pending := old(path).pending[n..], sent := old(path).sent + old(path).pending[..n])
    {
      assert path.pending == path.pending[..n] + path.pending[n..];
      Take(Transmit(n));
    }

    /** Receive until the socket has nothing, the peer is gone, or the ring cannot take more.
        The first is what edge-triggered readiness needs; the ring refuses only when it holds
        its maximum. */
    method DrainReads(memory: bool) returns (stop: ReadStop)
      requires Valid()
      modifies `trace, `path, readBuf, readBuf.data, sock
      ensures Valid() && (readBuf.data == old(readBuf.data) || fresh(readBuf.data)) && old(trace) <= trace
      ensures Extends(old(path), path)
      ensures stop.ReadBlocked? ==> sock.inbox == []
      ensures stop.RingFull? ==> readBuf.count == MAX_SIZE
      ensures stop.ReadNoMemory? ==> !memory
      ensures sock.eof == (old(sock.eof) || stop.PeerClosed?) && sock.failed == (old(sock.failed) || stop.ReadError?)
      ensures readBuf.count - old(readBuf.count) == |path.received| - |old(path).received|
      ensures sock.OnlyReceived()
    {
      hide Exec, Act, RingBuffer.Contents, RingBuffer.Cells, Extends, Machine.Abs, Parser.Unparsed, Rotate;
      ExtendsSame(path);
      while true
        invariant Valid() && (readBuf.data == old(readBuf.data) || fresh(readBuf.data))
        invariant Extends(old(path), path) && old(trace) <= trace
        invariant sock.eof == old(sock.eof) && sock.failed == old(sock.failed)
        invariant readBuf.count - old(readBuf.count) == |path.received| - |old(path).received|
        invariant sock.OnlyReceived()
        decreases (MAX_SIZE - readBuf.capacity) + (MAX_SIZE - readBuf.count)
      {
        ghost var before := path;
        var done := ReceiveRound(memory);
        ExtendsTrans(old(path), before, path);
        if done.Some? {
          return done.value;
        }
      }
    }

    /** One turn of the receive loop: the reason to stop, or progress. */
    method ReceiveRound(memory: bool) returns (done: Option<ReadStop>)
      requires Valid()
      modifies `trace, `path, readBuf, readBuf.data, sock
      ensures Valid() && (readBuf.data == old(readBuf.data) || fresh(readBuf.data)) && old(trace) <= trace
      ensures Extends(old(path), path)
      ensures readBuf.count - old(readBuf.count) == |path.received| - |old(path).received|
      ensures readBuf.capacity >= old(readBuf.capacity) && readBuf.count >= old(readBuf.count)
      ensures done.None? ==> readBuf.capacity + readBuf.count > old(readBuf.capacity) + old(readBuf.count)
      ensures done == Some(ReadBlocked) ==> sock.inbox == []
      ensures done == Some(RingFull) ==> readBuf.count == MAX_SIZE
      ensures done == Some(ReadNoMemory) ==> !memory
      ensures sock.eof == (old(sock.eof) || done == Some(PeerClosed))
      ensures sock.failed == (old(sock.failed) || done == Some(ReadError))
      ensures sock.OnlyReceived()
    {
      hide Exec, Act, RingBuffer.Contents, RingBuffer.Cells, Extends, Machine.Abs, Parser.Unparsed, Rotate;
      var r, noSpace := ReceiveOnce();
      if noSpace {
        var grown := MakeRoom(memory);
        done := match grown case Ok => None case Refused => Some(RingFull) case NoMemory => Some(ReadNoMemory);
      } else {
        done := match r
          case Data(_) => None
          case Eof => Some(PeerClosed)
          case RecvBlocked => Some(ReadBlocked)
          case RecvFailed => Some(ReadError);
      }
    }

    /** Allocate or enlarge the full read ring. */
    method MakeRoom(memory: bool) returns (grown: Status)
      requires Valid() && readBuf.count == readBuf.capacity
      modifies readBuf
      ensures Valid() && (readBuf.data == old(readBuf.data) || fresh(readBuf.data))
      ensures readBuf.count == old(readBuf.count)
      ensures grown.Ok? ==> readBuf.capacity > old(readBuf.capacity)
      ensures grown.Refused? ==> readBuf.count == MAX_SIZE
      ensures grown.NoMemory? ==> !memory
    {
      hide Exec, Act, Rotate, RingBuffer.Cells;
      if readBuf.state.Unalloc? {
        grown := readBuf.Init(memory);
      } else {
        grown := readBuf.Grow(memory);
      }
    }

    /** One receive, with its step of the machine. */
    method ReceiveOnce() returns (r: RecvResult, noSpace: bool)
      requires Valid()
      modifies `trace, `path, readBuf, readBuf.data, sock
      ensures Valid() && readBuf.data == old(readBuf.data) && readBuf.capacity == old(readBuf.capacity)
      ensures old(trace) <= trace
      ensures noSpace == (old(readBuf.count) == old(readBuf.capacity))
      ensures Extends(old(path), path)
      ensures if !noSpace && r.Data? then readBuf.count > old(readBuf.count) else readBuf.count == old(readBuf.count)
      ensures readBuf.count - old(readBuf.count) == |path.received| - |old(path).received|
      ensures !noSpace && r.RecvBlocked? ==> sock.inbox == []
      ensures sock.eof == (old(sock.eof) || r.Eof?) && sock.failed == (old(sock.failed) || r.RecvFailed?)
      ensures noSpace ==> r.RecvBlocked?
      ensures sock.OnlyReceived()
    {
      hide Exec, Act, RingBuffer.Contents, RingBuffer.Cells, Extends, Parser.Taken, Machine.Abs, Rotate;
      ghost var taken, queue := parser.Taken(), readBuf.Contents();
      r, noSpace := readBuf.ReceiveFrom(sock);
      if !noSpace && r.Data? {
        ReceiveStep(r.bytes);
        ExtendsBy(old(path), r.bytes);
        assert (taken + queue) + r.bytes == taken + (queue + r.bytes);
      } else {
        ExtendsSame(path);
      }
    }

    ghost method ReceiveStep(chunk: seq<byte>)
      requires Exec(trace) == Some(path) && chunk != []
      modifies `trace, `path
      ensures Exec(trace) == Some(path) && old(trace) <= trace
      ensures path == old(path).(received := old(path).received + chunk, unparsed := old(path).unparsed + chunk)
    {
      Take(Receive(chunk));
    }

    ghost method HandleStep(queue: bool, packet: Packet, rest: seq<byte>)
      requires Exec(trace) == Some(path)
      requires FirstFrame(path.unparsed) == Complete(packet) && path.unparsed == Serialize(packet) + rest
      requires queue ==> Room(path)
      modifies `trace, `path
      ensures Exec(trace) == Some(path) && Enabled(old(path), Handle(queue)) && path == Act(old(path), Handle(queue))
      ensures path.unparsed == rest && old(trace) <= trace
      ensures path.received == old(path).received && path.sent == old(path).sent
      ensures var o := Step(old(path).session, packet);
        && path.session == o.session
        && path.pending == if queue && o.reply.Some? then old(path).pending + Serialize(o.reply.value) else old(path).pending
    {
      hide Exec, FirstFrame, Serialize, Step;
      Take(Handle(queue));
    }

    /** Parse one packet, let the protocol answer it and queue the answer. */
    method HandleOne(memory: bool) returns (r: Round)
      requires Valid()
      modifies `trace, `path, readBuf, writeBuf, writeBuf.data, parser, fsm, fsm.bitmap
      ensures Coherent() && (!r.BadPacket? ==> Valid()) && old(trace) <= trace
      ensures writeBuf.data == old(writeBuf.data) || fresh(writeBuf.data)
      ensures readBuf.data == old(readBuf.data)
      ensures Rounds(old(path), r, path)
      ensures r.NoPacket? ==> readBuf.count < MAX_SIZE - 1
      ensures r.NoPayload? || r.NoReply? ==> !memory
    {
      hide Exec, Act, FirstFrame, Serialize, Step, RingBuffer.Contents, RingBuffer.Cells;
      var polled := parser.Poll(readBuf, memory);
      match polled {
        case PollEmpty => return NoPacket;
        case PollBad => return BadPacket;
        case PollNoMemory => return NoPayload;
        case PollPacket(packet) =>
          r := Answer(packet, memory);
      }
    }

    /** The protocol's answer to a packet just taken from the ring. */
    method Answer(packet: Packet, memory: bool) returns (r: Round)
      requires Coherent() && parser.Valid()
      requires FirstFrame(path.unparsed) == Complete(packet)
      requires path.unparsed == Serialize(packet) + parser.Unparsed(readBuf)
      modifies `trace, `path, writeBuf, writeBuf.data, fsm, fsm.bitmap
      ensures Valid() && (writeBuf.data == old(writeBuf.data) || fresh(writeBuf.data))
      ensures !r.BadPacket? && Rounds(old(path), r, path) && old(trace) <= trace
      ensures r.NoPayload? || r.NoReply? ==> !memory
    {
      hide Exec, Act, FirstFrame, Serialize, Step, RingBuffer.Contents, RingBuffer.Cells, Machine.Abs, Parser.Unparsed;
      ghost var rest := parser.Unparsed(readBuf);
      var response := fsm.HandlePacket(packet);
      if response.None? {
        HandleStep(true, packet, rest);
        return Answered;
      }
      StepReply(path.session, packet);
      var queued := Enqueue(writeBuf, response.value, memory);
      HandleStep(queued.Ok?, packet, rest);
      r := match queued case Ok => Answered case Refused => NoRoom case NoMemory => NoReply;
    }

    /** Handle packets until none is complete.  While memory lasts the result is the machine's. */
    method HandlePackets(memory: bool) returns (stop: ProcessStop)
      requires Valid()
      modifies `trace, `path, readBuf, writeBuf, writeBuf.data, parser, fsm, fsm.bitmap
      ensures Coherent() && (stop != Ran(Rejected) ==> Valid()) && old(trace) <= trace
      ensures writeBuf.data == old(writeBuf.data) || fresh(writeBuf.data)
      ensures readBuf.data == old(readBuf.data)
      ensures path.received == old(path).received && path.sent == old(path).sent
      ensures Stops(old(path), stop, path)
      ensures writeBuf.count >= old(writeBuf.count)
      ensures stop == Ran(Quiet) ==> readBuf.count < MAX_SIZE - 1
      ensures !stop.Ran? ==> !memory
    {
      hide Exec, Act, FirstFrame, RingBuffer.Contents, RingBuffer.Cells, Machine.Abs, Process, Rounds, CutBefore, CutAfter;
      ghost var n: nat := 0;   // packets handled
      while true
        invariant Valid() && (writeBuf.data == old(writeBuf.data) || fresh(writeBuf.data))
        invariant readBuf.data == old(readBuf.data)
        invariant path.received == old(path).received && path.sent == old(path).sent
        invariant Process(path) == Process(old(path))
        invariant old(trace) <= trace && Steps(old(path), n) == Some(path)
        invariant writeBuf.count >= old(writeBuf.count)
        decreases |path.unparsed|
      {
        ghost var before := path;
        var r := HandleOne(memory);
        RoundProgress(before, r, path);
        RoundCounts(old(path), n, before, r, path);
        match r {
          case Answered =>
            n := n + 1;
          case NoPacket => return Ran(Quiet);
          case BadPacket => return Ran(Rejected);
          case NoRoom => return Ran(Dropped);
          case NoPayload => return PayloadNoMemory;
          case NoReply => return ReplyNoMemory;
        }
      }
    }

    /** Process packets and, unless the connection is to be closed, ask for EPOLLOUT if there is
        anything to send. */
    method ProcessPackets(memory: bool) returns (stop: ProcessStop)
      requires Valid()
      modifies `trace, `path, readBuf, writeBuf, writeBuf.data, parser, fsm, fsm.bitmap
      modifies sock`interestOut, sock`reported, sock`ctlFailed
      ensures Coherent() && (stop != Ran(Rejected) ==> Valid()) && old(trace) <= trace
      ensures writeBuf.data == old(writeBuf.data) || fresh(writeBuf.data)
      ensures readBuf.data == old(readBuf.data)
      ensures path.received == old(path).received && path.sent == old(path).sent
      ensures Stops(old(path), stop, path)
      ensures writeBuf.count >= old(writeBuf.count)
      ensures stop == Ran(Quiet) ==> readBuf.count < MAX_SIZE - 1
      ensures !stop.Ran? ==> !memory
      ensures !Fatal(stop) && writeBuf.count > 0 && !sock.ctlFailed ==> sock.interestOut && sock.NothingStranded()
      ensures Fatal(stop) || writeBuf.count == 0 ==> unchanged(sock)
      ensures old(sock.NothingStranded()) ==> sock.NothingStranded()
      ensures !sock.ctlFailed ==> !old(sock.ctlFailed)
    {
      hide Exec, Process, RingBuffer.Contents, Machine.Abs, Parser.Unparsed;
      stop := HandlePackets(memory);
      if !Fatal(stop) && writeBuf.count > 0 {
        sock.Modify(true);
      }
    }

    /** Bytes may arrive while the connection is not being served; it stays as sound as it was. */
    method BytesArrive()
      requires Valid() && Healthy()
      modifies sock
      ensures Valid() && Healthy()
      ensures ArrivedOnly(old(Now()), Now())
    {
      hide Exec, RingBuffer.Contents, Machine.Abs, Parser.Unparsed, Explained, Consistent;
      sock.Arrive();
      CoherentConsistent();
      ExplainedArrive(turns, old(Now()), Now());
    }

    /** Handle one epoll event: send, receive, process.  The event is handled as it should be. */
    method HandleEvent(readable: bool, writable: bool, memory: bool) returns (end: EventEnd)
      requires Valid() && Healthy()
      modifies this, readBuf, readBuf.data, writeBuf, writeBuf.data, parser, fsm, fsm.bitmap, sock
      ensures slot == old(slot)
      ensures fresh(Footprint() - old(Footprint()))
      ensures Coherent() && old(trace) <= trace && (end.Survived? ==> Valid() && Healthy())
      ensures var turn := Turn(readable, writable, memory, old(Now()), Now(), end);
        turns == old(turns) + [turn] && Handled(turn)
    {
      hide Valid, Open, Handled, Explained, Coherent, Consistent;
      end := SendReceiveProcess(readable, writable, memory);
      ghost var turn := Turn(readable, writable, memory, old(Now()), Now(), end);
      CoherentConsistent();
      if end.Survived? {
        ExplainedStep(turns, turn);
      }
      turns := turns + [turn];
    }

    /** The event is reported; nothing of the connection changes. */
    ghost method ReportEvent(readable: bool, writable: bool)
      requires Valid()
      modifies sock`reported, sock`blocked
      ensures Valid()
      ensures if readable then !sock.Edge() else sock.reported == old(sock.reported)
      ensures if writable then !sock.blocked else sock.blocked == old(sock.blocked)
    {
      hide Exec, RingBuffer.Contents, Machine.Abs, Parser.Unparsed;
      sock.Report(readable, writable);
    }

    /** The three parts of an event. */
    method SendReceiveProcess(readable: bool, writable: bool, memory: bool) returns (end: EventEnd)
      requires Valid() && Open()
      modifies `trace, `path, readBuf, readBuf.data, writeBuf, writeBuf.data, parser, fsm, fsm.bitmap, sock
      ensures fresh(Footprint() - old(Footprint()))
      ensures Coherent() && old(trace) <= trace && (end.Survived? ==> Valid() && Open())
      ensures Handled(Turn(readable, writable, memory, old(Now()), Now(), end))
    {
      hide Valid, Coherent, Handled, SentFirst, TookInput;
      var ok := SendFirst(readable, writable);
      if !ok {
        ValidCoherent();
        SendingFailed(readable, writable, memory, old(Now()), Now());
        return MustClose(WriteFailed);
      }
      ghost var sent := Now();
      end := HandleInput(readable, memory);
      Completed(readable, writable, memory, old(Now()), sent, Now(), end);
    }

    /** The event is reported and, if it is writable, the pending bytes are sent. */
    method SendFirst(readable: bool, writable: bool) returns (ok: bool)
      requires Valid() && Open()
      modifies `trace, `path, writeBuf, sock
      ensures Valid() && !sock.eof && sock.failed == !ok && old(trace) <= trace
      ensures readBuf.data == old(readBuf.data) && writeBuf.data == old(writeBuf.data)
      ensures ok && writeBuf.count == 0 && !sock.ctlFailed ==> !sock.interestOut
      ensures SentFirst(readable, writable, old(Now()), Now())
    {
      hide Valid, Justified;
      ReportEvent(readable, writable);
      ok := true;
      if writable {
        var stop := DrainWrites();
        ok := !stop.WriteError?;
      }
      ValidCoherent();
    }

    /** The part of the event after sending. */
    method HandleInput(readable: bool, memory: bool) returns (end: EventEnd)
      requires Valid() && !sock.eof && !sock.failed && (writeBuf.count == 0 && !sock.ctlFailed ==> !sock.interestOut)
      modifies `trace, `path, readBuf, readBuf.data, writeBuf, writeBuf.data, parser, fsm, fsm.bitmap, sock
      ensures fresh(Footprint() - old(Footprint()))
      ensures Coherent() && old(trace) <= trace && (end.Survived? ==> Valid() && Open())
      ensures TookInput(readable, memory, old(Now()), Now(), end)
    {
      hide Valid, Coherent, Filled, Finishes, TookInput;
      if !readable {
        end := FinishEvent(ReadBlocked, memory);
        OnlyProcessed(memory, old(Now()), Now(), ReadBlocked, end);
        return;
      }
      var read := Fill(memory);
      if read.PeerClosed? || read.ReadError? {
        ValidCoherent();
        end := MustClose(if read.PeerClosed? then ClientGone else ReadFailed);
        ReceivingEnded(memory, old(Now()), Now(), read);
        return;
      }
      ghost var filled := Now();
      end := FinishEvent(read, memory);
      ReceivedProcessed(memory, old(Now()), filled, Now(), read, end);
    }

    /** Receive all there is, and tell what it means for the bytes left in the kernel. */
    method Fill(memory: bool) returns (read: ReadStop)
      requires Valid()
      modifies `trace, `path, readBuf, readBuf.data, sock
      ensures Valid() && (readBuf.data == old(readBuf.data) || fresh(readBuf.data)) && old(trace) <= trace
      ensures writeBuf.count == old(writeBuf.count) && writeBuf.data == old(writeBuf.data)
      ensures sock.eof == (old(sock.eof) || read.PeerClosed?) && sock.failed == (old(sock.failed) || read.ReadError?)
      ensures sock.interestOut == old(sock.interestOut) && sock.ctlFailed == old(sock.ctlFailed)
      ensures Filled(memory, old(Now()), Now(), read)
    {
      hide Exec, RingBuffer.Contents, Machine.Abs, Parser.Unparsed, Filled, Extends, Faithful;
      read := DrainReads(memory);
      EveryRunFaithful(trace);
      FilledIs(memory, old(Now()), Now(), read, old(sock.Edge()), sock.Edge());
    }

    /** The part of the event after receiving. */
    method FinishEvent(read: ReadStop, memory: bool) returns (end: EventEnd)
      requires Valid() && !sock.eof && !sock.failed && (writeBuf.count == 0 && !sock.ctlFailed ==> !sock.interestOut)
      modifies `trace, `path, readBuf, writeBuf, writeBuf.data, parser, fsm, fsm.bitmap
      modifies sock`interestOut, sock`reported, sock`ctlFailed
      ensures readBuf.data == old(readBuf.data) && (writeBuf.data == old(writeBuf.data) || fresh(writeBuf.data))
      ensures Coherent() && old(trace) <= trace && (end.Survived? ==> Valid() && Open())
      ensures Finishes(read, memory, old(Now()), Now(), end)
    {
      hide Exec, RingBuffer.Contents, Machine.Abs, Parser.Unparsed, Stops, Justified;
      var stop := ProcessPackets(memory);
      JustifyProcessing(trace, old(path), path, stop, read);
      if Fatal(stop) {
        end := MustClose(if stop.Ran? then ProtocolError else PayloadMemory);
      } else {
        end := Survived(read, stop);
      }
    }
  }
}
