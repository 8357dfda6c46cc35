# Velora: the path of a byte through the server

Velora is an epoll server for a small multiplexed packet protocol. This project models what
happens to one connection's bytes — receive into a growable ring, parse incrementally, let the
protocol machine answer, queue the answers in a second ring, send — and the reactor that does
this for many connections, and proves that the whole is what it claims to be.

The main results:

- **End to end.** Whatever the chunks in which bytes arrive, the partial sends, the blocking and
  the allocation failures, the bytes sent followed by the bytes queued are whole replies, in
  order, exactly those that were queued (`DataPath.EveryRunFaithful`). On every connection of the
  server, as long as memory suffices and no event has had more replies due than its write ring could
  take, they are a function of the bytes received (`Reactors.EveryConnectionServed`,
  `Histories.ServedInFull`, `DataPath.EndToEnd`, `DataPath.RunsAgree`).
- **Refinement.** The imperative connection — rings with wrapping 16-bit positions, a two-state
  parser, a bitmap of four 64-bit words — takes only steps of an abstract machine over byte
  sequences and sets. Every event, whether the connection survives it or is closed, moves bytes from
  pending to sent, adds bytes received, and then processes packets as the machine does, up to the
  place where memory failed if it did (`Histories.Handled`, which
  `Connections.Connection.HandleEvent` ensures, with the methods below it).
- **Bytes.** Which headers are accepted, what is answered to each packet in each state, and where
  each field stands are all stated of the bytes themselves (`Framing.FrameByBytes`,
  `Sessions.AnswersTable`, `Packets.HeaderLaidOut`), and a client that connects and pings any
  streams gets exactly the acknowledgement and one pong for each (`DataPath.PingsAnswered`).
- **No wedge at the size limit.** An event that ends for want of a complete packet leaves room in the
  read ring, so that the next one receives what waits; while memory suffices and no event overflows,
  after as many readable events as bytes were waiting every packet that had arrived is handled, up to
  the longest there is (`Histories.QuietMakesRoom`, `Histories.ArrivedIsHandled`).
- **Fragmentation.** The incremental parser gives what a one-shot parser gives on the whole
  stream (`Framing.FragmentationIndependent`, `DataPath.HandledIsParsed`).
- **Back pressure.** Processing loses a reply if and only if the replies due do not fit behind
  the bytes pending (`DataPath.DropsExactly`); over the whole life of a connection, memory
  permitting, a reply has been lost if and only if that happened at one of its events
  (`Histories.LosesExactly`, `Histories.ExplainedStep`).
- **Stream bookkeeping.** The eight bit stream counter and the phase are right at every point of a
  run if and only if every close names an open stream (`Sessions.BookedRun`), even though the
  counter wraps at 256.
- **Wakeups.** After every event EPOLLOUT is registered exactly when bytes are pending, and no
  parsed input is left without a wakeup.
- **Isolation.** Each connection of a batch is still live when its turn comes, and an event on
  one connection does nothing to any other; bytes go on arriving on all sockets meanwhile
  (`Reactors.Reactor.RunBatch`).
- **The loop.** Over any number of rounds everything that was picked is reported, and every connection,
  whether it was there before, joined or was closed on the way, has handled exactly the events
  reported for it, in order and with their flags; the connections left are those that were there or
  were accepted, less those that an event closed (`Reactors.Reactor.Loop`).

Three claims of the original turn out to hold only under a condition, which is proved exactly:

- *"EPOLLIN: drain reads until EAGAIN."* The read loop also stops when the ring holds 65536 bytes.
  Allocation and epoll_ctl permitting, a readable event leaves readable bytes in the kernel with no
  event to come if and only if it is not also writable, nothing arrives while it is handled, and
  `Histories.Strands` holds before it: more had arrived than the ring can hold and the packets that
  fit call for no reply, so that no EPOLL_CTL_MOD re-arms the socket (the last clause of
  `Histories.Waking`, a part of `Histories.Handled`). Any single packet of more than 65536 bytes that
  has arrived whole does this on a fresh connection (`Histories.LongPacketStrands`). At any moment of
  any run bytes are so stranded if and only if the last readable or writable event met that condition
  and nothing has arrived since it began (`Histories.StrandingStep`, `Histories.ExplainedStep`).
- *The stream counter.* STREAM_CLOSE does not check that the stream is open; `Sessions.PhantomClose`
  closes a session that still has stream 0 open.
- *The eight byte header.* The serializer writes eight bytes; the parser and the reply path measure
  headers with `sizeof` of a struct that holds an enum. The parser reads what the serializer writes if
  and only if enums take one byte (`HeaderLayout.RoundTripNeedsShortEnums`), and a peer of the
  documented format reads the replies if and only if the struct has eight bytes
  (`HeaderLayout.RepliesNeedShortEnums`). With four byte enums it has twelve, and each reply then carries
  four bytes that were never written. The Makefile passes no flag that shortens enums (Makefile:6).
  Everywhere else the header is taken to be eight bytes, as the wire format is documented.

Other places where the model follows the code rather than its comments: a failed reserve may already
have grown the ring (only the queue is unchanged); the reply to a close that is not the last carries
type 0; a closed session swallows the next packet and starts over.

## Reading the project

`Packets` (wire format), `Framing` (reference parser), `Sessions` (protocol over sets of stream ids),
`Bitmap` and `Protocol` (the same over machine words), `Sockets` (the kernel's side, arbitrary within
what the system calls promise), `Rings`, `Parsers`, `DataPath` (the abstract machine and what all its
runs keep), `Histories` (what an event does, and what all events of a connection amount to),
`Connections`, `Managers`, `Batches` (what a batch and a run of the loop amount to), `Reactors`,
`HeaderLayout`.

Kernel results, arrivals and allocation failures are nondeterministic. A flag `memory` says that all
allocations in a call succeed; without it each may fail. Readiness follows the edge-triggered mode of
epoll: an event is to come after bytes arrive, and after EPOLL_CTL_MOD while bytes wait. Closing is
done by the reactor right after the handler that asks for it returns, where the original calls it
from inside the handler just before returning.

## Model

| member | source | states |
|---|---|---|
| Packets.EncodeDecodeHeader | src/protocol/packet.c:39-49 | encoding a decoded header gives back the eight bytes, so headers and eight byte strings correspond one to one |
| Packets.DecodeEncodeHeader | src/protocol/packet.c:3-49 | decoding an encoded header, whatever follows it, gives back the header |
| Packets.HeaderLaidOut | src/protocol/packet.c:26-33 | the eight bytes of a header are magic, version, type, stream, flags and length in this order, the two 16-bit ones high byte first |
| Packets.DecodedLaidOut | src/protocol/packet.c:39-49 | so are the bytes a header is read from |
| Packets.PacketLaidOut | src/protocol/packet.c:19-37 | a serialized packet is these eight bytes and then its payload |
| Packets.SerializeInto | src/protocol/packet.c:19-37 | the bytes written are the header's fields, each at its place and high byte first, then the payload; no other cell changes |
| Packets.HeaderDeserialize | src/protocol/packet.c:39-49 | each field read is the byte, or the two bytes high byte first, at its place |
| Packets.EncodeU16Into | src/protocol/packet.c:3-10 | 256 times the first byte written plus the second is the value, and nothing else is written |
| Framing.FrameStable | src/protocol/parser.c:5-121 | a packet or a bad header, once determined, does not depend on later bytes |
| Framing.FrameByBytes | src/protocol/parser.c:9-84 | of eight or more bytes the header is refused exactly if it does not start with 57 89 hex, the version is not 1, the type is above 9 or a flag beyond the low two is set; otherwise the packet is complete exactly if as many bytes follow as the seventh and eighth say, and its fields and payload are those bytes |
| Framing.RoundTrip | src/protocol/parser.c:45-118 | serialized acceptable packets followed by anything parse to those packets followed by what the rest parses to |
| Framing.ParseSound | src/protocol/parser.c:5-121 | parsing splits a stream into serialized acceptable packets and a remainder with no complete packet |
| Framing.UniqueSplit | src/protocol/parser.c:5-121 | that split is the only one |
| Framing.ParseAppend | src/protocol/parser.c:7-80 | parsing more bytes resumes from the remainder, and a bad header stays bad |
| Framing.FragmentationIndependent | src/protocol/parser.c:5-121 | feeding a stream in any chunks gives the packets, remainder and error of parsing it whole |
| HeaderLayout.RoundTripNeedsShortEnums | include/velora/packet.h:30-38 | the parser reads what the serializer writes if and only if the enum in the header struct takes one byte; the struct takes 8, 10 or 12 bytes |
| HeaderLayout.PingNotRead | src/protocol/parser.c:9-31 | with any longer struct even one serialized ping is not read back |
| HeaderLayout.RepliesNeedShortEnums | src/event_loop/reactor.c:259-261 | a peer of the documented format reads the replies to any packets, whatever the ring held before, if and only if the struct has eight bytes |
| HeaderLayout.StaleBytesNotRead | src/event_loop/reactor.c:340-354 | with any longer struct the answer to a connect leaves the peer with bytes that were never written |
| Sessions.AnswersTable | src/protocol/protocol.c:14-118 | for every session and packet, by type number, the bytes answered and the session afterwards: in INIT 1 is answered 2 on stream 0; once established 3 is answered 4 on its stream, 5 is answered 6 with the least free id or 9, 7 is answered type 0 unless the counter was 1 and then closes silently, 8 and 9 are silent, anything else is answered 9; all else is silent |
| Sessions.BookedStep | src/protocol/protocol.c:14-118 | a packet keeps counter, open set and phase consistent exactly when it does not close a stream that is not open |
| Sessions.BookedRun | src/protocol/protocol.c:16-117 | over any run from a fresh connection, across closing and reconnecting, the books are right at every point if and only if every close names an open stream |
| Sessions.ClosedExactly | src/protocol/protocol.c:80-93 | the session closes exactly when its only open stream is closed, also after the counter has wrapped |
| Sessions.PhantomClose | src/protocol/protocol.c:80-93 | closing a stream that was never opened can close a session with stream 0 open |
| Sessions.OpenAllocates | src/protocol/protocol.c:55-79 | an open request gets the least free id and adds exactly it, or an error and no change exactly when all 256 are open |
| Sessions.NoDuplicateIds | src/protocol/protocol.c:55-93 | no id is handed out twice in a run without a close of it in between |
| Sessions.StaysOpen | src/protocol/protocol.c:14-118 | an open stream stays open until a packet closes it |
| Sessions.RepliesAcceptable | src/protocol/protocol.c:20-108 | every reply can be parsed again and is eight bytes long, and there are no more replies than packets |
| Bitmap.IdsAdd | src/protocol/protocol.c:72-75 | setting a bit of a word adds exactly that id to the set |
| Bitmap.IdsRemove | src/protocol/protocol.c:81-84 | clearing a bit of a word removes exactly that id |
| Bitmap.LeastSet | src/protocol/protocol.c:62 | the count of trailing zeros is the index of the least bit set |
| Protocol.Machine.HandlePacket | src/protocol/protocol.c:6-131 | the concrete machine takes exactly the step of the session its fields stand for, and its reply, byte by byte, is that of the table above |
| Protocol.Machine.FindFree | src/protocol/protocol.c:56-65 | scanning the four words finds the least free id, or none exactly when all are taken |
| Protocol.Machine.OpenStream | src/protocol/protocol.c:55-79 | opening on the bitmap is opening on the set |
| Protocol.Machine.CloseStream | src/protocol/protocol.c:80-93 | closing on the bitmap is closing on the set, with the counter modulo 256 |
| Rings.RotateFurther | src/conn/ring_buffer.c:139-153 | moving the read position rotates the cells seen in ring order |
| Rings.RegionWritten | src/conn/ring_buffer.c:183-202 | overwriting free cells at the write position leaves the queue alone and puts the bytes right behind it |
| Rings.TwoRegions | src/net/socket_utils.c:90-120 | filling the stretch at the write position and then the front of the array appends the bytes |
| Rings.RingBuffer.Init | src/conn/ring_buffer.c:4-24 | allocates the initial size, refused exactly when allocated already; the queue is kept |
| Rings.RingBuffer.Push | src/conn/ring_buffer.c:46-66 | appends one byte, refused exactly when full |
| Rings.RingBuffer.Pop | src/conn/ring_buffer.c:68-76 | takes the oldest byte, refused exactly when empty |
| Rings.RingBuffer.Grow | src/conn/ring_buffer.c:86-127 | doubles the size and keeps the queue in the straight, wrapped and full cases, refused exactly at the maximum |
| Rings.RingBuffer.Linearize | src/conn/ring_buffer.c:107-119 | the queue is copied in order whether or not it wraps |
| Rings.RingBuffer.ContiguousRead | src/conn/ring_buffer.c:129-137 | gives the longest stretch of queued bytes at the read position, which is a prefix of the queue |
| Rings.RingBuffer.Consume | src/conn/ring_buffer.c:139-153 | drops exactly the oldest bytes, refused exactly when there are fewer |
| Rings.RingBuffer.PeekN | src/conn/ring_buffer.c:157-177 | copies the oldest bytes in order across the wrap and changes nothing else |
| Rings.RingBuffer.ContiguousWrite | src/conn/ring_buffer.c:183-202 | gives the free cells up to the read position or the end of the array, whichever comes first |
| Rings.RingBuffer.Commit | src/conn/ring_buffer.c:206-220 | queues the next cells as they stand, refused exactly when they are not all free |
| Rings.RingBuffer.Reserve | src/conn/ring_buffer.c:225-243 | memory permitting, succeeds exactly when the queue would fit 65536; the size is the first on the doubling chain that fits; the queue is kept in every case |
| Rings.RingBuffer.ReceiveRegions | src/net/socket_utils.c:89-123 | the stretches offered are all free cells and no others, in order, disjoint, the first never empty |
| Rings.RingBuffer.ReceiveFrom | src/net/socket_utils.c:81-137 | whatever length arrives is appended to the queue; without a free cell the socket is not read |
| Parsers.HeaderFrame | src/protocol/parser.c:45-80 | what the reference parser says of a saved header followed by ring bytes |
| Parsers.Parser.Poll | src/protocol/parser.c:5-121 | in either state the answer is the reference parser's for the saved header and the ring, exactly the packet's bytes are taken, and an empty answer leaves at least two cells of the largest ring free |
| Parsers.Parser.PeekHeader | src/protocol/parser.c:12-29 | the fast and the wrap path read the same header |
| Parsers.Parser.PeekPayload | src/protocol/parser.c:88-106 | the fast and the wrap path read the same payload |
| DataPath.ActFaithful | src/event_loop/reactor.c:563-852 | every step keeps bytes received = packets handled and bytes unparsed, and bytes sent and pending = the replies queued |
| DataPath.EveryRunFaithful | src/event_loop/reactor.c:563-893 | so does every run of any length |
| DataPath.HandledIsParsed | src/event_loop/reactor.c:772-804 | the packets handled are those the one-shot parser finds in the bytes received, and a bad header is met at the same place |
| DataPath.ReceivedIsHandled | src/event_loop/reactor.c:772-840 | once settled, every packet whose bytes have been received has been handled, also one longer than the ring |
| DataPath.EndToEnd | src/event_loop/reactor.c:563-893 | in a settled run without loss the bytes sent and pending are a function of the bytes received |
| DataPath.PingsAnswered | src/event_loop/reactor.c:563-893 | for any list of stream ids, the bytes of a connect and a ping on each are answered with the bytes of the acknowledgement and a pong on each, in order |
| DataPath.RunsAgree | src/event_loop/reactor.c:563-893 | two such runs over the same bytes agree on output, packets and session |
| DataPath.PeerCanParse | src/event_loop/reactor.c:286-560 | what goes out always parses to the queued replies with nothing left over |
| DataPath.RepliesNeverExceedRequests | src/event_loop/reactor.c:763-852 | over the life of a connection reply bytes never exceed the request bytes consumed |
| DataPath.BacklogShrinks | src/event_loop/reactor.c:772-840 | handling a packet never increases pending plus unparsed bytes |
| DataPath.SmallBacklogNeverDrops | src/event_loop/reactor.c:826-839 | if pending and unparsed bytes together fit 65536, no reply is lost |
| DataPath.DropsExactly | src/event_loop/reactor.c:826-839 | a reply is lost if and only if the replies due do not fit behind the bytes pending |
| DataPath.ProcessAnswersAll | src/event_loop/reactor.c:772-840 | without a loss all complete packets are handled and all replies due are queued |
| DataPath.StreamRoundTrip | src/event_loop/reactor.c:772-840 | serialized packets whose replies fit are handled one by one and leave nothing unparsed |
| DataPath.ProcessSilent | src/event_loop/reactor.c:842-851 | nothing is pending afterwards exactly when nothing was pending or due |
| DataPath.ProcessKeeps | src/event_loop/reactor.c:826-839 | after processing every reply so far is kept exactly if that was so before and none is dropped |
| Connections.Connection.NothingUnparsed | src/protocol/parser.c:57-63 | with nothing unparsed the parser waits for a header and the read ring is empty |
| Connections.Enqueue | src/event_loop/reactor.c:238-561 | the whole reply is appended or the queue is unchanged; memory permitting, the first exactly when it fits; the exits called impossible are unreachable |
| Connections.EnqueueStraight | src/event_loop/reactor.c:340-380 | the fast path appends the serialization |
| Connections.EnqueueWrapped | src/event_loop/reactor.c:403-560 | the wrap path appends the serialization, and its second region is always large enough |
| Histories.StrandedExactly | src/event_loop/reactor.c:722-733 | bytes stay in the kernel with nothing to send afterwards exactly when more had arrived than the ring holds and the packets that fit call for no reply |
| Histories.LongPacketStrands | src/event_loop/reactor.c:722-733 | any packet longer than the ring does this on a fresh connection |
| Histories.RoundCounts | src/event_loop/reactor.c:772-840 | when memory fails every packet before that point has been handled and answered, and at most the one reply is lost |
| Histories.Completed | src/event_loop/reactor.c:854-893 | sending, receiving and processing, as the three parts do it, make up an event handled as Handled says |
| Histories.LosesExactly | src/event_loop/reactor.c:854-893 | memory permitting, an event that does not close the connection loses a reply if and only if the replies due after receiving do not fit behind the bytes then pending; otherwise it leaves no complete packet |
| Histories.LossStep | src/event_loop/reactor.c:854-893 | so every reply has been kept if and only if no event of the history overflowed |
| Histories.StrandingStep | src/event_loop/reactor.c:854-893 | memory and epoll_ctl permitting, readable bytes are without an event to come if and only if the last readable or writable event met Strands without being writable and nothing has arrived since it began; every event keeps this |
| Histories.IdleEvent | src/event_loop/reactor.c:854-893 | an event that neither sends nor receives wakes nothing up |
| Histories.ServedInFull | src/event_loop/reactor.c:854-893 | a connection none of whose events overflowed or lacked memory has sent or queued exactly the function Wire of what it received |
| Histories.QuietHandledAll | src/event_loop/reactor.c:772-840 | when an event has ended for want of a complete packet, every packet whose bytes have been received has been handled, also one of 65543 bytes |
| Histories.QuietMakesRoom | src/event_loop/reactor.c:722-733 | after such an event the next readable one receives bytes if any wait and memory suffices |
| Histories.AdvancesAll | src/event_loop/reactor.c:854-893 | without overflow or lack of memory, a stretch of readable events receives all that had arrived before it, or at least one byte for each event |
| Histories.ArrivedIsHandled | src/event_loop/reactor.c:854-893 | so after as many readable events as bytes were waiting, every packet that had arrived has been handled |
| Connections.Connection.constructor | src/conn/conn.c:53-59 | a zeroed connection is at the start of the machine with both rings unallocated |
| Connections.Connection.BytesArrive | src/event_loop/reactor.c:1160-1166 | bytes arriving between events keep the connection sound and its history true, change nothing else, and are to be reported |
| Histories.ExplainedArrive | src/event_loop/reactor.c:1160-1166 | the history accounts for the connection as well after bytes have arrived |
| Histories.ExplainedStep | src/event_loop/reactor.c:854-893 | an event handled as Handled says extends the history: the events follow one another with nothing but arrivals between, and say exactly whether a reply has been lost and whether bytes are stranded |
| Connections.Connection.DrainWrites | src/event_loop/reactor.c:563-655 | sends until empty or blocked, terminates, moves bytes from pending to sent without loss, and drops EPOLLOUT once empty |
| Connections.Connection.DrainReads | src/event_loop/reactor.c:657-761 | terminates for every peer; stays open only when the socket has nothing, the ring holds 65536 bytes, or memory fails; received bytes join the unparsed ones |
| Connections.Connection.HandleOne | src/event_loop/reactor.c:774-839 | one round is one step of the machine, with the same packet, reply and outcome |
| Connections.Connection.HandlePackets | src/event_loop/reactor.c:772-840 | memory permitting the loop computes what the machine does; if memory fails it has done so up to that packet; it terminates, and leaves room in the read ring when it stops for want of input |
| Connections.Connection.ProcessPackets | src/event_loop/reactor.c:763-852 | and asks for EPOLLOUT exactly if something is pending on a connection that stays |
| Connections.Connection.HandleInput | src/event_loop/reactor.c:873-892 | the path afterwards is what processing makes of the path with the bytes received, whether the connection stays or goes; allocation and epoll_ctl permitting, readable bytes are left without an event to come if and only if none was to come before, nothing arrived meanwhile and Strands holds; with room and bytes waiting some are received |
| Connections.Connection.SendFirst | src/event_loop/reactor.c:861-871 | a writable event sends all that was pending or finds the socket full, and then no readable bytes are without an event unless bytes are still pending |
| Connections.Connection.SendReceiveProcess | src/event_loop/reactor.c:854-893 | the three parts together handle the event as Handled says, from any state; whatever the end, the steps taken before are kept and the machine still agrees with the concrete state |
| Connections.Connection.HandleEvent | src/event_loop/reactor.c:854-893 | any event sends, receives and processes, in that order, as the machine does, and what was recorded before is kept; a connection that stays is valid, has EPOLLOUT registered exactly when bytes are pending, and has no complete packet left unless its write ring is full; one that goes has a cause and is still in agreement with the bytes its socket handed over and took; readable bytes are left without an event to come exactly under the condition stated above |
| Managers.Manager.Create | src/conn/conn.c:31-60 | adds exactly one new connection at an index it knows; a full table goes from 0 to 16 entries or to twice its size; after a failure it holds the same connections, though it may have grown |
| Managers.Manager.Destroy | src/conn/conn.c:62-82 | removes exactly the given connection; every other one stays, at an index it knows |
| Managers.SwapRemoved | src/conn/conn.c:69-75 | overwriting an entry with the last and dropping the last removes exactly that entry |
| Reactors.Reactor.Close | src/event_loop/reactor.c:175-216 | the connection leaves epoll and the table, every other is untouched |
| Reactors.Reactor.HandleClient | src/event_loop/reactor.c:1194-1201 | the connection is closed exactly when its event ended so, and no other changes |
| Reactors.Reactor.AcceptOne | src/event_loop/reactor.c:906-962 | a socket is registered exactly if its connection is in the table; a failure on the way takes it out again |
| Reactors.Reactor.HandleListener | src/event_loop/reactor.c:895-983 | at most as many connections are added as sockets of the backlog can be used, exactly as many if memory suffices, and no other changes |
| Reactors.Reactor.HandleReady | src/event_loop/reactor.c:1183-1202 | a listener event adds the connections of its backlog, a client event is handled by the connection named, which is gone exactly if it ended so; no other changes |
| Reactors.Reactor.RunBatch | src/event_loop/reactor.c:1168-1203 | every connection of a batch of distinct ones is live when its turn comes, and as it was but for bytes that arrived; its event is handled as Handled says whether it stays or is closed, it is gone exactly if the event closed it, and to no other connection anything happens but arrivals; as many join as sockets of the backlogs can be used, memory permitting |
| Batches.WhoIsLeft | src/event_loop/reactor.c:1168-1203 | after a batch exactly those are left that were there or joined, less those whose event closed them |
| Batches.AskedOnce | src/event_loop/reactor.c:1168-1203 | a batch puts to a connection it names exactly the one event |
| Reactors.Reactor.ServeBatch | src/event_loop/reactor.c:1168-1203 | the history of every connection, in the batch or not, grows by exactly the entries that name it, with their flags and end, each handled as Handled says |
| Reactors.Reactor.Arrival | src/event_loop/reactor.c:1160-1166 | bytes arriving on one socket keep the reactor sound, and nothing else happens to any connection |
| Reactors.Reactor.Wait | src/event_loop/reactor.c:100-139 | what is reported is a batch: the listener and registered connections, each once; all that was picked is there, in order and with its own flags, save picks of an empty place or of one picked before |
| Reactors.Reactor.Round | src/event_loop/reactor.c:1158-1206 | one round: the table lists the live connections, all that is picked is reported, and every history grows by exactly the events that name it |
| Reactors.Reactor.Loop | src/event_loop/reactor.c:1158-1206 | for any rounds there is a log, one entry a round, in which everything picked is reported and everyone usable joins, memory permitting; those registered in the end are the ones it leaves; every connection there before or joined since, closed or not, has handled exactly the events the log puts to it, in order, with their flags and ends, each as Handled says |
| Reactors.EveryConnectionServed | src/event_loop/reactor.c:1158-1206 | at every turn of the loop every connection's received bytes, session and output are related as the protocol says, its history accounts for lost replies and stranded bytes exactly, and without overflow or lack of memory its output is a function of its input |

## Left out

- System calls: epoll, socket, accept, recvmsg, send and fcntl are nondeterministic results of `Sockets.Socket` or parameters; when the kernel delivers an edge is not modelled.
- Shutdown, listener bootstrap, signal handling (`src/main.c`, `src/net/tcp_server.c`) and the remaining socket options: input and output plumbing.
- Logging and message strings (`src/core`), `vr_packet_view_t` and `vr_protocol_action_t`, which nothing uses.
- `vr_conn_ring_buf_peek` and the size, free, empty and full accessors are not modelled.
- `free` and reuse of addresses: a destroyed connection is an object no longer in the table.
- The ring's `state` field: each operation's effect on it is stated, but no invariant ties FULL to fullness, because the code does not keep it so.
- The connection's `status` and `type` fields: never read, or only to tell the listener apart.
- Unchecked `calloc` in the protocol machine: taken to succeed, since the code does not test it.
- Reactors.Reactor.HandleListener: the accept loop is over a finite backlog; an endless supply of connections would keep the original in the loop.
