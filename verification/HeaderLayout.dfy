/**
 The parser measures headers with `sizeof(vr_packet_header_t)` while the serializer
 writes eight bytes (src/protocol/parser.c, src/protocol/packet.c).  The struct holds the
 packet type as an enum, whose size the compiler chooses.  The rest of the project takes
 the header to be eight bytes, as the documentation of the wire format says; this module
 shows that the choice is forced, on the way in and on the way out.
 */
module HeaderLayout {
  import opened Packets
  import opened Framing
  import opened Sessions

  function AlignUp(offset: nat, align: nat): nat
    requires align > 0
  {
    (offset + align - 1) / align * align
  }

  /** The size of the header struct when an enum takes `e` bytes, by the usual layout rules:
      u16 magic, u8 version, enum type, u8 stream, u8 flags, u16 length. */
  function StructSize(e: nat): nat
    requires e == 1 || e == 2 || e == 4
  {
    var kind := AlignUp(3, e);
    var length := AlignUp(kind + e + 2, 2);
    AlignUp(length + 2, if e < 2 then 2 else e)
  }

  /** The parser with headers measured as `size` bytes: it waits for `size`, reads eight and
      takes `size` off the stream. */
  function ParseSized(size: nat, s: seq<byte>): Parsed
    requires size >= HEADER_SIZE
    decreases |s|
  {
    if |s| < size then Parsed([], s, false)
    else
      var h := DecodeHeader(s);
      if !ValidHeader(h) then Parsed([], s, true)
      else if |s| < size + h.payloadLen then Parsed([], s, false)
      else Prepend([Packet(h, s[size..size + h.payloadLen])], ParseSized(size, s[size + h.payloadLen..]))
  }

  lemma {:induction false} EightIsTheParser(s: seq<byte>)
    ensures ParseSized(HEADER_SIZE, s) == ParseAll(s)
    decreases |s|
  {
    if FirstFrame(s).Complete? {
      EightIsTheParser(s[HEADER_SIZE + DecodeHeader(s).payloadLen..]);
    }
  }

  /** The parser reads what the serializer writes. */
  ghost predicate ReadsItsOwn(size: nat)
    requires size >= HEADER_SIZE
  {
    forall ps :: AllAcceptable(ps) ==> ParseSized(size, SerializeAll(ps)) == Parsed(ps, [], false)
  }

  /** It does so if and only if the struct is eight bytes long, that is, if enums take one byte. */
  lemma RoundTripNeedsShortEnums(e: nat)
    requires e == 1 || e == 2 || e == 4
    ensures ReadsItsOwn(StructSize(e)) <==> e == 1
    ensures StructSize(e) == match e case 1 => 8 case 2 => 10 case _ => 12
  {
    hide ReadsItsOwn;
    if e == 1 {
      EightReadsItsOwn();
    } else {
      PingNotRead(StructSize(e));
    }
  }

  lemma EightReadsItsOwn()
    ensures ReadsItsOwn(HEADER_SIZE)
  {
    forall ps | AllAcceptable(ps) ensures ParseSized(HEADER_SIZE, SerializeAll(ps)) == Parsed(ps, [], false) {
      hide *;
      EightIsTheParser(SerializeAll(ps));
      SerializedParses(ps);
    }
  }

  /** With a longer struct even a single ping is not read. */
  lemma PingNotRead(size: nat)
    requires size > HEADER_SIZE
    ensures !ReadsItsOwn(size)
  {
    var ps := [Reply(PING, 0)];
    assert SerializeAll(ps) == Serialize(ps[0]) + SerializeAll([]);
    assert AllAcceptable(ps) && |SerializeAll(ps)| == HEADER_SIZE;
    assert ParseSized(size, SerializeAll(ps)) == Parsed([], SerializeAll(ps), false);
  }

  // ----- The replies

  /** What the reply path sends when headers are measured as `size` bytes: it queues `size` plus
      the payload for each reply, of which the serializer writes eight plus the payload and the
      rest is whatever the ring held. */
  function Padded(replies: seq<Packet>, stale: seq<seq<byte>>): seq<byte>
    requires |stale| == |replies|
  {
    if replies == [] then [] else Serialize(replies[0]) + stale[0] + Padded(replies[1..], stale[1..])
  }

  ghost predicate Fits(size: nat, replies: seq<Packet>, stale: seq<seq<byte>>)
    requires size >= HEADER_SIZE
  {
    |stale| == |replies| && forall i :: 0 <= i < |stale| ==> |stale[i]| == size - HEADER_SIZE
  }

  /** A peer of the documented format reads the replies to any packets, whatever the ring held. */
  ghost predicate PeerReads(size: nat)
    requires size >= HEADER_SIZE
  {
    forall ps, stale :: Fits(size, Run(FRESH, ps).replies, stale) ==>
      ParseAll(Padded(Run(FRESH, ps).replies, stale)) == Parsed(Run(FRESH, ps).replies, [], false)
  }

  /** It does so if and only if the struct is eight bytes long. */
  lemma RepliesNeedShortEnums(size: nat)
    requires size >= HEADER_SIZE
    ensures PeerReads(size) <==> size == HEADER_SIZE
  {
    hide PeerReads;
    if size == HEADER_SIZE {
      EightIsRead();
    } else {
      StaleBytesNotRead(size);
    }
  }

  lemma EightIsRead()
    ensures PeerReads(HEADER_SIZE)
  {
    forall ps, stale | Fits(HEADER_SIZE, Run(FRESH, ps).replies, stale)
      ensures ParseAll(Padded(Run(FRESH, ps).replies, stale)) == Parsed(Run(FRESH, ps).replies, [], false)
    {
      hide ParseAll, Run, Padded;
      NoPadding(Run(FRESH, ps).replies, stale);
      RepliesAcceptable(FRESH, ps);
      SerializedParses(Run(FRESH, ps).replies);
    }
  }

  lemma {:induction false} NoPadding(replies: seq<Packet>, stale: seq<seq<byte>>)
    requires Fits(HEADER_SIZE, replies, stale)
    ensures Padded(replies, stale) == SerializeAll(replies)
  {
    if replies != [] {
      NoPadding(replies[1..], stale[1..]);
      assert stale[0] == [];
    }
  }

  /** With a longer struct the peer does not even read the answer to a connect: it is left with
      bytes that were never written, here zeros. */
  lemma StaleBytesNotRead(size: nat)
    requires size > HEADER_SIZE
    ensures !PeerReads(size)
  {
    var ps, ack := [Reply(CONNECT, 0)], Reply(CONNECT_ACK, 0);
    var zeros: seq<byte> := seq(size - HEADER_SIZE, _ => 0);
    RunSnoc(FRESH, [], ps[0]);
    assert [] + [ps[0]] == ps;
    assert Run(FRESH, ps).replies == [ack];
    assert Fits(size, [ack], [zeros]);
    assert Padded([ack], [zeros]) == Serialize(ack) + zeros;
    ParsePeel(ack, zeros);
    assert ParseAll(zeros).rest == zeros;
    assert |zeros| > 0;
  }
}
