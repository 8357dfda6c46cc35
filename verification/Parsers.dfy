/**
 The incremental two-state parser (src/protocol/parser.c): it takes a header out of
 the read ring as soon as eight bytes are there, remembers it while the payload is
 incomplete, and so never depends on how the stream was cut into chunks.
 */
module Parsers {
  import opened Packets
  import opened Framing
  import opened Rings

  datatype ParserState = HeaderWait | PayloadWait

  datatype PollResult = PollEmpty | PollPacket(packet: Packet) | PollBad | PollNoMemory

  /** The answer `r` is right for the unparsed bytes `before`, of which `after` remain. */
  ghost predicate Answers(r: PollResult, before: seq<byte>, after: seq<byte>) {
    match r
    case PollEmpty => FirstFrame(before).NeedMore? && after == before
    case PollPacket(p) => FirstFrame(before) == Complete(p) && before == Serialize(p) + after
    case PollBad => FirstFrame(before).Malformed?
    case PollNoMemory => FirstFrame(before).Complete? && after == before
  }

  /** What the reference parser says of a header followed by `c`. */
  lemma HeaderFrame(h: Header, c: seq<byte>)
    ensures FirstFrame(EncodeHeader(h) + c)
         == if !ValidHeader(h) then Malformed
            else if |c| < h.payloadLen then NeedMore
            else Complete(Packet(h, c[..h.payloadLen]))
    ensures |c| >= h.payloadLen ==> EncodeHeader(h) + c == Serialize(Packet(h, c[..h.payloadLen])) + c[h.payloadLen..]
  {
  }

  lemma ShortFrame(c: seq<byte>)
    requires |c| < HEADER_SIZE
    ensures FirstFrame([] + c).NeedMore?
  {
  }

  class Parser {
    var state: ParserState
    var header: Header

    ghost predicate Valid()
      reads this
    {
      match state
      case HeaderWait => header == ZERO_HEADER
      case PayloadWait => ValidHeader(header) && header.payloadLen > 0
    }

    /** The bytes taken from the ring whose packet is not complete yet. */
    ghost function Taken(): (b: seq<byte>)
      reads this
    {
      if state.PayloadWait? then EncodeHeader(header) else []
    }

    /** The part of the stream that has not become packets: the saved header and the ring. */
    ghost function Unparsed(ring: RingBuffer): (b: seq<byte>)
      requires ring.Valid()
      reads this, ring, ring.data
    {
      Taken() + ring.Contents()
    }

    constructor ()
      ensures Valid() && state.HeaderWait?
    {
      state, header := HeaderWait, ZERO_HEADER;
    }

    /** Take one packet if the unparsed stream starts with one.  The answer is the one the
        reference parser gives for the unparsed bytes, in whichever state it is asked. */
    method Poll(ring: RingBuffer, memory: bool) returns (r: PollResult)
      requires Valid() && ring.Valid()
      modifies this, ring
      ensures Valid() && ring.Valid() && ring.data == old(ring.data) && ring.capacity == old(ring.capacity)
      ensures r.PollEmpty? ==> ring.count < MAX_SIZE - 1
      ensures r.PollNoMemory? ==> !memory
      ensures Answers(r, old(Unparsed(ring)), Unparsed(ring))
    {
      hide FirstFrame, EncodeHeader, Serialize, RingBuffer.Contents;
      if state.HeaderWait? {
        if ring.count < HEADER_SIZE {
          ShortFrame(ring.Contents());
          return PollEmpty;
        }
        ghost var c := ring.Contents();
        assert Unparsed(ring) == c;
        header := PeekHeader(ring);
        assert c == EncodeHeader(header) + c[HEADER_SIZE..];
        HeaderFrame(header, c[HEADER_SIZE..]);
        var consumed := ring.Consume(HEADER_SIZE);
        if !ValidHeader(header) {
          header := ZERO_HEADER;
          return PollBad;
        }
        if header.payloadLen == 0 {
          r := PollPacket(Packet(header, []));
          header := ZERO_HEADER;
          return;
        }
        state := PayloadWait;
      }
      r := PollPayload(ring, memory);
    }

    /** Both ways of reading the header, straight from one stretch or flattened across the
        wrap, give the first eight queued bytes. */
    method PeekHeader(ring: RingBuffer) returns (h: Header)
      requires ring.Valid() && ring.count >= HEADER_SIZE
      ensures EncodeHeader(h) == ring.Contents()[..HEADER_SIZE]
    {
      hide FirstFrame, EncodeHeader, Rotate;
      var contiguous := ring.ContiguousRead();
      if contiguous >= HEADER_SIZE {
        assert ring.data[ring.readPos..ring.readPos + HEADER_SIZE]
            == ring.data[ring.readPos..ring.readPos + contiguous][..HEADER_SIZE];
        h := HeaderDeserialize(ring.data, ring.readPos);
      } else {
        var flat := new byte[HEADER_SIZE];
        var copied := ring.PeekN(flat, HEADER_SIZE);
        assert flat[0..0 + HEADER_SIZE] == flat[..HEADER_SIZE];
        h := HeaderDeserialize(flat, 0);
      }
    }

    method PeekPayload(ring: RingBuffer, len: nat) returns (payload: seq<byte>)
      requires ring.Valid() && 0 < len <= ring.count
      ensures payload == ring.Contents()[..len]
    {
      var contiguous := ring.ContiguousRead();
      var out := new byte[len];
      if contiguous >= len {
        forall i | 0 <= i < len {
          out[i] := ring.data[ring.readPos + i];
        }
      } else {
        var copied := ring.PeekN(out, len);
      }
      payload := out[..];
    }

    method PollPayload(ring: RingBuffer, memory: bool) returns (r: PollResult)
      requires Valid() && ring.Valid() && state.PayloadWait?
      modifies this, ring
      ensures Valid() && ring.Valid() && ring.data == old(ring.data) && ring.capacity == old(ring.capacity)
      ensures r.PollEmpty? ==> ring.count < MAX_SIZE - 1
      ensures r.PollNoMemory? ==> !memory
      ensures Answers(r, old(Unparsed(ring)), Unparsed(ring))
    {
      var len := header.payloadLen;
      hide FirstFrame, EncodeHeader, Serialize, RingBuffer.Contents;
      HeaderFrame(header, ring.Contents());
      if ring.count < len {
        return PollEmpty;
      }
      var ok: bool := *;
      if !memory && !ok {
        return PollNoMemory;
      }
      ghost var c := ring.Contents();
      var payload := PeekPayload(ring, len);
      var consumed := ring.Consume(len);
      r := PollPacket(Packet(header, payload));
      header := ZERO_HEADER;
      state := HeaderWait;
    }
  }
}
