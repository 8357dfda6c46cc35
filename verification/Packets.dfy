/**
 Wire format of a packet (src/protocol/packet.c, include/velora/packet.h).

 A packet is a fixed eight byte header followed by `payloadLen` payload bytes;
 the two 16-bit fields are big-endian.
 */
module Packets {

  type byte = x: int | 0 <= x < 256
  type u16 = x: int | 0 <= x < 65536

  const HEADER_SIZE: nat := 8
  const MAGIC: u16 := 0x5789
  const VERSION: byte := 1

  const CONNECT: byte := 1
  const CONNECT_ACK: byte := 2
  const PING: byte := 3
  const PONG: byte := 4
  const STREAM_OPEN: byte := 5
  const STREAM_OPEN_ACK: byte := 6
  const STREAM_CLOSE: byte := 7
  const PUBLISH: byte := 8
  const ERROR: byte := 9

  datatype Header = Header(magic: u16, version: byte, kind: byte, streamId: byte, flags: byte, payloadLen: u16)

  datatype Packet = Packet(header: Header, payload: seq<byte>)

  /** The all-zero header that memset leaves behind. */
  const ZERO_HEADER := Header(0, 0, 0, 0, 0, 0)

  /** The payload pointer of the source really addresses `payloadLen` bytes. */
  predicate WellFormed(p: Packet) {
    |p.payload| == p.header.payloadLen
  }

  /** The four checks of the parser; the only flag bits allowed are the low two. */
  predicate ValidHeader(h: Header) {
    && h.magic == MAGIC
    && h.version == VERSION
    && h.kind <= ERROR
    && h.flags / 4 == 0
  }

  /** A packet the parser can deliver. */
  predicate Acceptable(p: Packet) {
    WellFormed(p) && ValidHeader(p.header)
  }

  ghost predicate AllAcceptable(ps: seq<Packet>) {
    forall i :: 0 <= i < |ps| ==> Acceptable(ps[i])
  }

  // ----- Specification of the encoding

  function EncodeU16(v: u16): (b: seq<byte>) {
    [v / 256, v % 256]
  }

  function DecodeU16(hi: byte, lo: byte): (v: u16) {
    hi * 256 + lo
  }

  function EncodeHeader(h: Header): (b: seq<byte>)
    ensures |b| == HEADER_SIZE
  {
    EncodeU16(h.magic) + [h.version, h.kind, h.streamId, h.flags] + EncodeU16(h.payloadLen)
  }

  function DecodeHeader(b: seq<byte>): (h: Header)
    requires |b| >= HEADER_SIZE
  {
    Header(DecodeU16(b[0], b[1]), b[2], b[3], b[4], b[5], DecodeU16(b[6], b[7]))
  }

  function Serialize(p: Packet): (b: seq<byte>)
    ensures |b| == HEADER_SIZE + |p.payload|
  {
    EncodeHeader(p.header) + p.payload
  }

  function SerializeAll(ps: seq<Packet>): (b: seq<byte>) {
    if ps == [] then [] else Serialize(ps[0]) + SerializeAll(ps[1..])
  }

  // ----- The layout, byte by byte

  /** The eight bytes are the header's fields in this order, the 16-bit ones high byte first. */
  predicate LaidOut(h: Header, b: seq<byte>)
    requires |b| >= HEADER_SIZE
  {
    && b[0] as int * 256 + b[1] == h.magic
    && b[2] == h.version && b[3] == h.kind && b[4] == h.streamId && b[5] == h.flags
    && b[6] as int * 256 + b[7] == h.payloadLen
  }

  lemma HeaderLaidOut(h: Header)
    ensures LaidOut(h, EncodeHeader(h))
  {
  }

  lemma DecodedLaidOut(b: seq<byte>)
    requires |b| >= HEADER_SIZE
    ensures LaidOut(DecodeHeader(b), b)
  {
  }

  /** A serialized packet is the eight bytes of its header and then its payload. */
  lemma PacketLaidOut(p: Packet)
    ensures LaidOut(p.header, Serialize(p)) && Serialize(p)[8..] == p.payload
  {
  }

  // ----- The codec is a bijection between headers and eight byte strings

  lemma DecodeEncodeHeader(h: Header, tail: seq<byte>)
    ensures DecodeHeader(EncodeHeader(h) + tail) == h
  {
  }

  lemma EncodeDecodeHeader(b: seq<byte>)
    requires |b| >= HEADER_SIZE
    ensures EncodeHeader(DecodeHeader(b)) == b[..HEADER_SIZE]
  {
  }

  lemma {:induction false} SerializeAllConcat(ps: seq<Packet>, qs: seq<Packet>)
    ensures SerializeAll(ps + qs) == SerializeAll(ps) + SerializeAll(qs)
  {
    if ps == [] {
      assert ps + qs == qs;
    } else {
      assert (ps + qs)[1..] == ps[1..] + qs;
      SerializeAllConcat(ps[1..], qs);
    }
  }

  lemma SerializeAllSnoc(ps: seq<Packet>, p: Packet)
    ensures SerializeAll(ps + [p]) == SerializeAll(ps) + Serialize(p)
  {
    SerializeAllConcat(ps, [p]);
    assert SerializeAll([p]) == Serialize(p) + SerializeAll([]);
  }

  // ----- The code that writes and reads byte by byte

  method EncodeU16Into(buf: array<byte>, off: nat, value: u16)
    requires off + 2 <= buf.Length
    modifies buf
    ensures buf[off] as int * 256 + buf[off + 1] == value
    ensures buf[off..off + 2] == EncodeU16(value)
    ensures forall i :: 0 <= i < buf.Length && !(off <= i < off + 2) ==> buf[i] == old(buf[i])
  {
    buf[off] := value / 256;
    buf[off + 1] := value % 256;
  }

  /** Writes a packet at `off`: exactly its serialization, and no other cell. */
  method SerializeInto(p: Packet, buf: array<byte>, off: nat)
    requires WellFormed(p)
    requires off + HEADER_SIZE + |p.payload| <= buf.Length
    modifies buf
    ensures buf[off..off + |Serialize(p)|] == Serialize(p)
    ensures LaidOut(p.header, buf[off..off + HEADER_SIZE])
    ensures buf[off + HEADER_SIZE..off + HEADER_SIZE + |p.payload|] == p.payload
    ensures forall i :: 0 <= i < buf.Length && !(off <= i < off + |Serialize(p)|) ==> buf[i] == old(buf[i])
  {
    HeaderInto(p.header, buf, off);
    var at := off + HEADER_SIZE;
    if p.header.payloadLen > 0 {
      forall i | 0 <= i < |p.payload| {
        buf[at + i] := p.payload[i];
      }
    }
    hide EncodeHeader, LaidOut;
    HeaderLaidOut(p.header);
    assert buf[off..at] == EncodeHeader(p.header);
    assert buf[at..at + |p.payload|] == p.payload;
    assert buf[off..off + |Serialize(p)|] == buf[off..at] + buf[at..at + |p.payload|];
  }

  method HeaderInto(h: Header, buf: array<byte>, off: nat)
    requires off + HEADER_SIZE <= buf.Length
    modifies buf
    ensures buf[off..off + HEADER_SIZE] == EncodeHeader(h)
    ensures forall i :: 0 <= i < buf.Length && !(off <= i < off + HEADER_SIZE) ==> buf[i] == old(buf[i])
  {
    EncodeU16Into(buf, off, h.magic);
    buf[off + 2] := h.version;
    buf[off + 3] := h.kind;
    buf[off + 4] := h.streamId;
    buf[off + 5] := h.flags;
    EncodeU16Into(buf, off + 6, h.payloadLen);
  }

  method HeaderDeserialize(buf: array<byte>, off: nat) returns (h: Header)
    requires off + HEADER_SIZE <= buf.Length
    ensures EncodeHeader(h) == buf[off..off + HEADER_SIZE]
    ensures LaidOut(h, buf[off..off + HEADER_SIZE])
  {
    h := Header(DecodeU16(buf[off], buf[off + 1]), buf[off + 2], buf[off + 3], buf[off + 4], buf[off + 5],
                DecodeU16(buf[off + 6], buf[off + 7]));
    EncodeDecodeHeader(buf[off..off + HEADER_SIZE]);
  }
}
