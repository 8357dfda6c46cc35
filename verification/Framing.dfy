/**
 What a byte stream means: the one-shot reference parser that the incremental
 parser of src/protocol/parser.c is measured against.
 */
module Framing {
  import opened Packets

  datatype Frame = NeedMore | Malformed | Complete(packet: Packet)

  /** What the bytes at the head of a stream determine. */
  function FirstFrame(s: seq<byte>): Frame {
    if |s| < HEADER_SIZE then NeedMore
    else
      var h := DecodeHeader(s);
      if !ValidHeader(h) then Malformed
      else if |s| < HEADER_SIZE + h.payloadLen then NeedMore
      else Complete(Packet(h, s[HEADER_SIZE..HEADER_SIZE + h.payloadLen]))
  }

  /** What the bytes at the head of a stream determine, said of the bytes themselves: with fewer
      than eight nothing; else a header is refused exactly if it does not start with 0x57 0x89,
      the version is not 1, the type is above 9 or a flag beyond the low two is set; else the
      packet is there exactly if as many bytes follow as the last two of the header say. */
  lemma FrameByBytes(s: seq<byte>)
    ensures |s| < 8 ==> FirstFrame(s).NeedMore?
    ensures |s| >= 8 ==>
      var good := s[0] == 0x57 && s[1] == 0x89 && s[2] == 1 && s[3] <= 9 && s[5] <= 3;
      var length := s[6] as int * 256 + s[7];
      && (FirstFrame(s).Malformed? <==> !good)
      && (FirstFrame(s).NeedMore? <==> good && |s| < 8 + length)
      && (FirstFrame(s).Complete? ==>
            var p := FirstFrame(s).packet;
            && LaidOut(p.header, s) && p.header.payloadLen == length
            && p.payload == s[8..8 + length])
  {
    if |s| >= 8 {
      DecodedLaidOut(s);
    }
  }

  /** The packets of a stream, the bytes left over, and whether they start with a bad header. */
  datatype Parsed = Parsed(packets: seq<Packet>, rest: seq<byte>, bad: bool)

  function ParseAll(s: seq<byte>): Parsed
    decreases |s|
  {
    match FirstFrame(s)
    case NeedMore => Parsed([], s, false)
    case Malformed => Parsed([], s, true)
    case Complete(p) =>
      var tail := ParseAll(s[HEADER_SIZE + |p.payload|..]);
      Parsed([p] + tail.packets, tail.rest, tail.bad)
  }

  /** A frame, once determined, is not changed by what follows it. */
  lemma FrameStable(s: seq<byte>, t: seq<byte>)
    requires !FirstFrame(s).NeedMore?
    ensures FirstFrame(s + t) == FirstFrame(s)
  {
  }

  /** A complete frame is acceptable and is the serialization of its packet. */
  lemma CompleteFrame(s: seq<byte>)
    requires FirstFrame(s).Complete?
    ensures var p := FirstFrame(s).packet;
      Acceptable(p) && |Serialize(p)| <= |s| && s == Serialize(p) + s[|Serialize(p)|..]
  {
  }

  /** The packets `ps`, followed by what `r` says. */
  function Prepend(ps: seq<Packet>, r: Parsed): Parsed {
    Parsed(ps + r.packets, r.rest, r.bad)
  }

  /** Parsing peels one serialized packet off the front. */
  lemma ParsePeel(p: Packet, t: seq<byte>)
    requires Acceptable(p)
    ensures ParseAll(Serialize(p) + t) == Prepend([p], ParseAll(t))
  {
  }

  /** Serializing packets and parsing gives them back, ahead of whatever follows. */
  lemma {:induction false} RoundTrip(ps: seq<Packet>, t: seq<byte>)
    requires AllAcceptable(ps)
    ensures ParseAll(SerializeAll(ps) + t) == Prepend(ps, ParseAll(t))
  {
    hide ParseAll, Serialize, Acceptable;
    if ps == [] {
      assert SerializeAll(ps) + t == t;
    } else {
      calc {
        ParseAll(SerializeAll(ps) + t);
      ==  { SerializedSplit(ps, t); }
        ParseAll(Serialize(ps[0]) + (SerializeAll(ps[1..]) + t));
      ==  { ParsePeel(ps[0], SerializeAll(ps[1..]) + t); }
        Prepend([ps[0]], ParseAll(SerializeAll(ps[1..]) + t));
      ==  { RoundTrip(ps[1..], t); }
        Prepend([ps[0]], Prepend(ps[1..], ParseAll(t)));
      ==  { assert ps == [ps[0]] + ps[1..]; }
        Prepend(ps, ParseAll(t));
      }
    }
  }

  /** On its own a serialized list parses to itself and leaves nothing. */
  lemma SerializedParses(ps: seq<Packet>)
    requires AllAcceptable(ps)
    ensures ParseAll(SerializeAll(ps)) == Parsed(ps, [], false)
  {
    RoundTrip(ps, []);
    assert SerializeAll(ps) + [] == SerializeAll(ps);
    assert ps + [] == ps;
  }

  lemma SerializedSplit(ps: seq<Packet>, t: seq<byte>)
    requires ps != []
    ensures SerializeAll(ps) + t == Serialize(ps[0]) + (SerializeAll(ps[1..]) + t)
  {
  }

  /** Parsing splits a stream into serialized packets and a remainder holding no further packet. */
  lemma {:induction false} ParseSound(s: seq<byte>)
    ensures var r := ParseAll(s);
      && AllAcceptable(r.packets)
      && s == SerializeAll(r.packets) + r.rest
      && FirstFrame(r.rest) == (if r.bad then Malformed else NeedMore)
    decreases |s|
  {
    if FirstFrame(s).Complete? {
      CompleteFrame(s);
      var p := FirstFrame(s).packet;
      var t := s[|Serialize(p)|..];
      ParseSound(t);
      SoundStep(s, p, t);
    }
  }

  lemma SoundStep(s: seq<byte>, p: Packet, t: seq<byte>)
    requires Acceptable(p) && s == Serialize(p) + t
    requires AllAcceptable(ParseAll(t).packets)
    requires t == SerializeAll(ParseAll(t).packets) + ParseAll(t).rest
    ensures ParseAll(s) == Prepend([p], ParseAll(t))
    ensures AllAcceptable(ParseAll(s).packets)
    ensures s == SerializeAll(ParseAll(s).packets) + ParseAll(s).rest
  {
    ParsePeel(p, t);
    var ps := [p] + ParseAll(t).packets;
    assert ps[1..] == ParseAll(t).packets;
    SerializedSplit(ps, ParseAll(t).rest);
  }

  /** That split is the only one. */
  lemma UniqueSplit(s: seq<byte>, ps: seq<Packet>, rest: seq<byte>)
    requires AllAcceptable(ps)
    requires s == SerializeAll(ps) + rest
    requires !FirstFrame(rest).Complete?
    ensures ParseAll(s) == Parsed(ps, rest, FirstFrame(rest).Malformed?)
  {
    RoundTrip(ps, rest);
    assert ps + [] == ps;
  }

  /** Parsing with `t` arriving after the outcome `r`; after a bad header nothing more is parsed. */
  function Continue(r: Parsed, t: seq<byte>): Parsed {
    if r.bad then Parsed(r.packets, r.rest + t, true) else Prepend(r.packets, ParseAll(r.rest + t))
  }

  /** Parsing a longer stream resumes from the remainder of the shorter one. */
  lemma ParseAppend(s: seq<byte>, t: seq<byte>)
    ensures ParseAll(s + t) == Continue(ParseAll(s), t)
  {
    ParseSound(s);
    var r := ParseAll(s);
    AppendAfter(s, r.packets, r.rest, t);
    if r.bad {
      StaysBad(r.rest, t);
    }
  }

  lemma AppendAfter(s: seq<byte>, ps: seq<Packet>, rest: seq<byte>, t: seq<byte>)
    requires AllAcceptable(ps) && s == SerializeAll(ps) + rest
    ensures ParseAll(s + t) == Prepend(ps, ParseAll(rest + t))
  {
    hide *;
    RoundTrip(ps, rest + t);
    assert s + t == SerializeAll(ps) + (rest + t);
  }

  lemma StaysBad(s: seq<byte>, t: seq<byte>)
    requires FirstFrame(s).Malformed?
    ensures ParseAll(s + t) == Parsed([], s + t, true)
  {
  }

  // ----- Fragmentation

  function Concat(chunks: seq<seq<byte>>): seq<byte> {
    if chunks == [] then [] else Concat(chunks[..|chunks| - 1]) + chunks[|chunks| - 1]
  }

  /** Feed the chunks one at a time, parsing as far as possible after each and
      keeping only the remainder. */
  function FeedAll(chunks: seq<seq<byte>>): Parsed {
    if chunks == [] then Parsed([], [], false)
    else Continue(FeedAll(chunks[..|chunks| - 1]), chunks[|chunks| - 1])
  }

  /** However a stream is cut up, feeding the pieces gives what parsing the whole gives. */
  lemma {:induction false} FragmentationIndependent(chunks: seq<seq<byte>>)
    ensures FeedAll(chunks) == ParseAll(Concat(chunks))
  {
    if chunks != [] {
      var front := chunks[..|chunks| - 1];
      FragmentationIndependent(front);
      ParseAppend(Concat(front), chunks[|chunks| - 1]);
    }
  }
}
