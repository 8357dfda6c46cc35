/**
 The server side protocol machine (src/protocol/protocol.c) over its real fields:
 phase, eight bit counter and four word bitmap.
 */
module Protocol {
  import opened Packets
  import opened Sessions
  import opened Bitmap

  class Machine {
    var phase: Phase
    var active: byte
    const bitmap: array<Word>

    ghost predicate Valid() {
      bitmap.Length == 4
    }

    /** The session these fields stand for. */
    ghost function Abs(): Session
      requires Valid()
      reads this, bitmap
    {
      Session(phase, Ids(bitmap[..]), active)
    }

    constructor ()
      ensures Valid() && fresh(bitmap) && Abs() == FRESH
    {
      phase, active := Init, 0;
      bitmap := new Word[4](_ => 0);
      new;
      assert bitmap[..] == [0, 0, 0, 0];
      IdsEmpty();
    }

    /** Handle one packet: exactly one step of the session. */
    method HandlePacket(p: Packet) returns (response: Option<Packet>)
      requires Valid()
      modifies this, bitmap
      ensures Outcome(Abs(), response) == Step(old(Abs()), p)
      ensures Answer(old(Abs()), p.header.kind, p.header.streamId, Abs(), Bytes(response))
    {
      hide Ids, Answer;
      AnswersTable(Abs(), p);
      response := None;
      match phase {
        case Init =>
          if p.header.kind == CONNECT {
            response := Some(Reply(CONNECT_ACK, 0));
            SetBit(0, 0);
            active := 1;
            phase := Established;
          }
        case Connecting =>
          if p.header.kind == CONNECT_ACK {
            phase := Established;
          }
        case Established =>
          var id := p.header.streamId;
          if p.header.kind == PING {
            response := Some(Reply(PONG, id));
          } else if p.header.kind == STREAM_OPEN {
            response := OpenStream(id);
          } else if p.header.kind == STREAM_CLOSE {
            response := CloseStream(id);
          } else if p.header.kind == PUBLISH || p.header.kind == ERROR {
            response := None;
          } else {
            response := Some(Reply(ERROR, id));
          }
        case Closed =>
          phase := Init;
      }
    }

    method SetBit(word: nat, k: nat)
      requires Valid() && word < 4 && k < 64
      modifies bitmap
      ensures Ids(bitmap[..]) == old(Ids(bitmap[..])) + {64 * word + k}
    {
      hide Ids, SetIn, ClearIn;
      ghost var before := bitmap[..];
      IdsAdd(before, word, k);
      bitmap[word] := SetIn(bitmap[word], k);
      assert bitmap[..] == before[word := SetIn(before[word], k)];
    }

    method ClearBit(word: nat, k: nat)
      requires Valid() && word < 4 && k < 64
      modifies bitmap
      ensures Ids(bitmap[..]) == old(Ids(bitmap[..])) - {64 * word + k}
    {
      hide Ids, SetIn, ClearIn;
      ghost var before := bitmap[..];
      IdsRemove(before, word, k);
      bitmap[word] := ClearIn(bitmap[word], k);
      assert bitmap[..] == before[word := ClearIn(before[word], k)];
    }

    /** Scan the words for the first with a clear bit; the least free id, or 256. */
    method FindFree() returns (word: nat, k: int)
      requires Valid()
      ensures k == -1 <==> LeastFree(Ids(bitmap[..]), 0) == 256
      ensures k != -1 ==> word < 4 && 0 <= k < 64 && LeastFree(Ids(bitmap[..]), 0) == 64 * word + k
    {
      hide Ids, Bit;
      word, k := 0, -1;
      while word < 4
        invariant 0 <= word <= 4 && k == -1
        invariant forall i: byte :: i < 64 * word ==> i in Ids(bitmap[..])
      {
        if bitmap[word] != ALL_ONES {
          k := FirstClear(bitmap[word]);
          FoundLeast(bitmap[..], word, k);
          return;
        }
        FullWord(bitmap[..], word);
        word := word + 1;
      }
    }

    method OpenStream(id: byte) returns (response: Option<Packet>)
      requires Valid() && phase.Established?
      modifies this, bitmap
      ensures Outcome(Abs(), response) == StepEstablished(old(Abs()), STREAM_OPEN, id)
    {
      hide Ids, LeastFree;
      var word, k := FindFree();
      if k == -1 {
        response := Some(Reply(ERROR, id));
      } else {
        SetBit(word, k);
        active := (active + 1) % 256;
        response := Some(Reply(STREAM_OPEN_ACK, 64 * word + k));
      }
    }

    method CloseStream(id: byte) returns (response: Option<Packet>)
      requires Valid() && phase.Established?
      modifies this, bitmap
      ensures Outcome(Abs(), response) == StepEstablished(old(Abs()), STREAM_CLOSE, id)
    {
      hide Ids;
      ClearBit(id / 64, id % 64);
      active := (active + 255) % 256;
      if active == 0 {
        response := None;
        phase := Closed;
      } else {
        response := Some(Reply(0, id));
      }
    }
  }
}
