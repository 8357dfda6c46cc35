/**
 What the protocol of src/protocol/protocol.c means, over the set of open streams.
 */
module Sessions {
  import opened Packets

  datatype Option<+T> = None | Some(value: T)

  datatype Phase = Init | Connecting | Established | Closed

  /** `active` is the eight bit stream counter the code keeps beside its bitmap. */
  datatype Session = Session(phase: Phase, open: set<byte>, active: byte)

  const FRESH := Session(Init, {}, 0)

  function Reply(kind: byte, streamId: byte): (p: Packet)
    ensures kind <= ERROR ==> Acceptable(p)
    ensures |Serialize(p)| == HEADER_SIZE
  {
    Packet(Header(MAGIC, VERSION, kind, streamId, 0, 0), [])
  }

  /** The least id from `from` on that is not open, or 256. */
  function LeastFree(open: set<byte>, from: nat): (id: nat)
    requires from <= 256
    ensures from <= id <= 256
    ensures id < 256 ==> id !in open
    ensures forall j: byte :: from <= j < id ==> j in open
    decreases 256 - from
  {
    if from == 256 || from !in open then from else LeastFree(open, from + 1)
  }

  datatype Outcome = Outcome(session: Session, reply: Option<Packet>)

  /** One packet handled. */
  function Step(s: Session, p: Packet): Outcome {
    match s.phase
    case Init =>
      if p.header.kind == CONNECT
      then Outcome(Session(Established, s.open + {0}, 1), Some(Reply(CONNECT_ACK, 0)))
      else Outcome(s, None)
    case Connecting =>
      Outcome(if p.header.kind == CONNECT_ACK then s.(phase := Established) else s, None)
    case Established => StepEstablished(s, p.header.kind, p.header.streamId)
    case Closed => Outcome(s.(phase := Init), None)
  }

  function StepEstablished(s: Session, kind: byte, id: byte): Outcome {
    if kind == PING then Outcome(s, Some(Reply(PONG, id)))
    else if kind == STREAM_OPEN then
      var free := LeastFree(s.open, 0);
      if free == 256 then Outcome(s, Some(Reply(ERROR, id)))
      else Outcome(s.(open := s.open + {free}, active := (s.active + 1) % 256), Some(Reply(STREAM_OPEN_ACK, free)))
    else if kind == STREAM_CLOSE then
      var t := s.(open := s.open - {id}, active := (s.active + 255) % 256);
      // A reply to a close carries type 0: the code never sets it.
      if t.active == 0 then Outcome(t.(phase := Closed), None) else Outcome(t, Some(Reply(0, id)))
    else if kind == PUBLISH || kind == ERROR then Outcome(s, None)
    else Outcome(s, Some(Reply(ERROR, id)))
  }

  // ----- The answers, in bytes

  /** The bytes of a reply, if there is one. */
  function Bytes(reply: Option<Packet>): seq<byte> {
    if reply.Some? then Serialize(reply.value) else []
  }

  /** A reply of the given type on the given stream. */
  function Eight(kind: byte, id: byte): seq<byte> {
    [0x57, 0x89, 1, kind, id, 0, 0, 0]
  }

  /** What the protocol answers to a packet of type `kind` on stream `id`, and what becomes of the
      session, by type number. */
  ghost predicate Answer(s: Session, kind: byte, id: byte, t: Session, reply: seq<byte>) {
    match s.phase
    case Init =>
      if kind == 1 then t == Session(Established, s.open + {0}, 1) && reply == Eight(2, 0)
      else t == s && reply == []
    case Connecting => t == (if kind == 2 then s.(phase := Established) else s) && reply == []
    case Closed => t == s.(phase := Init) && reply == []
    case Established =>
      match kind
      case 3 => t == s && reply == Eight(4, id)
      case 5 => Opens(s, id, t, reply)
      case 7 =>
        && t.open == s.open - {id}
        && (if s.active == 1 then t.phase.Closed? && t.active == 0 && reply == []
            else t.phase.Established? && t.active == (s.active - 1) % 256 && reply == Eight(0, id))
      case 8 => t == s && reply == []
      case 9 => t == s && reply == []
      case _ => t == s && reply == Eight(9, id)
  }

  /** The least id that is not open is opened and named in the answer; if there is none the answer
      is an error. */
  ghost predicate Opens(s: Session, id: byte, t: Session, reply: seq<byte>) {
    if forall j: byte :: j in s.open then t == s && reply == Eight(9, id)
    else exists free: byte ::
           && free !in s.open && (forall j: byte :: j < free ==> j in s.open)
           && t == s.(open := s.open + {free}, active := (s.active + 1) % 256)
           && reply == Eight(6, free)
  }

  lemma ReplyBytes(kind: byte, id: byte)
    ensures Serialize(Reply(kind, id)) == Eight(kind, id)
  {
  }

  /** In every session, for every packet. */
  lemma AnswersTable(s: Session, p: Packet)
    ensures var o := Step(s, p);
      Answer(s, p.header.kind, p.header.streamId, o.session, Bytes(o.reply))
  {
    var kind, id := p.header.kind, p.header.streamId;
    if s.phase.Established? && kind == 5 {
      var free := LeastFree(s.open, 0);
      ReplyBytes(ERROR, id);
      if free < 256 {
        ReplyBytes(STREAM_OPEN_ACK, free);
      }
    }
  }

  // ----- Runs

  datatype RunResult = RunResult(session: Session, replies: seq<Packet>)

  function Emit(r: RunResult, o: Outcome): RunResult {
    RunResult(o.session, r.replies + ReplyOf(o))
  }

  /** Handle `ps` in order from `s`. */
  function Run(s: Session, ps: seq<Packet>): RunResult {
    if ps == [] then RunResult(s, [])
    else
      var r := Run(s, ps[..|ps| - 1]);
      Emit(r, Step(r.session, ps[|ps| - 1]))
  }

  /** The session just before packet `k` of a run. */
  function At(s: Session, ps: seq<Packet>, k: nat): Session
    requires k <= |ps|
  {
    Run(s, ps[..k]).session
  }

  lemma AtNext(s: Session, ps: seq<Packet>, k: nat)
    requires k < |ps|
    ensures At(s, ps, k + 1) == Step(At(s, ps, k), ps[k]).session
  {
    assert ps[..k + 1][..k] == ps[..k];
  }

  lemma RunSnoc(s: Session, ps: seq<Packet>, p: Packet)
    ensures Run(s, ps + [p]) == Emit(Run(s, ps), Step(Run(s, ps).session, p))
  {
  }

  lemma {:induction false} RunConcat(s: Session, ps: seq<Packet>, qs: seq<Packet>)
    ensures Run(s, ps + qs)
         == RunResult(Run(Run(s, ps).session, qs).session, Run(s, ps).replies + Run(Run(s, ps).session, qs).replies)
    decreases |qs|
  {
    hide Run, Step;
    var mid := Run(s, ps).session;
    if qs == [] {
      RunNone(mid);
      assert ps + qs == ps;
    } else {
      var front, q := qs[..|qs| - 1], qs[|qs| - 1];
      RunConcat(s, ps, front);
      RunSnoc(s, ps + front, q);
      RunSnoc(mid, front, q);
      assert ps + qs == (ps + front) + [q] && qs == front + [q];
    }
  }

  lemma RunNone(s: Session)
    ensures Run(s, []) == RunResult(s, [])
  {
  }

  function ReplyOf(o: Outcome): seq<Packet> {
    if o.reply.Some? then [o.reply.value] else []
  }

  lemma RunCons(s: Session, p: Packet, ps: seq<Packet>)
    ensures var o := Step(s, p);
      Run(s, [p] + ps) == RunResult(Run(o.session, ps).session, ReplyOf(o) + Run(o.session, ps).replies)
  {
    RunConcat(s, [p], ps);
    RunSnoc(s, [], p);
    assert [] + [p] == [p];
  }

  /** Every reply can be parsed again and is eight bytes long. */
  lemma {:induction false} RepliesAcceptable(s: Session, ps: seq<Packet>)
    ensures AllAcceptable(Run(s, ps).replies)
    ensures |SerializeAll(Run(s, ps).replies)| == HEADER_SIZE * |Run(s, ps).replies|
    ensures |Run(s, ps).replies| <= |ps|
  {
    if ps != [] {
      var front := ps[..|ps| - 1];
      RepliesAcceptable(s, front);
      var r := Run(s, front);
      var o := Step(r.session, ps[|ps| - 1]);
      if o.reply.Some? {
        StepReply(r.session, ps[|ps| - 1]);
        SerializeAllSnoc(r.replies, o.reply.value);
      } else {
        assert r.replies + ReplyOf(o) == r.replies;
      }
    }
  }

  lemma StepReply(s: Session, p: Packet)
    requires Step(s, p).reply.Some?
    ensures Acceptable(Step(s, p).reply.value)
    ensures |Serialize(Step(s, p).reply.value)| == HEADER_SIZE
  {
  }

  // ----- Stream bookkeeping

  /** The counter is the number of open streams modulo 256, and streams are open
      exactly while the session is established. */
  ghost predicate Booked(s: Session) {
    && s.active == |s.open| % 256
    && !s.phase.Connecting?
    && (s.phase.Established? <==> s.open != {})
  }

  /** The packet is not a close of a stream that is not open. */
  predicate ClosesOpen(s: Session, p: Packet) {
    s.phase.Established? && p.header.kind == STREAM_CLOSE ==> p.header.streamId in s.open
  }

  /** A set of ids below `n` has at most `n` members, and `n` only if it has them all. */
  lemma {:induction false} Cardinality(open: set<int>, n: nat)
    requires forall x :: x in open ==> 0 <= x < n
    ensures |open| <= n
    ensures |open| == n <==> forall x :: 0 <= x < n ==> x in open
  {
    if n == 0 {
      assert forall x :: x !in open;
    } else {
      var rest := open - {n - 1};
      Cardinality(rest, n - 1);
      assert open == if n - 1 in open then rest + {n - 1} else rest;
      assert forall x :: 0 <= x < n - 1 ==> (x in rest <==> x in open);
    }
  }

  lemma IdsFit(open: set<byte>)
    ensures |open| <= 256
    ensures |open| == 256 <==> forall j: byte :: j in open
  {
    Cardinality(open, 256);
  }

  /** One packet keeps the books exactly when it does not close a stream that is not open. */
  lemma BookedStep(s: Session, p: Packet)
    requires Booked(s)
    ensures Booked(Step(s, p).session) <==> ClosesOpen(s, p)
  {
    IdsFit(s.open);
    if s.phase.Established? && p.header.kind == STREAM_CLOSE {
      BookedClose(s, p.header.streamId);
    }
  }

  lemma BookedClose(s: Session, id: byte)
    requires Booked(s) && s.phase.Established?
    ensures Booked(StepEstablished(s, STREAM_CLOSE, id).session) <==> id in s.open
  {
    IdsFit(s.open);
    var t := StepEstablished(s, STREAM_CLOSE, id).session;
    assert t.active == (|s.open| - 1) % 256;
    if id in s.open {
      assert |t.open| == |s.open| - 1;
    } else {
      assert t.open == s.open;
    }
  }

  /** A booked session becomes closed exactly when its only open stream is closed. */
  lemma ClosedExactly(s: Session, p: Packet)
    requires Booked(s) && ClosesOpen(s, p)
    ensures Step(s, p).session.phase.Closed?
       <==> s.phase.Established? && p.header.kind == STREAM_CLOSE && s.open == {p.header.streamId}
  {
    IdsFit(s.open);
    if s.phase.Established? && p.header.kind == STREAM_CLOSE {
      var rest := s.open - {p.header.streamId};
      assert |rest| == |s.open| - 1;
      assert rest == {} <==> s.open == {p.header.streamId};
    }
  }

  /** Over a whole run from a fresh connection the books are right at every point
      if and only if every close names a stream that is open at that point. */
  lemma {:induction false} BookedRun(ps: seq<Packet>)
    ensures (forall k :: 0 <= k <= |ps| ==> Booked(At(FRESH, ps, k)))
       <==> (forall k :: 0 <= k < |ps| ==> ClosesOpen(At(FRESH, ps, k), ps[k]))
  {
    if forall k :: 0 <= k <= |ps| ==> Booked(At(FRESH, ps, k)) {
      forall k | 0 <= k < |ps| ensures ClosesOpen(At(FRESH, ps, k), ps[k]) {
        AtNext(FRESH, ps, k);
        BookedStep(At(FRESH, ps, k), ps[k]);
      }
    }
    if forall k :: 0 <= k < |ps| ==> ClosesOpen(At(FRESH, ps, k), ps[k]) {
      forall k | 0 <= k <= |ps| ensures Booked(At(FRESH, ps, k)) {
        BookedUpTo(ps, k);
      }
    }
  }

  lemma {:induction false} BookedUpTo(ps: seq<Packet>, k: nat)
    requires k <= |ps|
    requires forall i :: 0 <= i < k ==> ClosesOpen(At(FRESH, ps, i), ps[i])
    ensures Booked(At(FRESH, ps, k))
  {
    if k > 0 {
      BookedUpTo(ps, k - 1);
      AtNext(FRESH, ps, k - 1);
      BookedStep(At(FRESH, ps, k - 1), ps[k - 1]);
    }
  }

  /** The books really can go wrong: right after connecting, closing a stream that was
      never opened closes the session while stream 0 is still open. */
  lemma PhantomClose()
    ensures var ps := [Reply(CONNECT, 0), Reply(STREAM_CLOSE, 7)];
      At(FRESH, ps, 2) == Session(Closed, {0}, 0) && !Booked(At(FRESH, ps, 2))
  {
    var ps := [Reply(CONNECT, 0), Reply(STREAM_CLOSE, 7)];
    AtNext(FRESH, ps, 0);
    AtNext(FRESH, ps, 1);
    assert {0} - {7} == {0};
  }

  // ----- Stream allocation

  /** An open request gets the least free id, or an error exactly when all 256 are open. */
  lemma OpenAllocates(s: Session, p: Packet)
    requires s.phase.Established? && p.header.kind == STREAM_OPEN
    ensures var o := Step(s, p);
      if |s.open| == 256
      then o == Outcome(s, Some(Reply(ERROR, p.header.streamId)))
      else exists id: byte ::
             && id !in s.open
             && (forall j: byte :: j < id ==> j in s.open)
             && o.session == s.(open := s.open + {id}, active := (s.active + 1) % 256)
             && o.reply == Some(Reply(STREAM_OPEN_ACK, id))
  {
    IdsFit(s.open);
    var id := LeastFree(s.open, 0);
  }

  /** The reply to packet `k` of a run. */
  function ReplyAt(s: Session, ps: seq<Packet>, k: nat): Option<Packet>
    requires k < |ps|
  {
    Step(At(s, ps, k), ps[k]).reply
  }

  predicate Closes(p: Packet, id: byte) {
    p.header.kind == STREAM_CLOSE && p.header.streamId == id
  }

  /** A stream stays open until a packet closes it. */
  lemma {:induction false} StaysOpen(s: Session, ps: seq<Packet>, i: nat, j: nat, id: byte)
    requires i <= j <= |ps|
    requires id in At(s, ps, i).open
    requires forall k :: i <= k < j ==> !Closes(ps[k], id)
    ensures id in At(s, ps, j).open
    decreases j
  {
    if i < j {
      StaysOpen(s, ps, i, j - 1, id);
      AtNext(s, ps, j - 1);
    }
  }

  /** No id is handed out twice in a run unless a close of it was handled in between. */
  lemma NoDuplicateIds(s: Session, ps: seq<Packet>, i: nat, j: nat, id: byte)
    requires i < j < |ps|
    requires ReplyAt(s, ps, i) == Some(Reply(STREAM_OPEN_ACK, id))
    requires ReplyAt(s, ps, j) == Some(Reply(STREAM_OPEN_ACK, id))
    ensures exists k :: i < k < j && Closes(ps[k], id)
  {
    AtNext(s, ps, i);
    assert id in At(s, ps, i + 1).open;
    if forall k :: i < k < j ==> !Closes(ps[k], id) {
      StaysOpen(s, ps, i + 1, j, id);
      assert false;
    }
  }
}
