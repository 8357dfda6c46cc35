/**
 The kernel's side of one connection: everything the program cannot decide.

 Results are arbitrary within what the system calls promise.  `reported` follows
 edge-triggered readiness: a readable event is to come when bytes have arrived since
 the last one was reported, or when the interest set has been modified since then
 while bytes were waiting.
 */
module Sockets {
  import opened Packets

  datatype RecvResult = Data(bytes: seq<byte>) | Eof | RecvBlocked | RecvFailed

  datatype SendResult = Sent(n: nat) | SendBlocked | SendFailed

  class Socket {
    var inbox: seq<byte>           // arrived and not yet received
    var interestOut: bool          // EPOLLOUT is in the registered interest set
    ghost var reported: int        // arrivals at the last readable event, or -1 to force one
    ghost var ctlFailed: bool      // some epoll_ctl call has failed
    ghost var eof: bool            // the peer's end of file has been seen
    ghost var failed: bool         // a read or a write has failed
    ghost var blocked: bool        // the last write since the socket became writable found it full
    ghost var arrived: seq<byte>   // every byte the peer's stream has delivered
    ghost var received: seq<byte>  // every byte handed to the program
    ghost var sent: seq<byte>      // every byte taken from the program

    ghost predicate Valid()
      reads this
    {
      arrived == received + inbox && reported <= |arrived|
    }

    /** All that has happened is that bytes arrived and were perhaps received. */
    twostate predicate OnlyReceived()
      reads this
    {
      && interestOut == old(interestOut) && ctlFailed == old(ctlFailed)
      && blocked == old(blocked) && sent == old(sent)
      && reported == old(reported) && old(arrived) <= arrived
    }

    /** A readable event is still to be reported. */
    ghost predicate Edge()
      reads this
    {
      |arrived| > reported
    }

    /** The readable bytes still in the kernel will be reported. */
    ghost predicate NothingStranded()
      reads this
    {
      inbox != [] ==> Edge()
    }

    constructor ()
      ensures Valid() && NothingStranded()
      ensures !interestOut && !ctlFailed && !eof && !failed && received == [] && sent == []
    {
      inbox, interestOut := [], false;
      reported, ctlFailed, arrived, received, sent := 0, false, [], [], [];
      eof, failed, blocked := false, false, false;
    }

    /** More bytes may arrive at any moment. */
    method Arrive()
      requires Valid()
      modifies this
      ensures Valid() && OnlyReceived() && received == old(received)
      ensures eof == old(eof) && failed == old(failed)
      ensures old(NothingStranded()) ==> NothingStranded()
      ensures old(inbox) <= inbox && (arrived == old(arrived) ==> inbox == old(inbox))
      ensures arrived != old(arrived) ==> Edge()
    {
      var more: seq<byte> := *;
      inbox, arrived := inbox + more, arrived + more;
      assert more == [] ==> inbox == old(inbox);
    }

    /** A non-blocking read of at most `max` bytes.  Only a read of a non-empty buffer is
        allowed, so that end of file is the only meaning of a zero result. */
    method Recv(max: nat) returns (r: RecvResult)
      requires Valid() && 0 < max
      modifies this
      ensures Valid() && OnlyReceived()
      ensures eof == (old(eof) || r.Eof?) && failed == (old(failed) || r.RecvFailed?)
      ensures received == old(received) + if r.Data? then r.bytes else []
      ensures r.Data? ==> 0 < |r.bytes| <= max
      ensures r.RecvBlocked? ==> inbox == []
    {
      Arrive();
      var broken: bool, closed: bool, n: int := *, *, *;
      if broken {
        r := RecvFailed;
        failed := true;
      } else if inbox == [] {
        r := if closed then Eof else RecvBlocked;
        eof := eof || closed;
      } else {
        var most := if max < |inbox| then max else |inbox|;
        n := if 0 < n <= most then n else most;
        r := Data(inbox[..n]);
        received, inbox := received + inbox[..n], inbox[n..];
      }
    }

    /** A non-blocking write; the kernel takes some prefix of the bytes offered.  A zero
        result and every error except would-block count as failure. */
    method Send(bytes: seq<byte>) returns (r: SendResult)
      requires Valid() && bytes != []
      modifies `sent, `failed, `blocked
      ensures Valid()
      ensures failed == (old(failed) || r.SendFailed?) && blocked == r.SendBlocked?
      ensures r.Sent? ==> 0 < r.n <= |bytes|
      ensures sent == old(sent) + if r.Sent? then bytes[..r.n] else []
    {
      var broken: bool, full: bool, n: int := *, *, *;
      blocked := false;
      if broken {
        r := SendFailed;
        failed := true;
      } else if full {
        r := SendBlocked;
        blocked := true;
      } else {
        n := if 0 < n <= |bytes| then n else |bytes|;
        r := Sent(n);
        sent := sent + bytes[..n];
      }
    }

    /** Change the registered interest; the caller ignores the result. */
    method Modify(wantOut: bool)
      requires Valid()
      modifies `interestOut, `reported, `ctlFailed
      ensures Valid() && (old(Edge()) ==> Edge())
      ensures || (ctlFailed == old(ctlFailed) && interestOut == wantOut && NothingStranded())
              || (ctlFailed && interestOut == old(interestOut) && reported == old(reported))
    {
      var failed: bool := *;
      if failed {
        ctlFailed := true;
      } else {
        interestOut := wantOut;
        if inbox != [] {
          reported := -1;
        }
      }
    }

    /** An event is reported to the program. */
    ghost method Report(readable: bool, writable: bool)
      requires Valid()
      modifies `reported, `blocked
      ensures Valid()
      ensures if readable then !Edge() else reported == old(reported)
      ensures if writable then !blocked else blocked == old(blocked)
    {
      if readable {
        reported := |arrived|;
      }
      if writable {
        blocked := false;
      }
    }
  }
}
