/**
 The growable byte ring of a connection (src/conn/ring_buffer.c), as a queue.

 Reading the cells of the array in ring order from the read position gives the
 queued bytes first and the free cells after them.
 */
module Rings {
  import opened Packets
  import opened Sockets

  const INITIAL_SIZE: nat := 4096
  const MAX_SIZE: nat := 65536

  /** What a call that can fail reports.  Calls that allocate take a flag `memory`: when it is
      set every allocation succeeds, otherwise each may fail. */
  datatype Status = Ok | Refused | NoMemory

  datatype RingState = Unalloc | Active | Full

  // ----- Rotation

  /** The elements of `s` from index `r` on, wrapping at the end. */
  function Rotate<T>(s: seq<T>, r: nat): (t: seq<T>)
    requires r <= |s|
    ensures |t| == |s|
  {
    s[r..] + s[..r]
  }

  /** A position less than twice around the ring. */
  function Wrap(i: nat, size: nat): (p: nat)
    requires i < 2 * size
    ensures p < size
  {
    if i < size then i else i - size
  }

  lemma WrapIsMod(i: nat, size: nat)
    requires i < 2 * size
    ensures i % size == Wrap(i, size)
  {
  }

  lemma RotateFurther<T>(s: seq<T>, r: nat, n: nat)
    requires r < |s| && n <= |s|
    ensures Rotate(s, Wrap(r + n, |s|)) == Rotate(s, r)[n..] + Rotate(s, r)[..n]
  {
  }

  lemma RotateNone<T>(s: seq<T>)
    ensures Rotate(s, 0) == s
  {
  }

  lemma RotateHead<T>(s: seq<T>, r: nat)
    requires r < |s|
    ensures Rotate(s, r)[0] == s[r]
  {
  }

  lemma DropFront<T>(s: seq<T>, n: nat, m: nat)
    requires n + m <= |s|
    ensures (s[n..] + s[..n])[..m] == s[..n + m][n..]
  {
  }

  lemma SplitAt<T>(s: seq<T>, i: nat, j: nat)
    requires i <= j <= |s|
    ensures s[..j] == s[..i] + s[i..j]
  {
  }

  lemma SpareCells<T>(s: seq<T>, r: nat, c: nat, n1: nat, n2: nat)
    requires r < |s| && c < |s| && n1 + n2 == |s| - c
    requires var w := Wrap(r + c, |s|); w + n1 <= |s| && (n2 > 0 ==> w + n1 == |s|)
    ensures var w := Wrap(r + c, |s|); s[w..w + n1] + s[..n2] == Rotate(s, r)[c..]
  {
  }

  /** Overwriting `k` cells from the wrapped end of the first `c` changes nothing else in ring order. */
  lemma RegionWritten<T>(s: seq<T>, t: seq<T>, r: nat, c: nat, k: nat)
    requires |s| == |t| && r < |s| && c + k <= |s| && c < |s|
    requires Wrap(r + c, |s|) + k <= |s|
    requires forall i :: 0 <= i < |s| && !(Wrap(r + c, |s|) <= i < Wrap(r + c, |s|) + k) ==> t[i] == s[i]
    ensures Rotate(t, r)[..c] == Rotate(s, r)[..c]
    ensures Rotate(t, r)[c..c + k] == t[Wrap(r + c, |s|)..Wrap(r + c, |s|) + k]
  {
  }

  // ----- The ring

  /** A store into a 16-bit position field. */
  function U16(x: nat): (p: nat) {
    x % 65536
  }

  /** Move a position `n` cells on, as the code does it: modulo the size, into 16 bits. */
  function Advance(pos: nat, n: nat, size: nat): (p: nat)
    requires pos < size <= MAX_SIZE && n <= size
    ensures p == Wrap(pos + n, size)
  {
    WrapIsMod(pos + n, size);
    U16((pos + n) % size)
  }

  function Min(a: nat, b: nat): nat {
    if a < b then a else b
  }

  /** The sizes a ring goes through as it doubles. */
  predicate OnChain(size: nat) {
    size == 4096 || size == 8192 || size == 16384 || size == 32768 || size == 65536
  }

  class RingBuffer {
    var data: array?<byte>
    var capacity: nat
    var count: nat
    var readPos: nat
    var writePos: nat
    var state: RingState

    ghost predicate Valid()
      reads this, data
    {
      if capacity == 0 then
        data == null && count == 0 && readPos == 0 && writePos == 0 && state.Unalloc?
      else
        && data != null && data.Length == capacity && OnChain(capacity)
        && count <= capacity && readPos < capacity
        && writePos == Wrap(readPos + count, capacity)
        && !state.Unalloc?
    }

    /** All cells, in ring order. */
    ghost function Cells(): (s: seq<byte>)
      requires Valid()
      reads this, data
      ensures |s| == capacity
    {
      if capacity == 0 then [] else Rotate(data[..], readPos)
    }

    /** The queued bytes, oldest first. */
    ghost function Contents(): (s: seq<byte>)
      requires Valid()
      reads this, data
      ensures |s| == count
    {
      Cells()[..count]
    }

    constructor ()
      ensures Valid() && Contents() == [] && data == null && capacity == 0
    {
      data, capacity, count, readPos, writePos, state := null, 0, 0, 0, 0, Unalloc;
    }

    /** Allocate the initial storage; refused when there is storage already. */
    method Init(memory: bool) returns (r: Status)
      requires Valid()
      modifies this
      ensures Valid() && Contents() == old(Contents())
      ensures r.Refused? <==> old(capacity) > 0
      ensures r.NoMemory? ==> !memory
      ensures state == if r.Ok? then Active else old(state)
      ensures r.Ok? ==> capacity == 4096 && fresh(data)
      ensures !r.Ok? ==> capacity == old(capacity) && data == old(data)
    {
      if data != null {
        return Refused;
      }
      capacity := INITIAL_SIZE;
      var ok: bool := *;
      if !memory && !ok {
        capacity := 0;
        return NoMemory;
      }
      data := new byte[capacity];
      count, readPos, writePos, state := 0, 0, 0, Active;
      r := Ok;
    }

    /** Append one byte; refused exactly when the ring is full. */
    method Push(b: byte, memory: bool) returns (r: Status)
      requires Valid()
      modifies this, data
      ensures Valid() && (data == old(data) || fresh(data))
      ensures r.Refused? <==> old(capacity) > 0 && old(count) == old(capacity)
      ensures r.NoMemory? ==> old(capacity) == 0 && !memory
      ensures r.Refused? ==> state.Full?
      ensures r.Ok? ==> state == if old(capacity) == 0 then Active else old(state)
      ensures Contents() == old(Contents()) + if r.Ok? then [b] else []
    {
      hide Rotate, Advance;
      if capacity == 0 {
        r := Init(memory);
        if !r.Ok? {
          state := Unalloc;
          return;
        }
      }
      if count == capacity {
        state := Full;
        return Refused;
      }
      ghost var cells := data[..];
      count := count + 1;
      data[writePos] := b;
      RegionWritten(cells, data[..], readPos, count - 1, 1);
      writePos := Advance(writePos, 1, capacity);
      r := Ok;
    }

    /** Take the oldest byte; refused exactly when there is none. */
    method Pop() returns (r: Status, b: byte)
      requires Valid()
      modifies this
      ensures Valid() && data == old(data) && capacity == old(capacity)
      ensures state == old(state)
      ensures r == if old(count) == 0 then Refused else Ok
      ensures old(Contents()) == (if r.Ok? then [b] else []) + Contents()
    {
      hide Rotate, Advance;
      b := 0;
      if count == 0 {
        return Refused, b;
      }
      ghost var cells := Cells();
      RotateFurther(data[..], readPos, 1);
      RotateHead(data[..], readPos);
      count := count - 1;
      b := data[readPos];
      readPos := Advance(readPos, 1, capacity);
      DropFront(cells, 1, count);
      r := Ok;
    }

    /** Copy the queue to the front of a larger array. */
    method Linearize(out: array<byte>)
      requires Valid() && capacity > 0 && count <= out.Length && out != data
      modifies out
      ensures out[..count] == Contents()
    {
      if count > 0 {
        if readPos < writePos {
          forall i | 0 <= i < count {
            out[i] := data[readPos + i];
          }
        } else {
          var firstChunk := capacity - readPos;
          forall i | 0 <= i < firstChunk {
            out[i] := data[readPos + i];
          }
          forall i | 0 <= i < count - firstChunk {
            out[firstChunk + i] := data[i];
          }
        }
      }
    }

    /** Move to storage of twice the size, keeping the queue; refused exactly at the maximum. */
    method Grow(memory: bool) returns (r: Status)
      requires Valid()
      modifies this
      ensures Valid() && Contents() == old(Contents())
      ensures r.Refused? <==> old(capacity) == 65536
      ensures r.NoMemory? ==> !memory
      ensures state == if r.Ok? then Active else old(state)
      ensures r.Ok? ==> capacity == (if old(capacity) == 0 then 4096 else 2 * old(capacity)) && fresh(data)
      ensures !r.Ok? ==> capacity == old(capacity) && data == old(data)
    {
      hide Rotate;
      if capacity == 0 {
        r := Init(memory);
        return;
      }
      if capacity >= MAX_SIZE {
        return Refused;
      }
      var newCapacity := capacity * 2;
      if newCapacity > MAX_SIZE {
        newCapacity := MAX_SIZE;
      }
      var ok: bool := *;
      if !memory && !ok {
        return NoMemory;
      }
      var fresher := new byte[newCapacity];
      Linearize(fresher);
      ghost var queue := Contents();
      RotateNone(fresher[..]);
      data, capacity, readPos := fresher, newCapacity, 0;
      writePos := U16(count);
      state := Active;
      assert Contents() == queue;
      r := Ok;
    }

    /** How many queued bytes lie together from the read position. */
    method ContiguousRead() returns (len: nat)
      requires Valid()
      ensures len == if count == 0 then 0 else Min(count, capacity - readPos)
      ensures count > 0 ==> 0 < len && data[readPos..readPos + len] == Contents()[..len]
    {
      if count == 0 {
        return 0;
      }
      if readPos < writePos {
        return count;
      }
      return capacity - readPos;
    }

    /** Drop the `n` oldest bytes; refused exactly when there are fewer. */
    method Consume(n: nat) returns (r: Status)
      requires Valid() && capacity > 0
      modifies this
      ensures Valid() && data == old(data) && capacity == old(capacity)
      ensures r.Ok? && count == 0 ==> readPos == 0 && writePos == 0
      ensures state == if r.Ok? && old(state).Full? then Active else old(state)
      ensures r == if n > old(count) then Refused else Ok
      ensures Contents() == if r.Ok? then old(Contents())[n..] else old(Contents())
    {
      hide Rotate, Advance;
      if n > count {
        return Refused;
      }
      ghost var cells := Cells();
      RotateFurther(data[..], readPos, n);
      readPos := Advance(readPos, n, capacity);
      count := count - n;
      if count == 0 {
        readPos, writePos := 0, 0;
      }
      if state.Full? {
        state := Active;
      }
      DropFront(cells, n, count);
      r := Ok;
    }

    /** Copy the `len` oldest bytes out in at most two pieces; refused exactly when there are fewer. */
    method PeekN(out: array<byte>, len: nat) returns (r: Status)
      requires Valid() && len <= out.Length && out != data
      modifies out
      ensures r == if len > count then Refused else Ok
      ensures r.Ok? ==> out[..len] == Contents()[..len]
      ensures forall i :: 0 <= i < out.Length && !(r.Ok? && i < len) ==> out[i] == old(out[i])
    {
      if len > count {
        return Refused;
      }
      if len == 0 {
        return Ok;
      }
      var firstChunk := capacity - readPos;
      if firstChunk >= len {
        forall i | 0 <= i < len {
          out[i] := data[readPos + i];
        }
      } else {
        forall i | 0 <= i < firstChunk {
          out[i] := data[readPos + i];
        }
        forall i | 0 <= i < len - firstChunk {
          out[firstChunk + i] := data[i];
        }
      }
      r := Ok;
    }

    /** How many free cells lie together from the write position. */
    method ContiguousWrite() returns (len: nat)
      requires Valid()
      ensures len == if capacity == 0 then 0 else Min(capacity - count, capacity - writePos)
    {
      if capacity == 0 {
        return 0;
      }
      var freeSpace := capacity - count;
      if freeSpace == 0 {
        return 0;
      }
      if writePos >= readPos {
        return Min(capacity - writePos, freeSpace);
      }
      return Min(readPos - writePos, freeSpace);
    }

    /** Queue the next `n` cells as they stand; refused exactly when they are not all free. */
    method Commit(n: nat) returns (r: Status)
      requires Valid()
      modifies this
      ensures Valid() && data == old(data) && capacity == old(capacity) && readPos == old(readPos)
      ensures r == if n > capacity - old(count) then Refused else Ok
      ensures Cells() == old(Cells())
      ensures state == if r.Ok? && n > 0 && count == capacity then Full else old(state)
      ensures count == old(count) + if r.Ok? then n else 0
    {
      if n == 0 {
        return Ok;
      }
      if capacity == 0 || n > capacity - count {
        return Refused;
      }
      writePos := Advance(writePos, n, capacity);
      count := count + n;
      if count == capacity {
        state := Full;
      }
      r := Ok;
    }

    /** Copy bytes to the write position and queue them. */
    method WriteCommit(bytes: seq<byte>)
      requires Valid() && 0 < |bytes| <= Min(capacity - count, capacity - writePos)
      modifies this, data
      ensures Valid() && data == old(data) && capacity == old(capacity) && readPos == old(readPos)
      ensures Contents() == old(Contents()) + bytes
    {
      hide Rotate;
      ghost var cells := data[..];
      WriteAt(writePos, bytes);
      RegionWritten(cells, data[..], readPos, count, |bytes|);
      ghost var at := count;
      var committed := Commit(|bytes|);
      assert committed.Ok?;
      SplitAt(Cells(), at, count);
    }

    /** Grow until `needed` cells are free.  Memory permitting this succeeds exactly when the
        queue would then fit the maximum, and the size is the first on the chain that fits.
        The queue is kept in every case; a failed call may still have grown the storage. */
    method Reserve(needed: nat, memory: bool) returns (r: Status)
      requires Valid()
      modifies this
      ensures Valid() && Contents() == old(Contents()) && capacity >= old(capacity)
      ensures data == old(data) || fresh(data)
      ensures r.Ok? ==> needed <= capacity - count && capacity > 0
      ensures r.Ok? ==> capacity == old(capacity) || capacity == 4096 || count + needed > capacity / 2
      ensures r.Refused? ==> count + needed > 65536 == capacity
      ensures r.NoMemory? ==> !memory
    {
      if capacity == 0 {
        r := Init(memory);
        if !r.Ok? {
          return;
        }
      }
      while capacity - count < needed
        invariant Valid() && Contents() == old(Contents()) && capacity >= old(capacity) && capacity > 0
        invariant data == old(data) || fresh(data)
        invariant capacity == old(capacity) || capacity == INITIAL_SIZE || count + needed > capacity / 2
        decreases MAX_SIZE - capacity
      {
        r := Grow(memory);
        if !r.Ok? {
          return;
        }
      }
      r := Ok;
    }

    /** The cells offered to the kernel: the free cells in ring order, all of them and no
        others, in one or two stretches, the first never empty. */
    method ReceiveRegions() returns (len1: nat, len2: nat)
      requires Valid() && count < capacity
      ensures 0 < len1 && writePos + len1 <= capacity
      ensures len1 + len2 == capacity - count
      ensures len2 > 0 ==> writePos + len1 == capacity && len2 <= readPos <= writePos
      ensures data[writePos..writePos + len1] + data[..len2] == Cells()[count..]
    {
      hide Rotate;
      var freeSpace := capacity - count;
      if writePos >= readPos {
        len1 := Min(capacity - writePos, freeSpace);
        len2 := Min(freeSpace - len1, readPos);
      } else {
        len1, len2 := Min(readPos - writePos, freeSpace), 0;
      }
      SpareCells(data[..], readPos, count, len1, len2);
    }

    /** Receive into the free cells; whatever arrives is appended to the queue.  Without a
        free cell the socket is not touched. */
    method ReceiveFrom(sock: Socket) returns (r: RecvResult, noSpace: bool)
      requires Valid() && sock.Valid()
      modifies this, data, sock
      ensures Valid() && sock.Valid() && data == old(data) && capacity == old(capacity)
      ensures noSpace == (old(count) == old(capacity))
      ensures Contents() == old(Contents()) + if !noSpace && r.Data? then r.bytes else []
      ensures sock.received == old(sock.received) + if !noSpace && r.Data? then r.bytes else []
      ensures noSpace ==> unchanged(sock) && r.RecvBlocked?
      ensures r.Data? ==> r.bytes != []
      ensures sock.OnlyReceived()
      ensures sock.eof == (old(sock.eof) || r.Eof?) && sock.failed == (old(sock.failed) || r.RecvFailed?)
      ensures !noSpace && r.RecvBlocked? ==> sock.inbox == []
    {
      if count == capacity {
        return RecvBlocked, true;
      }
      noSpace := false;
      var len1, len2 := ReceiveRegions();
      r := sock.Recv(len1 + len2);
      if r.Data? {
        Scatter(r.bytes, len1);
      }
    }

    /** The kernel fills the first stretch, then the second; the counters follow. */
    method Scatter(bytes: seq<byte>, len1: nat)
      requires Valid() && 0 < |bytes| <= capacity - count
      requires 0 < len1 && len1 == Min(capacity - count, capacity - writePos)
      modifies this, data
      ensures Valid() && data == old(data) && capacity == old(capacity)
      ensures Contents() == old(Contents()) + bytes
    {
      hide Rotate, Advance;
      var n1 := Min(|bytes|, len1);
      ghost var cells0 := data[..];
      WriteAt(writePos, bytes[..n1]);
      ghost var cells1 := data[..];
      WriteAt(0, bytes[n1..]);
      TwoRegions(cells0, cells1, data[..], readPos, count, bytes, n1);
      writePos := Advance(writePos, |bytes|, capacity);
      count := count + |bytes|;
    }

    method WriteAt(off: nat, bytes: seq<byte>)
      requires data != null && off + |bytes| <= data.Length
      modifies data
      ensures data[off..off + |bytes|] == bytes
      ensures forall i :: 0 <= i < data.Length && !(off <= i < off + |bytes|) ==> data[i] == old(data[i])
    {
      forall i | 0 <= i < |bytes| {
        data[off + i] := bytes[i];
      }
    }
  }

  /** Filling the stretch at the write position and then the front of the array extends the
      first `c` cells in ring order by exactly those bytes. */
  lemma TwoRegions(s0: seq<byte>, s1: seq<byte>, s2: seq<byte>, r: nat, c: nat, bytes: seq<byte>, n1: nat)
    requires |s0| == |s1| == |s2| && r < |s0| && c + |bytes| <= |s0| && c < |s0|
    requires n1 <= |bytes|
    requires var w := Wrap(r + c, |s0|);
      && w + n1 <= |s0| && (n1 < |bytes| ==> w + n1 == |s0|)
      && s1[w..w + n1] == bytes[..n1]
      && (forall i :: 0 <= i < |s0| && !(w <= i < w + n1) ==> s1[i] == s0[i])
    requires s2[..|bytes| - n1] == bytes[n1..]
    requires forall i :: |bytes| - n1 <= i < |s0| ==> s2[i] == s1[i]
    ensures Rotate(s2, r)[..c + |bytes|] == Rotate(s0, r)[..c] + bytes
  {
    var n2 := |bytes| - n1;
    RegionWritten(s0, s1, r, c, n1);
    if n2 > 0 {
      RegionWritten(s1, s2, r, c + n1, n2);
    } else {
      assert s2 == s1;
    }
    hide *;
    var t1, t2 := Rotate(s1, r), Rotate(s2, r);
    assert t2[..c + |bytes|] == t2[..c + n1] + t2[c + n1..c + |bytes|];
    assert t1[..c + n1] == t1[..c] + t1[c..c + n1];
    assert bytes == bytes[..n1] + bytes[n1..];
  }
}
