/**
 The connection table (src/conn/conn.c): an array of connection pointers in which
 every connection knows its own index; removal moves the last one into the gap.
 */
module Managers {
  import opened Connections

  class Manager {
    var slots: array?<Connection?>
    var count: nat
    var capacity: nat

    ghost predicate Valid()
      reads this, slots, if slots == null then {} else set i | 0 <= i < slots.Length && slots[i] != null :: slots[i]
    {
      && (slots == null ==> count == 0)
      && (slots != null ==>
            && slots.Length == capacity && count <= capacity
            && forall i :: 0 <= i < count ==> slots[i] != null && slots[i].slot == i)
    }

    /** The connections in the table. */
    ghost function Live(): (live: set<Connection>)
      reads this, slots
      requires slots != null ==> count <= slots.Length
    {
      if slots == null then {} else set c: Connection | c in slots[..count]
    }

    /** The table, in order. */
    ghost function Table(): seq<Connection?>
      reads this, slots
      requires slots != null ==> count <= slots.Length
    {
      if slots == null then [] else slots[..count]
    }

    /** A table of the given size; without memory it stays unusable and refuses connections. */
    constructor (capacity: nat, memory: bool)
      ensures Valid() && Live() == {}
      ensures memory ==> slots != null
      ensures slots != null ==> fresh(slots)
    {
      this.count, this.capacity := 0, capacity;
      var ok: bool := *;
      if memory || ok {
        slots := new Connection?[capacity](_ => null);
      } else {
        slots := null;
      }
    }

    /** Make room for one more entry by doubling the table. */
    method Extend(memory: bool) returns (ok: bool)
      requires Valid() && slots != null
      modifies this
      ensures Valid() && slots != null && (slots == old(slots) || fresh(slots))
      ensures count == old(count) && slots[..count] == old(slots[..count])
      ensures ok ==> count < capacity
      ensures memory ==> ok
      ensures capacity == if ok && old(count == capacity) then (if old(capacity) == 0 then 16 else 2 * old(capacity)) else old(capacity)
    {
      if count < capacity {
        return true;
      }
      ok := *;
      ok := memory || ok;
      if ok {
        var newCapacity := if capacity == 0 then 16 else 2 * capacity;
        var larger := new Connection?[newCapacity](_ => null);
        forall i | 0 <= i < count {
          larger[i] := slots[i];
        }
        assert larger[..count] == slots[..count];
        slots, capacity := larger, newCapacity;
      }
    }

    /** Add a new connection; on failure the table still holds the same connections. */
    method Create(memory: bool) returns (c: Connection?)
      requires Valid()
      modifies this, slots
      ensures Valid() && (slots == old(slots) || fresh(slots))
      ensures c == null ==> Live() == old(Live()) && (old(slots) == null || !memory)
      ensures slots == null <==> old(slots) == null
      ensures capacity == old(capacity) || (old(count == capacity) && capacity == if old(capacity) == 0 then 16 else 2 * old(capacity))
      ensures c != null ==> c.turns == []
      ensures c != null ==> Live() == old(Live()) + {c} && c.Valid() && c.Healthy() && fresh(c) && fresh(c.Footprint())
    {
      hide Connection.Valid, Connection.Healthy;
      if slots == null {
        return null;
      }
      var room := Extend(memory);
      if !room {
        return null;
      }
      var ok: bool := *;
      if !memory && !ok {
        return null;
      }
      c := new Connection(count);
      Append(c);
    }

    /** Enter a connection at the next index. */
    method Append(c: Connection)
      requires Valid() && slots != null && count < capacity && c.slot == count
      modifies `count, slots
      ensures Valid() && Live() == old(Live()) + {c}
    {
      ghost var before := slots[..count];
      slots[count] := c;
      count := count + 1;
      assert slots[..count] == before + [c];
    }

    /** The connection at a place of the table, if there is one. */
    method At(place: nat) returns (c: Connection?)
      requires Valid()
      ensures c != null <==> place < count
      ensures c != null ==> c in Live() && c.slot == place && c == Table()[place]
    {
      if place < count {
        c := slots[place];
      } else {
        c := null;
      }
    }

    /** Remove a connection; every other one stays, at an index it knows. */
    method Destroy(c: Connection)
      requires Valid() && c in Live()
      modifies this, slots, Live()`slot
      ensures Valid() && slots == old(slots)
      ensures Live() == old(Live()) - {c}
    {
      var slot, last := c.slot, count - 1;
      ghost var before := slots[..count];
      assert c == before[slot];
      if slot != last {
        slots[slot] := slots[last];
        slots[slot].slot := slot;
      }
      count := count - 1;
      assert slots[..count] == before[slot := before[last]][..last];
      SwapRemoved(before, slot);
    }
  }

  /** Overwriting one of several distinct elements with the last, and dropping the last, removes it. */
  lemma SwapRemoved(s: seq<Connection?>, k: nat)
    requires k < |s| && forall i, j :: 0 <= i < j < |s| ==> s[i] != s[j]
    ensures var t := s[k := s[|s| - 1]][..|s| - 1];
      (forall x :: x in t ==> x in s && x != s[k]) && (forall x :: x in s && x != s[k] ==> x in t)
  {
    var t := s[k := s[|s| - 1]][..|s| - 1];
    forall x | x in s && x != s[k] ensures x in t {
      var i :| 0 <= i < |s| && s[i] == x;
      assert t[if i == |s| - 1 then k else i] == x;
    }
  }
}
