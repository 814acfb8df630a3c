/**
 The circular store behind pipes and message queues: a read position, a write position and
 a count of free slots, which together hold a queue.
 */
module Fifos {

  import opened Cyclic

  class Fifo<T> {
    const buffer: array<T>
    var readAt: nat
    var writeAt: nat
    var free: nat
    ghost var Contents: seq<T>

    ghost predicate Valid()
      reads this, buffer
    {
      && readAt < buffer.Length && writeAt < buffer.Length && free + |Contents| == buffer.Length
      && writeAt == Slot(readAt, |Contents|, buffer.Length)
      && forall k: nat | k < |Contents| :: Held(k)
    }

    ghost predicate Held(k: nat)
      requires k < |Contents| <= buffer.Length && readAt < buffer.Length
      reads this, buffer
    {
      Contents[k] == buffer[Slot(readAt, k, buffer.Length)]
    }

    constructor (capacity: nat, zero: T)
      requires capacity > 0
      ensures Valid() && Contents == [] && buffer.Length == capacity && fresh(buffer)
    {
      buffer := new T[capacity](_ => zero);
      readAt, writeAt, free := 0, 0, capacity;
      Contents := [];
    }

    method TryPut(c: T) returns (ok: bool)
      requires Valid()
      modifies this, buffer
      ensures Valid() && ok == (|old(Contents)| < buffer.Length)
      ensures Contents == if ok then old(Contents) + [c] else old(Contents)
    {
      if free == 0 { return false; }
      buffer[writeAt] := c;
      writeAt := writeAt + 1;
      if writeAt == buffer.Length { writeAt := 0; }
      free := free - 1;
      Contents := Contents + [c];
      forall k: nat | k < |Contents| ensures Held(k) { assert k < |old(Contents)| ==> old(Held(k)); }
      return true;
    }

    method TryGet() returns (c: seq<T>)
      requires Valid()
      modifies this
      ensures Valid() && |c| <= 1 && old(Contents) == c + Contents
      ensures c == [] <==> old(Contents) == []
    {
      if free == buffer.Length { return []; }
      assert Held(0);
      c := [buffer[readAt]];
      readAt := readAt + 1;
      if readAt == buffer.Length { readAt := 0; }
      free := free + 1;
      Contents := Contents[1..];
      forall k: nat | k < |Contents| ensures Held(k) { assert old(Held(k + 1)); }
    }
  }
}
