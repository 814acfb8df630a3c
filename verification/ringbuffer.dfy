/**
 The ring buffer of the kernel log. Its meaning is the sequence a reader gets back, which is
 always the end of everything ever written.
 */
module RingBuffers {
  import opened Words
  import Cyclic

  /** The last `n` items of a history. */
  function Last<T>(s: seq<T>, n: nat): seq<T> {
    if |s| <= n then s else s[|s| - n..]
  }

  /** Forgetting early and forgetting late come to the same. */
  lemma LastAppend<T>(s: seq<T>, t: seq<T>, n: nat)
    ensures Last(Last(s, n) + t, n) == Last(s + t, n)
  {
  }

  lemma LastOfLast<T>(s: seq<T>, m: nat, n: nat)
    ensures Last(Last(s, m), n) == Last(s, if m < n then m else n)
  {
  }

  ghost function Concat<T>(writes: seq<seq<T>>): seq<T> {
    if writes == [] then [] else Concat(writes[..|writes| - 1]) + writes[|writes| - 1]
  }

  /** What a buffer of capacity `n` holds after a run of writes. */
  ghost function AfterWrites<T>(n: nat, writes: seq<seq<T>>): seq<T> {
    if writes == [] then [] else Last(AfterWrites(n, writes[..|writes| - 1]) + writes[|writes| - 1], n)
  }

  /** After any run of writes the buffer holds the last `n` items of everything written. */
  lemma {:induction false} HoldsTheEnd<T>(n: nat, writes: seq<seq<T>>)
    ensures AfterWrites(n, writes) == Last(Concat(writes), n)
  {
    if writes != [] {
      var front := writes[..|writes| - 1];
      HoldsTheEnd(n, front);
      LastAppend(Concat(front), writes[|writes| - 1], n);
    }
  }

  /** The slots of a full buffer, oldest first. */
  ghost function Rotation<T>(b: seq<T>, f: nat): seq<T>
    requires f <= |b|
  {
    b[f..] + b[..f]
  }

  /** Overwriting the oldest slot drops its item and puts the new one at the end. */
  lemma Overwrite<T>(b: seq<T>, p: nat, c: T)
    requires p < |b|
    ensures Rotation(b[p := c], if p + 1 == |b| then 0 else p + 1) == Last(Rotation(b, p) + [c], |b|)
  {
    var s := Rotation(b, p) + [c];
    assert Last(s, |b|) == b[p + 1..] + b[..p] + [c];
  }

  lemma WriteStep<T>(h: seq<T>, s: seq<T>, i: nat, n: nat)
    requires i < |s|
    ensures Last(Last(h + s[..i], n) + [s[i]], n) == Last(h + s[..i + 1], n)
  {
    LastAppend(h + s[..i], [s[i]], n);
    assert h + s[..i] + [s[i]] == h + s[..i + 1];
  }

  /** The `%` of the source on an index that is at most one turn ahead. */
  method Remainder(x: nat, n: nat) returns (r: nat)
    requires x < 2 * n
    ensures r == if x < n then x else x - n
  {
    r := x % n;
    Cyclic.Quotient(x, n, if x < n then 0 else 1, if x < n then x else x - n);
  }

  /** The items in front of the first zero. */
  method Strlen<T(==)>(memory: seq<T>, zero: T) returns (n: nat)
    requires zero in memory
    ensures n < |memory| && memory[n] == zero && memory[..n] == CString(memory, zero)
  {
    ghost var z :| 0 <= z < |memory| && memory[z] == zero;
    n := 0;
    while memory[n] != zero
      invariant n <= z && zero !in memory[..n]
      decreases z - n
    {
      assert memory[..n + 1] == memory[..n] + [memory[n]];
      n := n + 1;
    }
    assert memory == memory[..n] + memory[n..];
    CStringOf(memory[..n], memory[n..], zero);
  }

  class RingBuffer<T(0,==)> {
    const buffer: array<T>
    var position: nat
    var currentSize: nat
    var firstIndex: nat
    var wrapped: bool

    ghost predicate Valid()
      reads this
    {
      && 0 < buffer.Length && position <= buffer.Length
      && if wrapped then
           currentSize == buffer.Length && 0 < position && firstIndex == (if position == buffer.Length then 0 else position)
         else
           currentSize == position && firstIndex == 0
    }

    /** What a reader gets, oldest first. */
    ghost function Contents(): seq<T>
      requires Valid()
      reads this, buffer
    {
      if wrapped then Rotation(buffer[..], firstIndex) else buffer[..position]
    }

    constructor (sz: nat)
      requires 0 < sz
      ensures Valid() && fresh(buffer) && buffer.Length == sz && Contents() == []
    {
      buffer := new T[sz];
      position, currentSize, firstIndex, wrapped := 0, 0, 0, false;
    }

    /** A buffer of another capacity that takes over what an old one holds. */
    constructor Resized(sz: nat, src: RingBuffer<T>)
      requires 0 < sz && src.Valid() && src.currentSize > 0
      ensures Valid() && fresh(buffer) && buffer.Length == sz
      ensures Contents() == Last(src.Contents(), sz)
    {
      buffer := new T[sz];
      position, currentSize, firstIndex, wrapped := 0, 0, 0, false;
      new;
      var item := src.Read(src.currentSize);
      assert item == src.Contents();
      WriteItems(item);
      assert [] + item == item;
    }

    method Putchar(c: T)
      requires Valid()
      modifies this, buffer
      ensures Valid() && Contents() == Last(old(Contents()) + [c], buffer.Length)
    {
      ghost var s := Contents();
      if position == buffer.Length {
        position := 0;
        wrapped := true;
      }
      if wrapped { firstIndex := Remainder(firstIndex + 1, buffer.Length); }
      ghost var p, before := position, buffer[..];
      buffer[position] := c;
      position := position + 1;
      if currentSize < buffer.Length { currentSize := currentSize + 1; }
      if wrapped {
        assert s == Rotation(before, p);
        Overwrite(before, p, c);
        assert buffer[..] == before[p := c];
      } else {
        assert Contents() == s + [c];
      }
    }

    method Getchar(idx: nat) returns (c: Option<T>)
      requires Valid()
      ensures c == if idx < |Contents()| then Some(Contents()[idx]) else None
    {
      if idx >= currentSize { return None; }
      var i := Remainder(idx + firstIndex, buffer.Length);
      return Some(buffer[i]);
    }

    /** Writes `n` items from memory; 0 stands for the length of the C string that is there. */
    method Write(memory: seq<T>, n: nat, zero: T)
      requires Valid() && n <= |memory| && (n == 0 ==> zero in memory)
      modifies this, buffer
      ensures Valid()
      ensures Contents() == Last(old(Contents()) + (if n == 0 then CString(memory, zero) else memory[..n]), buffer.Length)
    {
      var m := n;
      if m == 0 { m := Strlen(memory, zero); }
      WriteItems(memory[..m]);
    }

    method WriteItems(s: seq<T>)
      requires Valid()
      modifies this, buffer
      ensures Valid() && Contents() == Last(old(Contents()) + s, buffer.Length)
    {
      for i := 0 to |s|
        invariant Valid() && Contents() == Last(old(Contents()) + s[..i], buffer.Length)
      {
        WriteStep(old(Contents()), s, i, buffer.Length);
        Putchar(s[i]);
      }
      assert s[..|s|] == s;
    }

    /** Reads up to `n` items from the oldest on. */
    method Read(n: nat) returns (s: seq<T>)
      requires Valid()
      ensures s == if n < |Contents()| then Contents()[..n] else Contents()
    {
      var m := if n >= currentSize then currentSize else n;
      s := [];
      ghost var all := Contents();
      for i := 0 to m
        invariant s == all[..i]
      {
        var c := Getchar(i);
        s := s + [c.value];
      }
    }
  }
}
