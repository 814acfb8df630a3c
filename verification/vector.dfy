/**
 The kernel's growable vector. `Contents()` is the sequence it stands for; `Shape` follows the
 sizes through a run so that the cost of reallocation can be stated over the whole history.
 */
module Vectors {
  import opened Words
  import opened SinglyLinkedList

  // ---------- What growth costs over a run ----------

  /** `copied` counts the elements moved by reallocations, `peak` is the largest size reached. */
  datatype Shape = Shape(capacity: nat, size: nat, copied: nat, peak: nat)

  datatype Event = Push | Shrink(to: nat)

  function Grow(s: Shape, e: Event): Shape {
    match e
    case Push =>
      var r := if s.size == s.capacity then s.(capacity := 2 * s.capacity + 1, copied := s.copied + s.size) else s;
      r.(size := s.size + 1, peak := if s.size + 1 > s.peak then s.size + 1 else s.peak)
    case Shrink(to) => if to <= s.size then s.(size := to) else s
  }

  ghost function History(events: seq<Event>): Shape {
    if events == [] then Shape(0, 0, 0, 0) else Grow(History(events[..|events| - 1]), events[|events| - 1])
  }

  /** The capacity is one less than a power of two, and `doublings` says which. */
  ghost predicate Amortised(s: Shape, doublings: nat) {
    && s.capacity + 1 == Pow2(doublings)
    && s.copied + doublings == s.capacity
    && s.size <= s.peak && s.size <= s.capacity
    && (if s.peak == 0 then s.capacity == 0 else s.capacity < 2 * s.peak)
  }

  lemma {:induction false} AmortisedRun(events: seq<Event>) returns (doublings: nat)
    ensures Amortised(History(events), doublings)
  {
    if events == [] {
      doublings := 0;
    } else {
      var front := events[..|events| - 1];
      doublings := AmortisedRun(front);
      var s := History(front);
      if events[|events| - 1].Push? && s.size == s.capacity {
        doublings := doublings + 1;
      }
    }
  }

  ghost function Pushes(events: seq<Event>): nat {
    if events == [] then 0 else Pushes(events[..|events| - 1]) + if events[|events| - 1].Push? then 1 else 0
  }

  lemma {:induction false} PeakWithinPushes(events: seq<Event>)
    ensures History(events).peak <= Pushes(events) && History(events).size <= History(events).peak
  {
    if events != [] { PeakWithinPushes(events[..|events| - 1]); }
  }

  /** Pushing costs amortised constant time: under two copies for each element ever pushed. */
  lemma CopiesBounded(events: seq<Event>)
    ensures var s := History(events);
            s.copied <= s.capacity && (s.peak > 0 ==> s.capacity < 2 * s.peak)
            && (Pushes(events) > 0 ==> s.copied < 2 * Pushes(events))
  {
    var _ := AmortisedRun(events);
    PeakWithinPushes(events);
  }

  // ---------- Erasing by predicate ----------

  /** The elements `f` rejects, in order. */
  function Rejected<T>(s: seq<T>, f: T -> bool): seq<T> {
    if s == [] then [] else (if f(s[0]) then [] else [s[0]]) + Rejected(s[1..], f)
  }

  lemma {:induction false} RejectedDelete<T>(s: seq<T>, f: T -> bool, k: nat)
    requires k < |s| && f(s[k])
    ensures Rejected(DeleteAt(s, k), f) == Rejected(s, f)
  {
    if k == 0 {
      assert DeleteAt(s, k) == s[1..];
    } else {
      RejectedDelete(s[1..], f, k - 1);
      assert DeleteAt(s, k)[1..] == DeleteAt(s[1..], k - 1);
    }
  }

  lemma {:induction false} RejectedNone<T>(s: seq<T>, f: T -> bool)
    requires forall i | 0 <= i < |s| :: !f(s[i])
    ensures Rejected(s, f) == s
  {
    if s != [] { RejectedNone(s[1..], f); }
  }

  // ---------- The vector in place ----------

  class Vector<T(0)> {
    var data: array<T>
    var capacity: nat
    var size: nat
    ghost var copied: nat
    ghost var peak: nat

    ghost predicate Valid()
      reads this
    {
      size <= capacity == data.Length
    }

    ghost function Contents(): seq<T>
      requires Valid()
      reads this, data
    {
      data[..size]
    }

    ghost function Sizes(): Shape
      reads this
    {
      Shape(capacity, size, copied, peak)
    }

    constructor ()
      ensures Valid() && fresh(data) && Contents() == [] && Sizes() == History([])
    {
      data := new T[0];
      capacity, size, copied, peak := 0, 0, 0, 0;
    }

    method Realloc(newSize: nat)
      requires Valid() && size <= newSize
      modifies this
      ensures Valid() && fresh(data) && Contents() == old(Contents())
      ensures Sizes() == old(Sizes()).(capacity := newSize, copied := old(copied) + size)
    {
      var newdata := new T[newSize];
      forall i | 0 <= i < size { newdata[i] := data[i]; }
      capacity := newSize;
      data := newdata;
      copied := copied + size;
    }

    method PushBack(item: T)
      requires Valid()
      modifies this, data
      ensures Valid() && (data == old(data) || fresh(data))
      ensures Contents() == old(Contents()) + [item]
      ensures Sizes() == Grow(old(Sizes()), Push)
    {
      if size == capacity { Realloc(2 * capacity + 1); }
      data[size] := item;
      size := size + 1;
      peak := if size > peak then size else peak;
    }

    method PopBack()
      requires Valid()
      modifies `size
      ensures Valid()
      ensures Contents() == if old(size) > 0 then old(Contents())[..old(size) - 1] else []
      ensures Sizes() == Grow(old(Sizes()), Shrink(if old(size) > 0 then old(size) - 1 else 0))
    {
      if size > 0 { size := size - 1; }
    }

    /** Closes the gap at `pos` by moving the rest down. */
    method Erase(pos: nat)
      requires Valid() && pos < size
      modifies `size, data
      ensures Valid()
      ensures Contents() == DeleteAt(old(Contents()), pos)
      ensures Sizes() == Grow(old(Sizes()), Shrink(old(size) - 1))
    {
      forall i | pos <= i < size - 1 { data[i] := data[i + 1]; }
      size := size - 1;
    }

    /** Erases every element `f` accepts, starting over after each one. */
    method EraseAll(f: T -> bool)
      requires Valid()
      modifies `size, data
      ensures Valid()
      ensures Contents() == Rejected(old(Contents()), f)
      ensures data == old(data) && capacity == old(capacity) && copied == old(copied) && peak == old(peak)
    {
      var b := 0;
      while b != size
        invariant Valid() && 0 <= b <= size && data == old(data)
        invariant Rejected(Contents(), f) == Rejected(old(Contents()), f)
        invariant forall i | 0 <= i < b :: !f(data[i])
        decreases size, size - b
      {
        if f(data[b]) {
          RejectedDelete(Contents(), f, b);
          Erase(b);
          b := 0;
        } else {
          b := b + 1;
        }
      }
      RejectedNone(Contents(), f);
    }
  }

  /** Erases the first element equal to `value`, if any. */
  method EraseValue<T(==,0)>(v: Vector<T>, value: T) returns (found: bool)
    requires v.Valid()
    modifies v`size, v.data
    ensures v.Valid()
    ensures found <==> value in old(v.Contents())
    ensures v.Contents() == RemoveFirst(old(v.Contents()), value)
  {
    var i := 0;
    while i != v.size
      invariant v.Valid() && 0 <= i <= v.size && v.Contents() == old(v.Contents())
      invariant value !in v.Contents()[..i]
      decreases v.size - i
    {
      if v.data[i] == value {
        RemoveFirstAt(v.Contents(), value, i);
        v.Erase(i);
        return true;
      }
      i := i + 1;
    }
    return false;
  }

  method EraseAllValues<T(==,0)>(v: Vector<T>, value: T)
    requires v.Valid()
    modifies v`size, v.data
    ensures v.Valid()
    ensures v.Contents() == Without(old(v.Contents()), value)
  {
    var more := true;
    while more
      invariant v.Valid() && v.data == old(v.data)
      invariant Without(v.Contents(), value) == Without(old(v.Contents()), value)
      invariant !more ==> value !in v.Contents()
      decreases more, |v.Contents()|
    {
      RemoveFirstKeepsOthers(v.Contents(), value);
      more := EraseValue(v, value);
    }
    WithoutAbsent(v.Contents(), value);
  }
}
