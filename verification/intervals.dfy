/**
 The address-range allocator: a sorted list of closed 32-bit ranges with sorted insertion,
 early-exit lookup and first-fit search. The first half describes the list as a value and
 proves what it promises; `IntervalList` is the in-place implementation of that value.
 */
module Intervals {
  import opened Words
  import opened SinglyLinkedList

  datatype Interval = Interval(from: u32, to: u32) {
    function Size(): u32 { Wrap(to - from + 1) }

    predicate ThisBefore(other: Interval) { other.from >= to }

    predicate Contains(addr: u32) { addr >= from && addr <= to }

    predicate ContainsAny(other: Interval) { Contains(other.from) || Contains(other.to) }

    predicate Intersects(other: Interval) { ContainsAny(other) || other.ContainsAny(this) }
  }

  ghost predicate Proper(i: Interval, max: u32) { i.from <= i.to <= max }

  /** For proper ranges: no address in common. */
  ghost predicate Disjoint(a: Interval, b: Interval) { a.to < b.from || b.to < a.from }

  ghost predicate DisjointFromAll(s: seq<Interval>, i: Interval) {
    forall k | 0 <= k < |s| :: Disjoint(s[k], i)
  }

  /** The invariant of the allocator: sorted, pairwise disjoint, inside [0, max]. */
  ghost predicate WellFormed(s: seq<Interval>, max: u32) {
    && (forall k | 0 <= k < |s| :: Proper(s[k], max))
    && (forall i, j | 0 <= i < j < |s| :: s[i].to < s[j].from)
  }

  lemma IntersectsIsOverlap(a: Interval, b: Interval)
    requires a.from <= a.to && b.from <= b.to
    ensures a.Intersects(b) <==> exists x: u32 :: a.Contains(x) && b.Contains(x)
    ensures a.Intersects(b) <==> !Disjoint(a, b)
  {
    if a.Intersects(b) {
      assert a.Contains(if a.from < b.from then b.from else a.from);
      assert b.Contains(if a.from < b.from then b.from else a.from);
    }
  }

  // ---------- Sorted insertion ----------

  /** Puts `i` in front of the first range that is not before it. */
  ghost function Inserted(s: seq<Interval>, i: Interval): (r: seq<Interval>) {
    if s == [] then [i] else if s[0].ThisBefore(i) then [s[0]] + Inserted(s[1..], i) else [i] + s
  }

  /** Insertion adds the one range and loses none, overlapping or not. */
  lemma {:induction false} InsertedMembers(s: seq<Interval>, i: Interval)
    ensures multiset(Inserted(s, i)) == multiset(s) + multiset{i}
  {
    if s != [] {
      assert s == [s[0]] + s[1..];
      if s[0].ThisBefore(i) { InsertedMembers(s[1..], i); }
    }
  }

  lemma {:induction false} InsertedAt(s: seq<Interval>, i: Interval, k: nat)
    requires k <= |s|
    requires forall j | 0 <= j < k :: s[j].ThisBefore(i)
    requires k < |s| ==> !s[k].ThisBefore(i)
    ensures Inserted(s, i) == InsertAt(s, k, i)
  {
    if k > 0 { InsertedAt(s[1..], i, k - 1); }
  }

  lemma ShortInserted(s: seq<Interval>, i: Interval)
    requires |s| <= 1
    ensures Inserted(s, i) == if s == [] || s[0].ThisBefore(i) then s + [i] else [i] + s
  {
    if s != [] { assert s[1..] == [] && s == [s[0]]; }
  }

  function InsertionPoint(s: seq<Interval>, i: Interval): (k: nat)
    ensures k <= |s|
    ensures forall j | 0 <= j < k :: s[j].ThisBefore(i)
    ensures k < |s| ==> !s[k].ThisBefore(i)
  {
    if s == [] then 0 else if s[0].ThisBefore(i) then 1 + InsertionPoint(s[1..], i) else 0
  }

  /** `r` is `s` with `i` at position `k`. */
  ghost predicate Widened(s: seq<Interval>, i: Interval, k: nat, r: seq<Interval>) {
    && k <= |s| && |r| == |s| + 1 && r[k] == i
    && (forall a | 0 <= a < k :: r[a] == s[a])
    && (forall a | k < a < |r| :: r[a] == s[a - 1])
  }

  /** Position `k` separates the ranges below `i` from those above it. */
  ghost predicate Between(s: seq<Interval>, i: Interval, k: nat) {
    k <= |s| && (forall j | 0 <= j < k :: s[j].to < i.from) && (forall j | k <= j < |s| :: i.to < s[j].from)
  }

  lemma SplitsAround(s: seq<Interval>, max: u32, i: Interval, k: nat)
    requires WellFormed(s, max) && Proper(i, max) && DisjointFromAll(s, i) && k <= |s|
    requires forall j | 0 <= j < k :: s[j].ThisBefore(i)
    requires k < |s| ==> !s[k].ThisBefore(i)
    ensures Between(s, i, k)
  {
    forall j | 0 <= j < |s| ensures if j < k then s[j].to < i.from else i.to < s[j].from {
      assert Disjoint(s[j], i) && Proper(s[j], max);
      assert j > k ==> s[k].to < s[j].from;
    }
  }

  lemma WidenedWellFormed(s: seq<Interval>, max: u32, i: Interval, k: nat, r: seq<Interval>)
    requires WellFormed(s, max) && Proper(i, max) && Between(s, i, k) && Widened(s, i, k, r)
    ensures WellFormed(r, max)
  {
    forall a | 0 <= a < |r| ensures Proper(r[a], max) {
      assert r[a] == if a < k then s[a] else if a == k then i else s[a - 1];
    }
    forall a, b | 0 <= a < b < |r| ensures r[a].to < r[b].from {
      assert r[a] == if a < k then s[a] else if a == k then i else s[a - 1];
      assert r[b] == if b < k then s[b] else if b == k then i else s[b - 1];
    }
  }

  lemma WidenedDisjoint(s: seq<Interval>, max: u32, i: Interval, k: nat, r: seq<Interval>)
    requires Widened(s, i, k, r) && WellFormed(r, max)
    ensures Proper(i, max) && DisjointFromAll(s, i)
  {
    forall j | 0 <= j < |s| ensures Disjoint(s[j], i) {
      assert s[j] == r[if j < k then j else j + 1];
    }
  }

  /** Insertion keeps the invariant exactly for the ranges that fit and overlap nothing. */
  lemma InsertedWellFormed(s: seq<Interval>, max: u32, i: Interval)
    requires WellFormed(s, max)
    ensures WellFormed(Inserted(s, i), max) <==> Proper(i, max) && DisjointFromAll(s, i)
  {
    var k := InsertionPoint(s, i);
    InsertedAt(s, i, k);
    var r := InsertAt(s, k, i);
    if WellFormed(r, max) { WidenedDisjoint(s, max, i, k, r); }
    if Proper(i, max) && DisjointFromAll(s, i) {
      SplitsAround(s, max, i, k);
      WidenedWellFormed(s, max, i, k, r);
    }
  }

  // ---------- Removal ----------

  /** A range occurs once in a well-formed list, so removing it by value removes its one position. */
  lemma RemovedAt(s: seq<Interval>, max: u32, i: Interval, k: nat)
    requires WellFormed(s, max) && k < |s| && s[k] == i
    ensures RemoveFirst(s, i) == DeleteAt(s, k)
    ensures forall j | 0 <= j < |s| && j != k :: s[j] != i
  {
    assert forall j | 0 <= j < |s| && j != k :: s[j] != i by {
      forall j | 0 <= j < |s| && j != k ensures s[j] != i {
        assert if j < k then s[j].to < s[k].from else s[k].to < s[j].from;
        assert Proper(s[k], max);
      }
    }
    RemoveFirstAt(s, i, k);
  }

  lemma RemovedWellFormed(s: seq<Interval>, max: u32, i: Interval)
    requires WellFormed(s, max)
    ensures WellFormed(RemoveFirst(s, i), max)
  {
    if i in s {
      var k :| 0 <= k < |s| && s[k] == i;
      RemovedAt(s, max, i, k);
    }
  }

  /** Removal takes out exactly the given range. */
  lemma {:induction false} RemovedMembers(s: seq<Interval>, max: u32, i: Interval, x: Interval)
    requires WellFormed(s, max)
    ensures x in RemoveFirst(s, i) <==> x in s && x != i
  {
    if s != [] {
      if s[0] == i {
        assert forall j | 1 <= j < |s| :: s[0].to < s[j].from;
        assert Proper(s[0], max);
      } else {
        RemovedMembers(s[1..], max, i, x);
      }
      assert s == [s[0]] + s[1..];
    }
  }

  // ---------- First-fit search ----------

  /** The scan over neighbours, with the 32-bit sum of the source. */
  function ScanGaps(s: seq<Interval>, size: u32, k: nat): (r: Option<Interval>)
    decreases |s| - k
  {
    if k + 1 >= |s| then None
    else if s[k + 1].from > Wrap(size + s[k].to) then Some(After(s[k], size))
    else ScanGaps(s, size, k + 1)
  }

  /** The range of `size` addresses that starts right behind `i`, in 32-bit arithmetic. */
  function After(i: Interval, size: u32): Interval {
    Interval(Wrap(i.to + 1), Wrap(size + i.to))
  }

  function FindFree(s: seq<Interval>, max: u32, size: u32): (r: Option<Interval>) {
    if size == 0 then None
    else if s == [] then Some(Interval(0, size - 1))
    else if |s| == 1 then
      if s[0].from >= size then Some(Interval(0, size - 1))
      else if Wrap(max - s[0].to) >= size then Some(After(s[0], size))
      else None
    else
      match ScanGaps(s, size, 0)
      case Some(r) => Some(r)
      case None => if Wrap(max - s[|s| - 1].to) >= size then Some(After(s[|s| - 1], size)) else None
  }

  /** `r` is a grant of `size` addresses inside [0, max] that overlaps nothing live. */
  ghost predicate Granted(s: seq<Interval>, max: u32, size: u32, r: Interval) {
    Proper(r, max) && r.to - r.from + 1 == size && DisjointFromAll(s, r)
  }

  /** With two or more live ranges the space below the first one is never searched. */
  ghost predicate Unsearched(s: seq<Interval>, r: Interval) {
    |s| >= 2 && r.to < s[0].from
  }

  /**
   What a caller of the search relies on: a result is a grant, and the lowest one searched;
   no result means that no grant exists in the searched space.
   */
  ghost predicate Promise(s: seq<Interval>, max: u32, size: u32, res: Option<Interval>) {
    match res
    case None => size == 0 || forall r | Granted(s, max, size, r) :: Unsearched(s, r)
    case Some(r) =>
      && size > 0 && Granted(s, max, size, r)
      && forall r' | Granted(s, max, size, r') :: r.from <= r'.from || Unsearched(s, r')
  }

  ghost predicate GapFits(s: seq<Interval>, size: u32, k: nat) {
    k + 1 < |s| && s[k].to + size < s[k + 1].from
  }

  /** The condition under which no wrapped sum decides the search. */
  ghost predicate NoWrap(s: seq<Interval>, max: u32, size: u32) {
    if size == 0 || |s| == 1 then true
    else if s == [] then size <= max + 1
    else s[|s| - 2].to + size < TWO32 || exists k: nat :: GapFits(s, size, k)
  }

  /** The neighbour test succeeds either on a gap that fits or on a sum that wrapped. */
  lemma NeighbourTest(s: seq<Interval>, max: u32, size: u32, k: nat)
    requires WellFormed(s, max) && k + 1 < |s| && size > 0
    ensures s[k + 1].from > Wrap(size + s[k].to) <==> GapFits(s, size, k) || s[k].to + size >= TWO32
  {
    assert s[k].to < s[k + 1].from;
  }

  /** Sums wrap at the highest scanned neighbour first, so a non-wrapping top means none wrap. */
  lemma {:induction false} ScanFindsFirst(s: seq<Interval>, max: u32, size: u32, k: nat, j: nat)
    requires WellFormed(s, max) && size > 0 && k <= j && j + 1 < |s|
    requires forall m: nat | k <= m < j :: !GapFits(s, size, m) && s[m].to + size < TWO32
    requires GapFits(s, size, j) || s[j].to + size >= TWO32
    ensures ScanGaps(s, size, k) == Some(After(s[j], size))
    decreases j - k
  {
    NeighbourTest(s, max, size, k);
    if k < j { ScanFindsFirst(s, max, size, k + 1, j); }
  }

  lemma {:induction false} ScanFindsNone(s: seq<Interval>, max: u32, size: u32, k: nat)
    requires WellFormed(s, max) && size > 0
    requires forall m: nat | k <= m && m + 1 < |s| :: !GapFits(s, size, m) && s[m].to + size < TWO32
    ensures ScanGaps(s, size, k) == None
    decreases |s| - k
  {
    if k + 1 < |s| {
      NeighbourTest(s, max, size, k);
      ScanFindsNone(s, max, size, k + 1);
    }
  }

  /** The first position from `k` on behind which the scan stops: at a gap that fits, a sum that wraps, or the last range. */
  ghost function FirstStop(s: seq<Interval>, size: u32, k: nat): (j: nat)
    requires k < |s|
    ensures k <= j < |s|
    ensures forall m: nat | k <= m < j :: !GapFits(s, size, m) && s[m].to + size < TWO32
    ensures j + 1 < |s| ==> GapFits(s, size, j) || s[j].to + size >= TWO32
    decreases |s| - k
  {
    if k + 1 == |s| || GapFits(s, size, k) || s[k].to + size >= TWO32 then k else FirstStop(s, size, k + 1)
  }

  /** A range that overlaps nothing and does not lie below the first live range sits in one gap. */
  lemma {:induction false} GapOf(s: seq<Interval>, max: u32, r: Interval, k: nat) returns (j: nat)
    requires WellFormed(s, max) && Proper(r, max) && DisjointFromAll(s, r)
    requires k < |s| && s[k].to < r.from
    ensures k <= j < |s| && s[j].to < r.from && (j + 1 < |s| ==> r.to < s[j + 1].from)
    decreases |s| - k
  {
    if k + 1 < |s| && s[k + 1].to < r.from {
      j := GapOf(s, max, r, k + 1);
    } else {
      assert k + 1 < |s| ==> Disjoint(s[k + 1], r);
      j := k;
    }
  }

  /** A grant above the first live range needs a gap that fits, or room behind the last range. */
  lemma GrantNeedsGap(s: seq<Interval>, max: u32, size: u32, r: Interval) returns (j: nat)
    requires WellFormed(s, max) && s != [] && Granted(s, max, size, r) && !(r.to < s[0].from)
    ensures j < |s| && s[j].to < r.from
    ensures if j + 1 < |s| then GapFits(s, size, j) else s[j].to + size <= max
  {
    assert Disjoint(s[0], r);
    j := GapOf(s, max, r, 0);
  }

  /** The range behind `s[j]` is a grant when the gap there fits (or the tail does). */
  lemma AfterGranted(s: seq<Interval>, max: u32, size: u32, j: nat)
    requires WellFormed(s, max) && size > 0 && j < |s|
    requires if j + 1 < |s| then GapFits(s, size, j) else s[j].to + size <= max
    ensures Granted(s, max, size, After(s[j], size))
  {
    var r := After(s[j], size);
    forall k | 0 <= k < |s| ensures Disjoint(s[k], r) {
      if k < j { assert s[k].to < s[j].from; }
      if j + 1 < k { assert s[j + 1].to < s[k].from; }
    }
    assert j + 1 < |s| ==> Proper(s[j + 1], max);
  }

  lemma PromiseShort(s: seq<Interval>, max: u32, size: u32)
    requires WellFormed(s, max) && |s| <= 1
    ensures Promise(s, max, size, FindFree(s, max, size)) <==> NoWrap(s, max, size)
  {
    if |s| == 1 && size > 0 {
      assert Proper(s[0], max);
      if s[0].from < size {
        forall r | Granted(s, max, size, r) ensures s[0].to < r.from && s[0].to + size <= max {
          assert Disjoint(s[0], r);
        }
        if s[0].to + size <= max { AfterGranted(s, max, size, 0); }
      }
    }
  }

  /** The position behind which the search looks for room. */
  lemma SearchAnswer(s: seq<Interval>, max: u32, size: u32) returns (j: nat)
    requires WellFormed(s, max) && |s| >= 2 && size > 0 && NoWrap(s, max, size)
    ensures j < |s| && (forall m: nat | m < j :: !GapFits(s, size, m))
    ensures j + 1 < |s| ==> GapFits(s, size, j)
    ensures FindFree(s, max, size) ==
            if j + 1 < |s| || s[j].to + size <= max then Some(After(s[j], size)) else None
  {
    j := FirstStop(s, size, 0);
    if j + 1 < |s| {
      NoWrapBefore(s, max, size, j);
      ScanFindsFirst(s, max, size, 0, j);
    } else {
      ScanFindsNone(s, max, size, 0);
      assert Proper(s[j], max);
    }
  }

  lemma PromiseLong(s: seq<Interval>, max: u32, size: u32)
    requires WellFormed(s, max) && |s| >= 2 && size > 0 && NoWrap(s, max, size)
    ensures Promise(s, max, size, FindFree(s, max, size))
  {
    var j := SearchAnswer(s, max, size);
    if j + 1 < |s| || s[j].to + size <= max {
      AfterGranted(s, max, size, j);
      forall r | Granted(s, max, size, r) && !(r.to < s[0].from) ensures s[j].to < r.from {
        var m := GrantNeedsGap(s, max, size, r);
        assert j < m ==> s[j].to < s[m].from;
        assert Proper(s[m], max);
      }
    } else {
      forall r | Granted(s, max, size, r) ensures r.to < s[0].from {
        if !(r.to < s[0].from) { var m := GrantNeedsGap(s, max, size, r); }
      }
    }
  }

  /** Without a wrapping top, or with a gap that fits, the first stop is a gap that fits. */
  lemma NoWrapBefore(s: seq<Interval>, max: u32, size: u32, j: nat)
    requires WellFormed(s, max) && |s| >= 2 && size > 0 && NoWrap(s, max, size)
    requires j + 1 < |s| && (forall m: nat | m < j :: !GapFits(s, size, m))
    requires GapFits(s, size, j) || s[j].to + size >= TWO32
    ensures GapFits(s, size, j)
  {
    if s[|s| - 2].to + size < TWO32 {
      assert j < |s| - 2 ==> s[j].to < s[|s| - 2].from;
      assert Proper(s[|s| - 2], max);
    } else {
      var k: nat :| GapFits(s, size, k);
      assert j < k ==> s[j].to < s[k].from;
      assert Proper(s[k], max);
    }
  }

  /** A wrapped sum with no gap that fits hands out a range that ends before it begins. */
  lemma WrapBreaksPromise(s: seq<Interval>, max: u32, size: u32)
    requires WellFormed(s, max) && |s| >= 2 && size > 0 && !NoWrap(s, max, size)
    ensures FindFree(s, max, size).Some? && FindFree(s, max, size).value.to < FindFree(s, max, size).value.from
    ensures !Promise(s, max, size, FindFree(s, max, size))
  {
    var j := FirstStop(s, size, 0);
    assert j + 1 < |s|;
    ScanFindsFirst(s, max, size, 0, j);
    assert s[j].to < s[j + 1].from;
  }

  /** The search keeps its promise on exactly the requests whose deciding sum does not wrap. */
  lemma FindFreePromise(s: seq<Interval>, max: u32, size: u32)
    requires WellFormed(s, max)
    ensures Promise(s, max, size, FindFree(s, max, size)) <==> NoWrap(s, max, size)
  {
    if |s| <= 1 {
      PromiseShort(s, max, size);
    } else if size > 0 {
      if NoWrap(s, max, size) { PromiseLong(s, max, size); } else { WrapBreaksPromise(s, max, size); }
    }
  }

  /** The same without exception: the lowest grant in all of [0, max], and no result only if there is none. */
  ghost predicate FullPromise(s: seq<Interval>, max: u32, size: u32, res: Option<Interval>) {
    match res
    case None => size == 0 || forall r :: !Granted(s, max, size, r)
    case Some(r) => size > 0 && Granted(s, max, size, r) && forall r' | Granted(s, max, size, r') :: r.from <= r'.from
  }

  /** The space below the first range is searched, or too small for the request. */
  ghost predicate NoLeadingGap(s: seq<Interval>, size: u32) {
    |s| < 2 || size == 0 || s[0].from < size
  }

  lemma LeadingGrant(s: seq<Interval>, max: u32, size: u32)
    requires WellFormed(s, max) && s != [] && 0 < size <= s[0].from
    ensures Granted(s, max, size, Interval(0, size - 1))
  {
    assert Proper(s[0], max);
    forall k | 0 <= k < |s| ensures Disjoint(s[k], Interval(0, size - 1)) {
      assert 0 < k ==> s[0].to < s[k].from;
    }
  }

  /** Over the whole space the search keeps its promise exactly if, besides, it skips no leading gap that fits. */
  lemma FindFreeFullPromise(s: seq<Interval>, max: u32, size: u32)
    requires WellFormed(s, max)
    ensures FullPromise(s, max, size, FindFree(s, max, size)) <==> NoWrap(s, max, size) && NoLeadingGap(s, size)
  {
    FindFreePromise(s, max, size);
    if NoLeadingGap(s, size) {
      forall r | Granted(s, max, size, r) && size > 0 ensures !Unsearched(s, r) { }
    } else {
      LeadingGrant(s, max, size);
      if NoWrap(s, max, size) { SkipsLeadingGap(s, max, size); }
    }
  }

  lemma SkipsLeadingGap(s: seq<Interval>, max: u32, size: u32)
    requires WellFormed(s, max) && |s| >= 2 && 0 < size <= s[0].from && NoWrap(s, max, size)
    ensures FindFree(s, max, size).Some? ==> FindFree(s, max, size).value.from > 0
  {
    var j := SearchAnswer(s, max, size);
    assert Proper(s[j], max) && (j + 1 < |s| ==> Proper(s[j + 1], max));
  }

  /** The space below the first range is lost to the search as soon as a second range is live. */
  lemma LeadingGapMissed()
    ensures var s := [Interval(0x2000, 0x2FFF), Interval(0x3000, 0xFFFF_FFFF)];
            WellFormed(s, 0xFFFF_FFFF) && Granted(s, 0xFFFF_FFFF, 0x1000, Interval(0, 0xFFF))
            && FindFree(s, 0xFFFF_FFFF, 0x1000) == None
  {
    var s := [Interval(0x2000, 0x2FFF), Interval(0x3000, 0xFFFF_FFFF)];
    assert ScanGaps(s, 0x1000, 0) == ScanGaps(s, 0x1000, 1) == None;
  }

  // ---------- Whole runs ----------

  datatype Op = Allocate(size: u32) | AddRange(range: Interval) | Delete(range: Interval)

  ghost function Step(s: seq<Interval>, max: u32, op: Op): seq<Interval> {
    match op
    case Allocate(size) =>
      (match FindFree(s, max, size)
       case None => s
       case Some(r) => Inserted(s, r))
    case AddRange(i) => Inserted(s, i)
    case Delete(i) => RemoveFirst(s, i)
  }

  /** What the caller of one operation must respect; each case can be decided before the call. */
  ghost predicate Allowed(s: seq<Interval>, max: u32, op: Op) {
    match op
    case Allocate(size) => NoWrap(s, max, size)
    case AddRange(i) => Proper(i, max) && DisjointFromAll(s, i)
    case Delete(_) => true
  }

  lemma StepWellFormed(s: seq<Interval>, max: u32, op: Op)
    requires WellFormed(s, max)
    ensures WellFormed(Step(s, max, op), max) <==> Allowed(s, max, op)
  {
    match op {
      case Allocate(size) =>
        FindFreePromise(s, max, size);
        match FindFree(s, max, size) {
          case None =>
            if |s| >= 2 && size > 0 && !NoWrap(s, max, size) { WrapBreaksPromise(s, max, size); }
          case Some(r) =>
            InsertedWellFormed(s, max, r);
            if |s| >= 2 && !NoWrap(s, max, size) { WrapBreaksPromise(s, max, size); }
        }
      case AddRange(i) => InsertedWellFormed(s, max, i);
      case Delete(i) => RemovedWellFormed(s, max, i);
    }
  }

  /** At every moment of the run that starts in `s`, the list is well formed. */
  ghost predicate AlwaysWellFormed(s: seq<Interval>, max: u32, ops: seq<Op>)
    decreases |ops|
  {
    WellFormed(s, max) && (ops == [] || AlwaysWellFormed(Step(s, max, ops[0]), max, ops[1..]))
  }

  /** Every operation of the run is allowed in the state in which it is issued. */
  ghost predicate AlwaysAllowed(s: seq<Interval>, max: u32, ops: seq<Op>)
    decreases |ops|
  {
    ops == [] || (Allowed(s, max, ops[0]) && AlwaysAllowed(Step(s, max, ops[0]), max, ops[1..]))
  }

  /** Every allocation of the run keeps its promise against all ranges live at that moment. */
  ghost predicate AlwaysGranted(s: seq<Interval>, max: u32, ops: seq<Op>)
    decreases |ops|
  {
    ops != [] ==>
      && (ops[0].Allocate? ==> Promise(s, max, ops[0].size, FindFree(s, max, ops[0].size)))
      && AlwaysGranted(Step(s, max, ops[0]), max, ops[1..])
  }

  /**
   Over every run, the list stays sorted, disjoint and in range at all times if and only if
   every operation was allowed when it was issued; and then every range handed out is a grant.
   */
  lemma {:induction false} RunTheorem(s: seq<Interval>, max: u32, ops: seq<Op>)
    requires WellFormed(s, max)
    ensures AlwaysWellFormed(s, max, ops) <==> AlwaysAllowed(s, max, ops)
    ensures AlwaysAllowed(s, max, ops) ==> AlwaysGranted(s, max, ops)
    decreases |ops|
  {
    if ops != [] {
      StepWellFormed(s, max, ops[0]);
      var s' := Step(s, max, ops[0]);
      if Allowed(s, max, ops[0]) {
        RunTheorem(s', max, ops[1..]);
        if ops[0].Allocate? { FindFreePromise(s, max, ops[0].size); }
      } else {
        NotWellFormedNow(s', max, ops[1..]);
      }
    }
  }

  lemma NotWellFormedNow(s: seq<Interval>, max: u32, ops: seq<Op>)
    requires !WellFormed(s, max)
    ensures !AlwaysWellFormed(s, max, ops)
  {
  }

  // ---------- What is handed out stays handed out ----------

  /** The range an operation hands out. */
  ghost function Answer(s: seq<Interval>, max: u32, op: Op): Option<Interval> {
    if op.Allocate? then FindFree(s, max, op.size) else None
  }

  lemma {:induction false} RemovedOnce(s: seq<Interval>, i: Interval)
    ensures multiset(RemoveFirst(s, i)) == multiset(s) - multiset{i}
  {
    if s != [] {
      assert s == [s[0]] + s[1..];
      RemovedOnce(s[1..], i);
    }
  }

  /** Every range handed out or added is recorded, a deleted one is struck off, and no other range is touched. */
  lemma StepRecords(s: seq<Interval>, max: u32, op: Op)
    ensures multiset(Step(s, max, op)) ==
            match op
            case Allocate(_) => multiset(s) + (match Answer(s, max, op) case Some(r) => multiset{r} case None => multiset{})
            case AddRange(r) => multiset(s) + multiset{r}
            case Delete(r) => multiset(s) - multiset{r}
  {
    match op {
      case Allocate(size) =>
        var r := FindFree(s, max, size);
        if r.Some? { InsertedMembers(s, r.value); }
      case AddRange(r) => InsertedMembers(s, r);
      case Delete(r) => RemovedOnce(s, r);
    }
  }

  /** The list before operation `t` of the run that starts in `s`, and what that operation hands out. */
  ghost function ListAt(s: seq<Interval>, max: u32, ops: seq<Op>, t: nat): seq<Interval>
    requires t <= |ops|
  {
    if t == 0 then s else Step(ListAt(s, max, ops, t - 1), max, ops[t - 1])
  }

  ghost function AnswerAt(s: seq<Interval>, max: u32, ops: seq<Op>, t: nat): Option<Interval>
    requires t < |ops|
  {
    Answer(ListAt(s, max, ops, t), max, ops[t])
  }

  lemma LiveAfter(s: seq<Interval>, max: u32, op: Op, r: Interval)
    requires r in s && op != Delete(r)
    ensures r in Step(s, max, op)
  {
    StepRecords(s, max, op);
    assert multiset(s)[r] > 0;
    assert multiset(Step(s, max, op))[r] > 0;
  }

  /** A live range stays live until it is deleted. */
  lemma {:induction false} StaysLive(s: seq<Interval>, max: u32, ops: seq<Op>, t: nat, u: nat, r: Interval)
    requires t <= u <= |ops| && r in ListAt(s, max, ops, t) && Delete(r) !in ops[t..u]
    ensures r in ListAt(s, max, ops, u)
    decreases u - t
  {
    if t < u {
      InStretch(ops, t, u, Delete(r));
      StaysLive(s, max, ops, t, u - 1, r);
      LiveAfter(ListAt(s, max, ops, u - 1), max, ops[u - 1], r);
    }
  }

  lemma AllowedNow(s: seq<Interval>, max: u32, ops: seq<Op>, t: nat)
    requires t < |ops| && WellFormed(s, max) && AlwaysAllowed(s, max, ops[t..])
    ensures Allowed(s, max, ops[t]) && WellFormed(Step(s, max, ops[t]), max)
    ensures AlwaysAllowed(Step(s, max, ops[t]), max, ops[t + 1..])
  {
    StepWellFormed(s, max, ops[t]);
    assert ops[t..][0] == ops[t] && ops[t..][1..] == ops[t + 1..];
  }

  lemma {:induction false} AllowedFrom(s: seq<Interval>, max: u32, ops: seq<Op>, t: nat)
    requires WellFormed(s, max) && AlwaysAllowed(s, max, ops) && t <= |ops|
    ensures WellFormed(ListAt(s, max, ops, t), max) && AlwaysAllowed(ListAt(s, max, ops, t), max, ops[t..])
  {
    if t == 0 {
      assert ops[0..] == ops;
    } else {
      AllowedFrom(s, max, ops, t - 1);
      AllowedNow(ListAt(s, max, ops, t - 1), max, ops, t - 1);
    }
  }

  lemma AllowedAt(s: seq<Interval>, max: u32, ops: seq<Op>, t: nat)
    requires WellFormed(s, max) && AlwaysAllowed(s, max, ops) && t < |ops|
    ensures WellFormed(ListAt(s, max, ops, t), max) && Allowed(ListAt(s, max, ops, t), max, ops[t])
  {
    AllowedFrom(s, max, ops, t);
    AllowedNow(ListAt(s, max, ops, t), max, ops, t);
  }

  /** A grant shares no address with a range that is live. */
  lemma GrantAvoids(s: seq<Interval>, max: u32, op: Op, live: Interval, r: Interval)
    requires WellFormed(s, max) && Allowed(s, max, op) && live in s && Answer(s, max, op) == Some(r)
    ensures Disjoint(live, r) && Proper(r, max)
  {
    FindFreePromise(s, max, op.size);
    var k :| 0 <= k < |s| && s[k] == live;
    assert Disjoint(s[k], r);
  }

  lemma GrantIsLive(s: seq<Interval>, max: u32, op: Op, r: Interval)
    requires WellFormed(s, max) && Allowed(s, max, op) && Answer(s, max, op) == Some(r)
    ensures r in Step(s, max, op) && Proper(r, max)
  {
    FindFreePromise(s, max, op.size);
    StepRecords(s, max, op);
    assert r in multiset(Step(s, max, op));
  }

  lemma GrantLiveAt(s: seq<Interval>, max: u32, ops: seq<Op>, t: nat, r: Interval)
    requires WellFormed(s, max) && AlwaysAllowed(s, max, ops) && t < |ops| && AnswerAt(s, max, ops, t) == Some(r)
    ensures r in ListAt(s, max, ops, t + 1) && Proper(r, max)
  {
    AllowedAt(s, max, ops, t);
    GrantIsLive(ListAt(s, max, ops, t), max, ops[t], r);
  }

  lemma GrantAvoidsAt(s: seq<Interval>, max: u32, ops: seq<Op>, t: nat, live: Interval, r: Interval)
    requires WellFormed(s, max) && AlwaysAllowed(s, max, ops) && t < |ops|
    requires live in ListAt(s, max, ops, t) && AnswerAt(s, max, ops, t) == Some(r)
    ensures Disjoint(live, r) && Proper(r, max)
  {
    AllowedAt(s, max, ops, t);
    GrantAvoids(ListAt(s, max, ops, t), max, ops[t], live, r);
  }

  /**
   No address is handed out twice: over every allowed run, two ranges handed out at different
   times share no address unless the first was deleted in between.
   */
  lemma GrantsDisjoint(s: seq<Interval>, max: u32, ops: seq<Op>, t1: nat, t2: nat, r1: Interval, r2: Interval)
    requires WellFormed(s, max) && AlwaysAllowed(s, max, ops) && t1 < t2 < |ops|
    requires AnswerAt(s, max, ops, t1) == Some(r1) && AnswerAt(s, max, ops, t2) == Some(r2)
    requires Delete(r1) !in ops[t1 + 1..t2]
    ensures Disjoint(r1, r2) && Proper(r1, max) && Proper(r2, max)
  {
    GrantLiveAt(s, max, ops, t1, r1);
    StaysLive(s, max, ops, t1 + 1, t2, r1);
    GrantAvoidsAt(s, max, ops, t2, r1, r2);
  }

  // ---------- Accounting ----------

  /** The number of addresses a closed range spans (as an integer: negative when it is inverted). */
  ghost function Length(i: Interval): int { i.to - i.from + 1 }

  ghost function TotalLength(s: seq<Interval>): int {
    if s == [] then 0 else Length(s[0]) + TotalLength(s[1..])
  }

  lemma {:induction false} TotalInserted(s: seq<Interval>, i: Interval)
    ensures TotalLength(Inserted(s, i)) == TotalLength(s) + Length(i)
  {
    if s != [] && s[0].ThisBefore(i) { TotalInserted(s[1..], i); }
  }

  lemma {:induction false} TotalRemoved(s: seq<Interval>, i: Interval)
    ensures TotalLength(RemoveFirst(s, i)) == TotalLength(s) - if i in s then Length(i) else 0
  {
    if s != [] && s[0] != i { TotalRemoved(s[1..], i); }
  }

  lemma {:induction false} TotalBounded(s: seq<Interval>, max: u32)
    requires WellFormed(s, max)
    ensures 0 <= TotalLength(s) <= if s == [] then 0 else max - s[0].from + 1
  {
    if s != [] {
      TotalBounded(s[1..], max);
      assert Proper(s[0], max);
      assert |s| > 1 ==> s[0].to < s[1].from;
    }
  }

  // ---------- The list in place ----------

  class IntervalList {
    const max: u32
    const list: SList<Interval>

    ghost predicate Valid()
      reads list, list.Repr
    {
      list.Valid()
    }

    ghost function Contents(): seq<Interval>
      reads list
    {
      list.Contents
    }

    constructor (max: u32)
      ensures Valid() && fresh(list) && fresh(list.Repr) && Contents() == [] && this.max == max
    {
      this.max := max;
      list := new SList();
    }

    method Add(i: Interval)
      requires Valid()
      modifies list.Repr
      ensures Valid() && fresh(list.Repr - old(list.Repr))
      ensures Contents() == Inserted(old(Contents()), i)
    {
      var n := list.Count();
      if n <= 1 { ShortInserted(Contents(), i); }
      if n == 0 {
        list.Add(i);
      } else if n == 1 {
        var other := list.Top();
        if other.ThisBefore(i) { list.Add(i); } else { list.AddHead(i); }
      } else {
        ghost var k := InsertionPoint(Contents(), i);
        InsertedAt(Contents(), i, k);
        var b := FirstNotBefore(i);
        list.Insert(b, i, k);
      }
    }

    /** The loop of the sorted insertion; the end iterator makes `Insert` append. */
    method FirstNotBefore(i: Interval) returns (b: Node?<Interval>)
      requires Valid()
      ensures list.At(b, InsertionPoint(Contents(), i))
    {
      b := list.Begin();
      var e := list.End();
      ghost var k := 0;
      while b != e
        invariant list.At(b, k) && list.At(e, |Contents()|) && k <= InsertionPoint(Contents(), i)
        decreases |Contents()| - k
      {
        var other := list.Item(b, k);
        if !other.ThisBefore(i) { return; }
        b := list.Next(b, k);
        k := k + 1;
      }
    }

    /** The early exit relies on the order of the list; on a well-formed list it loses nothing. */
    method Lookup(addr: u32) returns (where: Option<Interval>)
      requires Valid()
      ensures where.Some? ==> where.value in Contents() && where.value.Contains(addr)
      ensures where == None && WellFormed(Contents(), max) ==> forall x | x in Contents() :: !x.Contains(addr)
    {
      var b := list.Begin();
      var e := list.End();
      ghost var k := 0;
      while b != e
        invariant list.At(b, k) && list.At(e, |Contents()|)
        invariant forall j | 0 <= j < k :: !Contents()[j].Contains(addr)
        decreases |Contents()| - k
      {
        var ival := list.Item(b, k);
        if ival.from > addr {
          return None;
        }
        if ival.Contains(addr) {
          return Some(ival);
        }
        b := list.Next(b, k);
        k := k + 1;
      }
      return None;
    }

    method Search(size: u32) returns (range: Option<Interval>)
      requires Valid()
      ensures range == FindFree(Contents(), max, size)
    {
      if size == 0 { return None; }
      var n := list.Count();
      if n == 0 { return Some(Interval(0, size - 1)); }
      if n == 1 {
        var ival := list.Top();
        if ival.from >= size { return Some(Interval(0, size - 1)); }
        if Wrap(max - ival.to) >= size { return Some(After(ival, size)); }
        return None;
      }
      range := SearchGaps(size);
      if range.Some? { return; }
      var ival := list.Back();
      if Wrap(max - ival.to) >= size { return Some(After(ival, size)); }
      return None;
    }

    method SearchGaps(size: u32) returns (range: Option<Interval>)
      requires Valid() && |Contents()| >= 2
      ensures range == ScanGaps(Contents(), size, 0)
    {
      var b := list.Begin();
      var e := list.End();
      ghost var k := 0;
      while true
        invariant k < |Contents()| && list.At(b, k) && list.At(e, |Contents()|)
        invariant ScanGaps(Contents(), size, 0) == ScanGaps(Contents(), size, k)
        decreases |Contents()| - k
      {
        if b == e { break; }
        var i0 := list.Item(b, k);
        b := list.Next(b, k);
        if b == e { break; }
        var i1 := list.Item(b, k + 1);
        if i1.from > Wrap(size + i0.to) { return Some(After(i0, size)); }
        k := k + 1;
      }
      return None;
    }

    method AllocateRange(size: u32) returns (range: Option<Interval>)
      requires Valid()
      modifies list.Repr
      ensures Valid() && fresh(list.Repr - old(list.Repr))
      ensures range == FindFree(old(Contents()), max, size)
      ensures Contents() == Step(old(Contents()), max, Allocate(size))
      ensures multiset(Contents()) ==
              multiset(old(Contents())) + match range case Some(r) => multiset{r} case None => multiset{}
    {
      StepRecords(Contents(), max, Allocate(size));
      range := Search(size);
      if range.Some? { Add(range.value); }
    }

    method Del(i: Interval) returns (found: bool)
      requires Valid()
      modifies list.Repr
      ensures Valid() && list.Repr == old(list.Repr)
      ensures found <==> i in old(Contents())
      ensures Contents() == Step(old(Contents()), max, Delete(i))
    {
      found := list.RemoveItem(i);
    }

    method Apply(op: Op) returns (answer: Option<Interval>)
      requires Valid()
      modifies list.Repr
      ensures Valid() && fresh(list.Repr - old(list.Repr))
      ensures answer == Answer(old(Contents()), max, op) && Contents() == Step(old(Contents()), max, op)
    {
      answer := None;
      match op {
        case Allocate(size) => answer := AllocateRange(size);
        case AddRange(i) => Add(i);
        case Delete(i) => var _ := Del(i);
      }
    }

    method ApplyAt(ops: seq<Op>, t: nat) returns (answer: Option<Interval>)
      requires Valid() && t < |ops| && Contents() == ListAt([], max, ops, t)
      modifies list.Repr
      ensures Valid() && fresh(list.Repr - old(list.Repr))
      ensures answer == AnswerAt([], max, ops, t) && Contents() == ListAt([], max, ops, t + 1)
    {
      answer := Apply(ops[t]);
    }
  }

  ghost function Answers(max: u32, ops: seq<Op>, t: nat): seq<Option<Interval>>
    requires t <= |ops|
  {
    if t == 0 then [] else Answers(max, ops, t - 1) + [AnswerAt([], max, ops, t - 1)]
  }

  /** The object that has gone through a run handed out what the run says and holds the list it leads to. */
  method Replay(max: u32, ops: seq<Op>, t: nat) returns (ranges: IntervalList, answers: seq<Option<Interval>>)
    requires t <= |ops|
    ensures ranges.Valid() && fresh(ranges.list.Repr) && ranges.max == max
    ensures ranges.Contents() == ListAt([], max, ops, t) && answers == Answers(max, ops, t)
  {
    if t == 0 {
      ranges := new IntervalList(max);
      answers := [];
    } else {
      ranges, answers := Replay(max, ops, t - 1);
      var answer := ranges.ApplyAt(ops, t - 1);
      answers := answers + [answer];
    }
  }
}
