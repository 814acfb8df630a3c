/**
 A process's memory manager: page-granular regions on top of the interval list, with the
 zero page and the kernel's gigabyte held as two permanent regions and a running total
 of the bytes handed out. Page-table updates and permissions are not part of this model.
 */
module MemoryRegions {
  import opened Words
  import opened SinglyLinkedList
  import opened Intervals

  const PAGE: int := 4096
  const KERNEL_BASE: u32 := 0xC000_0000
  const LAST: u32 := 0xFFFF_FFFF
  const ZERO_PAGE: Interval := Interval(0, 0xFFF)
  const KERNEL: Interval := Interval(KERNEL_BASE, LAST)

  /** The bytes of the two permanent regions, which the running total does not count. */
  ghost const RESERVED: int := Length(ZERO_PAGE) + Length(KERNEL)

  /** Rounds up to whole pages in 32-bit arithmetic: the last partial page wraps to 0. */
  function ToPage(size: u32): (r: u32)
    ensures r % PAGE == 0
    ensures size <= TWO32 - PAGE ==> size <= r < size + PAGE
    ensures size > TWO32 - PAGE ==> r == 0
  {
    var m := size % PAGE;
    if m == 0 then size else Wrap(size - m + PAGE)
  }

  ghost predicate EndsOnPage(i: Interval) { i.to % PAGE == PAGE - 1 }

  ghost predicate Aligned(i: Interval) { i.from % PAGE == 0 && EndsOnPage(i) }

  /** Regions may start inside a page, as a program's data often does, but end with one. */
  ghost predicate AllEndOnPages(s: seq<Interval>) { forall i | i in s :: EndsOnPage(i) }

  ghost predicate AllAligned(s: seq<Interval>) { forall i | i in s :: Aligned(i) }

  lemma WrapKeepsPageOffset(x: int)
    ensures Wrap(x) % PAGE == x % PAGE
  {
    var q := x / TWO32;
    assert x == Wrap(x) + PAGE * (q * 0x10_0000);
  }

  lemma AfterAligned(i: Interval, size: u32)
    requires EndsOnPage(i) && size % PAGE == 0
    ensures Aligned(After(i, size))
  {
    WrapKeepsPageOffset(i.to + 1);
    WrapKeepsPageOffset(size + i.to);
  }

  lemma {:induction false} ScanAligned(s: seq<Interval>, size: u32, k: nat)
    requires AllEndOnPages(s) && size % PAGE == 0
    ensures ScanGaps(s, size, k).Some? ==> Aligned(ScanGaps(s, size, k).value)
    decreases |s| - k
  {
    if k + 1 < |s| {
      assert s[k] in s;
      AfterAligned(s[k], size);
      ScanAligned(s, size, k + 1);
    }
  }

  /** Page-sized requests among regions that end with a page only ever find whole pages. */
  lemma SearchAligned(s: seq<Interval>, size: u32)
    requires AllEndOnPages(s) && size % PAGE == 0
    ensures FindFree(s, LAST, size).Some? ==> Aligned(FindFree(s, LAST, size).value)
  {
    if size > 0 && s != [] {
      assert s[0] in s && s[|s| - 1] in s;
      AfterAligned(s[0], size);
      AfterAligned(s[|s| - 1], size);
      ScanAligned(s, size, 0);
    }
  }

  lemma InsertedPages(s: seq<Interval>, i: Interval)
    ensures AllEndOnPages(s) && EndsOnPage(i) ==> AllEndOnPages(Inserted(s, i))
    ensures AllAligned(s) && Aligned(i) ==> AllAligned(Inserted(s, i))
  {
    InsertedMembers(s, i);
    forall x | x in Inserted(s, i) ensures x in s || x == i {
      assert x in multiset(Inserted(s, i));
    }
  }

  lemma {:induction false} RemovedIsSubset(s: seq<Interval>, i: Interval)
    ensures forall x | x in RemoveFirst(s, i) :: x in s
  {
    if s != [] { RemovedIsSubset(s[1..], i); }
  }

  lemma SizeWraps(total: int, r: Interval)
    ensures Wrap(Wrap(total) + r.Size()) == Wrap(total + Length(r))
    ensures Wrap(Wrap(total) - r.Size()) == Wrap(total - Length(r))
  {
    WrapAdd(Length(r), total);
    WrapAdd(total, r.Size());
    WrapNeg(Length(r), total);
  }

  // ---------- Whole runs of one process ----------

  datatype Request =
    | Map(size: u32)        // findAndMapRegion and its zero-page and file variants
    | Record(region: Interval)  // addMappedRegion, addUnmappedRegion
    | Unmap(region: Interval)   // removeRegion

  /** The regions and the running total after one request. */
  ghost function Next(s: seq<Interval>, total: u32, q: Request): (seq<Interval>, u32) {
    match q
    case Map(size) =>
      (match FindFree(s, LAST, ToPage(size))
       case None => (s, total)
       case Some(r) => (Inserted(s, r), Wrap(total + r.Size())))
    case Record(r) => (Inserted(s, r), Wrap(total + r.Size()))
    case Unmap(r) => if r in s then (RemoveFirst(s, r), Wrap(total - r.Size())) else (s, total)
  }

  /** Sound use: no recorded region overlaps a live one, the permanent regions stay. */
  ghost predicate Sane(s: seq<Interval>, q: Request) {
    match q
    case Map(size) => NoWrap(s, LAST, ToPage(size))
    case Record(r) => Proper(r, LAST) && DisjointFromAll(s, r) && EndsOnPage(r)
    case Unmap(r) => r != ZERO_PAGE && r != KERNEL
  }

  /** What holds of a process's address space at every moment. */
  ghost predicate Sound(s: seq<Interval>, total: u32) {
    && WellFormed(s, LAST) && AllEndOnPages(s)
    && ZERO_PAGE in s && KERNEL in s
    && total == TotalLength(s) - RESERVED
  }

  lemma SoundAfterInsert(s: seq<Interval>, total: u32, r: Interval)
    requires Sound(s, total) && Proper(r, LAST) && DisjointFromAll(s, r) && EndsOnPage(r)
    ensures Sound(Inserted(s, r), Wrap(total + r.Size()))
  {
    InsertedWellFormed(s, LAST, r);
    InsertedPages(s, r);
    InsertedMembers(s, r);
    TotalInserted(s, r);
    TotalBounded(Inserted(s, r), LAST);
    assert r.Size() == Length(r) by { NotWholeSpace(s, r); }
    assert ZERO_PAGE in multiset(Inserted(s, r)) && KERNEL in multiset(Inserted(s, r));
    assert Inserted(s, r) != [];
  }

  lemma NotWholeSpace(s: seq<Interval>, r: Interval)
    requires ZERO_PAGE in s && Proper(r, LAST) && DisjointFromAll(s, r)
    ensures r.from > 0
  {
    var k :| 0 <= k < |s| && s[k] == ZERO_PAGE;
    assert Disjoint(s[k], r);
  }

  lemma LiveIsProper(s: seq<Interval>, r: Interval)
    requires WellFormed(s, LAST) && ZERO_PAGE in s && r in s && r != ZERO_PAGE
    ensures 0 < r.from <= r.to
  {
    var k :| 0 <= k < |s| && s[k] == r;
    var z :| 0 <= z < |s| && s[z] == ZERO_PAGE;
    assert Proper(s[k], LAST);
    if z < k { assert s[z].to < s[k].from; }
  }

  lemma SoundAfterRemove(s: seq<Interval>, total: u32, r: Interval)
    requires Sound(s, total) && r in s && r != ZERO_PAGE && r != KERNEL
    ensures Sound(RemoveFirst(s, r), Wrap(total - r.Size()))
  {
    RemovedWellFormed(s, LAST, r);
    RemovedIsSubset(s, r);
    TotalRemoved(s, r);
    RemovedMembers(s, LAST, r, ZERO_PAGE);
    RemovedMembers(s, LAST, r, KERNEL);
    assert r.Size() == Length(r) by { LiveIsProper(s, r); }
    PairBounded(RemoveFirst(s, r));
  }

  /** The total of a list that holds both permanent regions is at least theirs. */
  lemma PairBounded(s: seq<Interval>)
    requires WellFormed(s, LAST) && ZERO_PAGE in s && KERNEL in s
    ensures RESERVED <= TotalLength(s) <= TWO32
  {
    TotalBounded(s, LAST);
    var t := RemoveFirst(s, ZERO_PAGE);
    TotalRemoved(s, ZERO_PAGE);
    RemovedWellFormed(s, LAST, ZERO_PAGE);
    RemovedMembers(s, LAST, ZERO_PAGE, KERNEL);
    TotalRemoved(t, KERNEL);
    RemovedWellFormed(t, LAST, KERNEL);
    TotalBounded(RemoveFirst(t, KERNEL), LAST);
    assert s != [] && Proper(s[0], LAST);
  }

  lemma SoundStep(s: seq<Interval>, total: u32, q: Request)
    requires Sound(s, total)
    ensures var (s', total') := Next(s, total, q); Sound(s', total') <==> Sane(s, q)
  {
    if Sane(s, q) { SaneStep(s, total, q); } else { InsaneStep(s, total, q); }
  }

  lemma InsaneStep(s: seq<Interval>, total: u32, q: Request)
    requires Sound(s, total) && !Sane(s, q)
    ensures var (s', total') := Next(s, total, q); !Sound(s', total')
  {
    match q {
      case Map(size) => WrappedMap(s, ToPage(size));
      case Record(r) =>
        InsertedWellFormed(s, LAST, r);
        InsertedMembers(s, r);
        assert r in multiset(Inserted(s, r));
      case Unmap(r) => RemovedMembers(s, LAST, r, r);
    }
  }

  lemma WrappedMap(s: seq<Interval>, size: u32)
    requires WellFormed(s, LAST) && ZERO_PAGE in s && KERNEL in s && !NoWrap(s, LAST, size)
    ensures FindFree(s, LAST, size).Some? && !WellFormed(Inserted(s, FindFree(s, LAST, size).value), LAST)
  {
    var z :| 0 <= z < |s| && s[z] == ZERO_PAGE;
    var k :| 0 <= k < |s| && s[k] == KERNEL;
    assert z != k;
    WrapBreaksPromise(s, LAST, size);
    InsertedWellFormed(s, LAST, FindFree(s, LAST, size).value);
  }

  lemma SaneStep(s: seq<Interval>, total: u32, q: Request)
    requires Sound(s, total) && Sane(s, q)
    ensures var (s', total') := Next(s, total, q); Sound(s', total')
  {
    match q {
      case Map(size) =>
        FindFreePromise(s, LAST, ToPage(size));
        SearchAligned(s, ToPage(size));
        match FindFree(s, LAST, ToPage(size)) {
          case None =>
          case Some(r) => SoundAfterInsert(s, total, r);
        }
      case Record(r) => SoundAfterInsert(s, total, r);
      case Unmap(r) => if r in s { SoundAfterRemove(s, total, r); }
    }
  }

  /** The running total, read as a 32-bit word. */
  ghost predicate Accounted(s: seq<Interval>, total: u32) { total == Wrap(TotalLength(s) - RESERVED) }

  /** Page boundaries and accounting survive even a request whose search wrapped, and whole pages do if all were. */
  lemma AlignedStep(s: seq<Interval>, total: u32, q: Request)
    requires AllEndOnPages(s) && Accounted(s, total) && (q.Record? ==> EndsOnPage(q.region))
    ensures var (s', total') := Next(s, total, q); AllEndOnPages(s') && Accounted(s', total')
    ensures AllAligned(s) && (q.Record? ==> Aligned(q.region)) ==> AllAligned(Next(s, total, q).0)
  {
    match q {
      case Map(size) =>
        SearchAligned(s, ToPage(size));
        match FindFree(s, LAST, ToPage(size)) {
          case None =>
          case Some(r) => RecordKeeps(s, total, r);
        }
      case Record(r) => RecordKeeps(s, total, r);
      case Unmap(r) => if r in s { UnmapKeeps(s, total, r); }
    }
  }

  lemma RecordKeeps(s: seq<Interval>, total: u32, r: Interval)
    requires AllEndOnPages(s) && Accounted(s, total) && EndsOnPage(r)
    ensures AllEndOnPages(Inserted(s, r)) && Accounted(Inserted(s, r), Wrap(total + r.Size()))
    ensures AllAligned(s) && Aligned(r) ==> AllAligned(Inserted(s, r))
  {
    InsertedPages(s, r);
    var t, t' := TotalLength(s) - RESERVED, TotalLength(Inserted(s, r)) - RESERVED;
    assert t' == t + Length(r) by { TotalInserted(s, r); }
    assert Wrap(t') == Wrap(Wrap(t) + r.Size()) by { SizeWraps(t, r); }
  }

  lemma UnmapKeeps(s: seq<Interval>, total: u32, r: Interval)
    requires AllEndOnPages(s) && Accounted(s, total) && r in s
    ensures AllEndOnPages(RemoveFirst(s, r)) && Accounted(RemoveFirst(s, r), Wrap(total - r.Size()))
    ensures AllAligned(s) ==> AllAligned(RemoveFirst(s, r))
  {
    RemovedIsSubset(s, r);
    TotalRemoved(s, r);
    SizeWraps(TotalLength(s) - RESERVED, r);
  }

  ghost predicate AlwaysSane(s: seq<Interval>, total: u32, qs: seq<Request>)
    decreases |qs|
  {
    qs != [] ==>
      && Sane(s, qs[0])
      && var (s', total') := Next(s, total, qs[0]); AlwaysSane(s', total', qs[1..])
  }

  ghost predicate AlwaysSound(s: seq<Interval>, total: u32, qs: seq<Request>)
    decreases |qs|
  {
    && Sound(s, total)
    && (qs != [] ==> var (s', total') := Next(s, total, qs[0]); AlwaysSound(s', total', qs[1..]))
  }

  /** All live regions stay disjoint, end with a page and are exactly accounted for over the sane runs, and over no other. */
  lemma {:induction false} ProcessRun(s: seq<Interval>, total: u32, qs: seq<Request>)
    requires Sound(s, total)
    ensures AlwaysSound(s, total, qs) <==> AlwaysSane(s, total, qs)
    decreases |qs|
  {
    if qs != [] {
      SoundStep(s, total, qs[0]);
      var (s', total') := Next(s, total, qs[0]);
      if Sane(s, qs[0]) { ProcessRun(s', total', qs[1..]); }
    }
  }

  lemma TotalOfPair()
    ensures TotalLength([ZERO_PAGE, KERNEL]) == RESERVED
  {
    assert [ZERO_PAGE, KERNEL][1..] == [KERNEL];
    assert TotalLength([KERNEL]) == Length(KERNEL) + TotalLength([]);
  }

  /** The regions and the total after a run from a fresh address space. */
  ghost function SpaceAt(qs: seq<Request>, t: nat): (seq<Interval>, u32)
    requires t <= |qs|
  {
    if t == 0 then ([ZERO_PAGE, KERNEL], 0) else Next(SpaceAt(qs, t - 1).0, SpaceAt(qs, t - 1).1, qs[t - 1])
  }

  /** The space the run leads to is sound at moment `t`. */
  ghost predicate SoundAt(qs: seq<Request>, t: nat)
    requires t <= |qs|
  {
    Sound(SpaceAt(qs, t).0, SpaceAt(qs, t).1)
  }

  lemma AlwaysSoundNow(s: seq<Interval>, total: u32, qs: seq<Request>)
    ensures AlwaysSound(s, total, qs) ==> Sound(s, total)
  {
  }

  lemma AlwaysSoundLater(s: seq<Interval>, total: u32, qs: seq<Request>)
    requires qs != []
    ensures AlwaysSound(s, total, qs) <==>
            Sound(s, total) && AlwaysSound(Next(s, total, qs[0]).0, Next(s, total, qs[0]).1, qs[1..])
  {
  }

  lemma AlwaysSoundAt(qs: seq<Request>, t: nat)
    requires t < |qs|
    ensures AlwaysSound(SpaceAt(qs, t).0, SpaceAt(qs, t).1, qs[t..]) <==>
            SoundAt(qs, t) && AlwaysSound(SpaceAt(qs, t + 1).0, SpaceAt(qs, t + 1).1, qs[t + 1..])
  {
    AlwaysSoundLater(SpaceAt(qs, t).0, SpaceAt(qs, t).1, qs[t..]);
    assert qs[t..][1..] == qs[t + 1..];
  }

  /** A run that is sound throughout leads to a sound space at every moment. */
  lemma {:induction false} SoundAtEveryMoment(qs: seq<Request>, t: nat, u: nat)
    requires t <= u <= |qs| && AlwaysSound(SpaceAt(qs, t).0, SpaceAt(qs, t).1, qs[t..])
    ensures SoundAt(qs, u)
    decreases u - t
  {
    if t < u {
      AlwaysSoundAt(qs, t);
      SoundAtEveryMoment(qs, t + 1, u);
    } else {
      AlwaysSoundNow(SpaceAt(qs, t).0, SpaceAt(qs, t).1, qs[t..]);
    }
  }

  /** A mapped region is made of whole pages and never touches the zero page or the kernel. */
  lemma MapStaysInUserSpace(s: seq<Interval>, total: u32, size: u32)
    requires Sound(s, total) && Sane(s, Map(size)) && FindFree(s, LAST, ToPage(size)).Some?
    ensures var r := FindFree(s, LAST, ToPage(size)).value;
            Aligned(r) && 0x1000 <= r.from <= r.to < KERNEL_BASE && size <= Length(r) < size + PAGE
  {
    SearchAligned(s, ToPage(size));
    FindFreePromise(s, LAST, ToPage(size));
    var r := FindFree(s, LAST, ToPage(size)).value;
    NotWholeSpace(s, r);
    var z :| 0 <= z < |s| && s[z] == ZERO_PAGE;
    var k :| 0 <= k < |s| && s[k] == KERNEL;
    assert Disjoint(s[z], r) && Disjoint(s[k], r);
  }

  lemma LastEnds(s: seq<Interval>, k: nat)
    requires WellFormed(s, LAST) && k < |s| && s[k].to == LAST
    ensures k == |s| - 1
  {
    assert s[|s| - 1].from <= LAST;
  }

  lemma FirstStarts(s: seq<Interval>, z: nat)
    requires WellFormed(s, LAST) && z < |s| && s[z].from == 0
    ensures z == 0
  {
    assert s[0].to >= 0;
  }

  // ---------- What is mapped stays mapped ----------

  /** The answer when no region was mapped. */
  const NOTHING: Interval := Interval(0, 0)

  ghost function Mapped(s: seq<Interval>, q: Request): Interval {
    if !q.Map? then NOTHING else match FindFree(s, LAST, ToPage(q.size)) case Some(r) => r case None => NOTHING
  }

  ghost function MappedAt(qs: seq<Request>, t: nat): Interval
    requires t < |qs|
  {
    Mapped(SpaceAt(qs, t).0, qs[t])
  }

  ghost function Answers(qs: seq<Request>, t: nat): (r: seq<Interval>)
    requires t <= |qs|
    ensures |r| == t
  {
    if t == 0 then [] else Answers(qs, t - 1) + [MappedAt(qs, t - 1)]
  }

  /** A mapped or recorded region becomes live, an unmapped one is forgotten once, and no other region is touched. */
  lemma NextRegions(s: seq<Interval>, total: u32, q: Request)
    ensures multiset(Next(s, total, q).0) ==
            match q
            case Map(size) =>
              multiset(s) + (match FindFree(s, LAST, ToPage(size)) case Some(r) => multiset{r} case None => multiset{})
            case Record(r) => multiset(s) + multiset{r}
            case Unmap(r) => multiset(s) - multiset{r}
  {
    match q {
      case Map(size) =>
        var r := FindFree(s, LAST, ToPage(size));
        if r.Some? { InsertedMembers(s, r.value); }
      case Record(r) => InsertedMembers(s, r);
      case Unmap(r) => RemovedOnce(s, r);
    }
  }

  lemma LiveAfter(s: seq<Interval>, total: u32, q: Request, r: Interval)
    requires r in s && q != Unmap(r)
    ensures r in Next(s, total, q).0
  {
    NextRegions(s, total, q);
    assert multiset(s)[r] > 0;
    assert multiset(Next(s, total, q).0)[r] > 0;
  }

  /** A live region stays live until it is unmapped. */
  lemma {:induction false} StaysMapped(qs: seq<Request>, t: nat, u: nat, r: Interval)
    requires t <= u <= |qs| && r in SpaceAt(qs, t).0 && Unmap(r) !in qs[t..u]
    ensures r in SpaceAt(qs, u).0
    decreases u - t
  {
    if t < u {
      InStretch(qs, t, u, Unmap(r));
      StaysMapped(qs, t, u - 1, r);
      LiveAfter(SpaceAt(qs, u - 1).0, SpaceAt(qs, u - 1).1, qs[u - 1], r);
    }
  }

  lemma MapAnswers(s: seq<Interval>, total: u32, q: Request, r: Interval)
    requires Sound(s, total) && Sane(s, q) && Mapped(s, q) == r != NOTHING
    ensures r in Next(s, total, q).0 && 0x1000 <= r.from <= r.to < KERNEL_BASE
    ensures forall live | live in s :: Disjoint(live, r)
  {
    NextRegions(s, total, q);
    assert r in multiset(Next(s, total, q).0);
    MapStaysInUserSpace(s, total, q.size);
    FindFreePromise(s, LAST, ToPage(q.size));
    forall live | live in s ensures Disjoint(live, r) {
      var k :| 0 <= k < |s| && s[k] == live;
      assert Disjoint(s[k], r);
    }
  }

  lemma MappedWhileSound(qs: seq<Request>, t: nat, live: Interval, r: Interval)
    requires t < |qs| && AlwaysSound([ZERO_PAGE, KERNEL], 0, qs) && MappedAt(qs, t) == r != NOTHING
    ensures r in SpaceAt(qs, t + 1).0
    ensures live in SpaceAt(qs, t).0 ==> Disjoint(live, r)
  {
    assert qs[0..] == qs;
    SoundAtEveryMoment(qs, 0, t);
    SoundAtEveryMoment(qs, 0, t + 1);
    SoundStep(SpaceAt(qs, t).0, SpaceAt(qs, t).1, qs[t]);
    MapAnswers(SpaceAt(qs, t).0, SpaceAt(qs, t).1, qs[t], r);
  }

  lemma MappedStays(qs: seq<Request>, t1: nat, t2: nat, r: Interval)
    requires t1 < t2 <= |qs| && AlwaysSound([ZERO_PAGE, KERNEL], 0, qs) && MappedAt(qs, t1) == r != NOTHING
    requires Unmap(r) !in qs[t1 + 1..t2]
    ensures r in SpaceAt(qs, t2).0
  {
    MappedWhileSound(qs, t1, r, r);
    StaysMapped(qs, t1 + 1, t2, r);
  }

  /** Over every sound run, two mapped regions share no address unless the first was unmapped in between. */
  lemma MappedApart(qs: seq<Request>, t1: nat, t2: nat, r1: Interval, r2: Interval)
    requires t1 < t2 < |qs| && AlwaysSound([ZERO_PAGE, KERNEL], 0, qs)
    requires MappedAt(qs, t1) == r1 != NOTHING && MappedAt(qs, t2) == r2 != NOTHING
    requires Unmap(r1) !in qs[t1 + 1..t2]
    ensures Disjoint(r1, r2)
  {
    MappedStays(qs, t1, t2, r1);
    MappedWhileSound(qs, t2, r1, r2);
  }

  // ---------- What holds even when recorded regions overlap ----------

  /** Between the zero page and the kernel. */
  ghost predicate InUserSpace(r: Interval) { 0x1000 <= r.from <= r.to < KERNEL_BASE }

  /** The zero page first, the kernel last, everything else between them, overlapping or not. */
  ghost predicate Framed(s: seq<Interval>) {
    && |s| >= 2 && s[0] == ZERO_PAGE && s[|s| - 1] == KERNEL
    && forall k | 0 < k < |s| - 1 :: InUserSpace(s[k])
  }

  lemma SoundIsFramed(s: seq<Interval>, total: u32)
    requires Sound(s, total)
    ensures Framed(s)
  {
    var z :| 0 <= z < |s| && s[z] == ZERO_PAGE;
    var k :| 0 <= k < |s| && s[k] == KERNEL;
    LastEnds(s, k);
    FirstStarts(s, z);
    forall j | 0 < j < |s| - 1 ensures InUserSpace(s[j]) {
      assert s[0].to < s[j].from && Proper(s[j], LAST) && s[j].to < s[|s| - 1].from;
    }
  }

  /** In such a space, requests of up to one gigabyte can never wrap. */
  lemma GigabyteIsSane(s: seq<Interval>, size: u32)
    requires Framed(s) && size <= 0x4000_0000
    ensures Sane(s, Map(size))
  {
    assert s[|s| - 2].to < KERNEL_BASE;
  }

  lemma {:induction false} FramedScan(s: seq<Interval>, size: u32, k: nat)
    requires Framed(s) && 0 < size <= 0x4000_0000 && k < |s|
    ensures var r := ScanGaps(s, size, k); r.Some? ==> InUserSpace(r.value) && Length(r.value) == size
    decreases |s| - k
  {
    if k + 1 < |s| { FramedScan(s, size, k + 1); }
  }

  /** They are granted whole pages of user space, as many as they need. */
  lemma FramedMap(s: seq<Interval>, size: u32)
    requires Framed(s) && AllEndOnPages(s) && size <= 0x4000_0000 && FindFree(s, LAST, ToPage(size)).Some?
    ensures var r := FindFree(s, LAST, ToPage(size)).value;
            Aligned(r) && InUserSpace(r) && size <= Length(r) < size + PAGE
  {
    SearchAligned(s, ToPage(size));
    FramedScan(s, ToPage(size), 0);
  }

  /** Requests of up to a gigabyte, and recorded regions in user space that end with a page. */
  ghost predicate Modest(q: Request) {
    match q
    case Map(size) => size <= 0x4000_0000
    case Record(r) => InUserSpace(r) && EndsOnPage(r)
    case Unmap(r) => r != ZERO_PAGE && r != KERNEL
  }

  lemma FramedInsert(s: seq<Interval>, r: Interval)
    requires Framed(s) && InUserSpace(r)
    ensures Framed(Inserted(s, r))
  {
    var k := InsertionPoint(s, r);
    InsertedAt(s, r, k);
    assert s[0].ThisBefore(r) && !s[|s| - 1].ThisBefore(r);
  }

  lemma FramedRemove(s: seq<Interval>, r: Interval)
    requires Framed(s) && r in s && r != ZERO_PAGE && r != KERNEL
    ensures Framed(RemoveFirst(s, r))
  {
    var k := FirstIndex(s, r);
    RemoveFirstAt(s, r, k);
  }

  lemma {:induction false} FirstIndex(s: seq<Interval>, r: Interval) returns (k: nat)
    requires r in s
    ensures k < |s| && s[k] == r && r !in s[..k]
  {
    if s[0] == r {
      k := 0;
    } else {
      k := FirstIndex(s[1..], r);
      assert s[..k + 1] == [s[0]] + s[1..][..k];
      k := k + 1;
    }
  }

  /** Framed, page by page and accounted for. */
  ghost predicate Orderly(s: seq<Interval>, total: u32) {
    Framed(s) && AllEndOnPages(s) && Accounted(s, total)
  }

  lemma OrderlyStep(s: seq<Interval>, total: u32, q: Request)
    requires Orderly(s, total) && Modest(q)
    ensures Orderly(Next(s, total, q).0, Next(s, total, q).1)
  {
    AlignedStep(s, total, q);
    match q {
      case Map(size) =>
        if FindFree(s, LAST, ToPage(size)).Some? {
          FramedMap(s, size);
          FramedInsert(s, FindFree(s, LAST, ToPage(size)).value);
        }
      case Record(r) => FramedInsert(s, r);
      case Unmap(r) => if r in s { FramedRemove(s, r); }
    }
  }

  /** Over every modest run the space stays orderly, whatever regions the loader makes overlap. */
  lemma {:induction false} ModestRun(qs: seq<Request>, t: nat)
    requires t <= |qs| && forall q | q in qs :: Modest(q)
    ensures Orderly(SpaceAt(qs, t).0, SpaceAt(qs, t).1)
  {
    if t == 0 {
      TotalOfPair();
      assert [ZERO_PAGE, KERNEL][0] == ZERO_PAGE;
    } else {
      ModestRun(qs, t - 1);
      assert qs[t - 1] in qs;
      OrderlyStep(SpaceAt(qs, t - 1).0, SpaceAt(qs, t - 1).1, qs[t - 1]);
    }
  }

  /** A larger request can: the sum wraps and the inverted range would be recorded as live. */
  lemma HugeRequestWraps()
    ensures var s := [ZERO_PAGE, Interval(0x1000, 0x1FFF), KERNEL];
            Sound(s, 0x1000) && !Sane(s, Map(0xFFFF_F000))
            && FindFree(s, LAST, ToPage(0xFFFF_F000)) == Some(Interval(0x2000, 0xFFF))
  {
    var s := [ZERO_PAGE, Interval(0x1000, 0x1FFF), KERNEL];
    assert s[1..][1..] == [KERNEL];
    assert TotalLength(s) == 0x1000 + TotalLength(s[1..]);
    assert TotalLength(s[1..]) == 0x1000 + TotalLength([KERNEL]);
    assert s[0] == ZERO_PAGE && s[2] == KERNEL;
    var size: u32 := 0xFFFF_F000;
    assert !GapFits(s, size, 0) && !GapFits(s, size, 1);
    assert ScanGaps(s, size, 0) == ScanGaps(s, size, 1) == Some(After(s[1], size));
  }

  // ---------- What the program loader records ----------

  function PageOf(addr: u32): (r: u32)
    ensures r % PAGE == 0 && r <= addr < r + PAGE
  {
    addr - addr % PAGE
  }

  lemma SamePage(page: u32, addr: u32)
    requires page % PAGE == 0 && page <= addr < page + PAGE
    ensures PageOf(addr) == page
  {
  }

  /** The region of a loadable segment: from its first byte to the end of its last page. */
  function SegmentRegion(vaddr: u32, memsz: u32): Interval
    requires 0 < memsz && vaddr + memsz <= KERNEL_BASE
  {
    Interval(vaddr, PageOf(vaddr + memsz - 1) + PAGE - 1)
  }

  /** The page-by-page loop of the loader: the region to record, or none if it runs into the kernel. */
  method LoadSegment(vaddr0: u32, memsz: u32) returns (region: Option<Interval>, top: u32)
    ensures memsz == 0 ==> region == Some(Interval(vaddr0, Wrap(vaddr0 - 1))) && top == vaddr0
    ensures memsz > 0 && vaddr0 + memsz > KERNEL_BASE ==> region == None
    ensures memsz > 0 && vaddr0 + memsz <= KERNEL_BASE ==>
              region == Some(SegmentRegion(vaddr0, memsz)) && top == vaddr0 + memsz
  {
    var vaddr, vaddr1, len := vaddr0, vaddr0, memsz;
    while len != 0
      invariant 0 <= len && vaddr0 <= vaddr && vaddr + len == vaddr0 + memsz
      invariant vaddr == vaddr0 ==> vaddr1 == vaddr0 && len == memsz
      invariant vaddr > vaddr0 ==> vaddr <= KERNEL_BASE && vaddr1 == PageOf(vaddr - 1) + PAGE
      decreases len
    {
      var page := PageOf(vaddr);
      if page >= KERNEL_BASE { return None, vaddr; }
      var residual := PAGE - (vaddr - page);
      vaddr1 := page + PAGE;
      var chunk := if len < residual then len else residual;
      SamePage(page, vaddr + chunk - 1);
      len, vaddr := len - chunk, vaddr + chunk;
    }
    return Some(Interval(vaddr0, Wrap(vaddr1 - 1))), vaddr;
  }

  /** A segment without a byte is recorded as a range that ends before it begins: never sound. */
  lemma EmptySegmentIsInsane(s: seq<Interval>, total: u32, vaddr: u32)
    requires Sound(s, total)
    ensures !Sane(s, Record(Interval(vaddr, Wrap(vaddr - 1))))
  {
    var z :| 0 <= z < |s| && s[z] == ZERO_PAGE;
    assert vaddr == 0 ==> !Disjoint(s[z], Interval(vaddr, Wrap(vaddr - 1)));
  }

  /** The guard page is meant for the first page behind the program. */
  function GuardPage(top: u32): Interval
    requires top + PAGE <= TWO32
  {
    Interval(PageOf(top), PageOf(top) + PAGE - 1)
  }

  /** Behind a program that fills its last page the guard page is sound; behind any other it overlaps that page. */
  lemma GuardPageExactly(s: seq<Interval>, total: u32, vaddr: u32, memsz: u32)
    requires Sound(s, total) && 0 < memsz && vaddr + memsz + PAGE <= KERNEL_BASE
    requires SegmentRegion(vaddr, memsz) in s
    requires forall r | r in s :: r == KERNEL || r == SegmentRegion(vaddr, memsz) || r.to < vaddr
    ensures Sane(s, Record(GuardPage(vaddr + memsz))) <==> (vaddr + memsz) % PAGE == 0
  {
    var seg, guard := SegmentRegion(vaddr, memsz), GuardPage(vaddr + memsz);
    var k :| 0 <= k < |s| && s[k] == seg;
    SegmentEnds(vaddr, memsz);
    if (vaddr + memsz) % PAGE == 0 {
      forall j | 0 <= j < |s| ensures Disjoint(s[j], guard) { assert s[j] in s; }
    } else {
      assert !Disjoint(s[k], guard);
    }
  }

  lemma SegmentEnds(vaddr: u32, memsz: u32)
    requires 0 < memsz && vaddr + memsz + PAGE <= KERNEL_BASE
    ensures var seg, guard := SegmentRegion(vaddr, memsz), GuardPage(vaddr + memsz);
            && EndsOnPage(seg) && EndsOnPage(guard) && vaddr <= seg.to && guard.to < KERNEL_BASE
            && if (vaddr + memsz) % PAGE == 0 then seg.to + 1 == guard.from else seg.to == guard.to
  {
  }

  /** What comes of it: with the guard page in front of its own segment, a small request is granted inside the program. */
  lemma GuardPageOverlaps()
    ensures var segment, guard := SegmentRegion(0x804_8000, 0x8123), GuardPage(0x805_0123);
            var s := [ZERO_PAGE, segment, KERNEL];
            var s' := [ZERO_PAGE, guard, segment, KERNEL];
            && Sound(s, 0x9000) && !Sane(s, Record(guard)) && Next(s, 0x9000, Record(guard)).0 == s'
            && FindFree(s', LAST, ToPage(0x804_8000)) == Some(Interval(0x1000, 0x804_8FFF))
            && segment.Contains(0x804_8FFF)
  {
    var segment, guard := Interval(0x804_8000, 0x805_0FFF), Interval(0x805_0000, 0x805_0FFF);
    assert segment == SegmentRegion(0x804_8000, 0x8123) && guard == GuardPage(0x805_0123);
    var s, s' := [ZERO_PAGE, segment, KERNEL], [ZERO_PAGE, guard, segment, KERNEL];
    assert s[1..][1..] == [KERNEL] && s[1..] == [segment, KERNEL];
    assert TotalLength(s) == 0x1000 + TotalLength(s[1..]);
    assert TotalLength(s[1..]) == 0x9000 + TotalLength([KERNEL]);
    assert s[0] == ZERO_PAGE && s[1] == segment && s[2] == KERNEL;
    assert !Disjoint(s[1], guard);
    assert Inserted(s, guard) == [ZERO_PAGE] + Inserted(s[1..], guard) == s';
    assert ScanGaps(s', 0x804_8000, 0) == Some(After(s'[0], 0x804_8000));
  }

  class MemoryManager {
    const regions: IntervalList
    var allRegionsSize: u32

    ghost predicate Valid()
      reads this, regions.list, regions.list.Repr
    {
      regions.Valid() && regions.max == LAST && this !in regions.list.Repr
    }

    ghost function Regions(): seq<Interval>
      reads regions.list
    {
      regions.Contents()
    }

    constructor ()
      ensures Valid() && fresh(regions.list) && fresh(regions.list.Repr) && Sound(Regions(), allRegionsSize)
      ensures Regions() == [ZERO_PAGE, KERNEL] && allRegionsSize == 0
    {
      regions := new IntervalList(LAST);
      allRegionsSize := 0;
      new;
      regions.Add(ZERO_PAGE);
      assert Regions() == [ZERO_PAGE];
      regions.Add(KERNEL);
      assert Inserted([ZERO_PAGE], KERNEL) == [ZERO_PAGE] + Inserted([], KERNEL);
      assert Regions() == [ZERO_PAGE, KERNEL];
      TotalOfPair();
      assert Regions()[0] == ZERO_PAGE && Regions()[1] == KERNEL;
    }

    /** Without a free range the source answers {0,0}. */
    method FindAndMapRegion(size: u32) returns (region: Interval)
      requires Valid()
      modifies `allRegionsSize, regions.list.Repr
      ensures Valid() && fresh(regions.list.Repr - old(regions.list.Repr))
      ensures Regions() == Next(old(Regions()), old(allRegionsSize), Map(size)).0
      ensures allRegionsSize == Next(old(Regions()), old(allRegionsSize), Map(size)).1
      ensures region == Mapped(old(Regions()), Map(size))
    {
      var found := regions.Search(ToPage(size));
      match found {
        case None => region := NOTHING;
        case Some(r) =>
          AddRegion(r);
          region := r;
      }
    }

    method AddRegion(region: Interval)
      requires Valid()
      modifies `allRegionsSize, regions.list.Repr
      ensures Valid() && fresh(regions.list.Repr - old(regions.list.Repr))
      ensures Regions() == Next(old(Regions()), old(allRegionsSize), Record(region)).0
      ensures allRegionsSize == Next(old(Regions()), old(allRegionsSize), Record(region)).1
    {
      allRegionsSize := Wrap(allRegionsSize + region.Size());
      regions.Add(region);
    }

    method RemoveRegion(region: Interval)
      requires Valid()
      modifies `allRegionsSize, regions.list.Repr
      ensures Valid() && regions.list.Repr == old(regions.list.Repr)
      ensures Regions() == Next(old(Regions()), old(allRegionsSize), Unmap(region)).0
      ensures allRegionsSize == Next(old(Regions()), old(allRegionsSize), Unmap(region)).1
    {
      var found := regions.Del(region);
      if found {
        allRegionsSize := Wrap(allRegionsSize - region.Size());
      }
    }

    method Serve(q: Request) returns (region: Interval)
      requires Valid()
      modifies `allRegionsSize, regions.list.Repr
      ensures Valid() && fresh(regions.list.Repr - old(regions.list.Repr))
      ensures Regions() == Next(old(Regions()), old(allRegionsSize), q).0
      ensures allRegionsSize == Next(old(Regions()), old(allRegionsSize), q).1
      ensures region == Mapped(old(Regions()), q)
    {
      region := NOTHING;
      match q {
        case Map(size) => region := FindAndMapRegion(size);
        case Record(r) => AddRegion(r);
        case Unmap(r) => RemoveRegion(r);
      }
    }

    method ServeAt(qs: seq<Request>, t: nat) returns (region: Interval)
      requires Valid() && t < |qs| && (Regions(), allRegionsSize) == SpaceAt(qs, t)
      modifies `allRegionsSize, regions.list.Repr
      ensures Valid() && fresh(regions.list.Repr - old(regions.list.Repr))
      ensures (Regions(), allRegionsSize) == SpaceAt(qs, t + 1) && region == MappedAt(qs, t)
    {
      region := Serve(qs[t]);
    }
  }

  /** The object that has gone through a run gave its answers and holds the regions and the total the run leads to. */
  method Replay(qs: seq<Request>, t: nat) returns (manager: MemoryManager, answers: seq<Interval>)
    requires t <= |qs|
    ensures manager.Valid() && fresh(manager) && fresh(manager.regions.list.Repr)
    ensures (manager.Regions(), manager.allRegionsSize) == SpaceAt(qs, t)
    ensures answers == Answers(qs, t)
  {
    if t == 0 {
      manager := new MemoryManager();
      answers := [];
    } else {
      manager, answers := Replay(qs, t - 1);
      var answer := manager.ServeAt(qs, t - 1);
      answers := answers + [answer];
    }
  }
}
