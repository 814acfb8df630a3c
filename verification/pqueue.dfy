/**
 The binary heap behind the kernel's sleep queue, on the growable vector. `HeapOrder` is the
 invariant, the multiset says what the queue holds. The comparator may be any that never calls
 two items greater than each other and whose "does not exceed" is transitive: total preorders
 are, and so is the kernel's comparator of sleepers, which answers -1 both ways on a tie.
 */
module PriorityQueues {
  import opened Vectors

  /** `b` does not exceed `a`. */
  ghost predicate AtLeast<A>(cmp: (A, A) -> int, a: A, b: A) { cmp(b, a) <= 0 }

  /** All the heap needs of a comparator. */
  ghost predicate Consistent<A(!new)>(cmp: (A, A) -> int) {
    && (forall a, b :: cmp(a, b) > 0 ==> cmp(b, a) < 0)
    && (forall a, b, c :: AtLeast(cmp, a, b) && AtLeast(cmp, b, c) ==> AtLeast(cmp, a, c))
  }

  /** The signs of a comparator describe a total preorder. */
  ghost predicate TotalPreorder<A(!new)>(cmp: (A, A) -> int) {
    && (forall a, b :: cmp(a, b) < 0 <==> cmp(b, a) > 0)
    && (forall a, b, c :: cmp(a, b) >= 0 && cmp(b, c) >= 0 ==> cmp(a, c) >= 0)
  }

  lemma TotalPreorderQualifies<A(!new)>(cmp: (A, A) -> int)
    requires TotalPreorder(cmp)
    ensures Consistent(cmp) && forall a, b :: AtLeast(cmp, a, b) <==> cmp(a, b) >= 0
  {
    forall a, b ensures AtLeast(cmp, a, b) <==> cmp(a, b) >= 0 { assert cmp(a, b) < 0 <==> cmp(b, a) > 0; }
  }

  lemma Reflexive<A(!new)>(cmp: (A, A) -> int, a: A)
    requires Consistent(cmp)
    ensures AtLeast(cmp, a, a)
  {
  }

  /** Exceeding is exceeding everything below. */
  lemma ExceedsBelow<A(!new)>(cmp: (A, A) -> int, a: A, b: A, c: A)
    requires Consistent(cmp) && cmp(a, b) > 0
    ensures AtLeast(cmp, a, b)
    ensures AtLeast(cmp, b, c) ==> AtLeast(cmp, a, c)
    ensures cmp(b, c) > 0 ==> cmp(a, c) > 0
  {
    assert AtLeast(cmp, c, a) && AtLeast(cmp, a, b) ==> AtLeast(cmp, c, b);
  }

  function Parent(i: int): int { (i - 1) / 2 }
  function Left(i: int): int { 2 * i + 1 }
  function Right(i: int): int { 2 * i + 2 }

  ghost predicate Edge<A>(s: seq<A>, cmp: (A, A) -> int, i: int)
    requires 0 < i < |s|
  {
    AtLeast(cmp, s[Parent(i)], s[i])
  }

  ghost predicate HeapOrder<A>(s: seq<A>, cmp: (A, A) -> int) {
    forall i | 0 < i < |s| :: Edge(s, cmp, i)
  }

  /** The grandparent edges around `i`: what stands above `i` dominates what stands below it. */
  ghost predicate Bridge<A>(s: seq<A>, cmp: (A, A) -> int, i: int) {
    0 < i < |s| ==> forall c | 0 < c < |s| && Parent(c) == i :: AtLeast(cmp, s[Parent(i)], s[c])
  }

  /** Ordered but for the edge into `i`. */
  ghost predicate UpOk<A>(s: seq<A>, cmp: (A, A) -> int, i: int) {
    (forall j | 0 < j < |s| && j != i :: Edge(s, cmp, j)) && Bridge(s, cmp, i)
  }

  /** Ordered but for the edges out of `i`. */
  ghost predicate DownOk<A>(s: seq<A>, cmp: (A, A) -> int, i: int) {
    (forall j | 0 < j < |s| && Parent(j) != i :: Edge(s, cmp, j)) && Bridge(s, cmp, i)
  }

  ghost function Swap<A>(s: seq<A>, i: int, j: int): (r: seq<A>)
    requires 0 <= i < |s| && 0 <= j < |s|
    ensures |r| == |s| && r[i] == s[j] && r[j] == s[i]
    ensures forall k | 0 <= k < |s| && k != i && k != j :: r[k] == s[k]
    ensures multiset(r) == multiset(s)
  {
    s[i := s[j]][j := s[i]]
  }

  lemma UpSwap<A(!new)>(s: seq<A>, cmp: (A, A) -> int, i: int)
    requires Consistent(cmp) && 0 < i < |s| && UpOk(s, cmp, i) && cmp(s[Parent(i)], s[i]) < 0
    ensures UpOk(Swap(s, i, Parent(i)), cmp, Parent(i))
  {
    var p := Parent(i);
    var r := Swap(s, i, p);
    forall j | 0 < j < |r| && j != p ensures Edge(r, cmp, j) {
      if j == i {
      } else if Parent(j) == i {
        assert AtLeast(cmp, s[p], s[j]);
      } else if Parent(j) == p {
        assert Edge(s, cmp, j);
      } else {
        assert Edge(s, cmp, j);
      }
    }
    if 0 < p {
      assert Edge(s, cmp, p);
      forall c | 0 < c < |r| && Parent(c) == p ensures AtLeast(cmp, r[Parent(p)], r[c]) {
        if c != i { assert Edge(s, cmp, c); }
      }
    }
  }

  lemma DownSwap<A(!new)>(s: seq<A>, cmp: (A, A) -> int, i: int, c: int)
    requires Consistent(cmp) && 0 <= i < c < |s| && Parent(c) == i && DownOk(s, cmp, i)
    requires cmp(s[c], s[i]) > 0
    requires forall d | 0 < d < |s| && Parent(d) == i :: AtLeast(cmp, s[c], s[d])
    ensures DownOk(Swap(s, i, c), cmp, c)
  {
    var r := Swap(s, i, c);
    forall j | 0 < j < |r| && Parent(j) != c ensures Edge(r, cmp, j) {
      if j == i {
        assert AtLeast(cmp, s[Parent(i)], s[c]);
      } else if Parent(j) == i {
        assert AtLeast(cmp, s[c], s[j]);
      } else {
        assert Edge(s, cmp, j);
      }
    }
    forall d | 0 < d < |r| && Parent(d) == c ensures AtLeast(cmp, r[Parent(c)], r[d]) {
      assert Edge(s, cmp, d);
    }
  }

  lemma {:induction false} TopIsGreatest<A(!new)>(s: seq<A>, cmp: (A, A) -> int, i: int)
    requires Consistent(cmp) && HeapOrder(s, cmp) && 0 <= i < |s|
    ensures AtLeast(cmp, s[0], s[i])
    decreases i
  {
    if i > 0 {
      assert Edge(s, cmp, i);
      TopIsGreatest(s, cmp, Parent(i));
    } else {
      Reflexive(cmp, s[0]);
    }
  }

  /** A value of the multiset none of the others exceeds. */
  ghost predicate Greatest<A>(m: multiset<A>, cmp: (A, A) -> int, x: A) {
    x in m && forall y | y in m :: AtLeast(cmp, x, y)
  }

  /** `out` is what popping a queue that holds `m` until it is empty can produce. */
  ghost predicate Drains<A>(m: multiset<A>, cmp: (A, A) -> int, out: seq<A>) {
    if out == [] then m == multiset{} else Greatest(m, cmp, out[0]) && Drains(m - multiset{out[0]}, cmp, out[1..])
  }

  ghost predicate Descending<A>(s: seq<A>, cmp: (A, A) -> int) {
    forall i, j | 0 <= i < j < |s| :: AtLeast(cmp, s[i], s[j])
  }

  lemma DescendingFront<A>(x: A, s: seq<A>, cmp: (A, A) -> int)
    requires Descending(s, cmp) && forall y | y in s :: AtLeast(cmp, x, y)
    ensures Descending([x] + s, cmp)
  {
    var t := [x] + s;
    forall i, j | 0 <= i < j < |t| ensures AtLeast(cmp, t[i], t[j]) {
      assert t[j] == s[j - 1] && t[j] in s;
      if i > 0 { assert t[i] == s[i - 1]; }
    }
  }

  lemma {:induction false} DrainKeeps<A>(m: multiset<A>, cmp: (A, A) -> int, out: seq<A>)
    requires Drains(m, cmp, out)
    ensures multiset(out) == m
  {
    if out != [] {
      DrainKeeps(m - multiset{out[0]}, cmp, out[1..]);
      assert out == [out[0]] + out[1..];
    }
  }

  lemma AboveRest<A>(m: multiset<A>, cmp: (A, A) -> int, x: A, s: seq<A>)
    requires Greatest(m, cmp, x) && multiset(s) == m - multiset{x}
    ensures forall y | y in s :: AtLeast(cmp, x, y)
  {
    forall y | y in s ensures AtLeast(cmp, x, y) { InMultiset(s, y, m - multiset{x}, m); }
  }

  /** What draining gives is everything that was held, greatest first. */
  lemma {:induction false} DrainSorts<A>(m: multiset<A>, cmp: (A, A) -> int, out: seq<A>)
    requires Drains(m, cmp, out)
    ensures multiset(out) == m && Descending(out, cmp)
  {
    DrainKeeps(m, cmp, out);
    if out != [] {
      var rest := m - multiset{out[0]};
      DrainSorts(rest, cmp, out[1..]);
      AboveRest(m, cmp, out[0], out[1..]);
      DescendingFront(out[0], out[1..], cmp);
      assert out == [out[0]] + out[1..];
    }
  }

  lemma InMultiset<A>(s: seq<A>, y: A, rest: multiset<A>, m: multiset<A>)
    requires y in s && multiset(s) == rest && rest <= m
    ensures y in m
  {
    assert y in multiset(s);
  }

  // ---------- Taking the top off ----------

  /** The last item moves to the top. */
  ghost function Topped<A>(s: seq<A>): (r: seq<A>)
    requires s != []
    ensures |r| == |s| - 1 && (r != [] ==> r[0] == s[|s| - 1]) && forall i | 0 < i < |r| :: r[i] == s[i]
  {
    s[0 := s[|s| - 1]][..|s| - 1]
  }

  lemma ToppedOrder<A>(s: seq<A>, cmp: (A, A) -> int)
    requires HeapOrder(s, cmp) && s != []
    ensures DownOk(Topped(s), cmp, 0)
  {
    var r := Topped(s);
    forall j | 0 < j < |r| && Parent(j) != 0 ensures Edge(r, cmp, j) { assert Edge(s, cmp, j); }
  }

  lemma ToppedItems<A>(s: seq<A>)
    requires s != []
    ensures multiset(Topped(s)) == multiset(s) - multiset{s[0]}
  {
    var n := |s| - 1;
    if n > 0 {
      assert s == [s[0]] + s[1..n] + [s[n]];
      assert Topped(s) == [s[n]] + s[1..n];
    } else {
      assert s == [s[0]] && Topped(s) == [];
    }
  }

  lemma TopInMultiset<A(!new)>(s: seq<A>, cmp: (A, A) -> int)
    requires Consistent(cmp) && HeapOrder(s, cmp) && s != []
    ensures Greatest(multiset(s), cmp, s[0])
  {
    forall y | y in multiset(s) ensures AtLeast(cmp, s[0], y) {
      var i :| 0 <= i < |s| && s[i] == y;
      TopIsGreatest(s, cmp, i);
    }
  }

  class PQueue<A(0,!new)> {
    const cmp: (A, A) -> int
    const vec: Vector<A>

    ghost predicate Valid()
      reads vec, vec.data
    {
      Consistent(cmp) && vec.Valid() && HeapOrder(vec.Contents(), cmp)
    }

    ghost function Items(): multiset<A>
      requires vec.Valid()
      reads vec, vec.data
    {
      multiset(vec.Contents())
    }

    constructor (cmp: (A, A) -> int)
      requires Consistent(cmp)
      ensures Valid() && fresh(vec) && fresh(vec.data) && Items() == multiset{} && this.cmp == cmp
    {
      this.cmp := cmp;
      vec := new Vector();
    }

    method SwapItems(i: nat, j: nat)
      requires vec.Valid() && i < vec.size && j < vec.size
      modifies vec.data
      ensures vec.Contents() == Swap(old(vec.Contents()), i, j)
    {
      vec.data[i], vec.data[j] := vec.data[j], vec.data[i];
    }

    method Up(idx: nat)
      requires Consistent(cmp) && vec.Valid() && idx < vec.size && UpOk(vec.Contents(), cmp, idx)
      modifies vec.data
      ensures Valid() && Items() == old(Items())
      decreases idx
    {
      if idx != 0 && cmp(vec.data[Parent(idx)], vec.data[idx]) < 0 {
        UpSwap(vec.Contents(), cmp, idx);
        SwapItems(idx, Parent(idx));
        Up(Parent(idx));
      } else {
        assert idx != 0 ==> Edge(vec.Contents(), cmp, idx);
      }
    }

    method Down(idx: nat)
      requires Consistent(cmp) && vec.Valid() && DownOk(vec.Contents(), cmp, idx)
      modifies vec.data
      ensures Valid() && Items() == old(Items())
      decreases vec.size - idx
    {
      var largest := LargestOf(idx);
      if largest != idx {
        DownSwap(vec.Contents(), cmp, idx, largest);
        SwapItems(idx, largest);
        Down(largest);
      } else {
        forall j | 0 < j < vec.size ensures Edge(vec.Contents(), cmp, j) { }
      }
    }

    /** The greatest of a position and its children, the position itself when they tie. */
    method LargestOf(idx: nat) returns (largest: nat)
      requires Consistent(cmp) && vec.Valid()
      ensures largest == idx || (idx < largest < vec.size && Parent(largest) == idx)
      ensures largest != idx ==> cmp(vec.data[largest], vec.data[idx]) > 0
      ensures forall d | 0 < d < vec.size && Parent(d) == idx :: AtLeast(cmp, vec.data[largest], vec.data[d])
    {
      largest := idx;
      if Left(idx) < vec.size && cmp(vec.data[Left(idx)], vec.data[idx]) > 0 {
        ExceedsBelow(cmp, vec.data[Left(idx)], vec.data[idx], vec.data[idx]);
        largest := Left(idx);
      }
      ghost var first := largest;
      if Right(idx) < vec.size && cmp(vec.data[Right(idx)], vec.data[largest]) > 0 {
        ExceedsBelow(cmp, vec.data[Right(idx)], vec.data[first], vec.data[idx]);
        ExceedsBelow(cmp, vec.data[Right(idx)], vec.data[first], vec.data[Left(idx)]);
        largest := Right(idx);
      }
      ghost var s := vec.data;
      forall d | 0 < d < vec.size && Parent(d) == idx ensures AtLeast(cmp, s[largest], s[d]) {
        assert d == Left(idx) || d == Right(idx);
        Reflexive(cmp, s[d]);
      }
    }

    method Insert(a: A)
      requires Valid()
      modifies vec, vec.data
      ensures Valid() && (vec.data == old(vec.data) || fresh(vec.data))
      ensures Items() == old(Items()) + multiset{a}
    {
      ghost var s := vec.Contents();
      vec.PushBack(a);
      forall j | 0 < j < |s| ensures Edge(vec.Contents(), cmp, j) { assert Edge(s, cmp, j); }
      Up(vec.size - 1);
    }

    /** Takes the top off and puts the last item in its place. */
    method TakeTop() returns (t: A)
      requires vec.Valid() && vec.size > 0
      modifies vec, vec.data
      ensures vec.Valid() && vec.data == old(vec.data)
      ensures t == old(vec.Contents())[0] && vec.Contents() == Topped(old(vec.Contents()))
    {
      t := vec.data[0];
      vec.data[0] := vec.data[vec.size - 1];
      vec.PopBack();
    }

    method Pop() returns (t: A)
      requires Valid() && Items() != multiset{}
      modifies vec, vec.data
      ensures Valid() && vec.data == old(vec.data) && Items() == old(Items()) - multiset{t}
      ensures Greatest(old(Items()), cmp, t)
    {
      ghost var s := vec.Contents();
      ToppedOrder(s, cmp);
      ToppedItems(s);
      TopInMultiset(s, cmp);
      t := TakeTop();
      Down(0);
    }

    /** Pops until the queue is empty. */
    method Drain() returns (out: seq<A>)
      requires Valid()
      modifies vec, vec.data
      ensures Valid() && vec.data == old(vec.data) && Items() == multiset{}
      ensures Drains(old(Items()), cmp, out)
      decreases |Items()|
    {
      if vec.size == 0 { return []; }
      assert vec.data[0] in Items();
      var t := Pop();
      var rest := Drain();
      assert ([t] + rest)[1..] == rest;
      return [t] + rest;
    }
  }

  lemma OneMore<A>(s: seq<A>, i: nat)
    requires i < |s|
    ensures multiset(s[..i + 1]) == multiset(s[..i]) + multiset{s[i]}
  {
    assert s[..i + 1] == s[..i] + [s[i]];
  }

  method InsertAll<A(0,!new)>(cmp: (A, A) -> int, s: seq<A>) returns (q: PQueue<A>)
    requires Consistent(cmp)
    ensures q.Valid() && q.cmp == cmp && fresh(q.vec) && fresh(q.vec.data) && q.Items() == multiset(s)
  {
    q := new PQueue(cmp);
    for i := 0 to |s|
      invariant q.Valid() && q.cmp == cmp && fresh(q.vec) && fresh(q.vec.data)
      invariant q.Items() == multiset(s[..i])
    {
      q.Insert(s[i]);
      OneMore(s, i);
    }
    assert s[..|s|] == s;
  }

  /** Whatever goes into a queue in whatever order comes out sorted, greatest first. */
  method InsertAndDrain<A(0,!new)>(cmp: (A, A) -> int, s: seq<A>) returns (out: seq<A>)
    requires Consistent(cmp)
    ensures multiset(out) == multiset(s) && Descending(out, cmp)
  {
    var q := InsertAll(cmp, s);
    out := q.Drain();
    DrainSorts(multiset(s), cmp, out);
  }

  // ---------- The sleep queue ----------

  /** A process in the sleep queue, and when it wants to be woken. */
  datatype Sleeper = Sleeper(token: nat, pid: nat, sleeptill: nat)

  function SleepCompare(p1: Sleeper, p2: Sleeper): int { if p1.sleeptill >= p2.sleeptill then -1 else 1 }

  /** The kernel's comparator is no preorder, and good enough: who sleeps shorter stands higher. */
  lemma SleepCompareQualifies()
    ensures Consistent(SleepCompare) && !TotalPreorder(SleepCompare)
    ensures forall p, q :: AtLeast(SleepCompare, p, q) <==> p.sleeptill <= q.sleeptill
  {
    var p := Sleeper(0, 0, 0);
    assert SleepCompare(p, p) < 0;
  }

  /** If the sleeper on top is not due, nobody is. */
  method NextDue(q: PQueue<Sleeper>, now: nat) returns (due: bool)
    requires q.Valid() && q.cmp == SleepCompare && q.Items() != multiset{}
    ensures due <==> exists p :: p in q.Items() && p.sleeptill <= now
  {
    TopInMultiset(q.vec.Contents(), SleepCompare);
    SleepCompareQualifies();
    due := q.vec.data[0].sleeptill <= now;
  }

  /** Processes are woken in the order of their times, whatever the order in which they went to sleep. */
  method WakeOrder(sleepers: seq<Sleeper>) returns (out: seq<Sleeper>)
    ensures multiset(out) == multiset(sleepers)
    ensures forall i, j | 0 <= i < j < |out| :: out[i].sleeptill <= out[j].sleeptill
  {
    SleepCompareQualifies();
    out := InsertAndDrain(SleepCompare, sleepers);
    assert forall i, j | 0 <= i < j < |out| :: AtLeast(SleepCompare, out[i], out[j]);
  }
}
