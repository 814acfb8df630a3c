/**
 The kernel's singly linked list: head, tail and a count over hand-made nodes.
 The ghost field `Contents` is the mathematical sequence the list stands for and `spine`
 is the chain of nodes that holds it; every operation is specified on `Contents` alone.
 An iterator of the source is a node (or null for the end), passed here together with
 the ghost position it denotes.
 */
module SinglyLinkedList {

  class Node<T> {
    var item: T
    var next: Node?<T>

    constructor (item: T, next: Node?<T>)
      ensures this.item == item && this.next == next
    {
      this.item, this.next := item, next;
    }
  }

  /** Drops the first occurrence of `x`, if any. */
  function RemoveFirst<T(==)>(s: seq<T>, x: T): (r: seq<T>)
    ensures x !in s ==> r == s
    ensures x in s ==> |r| == |s| - 1
  {
    if s == [] then [] else if s[0] == x then s[1..] else [s[0]] + RemoveFirst(s[1..], x)
  }

  /** Keeps, in order, the elements other than `x`. */
  function Without<T(==)>(s: seq<T>, x: T): (r: seq<T>)
    ensures x !in r
  {
    if s == [] then [] else if s[0] == x then Without(s[1..], x) else [s[0]] + Without(s[1..], x)
  }

  lemma {:induction false} RemoveFirstAt<T>(s: seq<T>, x: T, k: nat)
    requires k < |s| && s[k] == x && x !in s[..k]
    ensures RemoveFirst(s, x) == DeleteAt(s, k)
  {
    if k > 0 {
      assert x !in s[1..][..k - 1] by { assert s[1..][..k - 1] == s[..k][1..]; }
      RemoveFirstAt(s[1..], x, k - 1);
      assert s[0] == s[..k][0];
    }
  }

  lemma {:induction false} RemoveFirstKeepsOthers<T>(s: seq<T>, x: T)
    ensures Without(RemoveFirst(s, x), x) == Without(s, x)
  {
    if s != [] && s[0] != x { RemoveFirstKeepsOthers(s[1..], x); }
  }

  lemma {:induction false} WithoutAbsent<T>(s: seq<T>, x: T)
    requires x !in s
    ensures Without(s, x) == s
  {
    if s != [] { WithoutAbsent(s[1..], x); }
  }

  /** The node at position `i` of a chain, null past its end. */
  ghost function NodeAt<T>(spine: seq<Node<T>>, i: nat): Node?<T> {
    if i < |spine| then spine[i] else null
  }

  /** `s` with `x` put in front of position `k`. */
  ghost function InsertAt<A>(s: seq<A>, k: nat, x: A): (r: seq<A>)
    requires k <= |s|
    ensures |r| == |s| + 1 && r[k] == x
    ensures forall i | 0 <= i < k :: r[i] == s[i]
    ensures forall i | k < i < |r| :: r[i] == s[i - 1]
  {
    if k == 0 then [x] + s else [s[0]] + InsertAt(s[1..], k - 1, x)
  }

  /** `s` without its position `k`. */
  ghost function DeleteAt<A>(s: seq<A>, k: nat): (r: seq<A>)
    requires k < |s|
    ensures |r| == |s| - 1
    ensures forall i | 0 <= i < k :: r[i] == s[i]
    ensures forall i | k <= i < |r| :: r[i] == s[i + 1]
  {
    if k == 0 then s[1..] else [s[0]] + DeleteAt(s[1..], k - 1)
  }

  /** Deleting the position that was just inserted gives the old sequence back. */
  lemma {:induction false} DeleteUndoesInsert<A>(s: seq<A>, k: nat, x: A)
    requires k <= |s|
    ensures DeleteAt(InsertAt(s, k, x), k) == s
  {
    var r := InsertAt(s, k, x);
    assert forall i | 0 <= i < |s| :: DeleteAt(r, k)[i] == s[i];
  }

  ghost predicate Distinct<A>(s: seq<A>) {
    forall i, j | 0 <= i < j < |s| :: s[i] != s[j]
  }

  lemma DistinctInsert<A>(s: seq<A>, k: nat, x: A)
    requires Distinct(s) && k <= |s| && x !in s
    ensures Distinct(InsertAt(s, k, x))
  {
  }

  class SList<T(==)> {
    var size: nat
    var head: Node?<T>
    var tail: Node?<T>  // meaningless while the list is empty: it may still name a node long gone

    ghost var Contents: seq<T>
    ghost var spine: seq<Node<T>>
    ghost var Repr: set<object>

    /** The node at position `i` holds item `i` and links to position `i + 1`. */
    ghost predicate NodeOk(i: nat)
      requires i < |spine| == |Contents|
      reads this, Repr
    {
      && spine[i] in Repr
      && spine[i].item == Contents[i]
      && spine[i].next == NodeAt(spine, i + 1)
    }

    ghost predicate Valid()
      reads this, Repr
      ensures Valid() ==> this in Repr
    {
      && this in Repr
      && size == |spine| == |Contents|
      && (forall i: nat | i < |spine| :: NodeOk(i))
      && Distinct(spine)
      && head == NodeAt(spine, 0)
      && (spine != [] ==> tail == spine[|spine| - 1])
    }

    /** The iterator `it` stands at position `k`; the end is position `|Contents|`. */
    ghost predicate At(it: Node?<T>, k: nat)
      reads this
    {
      k <= |spine| && it == NodeAt(spine, k)
    }

    constructor ()
      ensures Valid() && fresh(Repr) && Contents == []
    {
      size, head, tail := 0, null, null;
      Contents, spine, Repr := [], [], {this};
    }

    method Empty() returns (b: bool)
      requires Valid()
      ensures b <==> Contents == []
    {
      b := size == 0;
    }

    method Count() returns (n: nat)
      requires Valid()
      ensures n == |Contents|
    {
      n := size;
    }

    method AddHead(item: T)
      requires Valid()
      modifies this
      ensures Valid() && fresh(Repr - old(Repr))
      ensures Contents == [item] + old(Contents)
    {
      size := size + 1;
      if head == null {
        head := new Node(item, null);
        tail := head;
      } else {
        var n := new Node(item, head);
        head := n;
      }
      Contents, spine, Repr := [item] + Contents, [head] + spine, Repr + {head};
      forall i: nat | i < |spine| ensures NodeOk(i) {
        assert i > 0 ==> old(NodeOk(i - 1));
      }
    }

    method Add(item: T)
      requires Valid()
      modifies Repr
      ensures Valid() && fresh(Repr - old(Repr))
      ensures Contents == old(Contents) + [item]
    {
      ghost var last := |spine| - 1;
      assert last >= 0 ==> NodeOk(last);
      size := size + 1;
      if head == null {
        head := new Node(item, null);
        tail := head;
      } else {
        var n := new Node(item, null);
        tail.next := n;
        tail := tail.next;
      }
      Contents, spine, Repr := Contents + [item], spine + [tail], Repr + {tail};
      forall i: nat | i < |spine| ensures NodeOk(i) {
        assert i <= last ==> old(NodeOk(i));
      }
    }

    method Begin() returns (it: Node?<T>)
      requires Valid()
      ensures At(it, 0)
    {
      it := head;
    }

    method End() returns (it: Node?<T>)
      requires Valid()
      ensures At(it, |Contents|)
    {
      assert size > 0 ==> NodeOk(size - 1);
      if size == 0 { it := head; } else { it := tail.next; }
    }

    method Next(it: Node<T>, ghost k: nat) returns (it': Node?<T>)
      requires Valid() && At(it, k)
      ensures At(it', k + 1)
    {
      assert NodeOk(k);
      it' := it.next;
    }

    method Item(it: Node<T>, ghost k: nat) returns (item: T)
      requires Valid() && At(it, k)
      ensures k < |Contents| && item == Contents[k]
    {
      assert NodeOk(k);
      item := it.item;
    }

    /** Places `item` just before the iterator by moving the old item into a new node behind it. */
    method Insert(it: Node?<T>, item: T, ghost k: nat)
      requires Valid() && At(it, k)
      modifies Repr
      ensures Valid() && fresh(Repr - old(Repr))
      ensures Contents == InsertAt(old(Contents), k, item)
    {
      if it != null {
        assert NodeOk(k);
        InsertBefore(it, item, k);
      } else {
        Add(item);
      }
    }

    method InsertBefore(n: Node<T>, item: T, ghost k: nat)
      requires Valid() && At(n, k)
      modifies this, n
      ensures Valid() && fresh(Repr - old(Repr))
      ensures Contents == InsertAt(old(Contents), k, item)
    {
      assert NodeOk(k);
      var newnode := new Node(n.item, n.next);
      Adopt(newnode);
      LinkBehind(n, newnode, k);
      SetItem(n, item, k);
    }

    /** Takes a node into the footprint that is no part of the chain yet. */
    method Adopt(newnode: Node<T>)
      requires Valid() && newnode !in Repr
      modifies `Repr
      ensures Valid() && Repr == old(Repr) + {newnode} && newnode !in spine
    {
      Repr := Repr + {newnode};
      forall i: nat | i < |spine| ensures NodeOk(i) && spine[i] != newnode { assert old(NodeOk(i)); }
    }

    /** Links a second node with the same item right behind a node. */
    method LinkBehind(n: Node<T>, newnode: Node<T>, ghost k: nat)
      requires Valid() && k < |spine| && n == spine[k] && newnode in Repr && newnode !in spine
      requires newnode.item == Contents[k] && newnode.next == NodeAt(spine, k + 1)
      modifies `size, `tail, `Contents, `spine, n`next
      ensures Valid() && At(n, k) && k < |old(Contents)|
      ensures Contents == InsertAt(old(Contents), k, old(Contents)[k])
    {
      DistinctInsert(spine, k + 1, newnode);
      assert NodeOk(k);
      size := size + 1;
      n.next := newnode;
      if n == tail { tail := newnode; }
      Contents, spine := InsertAt(Contents, k, Contents[k]), InsertAt(spine, k + 1, newnode);
      forall i: nat | i < |spine| ensures NodeOk(i) {
        assert i <= k ==> old(NodeOk(i));
        assert i > k + 1 ==> old(NodeOk(i - 1));
      }
    }

    method SetItem(n: Node<T>, item: T, ghost k: nat)
      requires Valid() && At(n, k)
      modifies `Contents, n`item
      ensures Valid() && k < |old(Contents)| && Contents == old(Contents)[k := item]
    {
      assert NodeOk(k);
      n.item := item;
      Contents := Contents[k := item];
      forall i: nat | i < |spine| ensures NodeOk(i) { assert old(NodeOk(i)); }
    }

    /** Deletes the iterator's position; the end iterator deletes nothing. */
    method Remove(it: Node?<T>, ghost k: nat)
      requires Valid() && At(it, k)
      modifies Repr
      ensures Valid() && Repr == old(Repr)
      ensures Contents == if k < |old(Contents)| then DeleteAt(old(Contents), k) else old(Contents)
    {
      if it != null {
        assert NodeOk(k) && NodeOk(0);
        if it == head {
          RemoveHead();
        } else {
          var n := Predecessor(it, k);
          assert NodeOk(k - 1);
          RemoveAfter(n, it, k);
        }
      }
    }

    method RemoveHead()
      requires Valid() && head != null
      modifies this
      ensures Valid() && Repr == old(Repr)
      ensures Contents == DeleteAt(old(Contents), 0)
    {
      assert NodeOk(0);
      head := head.next;
      size := size - 1;
      Contents, spine := DeleteAt(Contents, 0), DeleteAt(spine, 0);
      forall i: nat | i < |spine| ensures NodeOk(i) {
        assert old(NodeOk(i + 1));
      }
    }

    method RemoveAfter(n: Node<T>, it: Node<T>, ghost k: nat)
      requires Valid() && k > 0 && At(n, k - 1) && At(it, k)
      modifies this, n
      ensures Valid() && Repr == old(Repr)
      ensures Contents == DeleteAt(old(Contents), k)
    {
      assert NodeOk(k) && NodeOk(k - 1) && NodeOk(|spine| - 1);
      if it == tail {
        n.next := null;
        tail := n;
      } else {
        n.next := n.next.next;
      }
      size := size - 1;
      Contents, spine := DeleteAt(Contents, k), DeleteAt(spine, k);
      forall i: nat | i < |spine| ensures NodeOk(i) {
        assert i < k ==> old(NodeOk(i));
        assert i >= k ==> old(NodeOk(i + 1));
      }
    }

    method Predecessor(it: Node<T>, ghost k: nat) returns (n: Node<T>)
      requires Valid() && At(it, k) && it != head
      ensures k > 0 && At(n, k - 1)
    {
      n := head;
      ghost var p := 0;
      assert NodeOk(0) && NodeOk(k);
      while n.next != it
        invariant 0 <= p < k && n == spine[p]
        decreases k - p
      {
        assert NodeOk(p) && NodeOk(p + 1);
        n := n.next;
        p := p + 1;
      }
      assert NodeOk(p) && NodeOk(p + 1);
    }

    /** Deletes the first item equal to `item` and says whether there was one. */
    method RemoveItem(item: T) returns (found: bool)
      requires Valid()
      modifies Repr
      ensures Valid() && Repr == old(Repr)
      ensures found <==> item in old(Contents)
      ensures Contents == RemoveFirst(old(Contents), item)
    {
      var b := Begin();
      var e := End();
      ghost var k := 0;
      while b != e
        invariant At(b, k) && At(e, |Contents|)
        invariant item !in Contents[..k]
        invariant Valid() && Repr == old(Repr) && Contents == old(Contents)
        decreases |Contents| - k
      {
        var x := Item(b, k);
        if x == item {
          RemoveFirstAt(Contents, item, k);
          Remove(b, k);
          return true;
        }
        b := Next(b, k);
        k := k + 1;
      }
      return false;
    }

    method RemoveAll(item: T)
      requires Valid()
      modifies Repr
      ensures Valid() && Repr == old(Repr)
      ensures Contents == Without(old(Contents), item)
    {
      var more := true;
      while more
        invariant Valid() && Repr == old(Repr)
        invariant Without(Contents, item) == Without(old(Contents), item)
        invariant !more ==> item !in Contents
        decreases more, |Contents|
      {
        RemoveFirstKeepsOthers(Contents, item);
        more := RemoveItem(item);
      }
      WithoutAbsent(Contents, item);
    }

    method Top() returns (item: T)
      requires Valid() && Contents != []
      ensures item == Contents[0]
    {
      assert NodeOk(0);
      item := head.item;
    }

    method Back() returns (item: T)
      requires Valid() && Contents != []
      ensures item == Contents[|Contents| - 1]
    {
      assert NodeOk(size - 1);
      item := tail.item;
    }

    method Pop() returns (item: T)
      requires Valid() && Contents != []
      modifies this
      ensures Valid() && Repr == old(Repr)
      ensures [item] + Contents == old(Contents)
    {
      assert NodeOk(0);
      size := size - 1;
      var n := head;
      head := head.next;
      item := n.item;
      Contents, spine := Contents[1..], spine[1..];
      forall i: nat | i < |spine| ensures NodeOk(i) {
        assert old(NodeOk(i + 1));
      }
    }

    method Clear()
      requires Valid()
      modifies this
      ensures Valid() && Repr == old(Repr) && Contents == []
    {
      size := 0;
      ghost var k := 0;
      while head != null
        invariant size == 0 && k <= |spine| && head == NodeAt(spine, k)
        invariant unchanged(`Repr, `spine, `Contents)
        decreases |spine| - k
      {
        assert old(NodeOk(k));
        head := head.next;
        k := k + 1;
      }
      head, tail := null, null;
      Contents, spine := [], [];
    }

    /** Copy assignment. A list assigned to itself is cleared before it is copied, and ends up empty. */
    method Assign(other: SList<T>)
      requires Valid() && other.Valid() && (other == this || Repr !! other.Repr)
      modifies Repr
      ensures Valid() && fresh(Repr - old(Repr)) && other.Valid()
      ensures Contents == other.Contents == if other == this then [] else old(other.Contents)
    {
      Clear();
      Clone(other);
    }

    method Clone(other: SList<T>)
      requires Valid() && other.Valid() && Contents == [] && (other == this || Repr !! other.Repr)
      modifies Repr
      ensures Valid() && fresh(Repr - old(Repr)) && other.Valid()
      ensures Contents == other.Contents == old(other.Contents)
    {
      var ob := other.Begin();
      var oe := other.End();
      ghost var k := 0;
      while ob != oe
        invariant Valid() && fresh(Repr - old(Repr)) && other.Valid() && other.Contents == old(other.Contents)
        invariant other == this ==> Contents == []
        invariant other != this ==> other.Repr == old(other.Repr) && Repr !! other.Repr
        invariant other.At(ob, k) && other.At(oe, |other.Contents|)
        invariant Contents == other.Contents[..k]
        decreases |other.Contents| - k
      {
        var x := other.Item(ob, k);
        ob := other.Next(ob, k);
        Add(x);
        k := k + 1;
      }
    }
  }
}
