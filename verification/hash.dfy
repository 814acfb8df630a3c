/**
 The fixed-size chained hash table: an array of singly linked lists of key/value pairs.
 `eq` may be any equivalence compatible with `index`; what the table means is the partial
 function `Lookup` from keys to values.
 */
module HashTable {
  import opened Words
  import opened SinglyLinkedList

  /** `eq` is an equivalence, and equal keys have equal indices. */
  ghost predicate Compatible<K(!new)>(eq: (K, K) -> bool, index: K -> nat) {
    && (forall a :: eq(a, a))
    && (forall a, b :: eq(a, b) ==> eq(b, a) && index(a) == index(b))
    && (forall a, b, c :: eq(a, b) && eq(b, c) ==> eq(a, c))
  }

  // ---------- One bucket as a value ----------

  /** The value of the first entry whose key equals `k`. */
  function Find<K, V>(eq: (K, K) -> bool, b: seq<(K, V)>, k: K): Option<V> {
    if b == [] then None else if eq(b[0].0, k) then Some(b[0].1) else Find(eq, b[1..], k)
  }

  /** The bucket without its first entry for `k`. */
  function Erase<K, V>(eq: (K, K) -> bool, b: seq<(K, V)>, k: K): seq<(K, V)> {
    if b == [] then [] else if eq(b[0].0, k) then b[1..] else [b[0]] + Erase(eq, b[1..], k)
  }

  /** No key occurs twice. */
  ghost predicate Unique<K, V>(eq: (K, K) -> bool, b: seq<(K, V)>) {
    b == [] || (Find(eq, b[1..], b[0].0) == None && Unique(eq, b[1..]))
  }

  lemma {:induction false} FindNone<K, V>(eq: (K, K) -> bool, b: seq<(K, V)>, k: K)
    ensures Find(eq, b, k) == None <==> forall j | 0 <= j < |b| :: !eq(b[j].0, k)
  {
    if b != [] {
      FindNone(eq, b[1..], k);
      assert forall j | 1 <= j < |b| :: b[j] == b[1..][j - 1];
    }
  }

  /** `Unique` says it of every two positions. */
  lemma {:induction false} UniquePairs<K, V>(eq: (K, K) -> bool, b: seq<(K, V)>, i: nat, j: nat)
    requires Unique(eq, b) && i < j < |b|
    ensures !eq(b[j].0, b[i].0)
  {
    if i == 0 {
      FindNone(eq, b[1..], b[0].0);
      assert b[j] == b[1..][j - 1];
    } else {
      UniquePairs(eq, b[1..], i - 1, j - 1);
    }
  }

  lemma {:induction false} FindEquals<K(!new), V>(eq: (K, K) -> bool, index: K -> nat, b: seq<(K, V)>, k: K, k': K)
    requires Compatible(eq, index) && eq(k, k')
    ensures Find(eq, b, k) == Find(eq, b, k')
  {
    if b != [] { FindEquals(eq, index, b[1..], k, k'); }
  }

  lemma {:induction false} FindErase<K(!new), V>(eq: (K, K) -> bool, index: K -> nat, b: seq<(K, V)>, k: K, k': K)
    requires Compatible(eq, index) && Unique(eq, b)
    ensures Find(eq, Erase(eq, b, k), k') == if eq(k', k) then None else Find(eq, b, k')
  {
    if b != [] {
      FindErase(eq, index, b[1..], k, k');
      if eq(b[0].0, k) && eq(k', k) {
        FindEquals(eq, index, b[1..], b[0].0, k');
      }
    }
  }

  lemma {:induction false} UniqueErase<K(!new), V>(eq: (K, K) -> bool, index: K -> nat, b: seq<(K, V)>, k: K)
    requires Compatible(eq, index) && Unique(eq, b)
    ensures Unique(eq, Erase(eq, b, k))
  {
    if b != [] && !eq(b[0].0, k) {
      UniqueErase(eq, index, b[1..], k);
      FindErase(eq, index, b[1..], k, b[0].0);
    }
  }

  lemma {:induction false} FindAppend<K, V>(eq: (K, K) -> bool, b: seq<(K, V)>, e: (K, V), k: K)
    ensures Find(eq, b + [e], k) ==
            if Find(eq, b, k).Some? then Find(eq, b, k) else if eq(e.0, k) then Some(e.1) else None
  {
    if b != [] {
      assert (b + [e])[1..] == b[1..] + [e];
      FindAppend(eq, b[1..], e, k);
    } else {
      assert b + [e] == [e] && [e][1..] == [];
    }
  }

  lemma {:induction false} UniqueAppend<K(!new), V>(eq: (K, K) -> bool, index: K -> nat, b: seq<(K, V)>, e: (K, V))
    requires Compatible(eq, index) && Unique(eq, b) && Find(eq, b, e.0) == None
    ensures Unique(eq, b + [e])
  {
    if b != [] {
      assert (b + [e])[1..] == b[1..] + [e];
      UniqueAppend(eq, index, b[1..], e);
      FindAppend(eq, b[1..], e, b[0].0);
    }
  }

  lemma {:induction false} EraseAt<K, V>(eq: (K, K) -> bool, b: seq<(K, V)>, key: K, k: nat)
    requires k < |b| && eq(b[k].0, key) && (forall j | 0 <= j < k :: !eq(b[j].0, key))
    ensures Erase(eq, b, key) == DeleteAt(b, k) && Find(eq, b, key) == Some(b[k].1)
  {
    if k > 0 { EraseAt(eq, b[1..], key, k - 1); }
  }

  lemma {:induction false} EraseAbsent<K, V>(eq: (K, K) -> bool, b: seq<(K, V)>, key: K)
    requires forall j | 0 <= j < |b| :: !eq(b[j].0, key)
    ensures Erase(eq, b, key) == b && Find(eq, b, key) == None
  {
    if b != [] { EraseAbsent(eq, b[1..], key); }
  }

  /** Every key of bucket `i` belongs there. */
  ghost predicate Placed<K, V>(index: K -> nat, n: nat, b: seq<(K, V)>, i: nat)
    requires n > 0
  {
    forall e | e in b :: index(e.0) % n == i
  }

  lemma {:induction false} PlacedErase<K, V>(eq: (K, K) -> bool, index: K -> nat, n: nat, b: seq<(K, V)>, i: nat, k: K)
    requires n > 0 && Placed(index, n, b, i)
    ensures Placed(index, n, Erase(eq, b, k), i)
  {
    if b != [] { PlacedErase(eq, index, n, b[1..], i, k); }
  }

  // ---------- Buckets in place ----------

  /** Walks a bucket to the first entry for `key`. */
  method Locate<K(==), V(==)>(entry: SList<(K, V)>, eq: (K, K) -> bool, key: K)
    returns (b: Node?<(K, V)>, ghost k: nat)
    requires entry.Valid()
    ensures entry.At(b, k) && (b == null <==> k == |entry.Contents|)
    ensures forall j | 0 <= j < k :: !eq(entry.Contents[j].0, key)
    ensures k < |entry.Contents| ==> eq(entry.Contents[k].0, key)
  {
    b := entry.Begin();
    var e := entry.End();
    k := 0;
    while b != e
      invariant entry.At(b, k) && entry.At(e, |entry.Contents|)
      invariant forall j | 0 <= j < k :: !eq(entry.Contents[j].0, key)
      decreases |entry.Contents| - k
    {
      var candidate := entry.Item(b, k);
      if eq(candidate.0, key) { return; }
      b := entry.Next(b, k);
      k := k + 1;
    }
  }

  method EraseIn<K(==), V(==)>(entry: SList<(K, V)>, eq: (K, K) -> bool, key: K) returns (found: bool)
    requires entry.Valid()
    modifies entry.Repr
    ensures entry.Valid() && entry.Repr == old(entry.Repr)
    ensures entry.Contents == Erase(eq, old(entry.Contents), key)
    ensures found <==> Find(eq, old(entry.Contents), key).Some?
  {
    var b, k := Locate(entry, eq, key);
    if b != null {
      EraseAt(eq, entry.Contents, key, k);
      entry.Remove(b, k);
      return true;
    }
    EraseAbsent(eq, entry.Contents, key);
    return false;
  }

  method FindIn<K(==), V(==)>(entry: SList<(K, V)>, eq: (K, K) -> bool, key: K) returns (value: Option<V>)
    requires entry.Valid()
    ensures value == Find(eq, entry.Contents, key)
  {
    var b, k := Locate(entry, eq, key);
    if b != null {
      EraseAt(eq, entry.Contents, key, k);
      var candidate := entry.Item(b, k);
      return Some(candidate.1);
    }
    EraseAbsent(eq, entry.Contents, key);
    return None;
  }

  // ---------- The whole table as a value ----------

  type Table<K, V> = seq<seq<(K, V)>>

  ghost predicate TableOk<K, V>(eq: (K, K) -> bool, index: K -> nat, t: Table<K, V>) {
    |t| > 0 && forall i: nat | i < |t| :: Placed(index, |t|, t[i], i) && Unique(eq, t[i])
  }

  function Lookup<K, V>(eq: (K, K) -> bool, index: K -> nat, t: Table<K, V>, k: K): Option<V>
    requires |t| > 0
  {
    Find(eq, t[index(k) % |t|], k)
  }

  function Inserted<K, V>(eq: (K, K) -> bool, index: K -> nat, t: Table<K, V>, k: K, v: V): Table<K, V>
    requires |t| > 0
  {
    var i := index(k) % |t|;
    t[i := Erase(eq, t[i], k) + [(k, v)]]
  }

  function Erased<K, V>(eq: (K, K) -> bool, index: K -> nat, t: Table<K, V>, k: K): Table<K, V>
    requires |t| > 0
  {
    var i := index(k) % |t|;
    t[i := Erase(eq, t[i], k)]
  }

  lemma InsertedOk<K(!new), V>(eq: (K, K) -> bool, index: K -> nat, t: Table<K, V>, k: K, v: V)
    requires Compatible(eq, index) && TableOk(eq, index, t)
    ensures TableOk(eq, index, Inserted(eq, index, t, k, v))
  {
    var i := index(k) % |t|;
    PlacedErase(eq, index, |t|, t[i], i, k);
    UniqueErase(eq, index, t[i], k);
    FindErase(eq, index, t[i], k, k);
    UniqueAppend(eq, index, Erase(eq, t[i], k), (k, v));
  }

  lemma ErasedOk<K(!new), V>(eq: (K, K) -> bool, index: K -> nat, t: Table<K, V>, k: K)
    requires Compatible(eq, index) && TableOk(eq, index, t)
    ensures TableOk(eq, index, Erased(eq, index, t, k))
  {
    var i := index(k) % |t|;
    PlacedErase(eq, index, |t|, t[i], i, k);
    UniqueErase(eq, index, t[i], k);
  }

  /** Insertion is map update: the key's class gets the value, every other key keeps its own. */
  lemma LookupInserted<K(!new), V>(eq: (K, K) -> bool, index: K -> nat, t: Table<K, V>, k: K, v: V, k': K)
    requires Compatible(eq, index) && TableOk(eq, index, t)
    ensures Lookup(eq, index, Inserted(eq, index, t, k, v), k') ==
            if eq(k', k) then Some(v) else Lookup(eq, index, t, k')
  {
    var i := index(k) % |t|;
    FindErase(eq, index, t[i], k, k');
    FindAppend(eq, Erase(eq, t[i], k), (k, v), k');
  }

  /** Erasure is map removal. */
  lemma LookupErased<K(!new), V>(eq: (K, K) -> bool, index: K -> nat, t: Table<K, V>, k: K, k': K)
    requires Compatible(eq, index) && TableOk(eq, index, t)
    ensures Lookup(eq, index, Erased(eq, index, t, k), k') ==
            if eq(k', k) then None else Lookup(eq, index, t, k')
  {
    FindErase(eq, index, t[index(k) % |t|], k, k');
  }

  /** Equal keys are one entry: a key sits at most once, and only in its own bucket. */
  lemma KeySitsOnce<K(!new), V>(eq: (K, K) -> bool, index: K -> nat, t: Table<K, V>, i: nat, a: nat, j: nat, b: nat)
    requires Compatible(eq, index) && TableOk(eq, index, t)
    requires i < |t| && j < |t| && a < |t[i]| && b < |t[j]| && eq(t[i][a].0, t[j][b].0)
    ensures i == j == index(t[i][a].0) % |t| && a == b
  {
    assert Placed(index, |t|, t[i], i) && Placed(index, |t|, t[j], j);
    if a < b { UniquePairs(eq, t[i], a, b); }
    if b < a { UniquePairs(eq, t[i], b, a); }
  }

  // ---------- The table in place ----------

  class Hash<K(==), V(==)> {
    const eq: (K, K) -> bool
    const index: K -> nat
    const data: array<SList<(K, V)>>
    ghost var table: Table<K, V>
    ghost var reprs: seq<set<object>>  // the footprint of each bucket
    ghost var Repr: set<object>

    ghost predicate BucketOk(i: nat)
      requires i < data.Length == |table| == |reprs|
      reads this, data, Repr
    {
      && data[i] in Repr && data[i].Repr <= Repr && this !in data[i].Repr && data !in data[i].Repr
      && data[i].Repr == reprs[i] && data[i].Contents == table[i]
      && data[i].Valid()
    }

    ghost predicate Valid()
      reads this, data, Repr
      ensures Valid() ==> this in Repr
    {
      && this in Repr && data in Repr && 0 < data.Length == |table| == |reprs|
      && (forall i: nat | i < data.Length :: BucketOk(i))
      && (forall i, j | 0 <= i < j < |reprs| :: reprs[i] !! reprs[j])
    }

    constructor (n: nat, eq: (K, K) -> bool, index: K -> nat)
      requires n > 0
      ensures Valid() && fresh(Repr)
      ensures this.eq == eq && this.index == index && table == seq(n, _ => [])
    {
      var first := new SList<(K, V)>();
      var buckets := new SList<(K, V)>[n](_ => first);
      ghost var all, rs := {buckets} + first.Repr, [first.Repr];
      var i := 1;
      while i < n
        invariant 1 <= i <= n && |rs| == i && fresh(buckets) && fresh(all) && buckets in all
        invariant forall j | 0 <= j < i :: buckets[j].Valid() && buckets[j].Contents == [] && buckets[j].Repr == rs[j]
        invariant forall j | 0 <= j < i :: rs[j] <= all && buckets !in rs[j]
        invariant forall j, k | 0 <= j < k < i :: rs[j] !! rs[k]
      {
        var bucket := new SList<(K, V)>();
        buckets[i] := bucket;
        all, rs := all + bucket.Repr, rs + [bucket.Repr];
        i := i + 1;
      }
      this.eq, this.index, this.data := eq, index, buckets;
      this.table, this.reprs, this.Repr := seq(n, _ => []), rs, {this} + all;
    }

    method FindKey(key: K) returns (value: Option<V>)
      requires Valid()
      ensures value == Lookup(eq, index, table, key)
    {
      var idx := index(key) % data.Length;
      assert BucketOk(idx);
      value := FindIn(data[idx], eq, key);
    }

    method Insert(key: K, value: V)
      requires Valid()
      modifies Repr
      ensures Valid() && fresh(Repr - old(Repr))
      ensures table == Inserted(eq, index, old(table), key, value)
    {
      var idx := index(key) % data.Length;
      assert BucketOk(idx);
      var entry := data[idx];
      var _ := EraseIn(entry, eq, key);
      entry.Add((key, value));
      table, reprs, Repr := table[idx := entry.Contents], reprs[idx := entry.Repr], Repr + entry.Repr;
      forall i: nat | i < data.Length ensures BucketOk(i) {
        assert old(BucketOk(i));
      }
    }

    method EraseKey(key: K) returns (found: bool)
      requires Valid()
      modifies Repr
      ensures Valid() && Repr == old(Repr)
      ensures table == Erased(eq, index, old(table), key)
      ensures found <==> Lookup(eq, index, old(table), key).Some?
    {
      var idx := index(key) % data.Length;
      assert BucketOk(idx);
      found := EraseIn(data[idx], eq, key);
      table := table[idx := data[idx].Contents];
      forall i: nat | i < data.Length ensures BucketOk(i) {
        assert old(BucketOk(i));
      }
    }

    method Clear()
      requires Valid()
      modifies Repr
      ensures Valid() && Repr == old(Repr)
      ensures table == seq(data.Length, _ => [])
    {
      var i := 0;
      while i < data.Length
        invariant 0 <= i <= data.Length && Valid() && Repr == old(Repr)
        invariant forall j | 0 <= j < i :: table[j] == []
      {
        assert BucketOk(i);
        ClearBucket(i);
        i := i + 1;
      }
    }

    method ClearBucket(i: nat)
      requires Valid() && i < data.Length
      modifies Repr
      ensures Valid() && Repr == old(Repr) && table == old(table)[i := []]
    {
      assert BucketOk(i);
      data[i].Clear();
      table := table[i := []];
      forall j: nat | j < data.Length ensures BucketOk(j) {
        assert old(BucketOk(j));
      }
    }
  }
}
