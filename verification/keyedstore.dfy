/**
 The reference-counted store of named kernel objects (semaphores, mutexes, message queues):
 a hash table from names to counted objects. The first half is the store as a value and the
 life-cycle protocol over whole runs; the class is the store in place.
 */
module KeyedStores {
  import opened Words
  import opened HashTable

  /** Each live key has its object and its 32-bit reference count. */
  type Store<T> = map<string, (T, u32)>

  /** `obj` is what the constructor call of the source would make, if it comes to that. */
  datatype Op<T> =
    | MakeOrNull(key: string, obj: T)
    | GetOrNull(key: string)
    | GetOrMake(key: string, obj: T)
    | Release(key: string)

  datatype Outcome<T> = Null | Object(obj: T) | Freed(last: bool)

  function Make<T>(st: Store<T>, key: string, obj: T): (Store<T>, Outcome<T>) {
    if key in st then (st, Null) else (st[key := (obj, 1)], Object(obj))
  }

  function Get<T>(st: Store<T>, key: string): (Store<T>, Outcome<T>) {
    if key in st then
      var (obj, count: int) := st[key];
      (st[key := (obj, Wrap(count + 1))], Object(obj))
    else (st, Null)
  }

  function Step<T>(st: Store<T>, op: Op<T>): (Store<T>, Outcome<T>) {
    match op
    case MakeOrNull(key, obj) => Make(st, key, obj)
    case GetOrNull(key) => Get(st, key)
    case GetOrMake(key, obj) =>
      var (st1, made) := Make(st, key, obj);
      if made.Object? then (st1, made) else Get(st1, key)
    case Release(key) =>
      if key !in st then (st, Freed(false))
      else
        var (obj, count: int) := st[key];
        if Wrap(count - 1) == 0 then (st - {key}, Freed(true))
        else (st[key := (obj, Wrap(count - 1))], Freed(false))
  }

  ghost function Run<T>(ops: seq<Op<T>>): Store<T> {
    if ops == [] then map[] else Step(Run(ops[..|ops| - 1]), ops[|ops| - 1]).0
  }

  ghost function OutcomeAt<T>(ops: seq<Op<T>>, i: nat): Outcome<T>
    requires i < |ops|
  {
    Step(Run(ops[..i]), ops[i]).1
  }

  // ---------- Counting acquires and releases ----------

  /** How often the run handed out an object under `key`. */
  ghost function Acquires<T>(ops: seq<Op<T>>, key: string): nat {
    if ops == [] then 0
    else
      Acquires(ops[..|ops| - 1], key) +
      if ops[|ops| - 1].key == key && OutcomeAt(ops, |ops| - 1).Object? then 1 else 0
  }

  /** How often the run released `key` while it was live. */
  ghost function Releases<T>(ops: seq<Op<T>>, key: string): nat {
    if ops == [] then 0
    else
      Releases(ops[..|ops| - 1], key) +
      if ops[|ops| - 1] == Release(key) && key in Run(ops[..|ops| - 1]) then 1 else 0
  }

  /** References to `key` given out and not yet given back. */
  ghost function Outstanding<T>(ops: seq<Op<T>>, key: string): int {
    Acquires(ops, key) - Releases(ops, key)
  }

  /** The store tells the truth about `key`. */
  ghost predicate Agrees<T>(ops: seq<Op<T>>, key: string) {
    && (key in Run(ops) <==> Outstanding(ops, key) > 0)
    && Outstanding(ops, key) == if key in Run(ops) then Run(ops)[key].1 else 0
  }

  lemma AgreesStep<T>(ops: seq<Op<T>>, key: string)
    requires ops != [] && Agrees(ops[..|ops| - 1], key) && Outstanding(ops, key) < TWO32
    ensures Agrees(ops, key)
  {
    assert ops[..|ops|] == ops;
  }

  /**
   A key is live exactly while references to it are outstanding, and its stored count is their
   number, at every moment of a run whose outstanding references never reach 2^32 - and of no other.
   */
  lemma {:induction false} CountsReferences<T>(ops: seq<Op<T>>, key: string)
    ensures (forall n: nat | n <= |ops| :: Agrees(ops[..n], key)) <==>
            (forall n: nat | n <= |ops| :: Outstanding(ops[..n], key) < TWO32)
  {
    if forall n: nat | n <= |ops| :: Outstanding(ops[..n], key) < TWO32 {
      forall n: nat | n <= |ops| ensures Agrees(ops[..n], key) {
        AgreesUpTo(ops, key, n);
      }
    }
    if forall n: nat | n <= |ops| :: Agrees(ops[..n], key) {
      forall n: nat | n <= |ops| ensures Outstanding(ops[..n], key) < TWO32 {
        assert Agrees(ops[..n], key);
      }
    }
  }

  lemma {:induction false} AgreesUpTo<T>(ops: seq<Op<T>>, key: string, n: nat)
    requires n <= |ops| && forall m: nat | m <= |ops| :: Outstanding(ops[..m], key) < TWO32
    ensures Agrees(ops[..n], key)
  {
    if n > 0 {
      AgreesUpTo(ops, key, n - 1);
      assert ops[..n][..n - 1] == ops[..n - 1];
      assert Outstanding(ops[..n], key) < TWO32;
      AgreesStep(ops[..n], key);
    }
  }

  /** A release frees the object exactly when it gives back the last outstanding reference. */
  lemma LastReleaseFrees<T>(ops: seq<Op<T>>, i: nat, key: string)
    requires i < |ops| && ops[i] == Release(key) && Agrees(ops[..i], key)
    ensures OutcomeAt(ops, i) == Freed(Outstanding(ops[..i], key) == 1)
    ensures OutcomeAt(ops, i) == Freed(true) ==> key !in Run(ops[..i + 1])
  {
    assert ops[..i + 1][..i] == ops[..i];
  }

  /** What an acquire answers depends only on whether references are outstanding; the object made is the one handed out. */
  lemma AcquireAnswers<T>(ops: seq<Op<T>>, i: nat)
    requires i < |ops| && Agrees(ops[..i], ops[i].key)
    ensures var held := Outstanding(ops[..i], ops[i].key);
            match ops[i]
            case MakeOrNull(_, obj) => OutcomeAt(ops, i) == if held == 0 then Object(obj) else Null
            case GetOrNull(_) => if held == 0 then OutcomeAt(ops, i) == Null else OutcomeAt(ops, i).Object?
            case GetOrMake(_, obj) => OutcomeAt(ops, i).Object? && (held == 0 ==> OutcomeAt(ops, i) == Object(obj))
            case Release(_) => OutcomeAt(ops, i) == Freed(held == 1)
  {
  }

  /** Everyone who acquires a key while it stays live gets the same object. */
  lemma {:induction false} SameObject<T>(ops: seq<Op<T>>, key: string, i: nat, j: nat)
    requires i < j < |ops| && ops[i].key == key == ops[j].key
    requires OutcomeAt(ops, i).Object? && OutcomeAt(ops, j).Object?
    requires forall t: nat | i < t <= j :: key in Run(ops[..t])
    ensures OutcomeAt(ops, i) == OutcomeAt(ops, j)
  {
    ObjectStays(ops, key, i, j);
    assert key in Run(ops[..j]);
  }

  lemma {:induction false} ObjectStays<T>(ops: seq<Op<T>>, key: string, i: nat, j: nat)
    requires i < j <= |ops| && ops[i].key == key && OutcomeAt(ops, i).Object?
    requires forall t: nat | i < t <= j :: key in Run(ops[..t])
    ensures key in Run(ops[..j]) && Run(ops[..j])[key].0 == OutcomeAt(ops, i).obj
  {
    assert ops[..j][..j - 1] == ops[..j - 1];
    if j > i + 1 {
      ObjectStays(ops, key, i, j - 1);
      assert key in Run(ops[..j]);
    }
  }

  // ---------- Too many references ----------

  /** One make and `n` gets of the same key. */
  ghost function Hoard<T>(key: string, obj: T, n: nat): (ops: seq<Op<T>>)
    ensures |ops| == n + 1
  {
    if n == 0 then [MakeOrNull(key, obj)] else Hoard(key, obj, n - 1) + [GetOrNull(key)]
  }

  lemma RunSnoc<T>(ops: seq<Op<T>>, op: Op<T>)
    ensures Run(ops + [op]) == Step(Run(ops), op).0
  {
    assert (ops + [op])[..|ops|] == ops;
  }

  lemma RunPrefix<T>(ops: seq<Op<T>>, i: nat)
    requires i < |ops|
    ensures Run(ops[..i + 1]) == Step(Run(ops[..i]), ops[i]).0
  {
    assert ops[..i + 1] == ops[..i] + [ops[i]];
    RunSnoc(ops[..i], ops[i]);
  }

  lemma GetCounts<T>(ops: seq<Op<T>>, key: string)
    requires key in Run(ops)
    ensures Outstanding(ops + [GetOrNull(key)], key) == Outstanding(ops, key) + 1
  {
    var more := ops + [GetOrNull(key)];
    assert more[..|ops|] == ops;
  }

  lemma MakeCounts<T>(key: string, obj: T)
    ensures Outstanding([MakeOrNull(key, obj)], key) == 1
    ensures Run([MakeOrNull(key, obj)]) == map[key := (obj, 1)]
  {
    var ops := [MakeOrNull(key, obj)];
    assert ops[..0] == [] && Acquires(ops[..0], key) == 0 && Releases(ops[..0], key) == 0;
    assert ops == [] + ops;
    RunSnoc([], ops[0]);
  }

  /** `n` references to a key are outstanding, and its stored count is `n` modulo 2^32. */
  ghost predicate Held<T>(ops: seq<Op<T>>, key: string, obj: T, n: nat) {
    Outstanding(ops, key) == n && key in Run(ops) && Run(ops)[key] == (obj, Wrap(n))
  }

  lemma GetHeld<T>(ops: seq<Op<T>>, key: string, obj: T, n: nat)
    requires Held(ops, key, obj, n)
    ensures Held(ops + [GetOrNull(key)], key, obj, n + 1)
  {
    RunSnoc(ops, GetOrNull(key));
    GetCounts(ops, key);
    WrapAdd(n, 1);
  }

  lemma {:induction false} HoardHeld<T>(key: string, obj: T, n: nat)
    ensures Held(Hoard(key, obj, n), key, obj, n + 1)
  {
    if n == 0 {
      MakeCounts(key, obj);
    } else {
      HoardHeld(key, obj, n - 1);
      GetHeld(Hoard(key, obj, n - 1), key, obj, n);
    }
  }

  /** With 2^32 + 1 references the count reads 1, and one release frees the object under all the others. */
  lemma FreedWhileHeld<T>(key: string, obj: T)
    ensures var ops := Hoard(key, obj, TWO32);
            Outstanding(ops, key) == TWO32 + 1 && Step(Run(ops), Release(key)) == (Run(ops) - {key}, Freed(true))
  {
    HoardHeld(key, obj, TWO32);
    WrapShift(1, 1);
  }

  // ---------- The hash of a name ----------

  /** A char of the source is signed. */
  function Signed(c: char): int { (c as int + 128) % 256 - 128 }

  function Pow31(n: nat): nat { if n == 0 then 1 else 31 * Pow31(n - 1) }

  /** The characters as digits of base 31, the last one of weight 1. */
  function Weighted(s: string): int {
    if s == "" then 0 else Signed(s[0]) * Pow31(|s| - 1) + Weighted(s[1..])
  }

  /** The hash: that number modulo 2^32. */
  function StringIndex(s: string): u32 { Wrap(Weighted(s)) }

  lemma {:induction false} WeightedSnoc(s: string, c: char)
    ensures Weighted(s + [c]) == 31 * Weighted(s) + Signed(c)
  {
    var t := s + [c];
    if s == "" {
      assert t[1..] == "" && Weighted(t) == Signed(c) * Pow31(0) + Weighted("");
    } else {
      assert t[1..] == s[1..] + [c];
      WeightedSnoc(s[1..], c);
      var d, w := Signed(s[0]), Pow31(|s| - 1);
      assert d * (31 * w) == 31 * (d * w);
    }
  }

  lemma WrapTimes31(x: int, c: int)
    ensures Wrap(31 * Wrap(x) + c) == Wrap(31 * x + c)
  {
    var q := x / TWO32;
    assert x == Wrap(x) + q * TWO32;
    WrapShift(31 * Wrap(x) + c, 31 * q);
  }

  /** Wrapping at every step gives the same as wrapping once at the end. */
  method Index(s: string) returns (i: u32)
    ensures i == Wrap(Weighted(s))
  {
    i := 0;
    for k := 0 to |s|
      invariant i == Wrap(Weighted(s[..k]))
    {
      assert s[..k + 1] == s[..k] + [s[k]];
      WeightedSnoc(s[..k], s[k]);
      WrapTimes31(Weighted(s[..k]), Signed(s[k]));
      i := Wrap(31 * i + Signed(s[k]));
    }
    assert s[..|s|] == s;
  }

  // ---------- The store in place ----------

  /** An object and its count, shared by reference between the table and its users. */
  class Counted<T> {
    ghost const key: string  // the one name this cell is stored under
    const first: T
    var second: u32

    constructor (ghost key: string, first: T, second: u32)
      ensures this.key == key && this.first == first && this.second == second
    {
      this.key, this.first, this.second := key, first, second;
    }
  }

  /** The table of shared cells holds exactly the given cells. */
  ghost predicate Represents<V>(eq: (string, string) -> bool, index: string -> nat, t: Table<string, V>, cells: map<string, V>) {
    && (forall a, b :: eq(a, b) <==> a == b)
    && TableOk(eq, index, t)
    && (forall k :: Lookup(eq, index, t, k) == if k in cells then Some(cells[k]) else None)
  }

  lemma RepresentsInsert<V>(eq: (string, string) -> bool, index: string -> nat, t: Table<string, V>, cells: map<string, V>, key: string, v: V)
    requires Represents(eq, index, t, cells)
    ensures Represents(eq, index, Inserted(eq, index, t, key, v), cells[key := v])
  {
    assert Compatible(eq, index);
    InsertedOk(eq, index, t, key, v);
    forall k ensures Lookup(eq, index, Inserted(eq, index, t, key, v), k) ==
                     if k in cells[key := v] then Some(cells[key := v][k]) else None
    {
      LookupInserted(eq, index, t, key, v, k);
    }
  }

  lemma RepresentsErase<V>(eq: (string, string) -> bool, index: string -> nat, t: Table<string, V>, cells: map<string, V>, key: string)
    requires Represents(eq, index, t, cells)
    ensures Represents(eq, index, Erased(eq, index, t, key), cells - {key})
  {
    assert Compatible(eq, index);
    ErasedOk(eq, index, t, key);
    forall k ensures Lookup(eq, index, Erased(eq, index, t, key), k) ==
                     if k in cells - {key} then Some((cells - {key})[k]) else None
    {
      LookupErased(eq, index, t, key, k);
    }
  }

  /** Storing the decremented count first and erasing then amounts to one release. */
  lemma ReleaseStep<T>(st: Store<T>, key: string, obj: T, count: u32)
    requires key in st && obj == st[key].0 && count == Wrap(st[key].1 as int - 1)
    ensures var st' := st[key := (obj, count)];
            Step(st, Op.Release(key)) == if count == 0 then (st' - {key}, Freed(true)) else (st', Freed(false))
  {
    assert st[key := (obj, count)] - {key} == st - {key};
  }

  lemma GetStep<T>(st: Store<T>, key: string, obj: T, count: u32)
    requires key in st && obj == st[key].0 && count == Wrap(st[key].1 as int + 1)
    ensures Step(st, Op.GetOrNull(key)) == (st[key := (obj, count)], Object(obj))
  {
  }

  lemma GetOrMakeStep<T>(st: Store<T>, key: string, obj: T)
    ensures Step(st, Op.GetOrMake(key, obj)) ==
            if key in st then Step(st, Op.GetOrNull(key)) else Step(st, Op.MakeOrNull(key, obj))
  {
  }

  class KeyedStore<T> {
    const table: Hash<string, Counted<T>>
    ghost var cells: map<string, Counted<T>>
    ghost var Store: Store<T>

    ghost predicate Cell(key: string)
      requires key in cells && key in Store
      reads this, table, cells[key]
    {
      && cells[key] !in table.Repr && cells[key].key == key
      && Store[key] == (cells[key].first, cells[key].second)
    }

    ghost predicate Valid()
      reads this, table, table.data, table.Repr, cells.Values
    {
      && this !in table.Repr && table.Valid()
      && Represents(table.eq, table.index, table.table, cells)
      && cells.Keys == Store.Keys
      && (forall k | k in cells :: Cell(k))
    }

    constructor (n: nat)
      requires n > 0
      ensures Valid() && fresh(table.Repr) && cells == map[] && Store == map[]
    {
      table := new Hash(n, (a: string, b: string) => a == b, (s: string) => StringIndex(s));
      cells, Store := map[], map[];
    }

    /** A lookup finds the cell of a live key, and no cell otherwise. */
    method Find(key: string) returns (pointer: Option<Counted<T>>)
      requires Valid()
      ensures pointer == if key in Store then Some(cells[key]) else None
      ensures key in Store ==> Cell(key)
    {
      pointer := table.FindKey(key);
    }

    /** Storing a new count in a shared cell. */
    method SetCount(p: Counted<T>, count: u32, ghost key: string)
      requires Valid() && key in cells && cells[key] == p
      modifies `Store, p
      ensures Valid() && table.Repr == old(table.Repr) && cells == old(cells)
      ensures Store == old(Store)[key := (p.first, count)]
    {
      assert Cell(key);
      ghost var st := Store[key := (p.first, count)];
      p.second := count;
      Store := st;
      assert Cell(key);
      forall k | k in cells && k != key ensures Cell(k) { assert old(Cell(k)); }
    }

    method GetOrNull(key: string) returns (obj: Outcome<T>)
      requires Valid()
      modifies `Store, cells.Values
      ensures Valid() && table.Repr == old(table.Repr) && cells == old(cells)
      ensures Store == Step(old(Store), Op.GetOrNull(key)).0
      ensures obj == Step(old(Store), Op.GetOrNull(key)).1
    {
      var pointer := Find(key);
      if pointer == None { return Null; }
      var count := Wrap(pointer.value.second as int + 1);
      GetStep(Store, key, pointer.value.first, count);
      obj := Object(pointer.value.first);
      SetCount(pointer.value, count, key);
    }

    method MakeOrNull(key: string, made: T) returns (obj: Outcome<T>)
      requires Valid()
      modifies this, table.Repr
      ensures Valid() && fresh(table.Repr - old(table.Repr)) && fresh(cells.Values - old(cells.Values))
      ensures obj == Null ==> table.Repr == old(table.Repr) && cells == old(cells)
      ensures Store == Step(old(Store), Op.MakeOrNull(key, made)).0
      ensures obj == Step(old(Store), Op.MakeOrNull(key, made)).1
    {
      var pointer := Find(key);
      if pointer.Some? { return Null; }
      var p := new Counted(key, made, 1);
      RepresentsInsert(table.eq, table.index, table.table, cells, key, p);
      table.Insert(key, p);
      cells, Store := cells[key := p], Store[key := (made, 1)];
      forall k | k in cells ensures Cell(k) { assert k != key ==> old(Cell(k)); }
      return Object(made);
    }

    method GetOrMake(key: string, made: T) returns (obj: Outcome<T>)
      requires Valid()
      modifies this, table.Repr, cells.Values
      ensures Valid() && fresh(table.Repr - old(table.Repr)) && fresh(cells.Values - old(cells.Values))
      ensures Store == Step(old(Store), Op.GetOrMake(key, made)).0
      ensures obj == Step(old(Store), Op.GetOrMake(key, made)).1
    {
      GetOrMakeStep(Store, key, made);
      obj := MakeOrNull(key, made);
      if obj == Null { obj := GetOrNull(key); }
    }

    method Release(key: string) returns (last: bool)
      requires Valid()
      modifies this, table.Repr, cells.Values
      ensures Valid() && table.Repr == old(table.Repr) && cells.Values <= old(cells.Values)
      ensures Store == Step(old(Store), Op.Release(key)).0
      ensures Freed(last) == Step(old(Store), Op.Release(key)).1
    {
      var pointer := Find(key);
      if pointer == None { return false; }
      last := GiveBack(key, pointer.value);
    }

    /** Lowers the count of a live key, and forgets the key when nothing is left. */
    method GiveBack(key: string, p: Counted<T>) returns (last: bool)
      requires Valid() && key in cells && p == cells[key]
      modifies this, table.Repr, p
      ensures Valid() && table.Repr == old(table.Repr) && cells.Values <= old(cells.Values)
      ensures Store == Step(old(Store), Op.Release(key)).0
      ensures Freed(last) == Step(old(Store), Op.Release(key)).1
    {
      assert Cell(key);
      var count := Wrap(p.second as int - 1);
      ReleaseStep(Store, key, p.first, count);
      SetCount(p, count, key);
      last := count == 0;
      if last { Forget(key); }
    }

    method Forget(key: string)
      requires Valid() && key in Store
      modifies this, table.Repr
      ensures Valid() && table.Repr == old(table.Repr) && cells.Values <= old(cells.Values)
      ensures Store == old(Store) - {key}
    {
      RepresentsErase(table.eq, table.index, table.table, cells, key);
      var _ := table.EraseKey(key);
      cells, Store := cells - {key}, Store - {key};
      forall k | k in cells ensures Cell(k) { assert old(Cell(k)); }
    }
  }

  /** The object that has gone through a run holds what the run leads to. */
  method Replay<T>(n: nat, ops: seq<Op<T>>) returns (store: KeyedStore<T>)
    requires n > 0
    ensures store.Valid() && store.Store == Run(ops)
  {
    store := new KeyedStore(n);
    assert ops[..0] == [];
    for i := 0 to |ops|
      invariant store.Valid() && fresh(store) && fresh(store.table.Repr) && fresh(store.cells.Values)
      invariant store.Store == Run(ops[..i])
    {
      RunPrefix(ops, i);
      match ops[i] {
        case MakeOrNull(key, obj) => var _ := store.MakeOrNull(key, obj);
        case GetOrNull(key) => var _ := store.GetOrNull(key);
        case GetOrMake(key, obj) => var _ := store.GetOrMake(key, obj);
        case Release(key) => var _ := store.Release(key);
      }
    }
    assert ops[..|ops|] == ops;
  }
}
