/**
 The filesystem of message queues: files on named queues, kept alive by the counted store.
 Opening and closing files must agree with the store about when a queue is gone.
 */
module MessageQueueFiles {
  import opened Words
  import KeyedStores

  /** An open file: the queue's name, the queue object, and which end it is. */
  datatype File = File(name: string, queue: nat, reader: bool)

  datatype Clients = Clients(readers: nat, writers: nat)

  datatype Mode = Mode(read: bool, write: bool, append: bool)

  /**
   `queues` holds the queue objects in memory with their client counts, `made` counts
   the queues ever made. `leaked` is bookkeeping: the opens that took a reference and returned no file.
   */
  datatype State = State(
    store: KeyedStores.Store<nat>, queues: map<nat, Clients>, made: nat, files: multiset<File>, leaked: multiset<string>)

  datatype Op = Open(name: string, mode: Mode) | Close(file: File)

  /** `Dangling` is the close of a file whose queue object is no longer in memory. */
  datatype Outcome = Opened(file: File) | Refused | Closed(erased: bool) | Panic | Dangling

  const EMPTY := State(map[], map[], 0, multiset{}, multiset{})

  predicate Forbidden(m: Mode) { (m.read && m.write) || m.append }

  /** Finding the queue of a name, or making it. */
  function Acquire(st: State, name: string): (State, nat) {
    var (s, r) := KeyedStores.Step(st.store, KeyedStores.GetOrNull(name));
    if r.Object? then (st.(store := s), r.obj)
    else
      var (s', r') := KeyedStores.Step(s, KeyedStores.MakeOrNull(name, st.made));
      (st.(store := s', queues := st.queues[st.made := Clients(0, 0)], made := st.made + 1), st.made)
  }

  function AddClient(st: State, f: File): State {
    if f.queue !in st.queues then st
    else
      var c := st.queues[f.queue];
      var c' := if f.reader then c.(readers := c.readers + 1) else c.(writers := c.writers + 1);
      st.(queues := st.queues[f.queue := c'], files := st.files + multiset{f})
  }

  function DropClient(c: Clients, reader: bool): Clients {
    if reader then c.(readers := if c.readers > 0 then c.readers - 1 else 0)
    else c.(writers := if c.writers > 0 then c.writers - 1 else 0)
  }

  function Step(st: State, op: Op): (State, Outcome) {
    match op
    case Open(name, mode) =>
      if Forbidden(mode) then (st, Refused)
      else
        var (st', q) := Acquire(st, name);
        if mode.read || mode.write then
          var f := File(name, q, mode.read);
          (AddClient(st', f), Opened(f))
        else (st'.(leaked := st'.leaked + multiset{name}), Refused)
    case Close(f) =>
      if f.queue !in st.queues then (st, Dangling)
      else
        var c := DropClient(st.queues[f.queue], f.reader);
        var (s, r) := KeyedStores.Step(st.store, KeyedStores.Release(f.name));
        var erased := r == KeyedStores.Freed(true);
        var queues := if erased then st.queues - {f.queue} else st.queues[f.queue := c];
        (st.(store := s, queues := queues, files := st.files - multiset{f}),
         if c == Clients(0, 0) && !erased then Panic else Closed(erased))
  }

  /** The files open on a name, as ends of the queue the store has for it. */
  ghost function Ends(st: State, name: string): Clients
    requires name in st.store
  {
    var q := st.store[name].0;
    Clients(st.files[File(name, q, true)], st.files[File(name, q, false)])
  }

  /** The store's record of a name: its object is in memory and every reference is accounted for. */
  ghost predicate Recorded(st: State, name: string)
    requires name in st.store
  {
    && var (q, count) := st.store[name];
    && q in st.queues && st.queues[q] == Ends(st, name)
    && 0 < count as int == Ends(st, name).readers + Ends(st, name).writers + st.leaked[name]
  }

  ghost predicate Consistent(st: State, name: string) {
    && (forall f | f in st.files && f.name == name :: name in st.store && st.store[name].0 == f.queue)
    && (name in st.store ==> Recorded(st, name))
    && (name in st.leaked ==> name in st.store)
  }

  ghost predicate Sound(st: State) {
    && (forall n :: Consistent(st, n)) && (forall q | q in st.queues :: q < st.made)
    && (forall m, n | m in st.store && n in st.store && m != n :: st.store[m].0 != st.store[n].0)
  }

  /** Two states differ only in what concerns one name. */
  ghost predicate SameBut(st: State, st': State, name: string) {
    && st.made <= st'.made
    && (forall f: File | f.name != name :: st'.files[f] == st.files[f])
    && (forall n: string | n != name :: st'.leaked[n] == st.leaked[n])
    && (forall n | n != name :: n in st.store <==> n in st'.store)
    && (forall n | n in st.store && n != name :: st'.store[n] == st.store[n])
    && (forall q | q in st.queues && (name in st.store ==> q != st.store[name].0) :: q in st'.queues && st'.queues[q] == st.queues[q])
  }

  lemma OthersConsistent(st: State, st': State, name: string, n: string)
    requires Sound(st) && SameBut(st, st', name) && n != name
    ensures Consistent(st', n)
  {
    assert Consistent(st, n);
    if name in st.store { assert Consistent(st, name); }
    forall f | f in st'.files && f.name == n ensures n in st'.store && st'.store[n].0 == f.queue {
      assert f in st.files;
    }
    if n in st'.leaked { assert n in st.leaked; }
  }

  /** Only open files are closed, and no name collects 2^32 references. */
  ghost predicate Allowed(st: State, op: Op) {
    match op
    case Open(name, _) => name in st.store ==> st.store[name].1 as int + 1 < TWO32
    case Close(f) => f in st.files
  }

  /** The last file on a name that some open leaked. */
  ghost predicate LastOfLeaked(st: State, op: Op) {
    op.Close? && op.file.name in st.leaked && LastFile(st, op.file)
  }

  ghost predicate LastFile(st: State, f: File) {
    forall g | g in st.files - multiset{f} :: g.name != f.name
  }

  lemma LastFileCounts(st: State, f: File)
    requires Sound(st) && f in st.files
    ensures f.name in st.store && st.store[f.name].0 == f.queue && Recorded(st, f.name)
    ensures LastFile(st, f) <==> DropClient(Ends(st, f.name), f.reader) == Clients(0, 0)
  {
    assert Consistent(st, f.name);
    var rest := st.files - multiset{f};
    var other := File(f.name, f.queue, !f.reader);
    if DropClient(Ends(st, f.name), f.reader) == Clients(0, 0) {
      assert rest[f] == 0 && rest[other] == 0;
      forall g | g in rest ensures g.name != f.name { assert g in st.files; }
    } else {
      assert f in rest || other in rest;
    }
  }

  /** A close panics exactly on the last file of a leaked name, and erases the queue exactly on the last of any other. */
  lemma CloseOutcome(st: State, f: File)
    requires Sound(st) && f in st.files
    ensures Step(st, Close(f)).1 ==
            if LastFile(st, f) && f.name in st.leaked then Panic else Closed(LastFile(st, f))
  {
    LastFileCounts(st, f);
  }

  /** An open gives a file of the name, at the end asked for, exactly when one way and no appending is asked for. */
  lemma OpenOutcome(st: State, name: string, mode: Mode)
    requires Sound(st)
    ensures var (st', r) := Step(st, Open(name, mode));
            if mode.read != mode.write && !mode.append
            then r.Opened? && r.file.name == name && r.file.reader == mode.read
                 && name in st'.store && st'.store[name].0 == r.file.queue
                 && (name in st.store ==> st.store[name].0 == r.file.queue)
            else r == Refused
  {
    assert Consistent(st, name);
  }

  /** The open files are the ones opened and not closed, and a leak is an open that asked for neither way. */
  lemma FilesFollow(st: State, op: Op)
    requires Sound(st) && Allowed(st, op)
    ensures var (st', r) := Step(st, op);
            && st'.files == (match op
                             case Open(_, _) => if r.Opened? then st.files + multiset{r.file} else st.files
                             case Close(f) => st.files - multiset{f})
            && st'.leaked == st.leaked + (if op.Open? && op.mode == Mode(false, false, false) then multiset{op.name} else multiset{})
  {
    match op {
      case Open(name, mode) => assert Consistent(st, name);
      case Close(f) => LastFileCounts(st, f);
    }
  }

  /** Files are on the same queue exactly when they are on the same name. */
  lemma FilesShareQueue(st: State, f: File, g: File)
    requires Sound(st) && f in st.files && g in st.files
    ensures f.queue == g.queue <==> f.name == g.name
  {
    assert Consistent(st, f.name) && Consistent(st, g.name);
  }

  lemma OpenSameBut(st: State, name: string, mode: Mode)
    requires Sound(st)
    ensures SameBut(st, Step(st, Open(name, mode)).0, name)
  {
    assert Consistent(st, name);
  }

  lemma OpenConsistent(st: State, name: string, mode: Mode)
    requires Sound(st) && Allowed(st, Open(name, mode))
    ensures Consistent(Step(st, Open(name, mode)).0, name)
  {
    assert Consistent(st, name);
  }

  lemma OpenDistinct(st: State, name: string, mode: Mode)
    requires Sound(st)
    ensures var st' := Step(st, Open(name, mode)).0;
            && (forall q | q in st'.queues :: q < st'.made)
            && (forall m, n | m in st'.store && n in st'.store && m != n :: st'.store[m].0 != st'.store[n].0)
  {
    forall n ensures n in st.store ==> st.store[n].0 < st.made { assert Consistent(st, n); }
  }

  lemma OpenSound(st: State, name: string, mode: Mode)
    requires Sound(st) && Allowed(st, Open(name, mode))
    ensures Sound(Step(st, Open(name, mode)).0)
  {
    var st' := Step(st, Open(name, mode)).0;
    OpenSameBut(st, name, mode);
    OpenConsistent(st, name, mode);
    OpenDistinct(st, name, mode);
    forall n ensures Consistent(st', n) { if n != name { OthersConsistent(st, st', name, n); } }
  }

  lemma CloseSameBut(st: State, f: File)
    requires Sound(st) && f in st.files
    ensures SameBut(st, Step(st, Close(f)).0, f.name)
  {
    LastFileCounts(st, f);
  }

  lemma CloseConsistent(st: State, f: File)
    requires Sound(st) && f in st.files && Step(st, Close(f)).1 != Panic
    ensures Consistent(Step(st, Close(f)).0, f.name)
  {
    LastFileCounts(st, f);
    CloseOutcome(st, f);
    assert Consistent(st, f.name);
  }

  lemma CloseSound(st: State, f: File)
    requires Sound(st) && f in st.files && Step(st, Close(f)).1 != Panic
    ensures Sound(Step(st, Close(f)).0)
  {
    var st' := Step(st, Close(f)).0;
    CloseSameBut(st, f);
    CloseConsistent(st, f);
    forall n ensures Consistent(st', n) { if n != f.name { OthersConsistent(st, st', f.name, n); } }
  }

  ghost predicate AllowedRun(st: State, ops: seq<Op>)
    decreases |ops|
  {
    ops != [] ==> Allowed(st, ops[0]) && (Step(st, ops[0]).1 != Panic ==> AllowedRun(Step(st, ops[0]).0, ops[1..]))
  }

  /** No close panics and none finds its queue already freed. */
  ghost predicate Safe(st: State, ops: seq<Op>)
    decreases |ops|
  {
    ops != [] ==>
      && Step(st, ops[0]).1 != Panic && Step(st, ops[0]).1 != Dangling
      && Safe(Step(st, ops[0]).0, ops[1..])
  }

  ghost predicate Careful(st: State, ops: seq<Op>)
    decreases |ops|
  {
    ops != [] ==> !LastOfLeaked(st, ops[0]) && Careful(Step(st, ops[0]).0, ops[1..])
  }

  lemma StepSound(st: State, op: Op)
    requires Sound(st) && Allowed(st, op)
    ensures Step(st, op).1 != Dangling && (Step(st, op).1 == Panic <==> LastOfLeaked(st, op))
    ensures Step(st, op).1 != Panic ==> Sound(Step(st, op).0)
  {
    match op {
      case Open(name, mode) => OpenSound(st, name, mode);
      case Close(f) =>
        CloseOutcome(st, f);
        if Step(st, op).1 != Panic { CloseSound(st, f); }
    }
  }

  /** A run is safe exactly when it never closes the last file of a leaked name. */
  lemma {:induction false} SafeRun(st: State, ops: seq<Op>)
    requires Sound(st) && AllowedRun(st, ops)
    ensures Safe(st, ops) <==> Careful(st, ops)
    decreases |ops|
  {
    if ops != [] {
      StepSound(st, ops[0]);
      if !LastOfLeaked(st, ops[0]) { SafeRun(Step(st, ops[0]).0, ops[1..]); }
    }
  }

  /** In particular, every run whose opens all ask for reading, writing or something forbidden. */
  lemma {:induction false} DirectedOpensAreSafe(st: State, ops: seq<Op>)
    requires Sound(st) && st.leaked == multiset{} && AllowedRun(st, ops)
    requires forall i | 0 <= i < |ops| && ops[i].Open? :: ops[i].mode.read || ops[i].mode.write || Forbidden(ops[i].mode)
    ensures Safe(st, ops)
    decreases |ops|
  {
    if ops != [] {
      StepSound(st, ops[0]);
      DirectedOpensAreSafe(Step(st, ops[0]).0, ops[1..]);
    }
  }

  /** An open that asks for neither leaves the next reader's close to panic. */
  lemma UndirectedOpenPanics(name: string)
    ensures var leak := Open(name, Mode(false, false, false));
            var reader := File(name, 0, true);
            var ops := [leak, Open(name, Mode(true, false, false)), Close(reader)];
            AllowedRun(EMPTY, ops) && !Safe(EMPTY, ops)
  {
    var reader := File(name, 0, true);
    var leak, open, close := Open(name, Mode(false, false, false)), Open(name, Mode(true, false, false)), Close(reader);
    var ops := [leak, open, close];
    var st1 := Step(EMPTY, leak).0;
    assert st1 == State(map[name := (0, 1)], map[0 := Clients(0, 0)], 1, multiset{}, multiset{name});
    var st2 := Step(st1, open).0;
    assert st2 == State(map[name := (0, 2)], map[0 := Clients(1, 0)], 1, multiset{reader}, multiset{name});
    assert Step(st2, close).1 == Panic;
    assert ops[1..][1..] == [close];
    assert AllowedRun(st2, ops[1..][1..]) && !Safe(st2, ops[1..][1..]);
    assert AllowedRun(st1, ops[1..]) && !Safe(st1, ops[1..]);
  }
}
