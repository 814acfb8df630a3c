/**
 Pipes: a byte queue between processes that sleep while it is empty or full. A step is what a
 process does between two visits to the scheduler; a process that went to sleep tries again
 from the head of its waiting loop once it has been woken.
 */
module Pipes {
  import opened Words
  import opened Fifos

  const CAPACITY := 4096

  type Pid = nat

  datatype Pipe = Pipe(contents: string, readOpen: bool, writeOpen: bool, fullWQ: seq<Pid>, emptyWQ: seq<Pid>)

  datatype Op =
    | Read(p: Pid, n: nat)
    | Write(p: Pid, data: string)
    | CloseRead
    | CloseWrite

  datatype Outcome = Asleep | Got(data: string) | Wrote(n: nat) | Closed

  function Min(a: nat, b: nat): nat { if a < b then a else b }

  function Step(st: Pipe, op: Op): (r: (Pipe, Outcome)) {
    match op
    case Read(p, n) =>
      if st.contents == "" && st.writeOpen then (st.(emptyWQ := st.emptyWQ + [p]), Asleep)
      else
        var k := Min(n, |st.contents|);
        (st.(contents := st.contents[k..], fullWQ := if k > 0 then [] else st.fullWQ), Got(st.contents[..k]))
    case Write(p, data) =>
      if |st.contents| >= CAPACITY then
        if st.readOpen then (st.(fullWQ := st.fullWQ + [p]), Asleep) else (st, Wrote(|data|))
      else
        var k := |Stored(st, data)|;
        (st.(contents := st.contents + data[..k], emptyWQ := if k > 0 then [] else st.emptyWQ), Wrote(k))
    case CloseRead => (st.(readOpen := false, fullWQ := []), Closed)
    case CloseWrite => (st.(writeOpen := false, emptyWQ := []), Closed)
  }

  /** What of `data` finds room. */
  function Stored(st: Pipe, data: string): string {
    if |st.contents| >= CAPACITY then "" else data[..Min(|data|, CAPACITY - |st.contents|)]
  }

  const NEW_PIPE := Pipe("", true, true, [], [])

  function StateAt(ops: seq<Op>, t: nat): Pipe
    requires t <= |ops|
  {
    if t == 0 then NEW_PIPE else Step(StateAt(ops, t - 1), ops[t - 1]).0
  }

  function OutcomeAt(ops: seq<Op>, t: nat): Outcome
    requires t < |ops|
  {
    Step(StateAt(ops, t), ops[t]).1
  }

  /** Everything writers put into the pipe so far. */
  function Sent(ops: seq<Op>, t: nat): string
    requires t <= |ops|
  {
    if t == 0 then "" else
      Sent(ops, t - 1) + if ops[t - 1].Write? then Stored(StateAt(ops, t - 1), ops[t - 1].data) else ""
  }

  /** Everything readers were given so far. */
  function Received(ops: seq<Op>, t: nat): string
    requires t <= |ops|
  {
    if t == 0 then "" else
      Received(ops, t - 1) + if OutcomeAt(ops, t - 1).Got? then OutcomeAt(ops, t - 1).data else ""
  }

  lemma StepConserves(st: Pipe, op: Op, sent: string, received: string)
    requires received + st.contents == sent && |st.contents| <= CAPACITY
    ensures var (st', r) := Step(st, op);
            && (received + if r.Got? then r.data else "") + st'.contents == sent + (if op.Write? then Stored(st, op.data) else "")
            && |st'.contents| <= CAPACITY
  {
    match op {
      case Read(p, n) =>
        var k := Min(n, |st.contents|);
        assert st.contents[..k] + st.contents[k..] == st.contents;
      case _ =>
    }
  }

  /** No byte is lost, invented or reordered: what was received, then what is held, is what was sent. */
  lemma {:induction false} Conservation(ops: seq<Op>, t: nat)
    requires t <= |ops|
    ensures Received(ops, t) + StateAt(ops, t).contents == Sent(ops, t) && |StateAt(ops, t).contents| <= CAPACITY
  {
    if t > 0 {
      Conservation(ops, t - 1);
      StepConserves(StateAt(ops, t - 1), ops[t - 1], Sent(ops, t - 1), Received(ops, t - 1));
    }
  }

  /** Sleepers have a reason to sleep. */
  ghost predicate Justified(st: Pipe) {
    && (st.emptyWQ != [] ==> st.contents == "" && st.writeOpen)
    && (st.fullWQ != [] ==> |st.contents| == CAPACITY && st.readOpen)
  }

  lemma StepJustified(st: Pipe, op: Op)
    requires Justified(st) && |st.contents| <= CAPACITY
    ensures Justified(Step(st, op).0)
  {
  }

  lemma {:induction false} JustifiedRun(ops: seq<Op>, t: nat)
    requires t <= |ops|
    ensures Justified(StateAt(ops, t))
  {
    if t > 0 {
      JustifiedRun(ops, t - 1);
      Conservation(ops, t - 1);
      StepJustified(StateAt(ops, t - 1), ops[t - 1]);
    }
  }

  /**
   No wake-up is ever lost: at every moment of every run, a process asleep in `read` or `write`
   would go straight back to sleep if it ran. Readers and writers never sleep at the same time.
   */
  lemma NoLostWakeup(ops: seq<Op>, t: nat, p: Pid, n: nat, data: string)
    requires t <= |ops|
    ensures p in StateAt(ops, t).emptyWQ ==> Step(StateAt(ops, t), Read(p, n)).1 == Asleep
    ensures p in StateAt(ops, t).fullWQ ==> Step(StateAt(ops, t), Write(p, data)).1 == Asleep
    ensures StateAt(ops, t).emptyWQ == [] || StateAt(ops, t).fullWQ == []
  {
    JustifiedRun(ops, t);
  }

  /** A read of at least one byte answers with nothing exactly at the end: writer gone, all received. */
  lemma EndOfFile(ops: seq<Op>, t: nat)
    requires t < |ops| && ops[t].Read? && ops[t].n > 0
    ensures OutcomeAt(ops, t) == Got("") <==> !StateAt(ops, t).writeOpen && Received(ops, t) == Sent(ops, t)
    ensures OutcomeAt(ops, t) == Asleep <==> StateAt(ops, t).writeOpen && Received(ops, t) == Sent(ops, t)
  {
    Conservation(ops, t);
    var st := StateAt(ops, t);
    assert Received(ops, t) == Sent(ops, t) <==> st.contents == "" by {
      assert |Received(ops, t)| + |st.contents| == |Sent(ops, t)|;
    }
    if st.contents != "" { assert |st.contents[..Min(ops[t].n, |st.contents|)]| > 0; }
  }

  /** The count a write reports is what it stored, except on a full pipe nobody reads any more. */
  lemma ReportedIsStored(ops: seq<Op>, t: nat)
    requires t < |ops| && ops[t].Write? && OutcomeAt(ops, t).Wrote?
    ensures OutcomeAt(ops, t).n == |Stored(StateAt(ops, t), ops[t].data)| <==>
            |StateAt(ops, t).contents| < CAPACITY || ops[t].data == ""
  {
    Conservation(ops, t);
  }

  /** The failing case as a run: fill the pipe, close its read end, write again. */
  lemma DiscardedButReported(p: Pid, data: string, more: string)
    requires |data| == CAPACITY && more != ""
    ensures var ops := [Write(p, data), CloseRead, Write(p, more)];
            OutcomeAt(ops, 2) == Wrote(|more|) && Stored(StateAt(ops, 2), more) == "" && StateAt(ops, 3) == StateAt(ops, 2)
  {
    var ops := [Write(p, data), CloseRead, Write(p, more)];
    assert data[..CAPACITY] == data && "" + data == data;
    assert StateAt(ops, 1) == NEW_PIPE.(contents := data);
    assert StateAt(ops, 2) == NEW_PIPE.(contents := data, readOpen := false);
  }

  // ---------- Answers told from the history alone ----------

  lemma StepFlags(st: Pipe, op: Op)
    ensures Step(st, op).0.readOpen <==> st.readOpen && op != CloseRead
    ensures Step(st, op).0.writeOpen <==> st.writeOpen && op != CloseWrite
  {
  }

  /** An end of the pipe is open until it is closed. */
  lemma {:induction false} OpenUntilClosed(ops: seq<Op>, t: nat)
    requires t <= |ops|
    ensures StateAt(ops, t).readOpen <==> CloseRead !in ops[..t]
    ensures StateAt(ops, t).writeOpen <==> CloseWrite !in ops[..t]
  {
    if t > 0 {
      OpenUntilClosed(ops, t - 1);
      StepFlags(StateAt(ops, t - 1), ops[t - 1]);
      InStretch(ops, 0, t, CloseRead);
      InStretch(ops, 0, t, CloseWrite);
      assert ops[0..t] == ops[..t] && ops[0..t - 1] == ops[..t - 1];
    }
  }

  lemma HeldIs(received: string, contents: string, sent: string, k: nat)
    requires received + contents == sent && k <= |contents|
    ensures |sent| - |received| == |contents| && contents[..k] == sent[|received|..|received| + k]
  {
  }

  /** A read gets as many of the bytes sent and not yet received as it asks for, and sleeps only if there are none. */
  lemma ReadAnswers(ops: seq<Op>, t: nat)
    requires t < |ops| && ops[t].Read?
    ensures |Received(ops, t)| <= |Sent(ops, t)|
    ensures var (sent, got) := (Sent(ops, t), |Received(ops, t)|);
            var k := if ops[t].n < |sent| - got then ops[t].n else |sent| - got;
            OutcomeAt(ops, t) == if got == |sent| && CloseWrite !in ops[..t] then Asleep else Got(sent[got..got + k])
  {
    var st := StateAt(ops, t);
    Conservation(ops, t);
    OpenUntilClosed(ops, t);
    HeldIs(Received(ops, t), st.contents, Sent(ops, t), Min(ops[t].n, |st.contents|));
  }

  /** A write stores what finds room among 4096 bytes; it sleeps only if there is no room and a reader may make some. */
  lemma WriteAnswers(ops: seq<Op>, t: nat)
    requires t < |ops| && ops[t].Write?
    ensures |Received(ops, t)| <= |Sent(ops, t)| <= |Received(ops, t)| + 4096
    ensures var room := 4096 - (|Sent(ops, t)| - |Received(ops, t)|);
            var k := if |ops[t].data| < room then |ops[t].data| else room;
            && Sent(ops, t + 1) == Sent(ops, t) + ops[t].data[..k]
            && OutcomeAt(ops, t) ==
               if room > 0 then Wrote(k) else if CloseRead !in ops[..t] then Asleep else Wrote(|ops[t].data|)
  {
    var st := StateAt(ops, t);
    Conservation(ops, t);
    OpenUntilClosed(ops, t);
    HeldIs(Received(ops, t), st.contents, Sent(ops, t), 0);
  }

  /** `p` went to sleep in a read, and since then nothing was sent and the writer stayed. */
  ghost predicate AsleepReading(ops: seq<Op>, t: nat, p: Pid)
    requires t <= |ops|
  {
    t > 0
    && (|| (ops[t - 1].Read? && ops[t - 1].p == p && OutcomeAt(ops, t - 1) == Asleep)
        || (AsleepReading(ops, t - 1, p) && Sent(ops, t) == Sent(ops, t - 1) && ops[t - 1] != CloseWrite))
  }

  /** `p` went to sleep in a write, and since then nothing was received and the reader stayed. */
  ghost predicate AsleepWriting(ops: seq<Op>, t: nat, p: Pid)
    requires t <= |ops|
  {
    t > 0
    && (|| (ops[t - 1].Write? && ops[t - 1].p == p && OutcomeAt(ops, t - 1) == Asleep)
        || (AsleepWriting(ops, t - 1, p) && Received(ops, t) == Received(ops, t - 1) && ops[t - 1] != CloseRead))
  }

  lemma StepQueues(st: Pipe, op: Op, p: Pid)
    ensures var (st', r) := Step(st, op);
            && (p in st'.emptyWQ <==> || (op.Read? && op.p == p && r == Asleep)
                                      || (p in st.emptyWQ && !(op.Write? && |Stored(st, op.data)| > 0) && op != CloseWrite))
            && (p in st'.fullWQ <==> || (op.Write? && op.p == p && r == Asleep)
                                     || (p in st.fullWQ && !(r.Got? && |r.data| > 0) && op != CloseRead))
  {
  }

  lemma Grows(s: string, more: string)
    ensures s + more == s <==> |more| == 0
  {
    if |more| > 0 { assert |s + more| > |s|; }
  }

  /** The waiting queues hold exactly these processes: who sleeps is queued, and is woken when it is worth trying again. */
  lemma {:induction false} SleepersExactly(ops: seq<Op>, t: nat, p: Pid)
    requires t <= |ops|
    ensures p in StateAt(ops, t).emptyWQ <==> AsleepReading(ops, t, p)
    ensures p in StateAt(ops, t).fullWQ <==> AsleepWriting(ops, t, p)
  {
    if t > 0 {
      SleepersExactly(ops, t - 1, p);
      StepQueues(StateAt(ops, t - 1), ops[t - 1], p);
      Grows(Sent(ops, t - 1), if ops[t - 1].Write? then Stored(StateAt(ops, t - 1), ops[t - 1].data) else "");
      Grows(Received(ops, t - 1), if OutcomeAt(ops, t - 1).Got? then OutcomeAt(ops, t - 1).data else "");
    }
  }

  class PipeBuffer {
    const fifo: Fifo<char>
    var readFileOpen: bool
    var writeFileOpen: bool
    var fullWQ: seq<Pid>
    var emptyWQ: seq<Pid>

    ghost predicate Valid()
      reads this, fifo, fifo.buffer
    {
      fifo.Valid() && fifo.buffer.Length == CAPACITY
    }

    ghost function Abs(): Pipe
      reads this, fifo
    {
      Pipe(fifo.Contents, readFileOpen, writeFileOpen, fullWQ, emptyWQ)
    }

    constructor ()
      ensures Valid() && fresh(fifo) && fresh(fifo.buffer) && Abs() == NEW_PIPE
    {
      fifo := new Fifo(CAPACITY, '\0');
      readFileOpen, writeFileOpen := true, true;
      fullWQ, emptyWQ := [], [];
    }

    method CloseReadFile()
      requires Valid()
      modifies this
      ensures Valid() && Abs() == Step(old(Abs()), CloseRead).0
    {
      readFileOpen := false;
      fullWQ := [];
    }

    method CloseWriteFile()
      requires Valid()
      modifies this
      ensures Valid() && Abs() == Step(old(Abs()), CloseWrite).0
    {
      writeFileOpen := false;
      emptyWQ := [];
    }

    /** Takes bytes until `n` are there or the pipe is empty. */
    method Drain(n: nat) returns (data: string)
      requires Valid()
      modifies fifo
      ensures Valid() && |data| == Min(n, |old(fifo.Contents)|) && data + fifo.Contents == old(fifo.Contents)
    {
      data := "";
      while |data| < n
        invariant Valid() && |data| <= n && data + fifo.Contents == old(fifo.Contents)
      {
        var c := fifo.TryGet();
        if c == [] { break; }
        data := data + c;
      }
    }

    /** Puts bytes until all are stored or the pipe is full. */
    method Fill(data: string) returns (count: nat)
      requires Valid()
      modifies fifo, fifo.buffer
      ensures Valid() && count == Min(|data|, CAPACITY - |old(fifo.Contents)|)
      ensures fifo.Contents == old(fifo.Contents) + data[..count]
    {
      count := 0;
      while count < |data|
        invariant Valid() && count <= |data| && fifo.Contents == old(fifo.Contents) + data[..count]
      {
        var ok := fifo.TryPut(data[count]);
        if !ok { break; }
        count := count + 1;
      }
    }

    method Read(p: Pid, n: nat) returns (r: Outcome)
      requires Valid()
      modifies this, fifo
      ensures Valid() && Abs() == Step(old(Abs()), Op.Read(p, n)).0 && r == Step(old(Abs()), Op.Read(p, n)).1
    {
      if fifo.free == CAPACITY && writeFileOpen {
        emptyWQ := emptyWQ + [p];
        return Asleep;
      }
      var data := Drain(n);
      if |data| > 0 { fullWQ := []; }
      return Got(data);
    }

    method Write(p: Pid, data: string) returns (r: Outcome)
      requires Valid()
      modifies this, fifo, fifo.buffer
      ensures Valid() && Abs() == Step(old(Abs()), Op.Write(p, data)).0 && r == Step(old(Abs()), Op.Write(p, data)).1
    {
      if fifo.free == 0 {
        if !readFileOpen { return Wrote(|data|); }
        fullWQ := fullWQ + [p];
        return Asleep;
      }
      var count := Fill(data);
      if count > 0 { emptyWQ := []; }
      return Wrote(count);
    }

    method Apply(op: Op) returns (r: Outcome)
      requires Valid()
      modifies this, fifo, fifo.buffer
      ensures Valid() && Abs() == Step(old(Abs()), op).0 && r == Step(old(Abs()), op).1
    {
      r := Closed;
      match op {
        case Read(p, n) => r := Read(p, n);
        case Write(p, data) => r := Write(p, data);
        case CloseRead => CloseReadFile();
        case CloseWrite => CloseWriteFile();
      }
    }
  }

  ghost function Outcomes(ops: seq<Op>, t: nat): seq<Outcome>
    requires t <= |ops|
  {
    if t == 0 then [] else Outcomes(ops, t - 1) + [OutcomeAt(ops, t - 1)]
  }

  /** The object that has gone through a run is in the run's last state, and answered as the run says. */
  method Replay(ops: seq<Op>) returns (pipe: PipeBuffer, outcomes: seq<Outcome>)
    ensures pipe.Valid() && pipe.Abs() == StateAt(ops, |ops|)
    ensures outcomes == Outcomes(ops, |ops|)
  {
    pipe := new PipeBuffer();
    outcomes := [];
    for t := 0 to |ops|
      invariant pipe.Valid() && fresh(pipe) && fresh(pipe.fifo) && fresh(pipe.fifo.buffer)
      invariant pipe.Abs() == StateAt(ops, t)
      invariant outcomes == Outcomes(ops, t)
    {
      var r := pipe.Apply(ops[t]);
      outcomes := outcomes + [r];
    }
  }
}
