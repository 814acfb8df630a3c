/**
 Message queues: a bounded queue of whole messages with counted readers and writers. As for
 pipes, a step is what a process does between two visits to the scheduler.
 */
module MessageQueues {
  import opened Fifos

  type Pid = nat

  const MESSAGE_SIZE := 4096
  const BODY_SIZE := 4080 // the header takes 16 bytes

  datatype Message = Message(sender: Pid, timestamp: nat, payload: string)

  datatype Queue = Queue(
    capacity: nat, contents: seq<Message>, readers: nat, writers: nat, fullWQ: seq<Pid>, emptyWQ: seq<Pid>)

  datatype Op =
    | Read(p: Pid, n: nat, allowBlock: bool)
    | Write(m: Message, allowBlock: bool)
    | OpenReader
    | OpenWriter
    | CloseReader
    | CloseWriter

  /** `Got` and `Wrote` report a whole message; `Nothing` is a count of zero. */
  datatype Outcome = Asleep | Got(m: Message) | Wrote(n: nat) | Nothing

  function Step(st: Queue, op: Op): (r: (Queue, Outcome)) {
    match op
    case Read(p, n, allowBlock) =>
      if n != MESSAGE_SIZE then (st, Nothing)
      else if st.contents == [] && st.writers > 0 then
        if allowBlock then (st.(emptyWQ := st.emptyWQ + [p]), Asleep) else (st, Nothing)
      else if st.contents == [] then (st, Nothing)
      else (st.(contents := st.contents[1..], fullWQ := []), Got(st.contents[0]))
    case Write(m, allowBlock) =>
      if |m.payload| > BODY_SIZE then (st, Nothing)
      else if |st.contents| >= st.capacity then
        if allowBlock then (st.(fullWQ := st.fullWQ + [m.sender]), Asleep) else (st, Nothing)
      else (st.(contents := st.contents + [m], emptyWQ := []), Wrote(|m.payload|))
    case OpenReader => (st.(readers := st.readers + 1), Nothing)
    case OpenWriter => (st.(writers := st.writers + 1), Nothing)
    case CloseReader => (st.(readers := if st.readers > 0 then st.readers - 1 else 0), Nothing)
    case CloseWriter => (st.(writers := if st.writers > 0 then st.writers - 1 else 0), Nothing)
  }

  function StateAt(capacity: nat, ops: seq<Op>, t: nat): Queue
    requires t <= |ops|
  {
    if t == 0 then Queue(capacity, [], 0, 0, [], []) else Step(StateAt(capacity, ops, t - 1), ops[t - 1]).0
  }

  function OutcomeAt(capacity: nat, ops: seq<Op>, t: nat): Outcome
    requires t < |ops|
  {
    Step(StateAt(capacity, ops, t), ops[t]).1
  }

  /** The messages whose writes succeeded so far. */
  function Sent(capacity: nat, ops: seq<Op>, t: nat): seq<Message>
    requires t <= |ops|
  {
    if t == 0 then [] else
      Sent(capacity, ops, t - 1) +
      if ops[t - 1].Write? && OutcomeAt(capacity, ops, t - 1).Wrote? then [ops[t - 1].m] else []
  }

  /** The messages readers were given so far. */
  function Received(capacity: nat, ops: seq<Op>, t: nat): seq<Message>
    requires t <= |ops|
  {
    if t == 0 then [] else
      Received(capacity, ops, t - 1) +
      if OutcomeAt(capacity, ops, t - 1).Got? then [OutcomeAt(capacity, ops, t - 1).m] else []
  }

  lemma StepConserves(st: Queue, op: Op, sent: seq<Message>, received: seq<Message>)
    requires received + st.contents == sent && |st.contents| <= st.capacity
    ensures var (st', r) := Step(st, op);
            && (received + if r.Got? then [r.m] else []) + st'.contents == sent + (if op.Write? && r.Wrote? then [op.m] else [])
            && |st'.contents| <= st'.capacity == st.capacity
  {
    if Step(st, op).1.Got? { assert st.contents == [st.contents[0]] + st.contents[1..]; }
  }

  /** Messages come out whole, once, and in the order in which their writes succeeded. */
  lemma {:induction false} Conservation(capacity: nat, ops: seq<Op>, t: nat)
    requires t <= |ops|
    ensures Received(capacity, ops, t) + StateAt(capacity, ops, t).contents == Sent(capacity, ops, t)
    ensures |StateAt(capacity, ops, t).contents| <= StateAt(capacity, ops, t).capacity == capacity
  {
    if t > 0 {
      Conservation(capacity, ops, t - 1);
      StepConserves(StateAt(capacity, ops, t - 1), ops[t - 1], Sent(capacity, ops, t - 1), Received(capacity, ops, t - 1));
    }
  }

  /** Sleepers have a reason to sleep. */
  ghost predicate Justified(st: Queue) {
    && (st.emptyWQ != [] ==> st.contents == [] && st.writers > 0)
    && (st.fullWQ != [] ==> |st.contents| == st.capacity)
  }

  /** The last writer leaves while readers sleep. */
  ghost predicate Strands(st: Queue, op: Op) {
    op.CloseWriter? && st.writers == 1 && st.emptyWQ != []
  }

  lemma StepJustified(st: Queue, op: Op)
    requires Justified(st) && |st.contents| <= st.capacity
    ensures Justified(Step(st, op).0) <==> !Strands(st, op)
  {
  }

  ghost predicate AlwaysJustified(capacity: nat, ops: seq<Op>, t: nat)
    requires t <= |ops|
  {
    Justified(StateAt(capacity, ops, t)) && (t > 0 ==> AlwaysJustified(capacity, ops, t - 1))
  }

  ghost predicate NeverStrands(capacity: nat, ops: seq<Op>, t: nat)
    requires t <= |ops|
  {
    t > 0 ==> !Strands(StateAt(capacity, ops, t - 1), ops[t - 1]) && NeverStrands(capacity, ops, t - 1)
  }

  /** Every sleep is justified throughout a run exactly when no close ever strands a reader. */
  lemma {:induction false} JustifiedRun(capacity: nat, ops: seq<Op>, t: nat)
    requires t <= |ops|
    ensures AlwaysJustified(capacity, ops, t) <==> NeverStrands(capacity, ops, t)
  {
    if t > 0 {
      JustifiedRun(capacity, ops, t - 1);
      Conservation(capacity, ops, t - 1);
      if AlwaysJustified(capacity, ops, t - 1) { StepJustified(StateAt(capacity, ops, t - 1), ops[t - 1]); }
    }
  }

  /** Until such a close, a sleeper that ran would go straight back to sleep. */
  lemma NoLostWakeup(capacity: nat, ops: seq<Op>, t: nat, p: Pid, m: Message)
    requires t <= |ops| && |m.payload| <= BODY_SIZE && NeverStrands(capacity, ops, t)
    ensures p in StateAt(capacity, ops, t).emptyWQ ==>
              Step(StateAt(capacity, ops, t), Read(p, MESSAGE_SIZE, true)).1 == Asleep
    ensures m.sender in StateAt(capacity, ops, t).fullWQ ==>
              Step(StateAt(capacity, ops, t), Write(m, true)).1 == Asleep
  {
    JustifiedRun(capacity, ops, t);
  }

  /** After it, the stranded reader sleeps on although reading would return at once. */
  lemma StrandedSleepsOn(st: Queue, p: Pid)
    requires Justified(st) && Strands(st, CloseWriter) && p in st.emptyWQ
    ensures var st' := Step(st, CloseWriter).0;
            p in st'.emptyWQ && Step(st', Read(p, MESSAGE_SIZE, true)) == (st', Nothing)
  {
  }

  /** A run that strands its reader. */
  lemma ReaderStranded()
    ensures var ops := [OpenReader, OpenWriter, Read(1, MESSAGE_SIZE, true), CloseWriter];
            Strands(StateAt(256, ops, 3), ops[3]) && StateAt(256, ops, 4) == Queue(256, [], 1, 0, [], [1])
  {
    var ops := [OpenReader, OpenWriter, Read(1, MESSAGE_SIZE, true), CloseWriter];
    assert StateAt(256, ops, 1) == Queue(256, [], 1, 0, [], []);
    assert StateAt(256, ops, 2) == Queue(256, [], 1, 1, [], []);
    assert StateAt(256, ops, 3) == Queue(256, [], 1, 1, [], [1]);
  }

  // ---------- Answers told from the history alone ----------

  ghost predicate NeverOverClosed(ops: seq<Op>, t: nat, enter: Op, leave: Op)
    requires t <= |ops|
  {
    multiset(ops[..t])[leave] <= multiset(ops[..t])[enter] && (t > 0 ==> NeverOverClosed(ops, t - 1, enter, leave))
  }

  lemma CountOn(ops: seq<Op>, t: nat)
    requires 0 < t <= |ops|
    ensures multiset(ops[..t]) == multiset(ops[..t - 1]) + multiset{ops[t - 1]}
  {
    assert ops[..t] == ops[..t - 1] + [ops[t - 1]];
  }

  /** The clients are the ones that opened the queue and did not close it, as long as nobody closes more than was opened. */
  lemma {:induction false} ClientsCounted(capacity: nat, ops: seq<Op>, t: nat)
    requires t <= |ops|
    ensures NeverOverClosed(ops, t, OpenReader, CloseReader) ==>
              StateAt(capacity, ops, t).readers == multiset(ops[..t])[OpenReader] - multiset(ops[..t])[CloseReader]
    ensures NeverOverClosed(ops, t, OpenWriter, CloseWriter) ==>
              StateAt(capacity, ops, t).writers == multiset(ops[..t])[OpenWriter] - multiset(ops[..t])[CloseWriter]
  {
    if t > 0 {
      ClientsCounted(capacity, ops, t - 1);
      CountOn(ops, t);
    }
  }

  lemma HeldIs<T>(received: seq<T>, contents: seq<T>, sent: seq<T>)
    requires received + contents == sent
    ensures |sent| - |received| == |contents| && (contents != [] ==> contents[0] == sent[|received|])
  {
  }

  /** A read for a whole message gets the oldest one not yet received; only with none left do writers and blocking matter. */
  lemma ReadAnswers(capacity: nat, ops: seq<Op>, t: nat)
    requires t < |ops| && ops[t].Read?
    ensures var (sent, got) := (Sent(capacity, ops, t), |Received(capacity, ops, t)|);
            OutcomeAt(capacity, ops, t) ==
            if ops[t].n == 4096 && got < |sent| then Got(sent[got])
            else if ops[t].n == 4096 && StateAt(capacity, ops, t).writers > 0 && ops[t].allowBlock then Asleep
            else Nothing
  {
    Conservation(capacity, ops, t);
    HeldIs(Received(capacity, ops, t), StateAt(capacity, ops, t).contents, Sent(capacity, ops, t));
  }

  /** A message of at most 4080 bytes is accepted whenever there is room, and all of it is reported. */
  lemma WriteAnswers(capacity: nat, ops: seq<Op>, t: nat)
    requires t < |ops| && ops[t].Write?
    ensures var size, held := |ops[t].m.payload|, |Sent(capacity, ops, t)| - |Received(capacity, ops, t)|;
            && 0 <= held <= capacity
            && OutcomeAt(capacity, ops, t) ==
               if size <= 4080 && held < capacity then Wrote(size)
               else if size <= 4080 && ops[t].allowBlock then Asleep
               else Nothing
  {
    Conservation(capacity, ops, t);
    HeldIs(Received(capacity, ops, t), StateAt(capacity, ops, t).contents, Sent(capacity, ops, t));
  }

  /** `p` went to sleep in a read, and no message was sent since. */
  ghost predicate AsleepReading(capacity: nat, ops: seq<Op>, t: nat, p: Pid)
    requires t <= |ops|
  {
    t > 0
    && (|| (ops[t - 1].Read? && ops[t - 1].p == p && OutcomeAt(capacity, ops, t - 1) == Asleep)
        || (AsleepReading(capacity, ops, t - 1, p) && !OutcomeAt(capacity, ops, t - 1).Wrote?))
  }

  /** `p` went to sleep in a write, and no message was received since. */
  ghost predicate AsleepWriting(capacity: nat, ops: seq<Op>, t: nat, p: Pid)
    requires t <= |ops|
  {
    t > 0
    && (|| (ops[t - 1].Write? && ops[t - 1].m.sender == p && OutcomeAt(capacity, ops, t - 1) == Asleep)
        || (AsleepWriting(capacity, ops, t - 1, p) && !OutcomeAt(capacity, ops, t - 1).Got?))
  }

  lemma StepQueues(st: Queue, op: Op, p: Pid)
    ensures var (st', r) := Step(st, op);
            && (p in st'.emptyWQ <==> (op.Read? && op.p == p && r == Asleep) || (p in st.emptyWQ && !r.Wrote?))
            && (p in st'.fullWQ <==> (op.Write? && op.m.sender == p && r == Asleep) || (p in st.fullWQ && !r.Got?))
  {
  }

  /** The waiting queues hold exactly these processes: who sleeps is queued until a message comes or goes. */
  lemma {:induction false} SleepersExactly(capacity: nat, ops: seq<Op>, t: nat, p: Pid)
    requires t <= |ops|
    ensures p in StateAt(capacity, ops, t).emptyWQ <==> AsleepReading(capacity, ops, t, p)
    ensures p in StateAt(capacity, ops, t).fullWQ <==> AsleepWriting(capacity, ops, t, p)
  {
    if t > 0 {
      SleepersExactly(capacity, ops, t - 1, p);
      StepQueues(StateAt(capacity, ops, t - 1), ops[t - 1], p);
    }
  }

  class MessageQueueBuffer {
    const fifo: Fifo<Message>
    var numReaders: nat
    var numWriters: nat
    var fullWQ: seq<Pid>
    var emptyWQ: seq<Pid>

    ghost predicate Valid()
      reads this, fifo, fifo.buffer
    {
      fifo.Valid()
    }

    ghost function Abs(): Queue
      reads this, fifo, fifo.buffer
    {
      Queue(fifo.buffer.Length, fifo.Contents, numReaders, numWriters, fullWQ, emptyWQ)
    }

    constructor (numMessages: nat)
      requires numMessages > 0
      ensures Valid() && fresh(fifo) && fresh(fifo.buffer) && Abs() == Queue(numMessages, [], 0, 0, [], [])
    {
      fifo := new Fifo(numMessages, Message(0, 0, ""));
      numReaders, numWriters := 0, 0;
      fullWQ, emptyWQ := [], [];
    }

    /** Opening and closing count, and do nothing else. */
    method ChangeClients(op: Op)
      requires Valid() && (op.OpenReader? || op.OpenWriter? || op.CloseReader? || op.CloseWriter?)
      modifies this
      ensures Valid() && Abs() == Step(old(Abs()), op).0
    {
      match op {
        case OpenReader => numReaders := numReaders + 1;
        case OpenWriter => numWriters := numWriters + 1;
        case CloseReader => if numReaders > 0 { numReaders := numReaders - 1; }
        case CloseWriter => if numWriters > 0 { numWriters := numWriters - 1; }
      }
    }

    method Read(p: Pid, n: nat, allowBlock: bool) returns (r: Outcome)
      requires Valid()
      modifies this, fifo
      ensures Valid() && Abs() == Step(old(Abs()), Op.Read(p, n, allowBlock)).0
      ensures r == Step(old(Abs()), Op.Read(p, n, allowBlock)).1
    {
      if n != MESSAGE_SIZE { return Nothing; }
      if fifo.free == fifo.buffer.Length && numWriters != 0 {
        if !allowBlock { return Nothing; }
        emptyWQ := emptyWQ + [p];
        return Asleep;
      }
      var m := fifo.TryGet();
      if m == [] { return Nothing; }
      fullWQ := [];
      return Got(m[0]);
    }

    method Write(m: Message, allowBlock: bool) returns (r: Outcome)
      requires Valid()
      modifies this, fifo, fifo.buffer
      ensures Valid() && Abs() == Step(old(Abs()), Op.Write(m, allowBlock)).0
      ensures r == Step(old(Abs()), Op.Write(m, allowBlock)).1
    {
      if |m.payload| > BODY_SIZE { return Nothing; }
      if fifo.free == 0 {
        if !allowBlock { return Nothing; }
        fullWQ := fullWQ + [m.sender];
        return Asleep;
      }
      var _ := fifo.TryPut(m);
      emptyWQ := [];
      return Wrote(|m.payload|);
    }

    method Apply(op: Op) returns (r: Outcome)
      requires Valid()
      modifies this, fifo, fifo.buffer
      ensures Valid() && Abs() == Step(old(Abs()), op).0 && r == Step(old(Abs()), op).1
    {
      r := Nothing;
      match op {
        case Read(p, n, allowBlock) => r := Read(p, n, allowBlock);
        case Write(m, allowBlock) => r := Write(m, allowBlock);
        case _ => ChangeClients(op);
      }
    }
  }

  ghost function Outcomes(capacity: nat, ops: seq<Op>, t: nat): seq<Outcome>
    requires t <= |ops|
  {
    if t == 0 then [] else Outcomes(capacity, ops, t - 1) + [OutcomeAt(capacity, ops, t - 1)]
  }

  /** The object that has gone through a run is in the run's last state, and answered as the run says. */
  method Replay(capacity: nat, ops: seq<Op>) returns (queue: MessageQueueBuffer, outcomes: seq<Outcome>)
    requires capacity > 0
    ensures queue.Valid() && queue.Abs() == StateAt(capacity, ops, |ops|)
    ensures outcomes == Outcomes(capacity, ops, |ops|)
  {
    queue := new MessageQueueBuffer(capacity);
    outcomes := [];
    for t := 0 to |ops|
      invariant queue.Valid() && fresh(queue) && fresh(queue.fifo) && fresh(queue.fifo.buffer)
      invariant queue.Abs() == StateAt(capacity, ops, t)
      invariant outcomes == Outcomes(capacity, ops, t)
    {
      var r := queue.Apply(ops[t]);
      outcomes := outcomes + [r];
    }
  }
}
