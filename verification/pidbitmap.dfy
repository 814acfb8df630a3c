/**
 The next-fit allocator of process identifiers: a bitmap and a cursor that the search starts
 from and moves past every identifier it returns. Running out of identifiers panics the kernel,
 which `None` stands for.
 */
module ProcessBitmaps {
  import opened Words
  import opened Bits
  import opened Cyclic

  datatype State = State(reserved: set<nat>, cursor: nat)

  datatype Op = Next | Free(pid: nat) | Reserve(pid: nat)

  /** How many reserved identifiers the cyclic scan passes before a free one; `n` if all are. */
  function Distance(st: State, n: nat, i: nat): (d: nat)
    requires 0 < n && i <= n
    ensures i <= d <= n
    ensures forall k: nat | i <= k < d :: Slot(st.cursor, k, n) in st.reserved
    ensures d < n ==> Slot(st.cursor, d, n) !in st.reserved
    decreases n - i
  {
    if i == n || Slot(st.cursor, i, n) !in st.reserved then i else Distance(st, n, i + 1)
  }

  function Returned(st: State, n: nat, op: Op): Option<nat>
    requires 0 < n
  {
    var d := Distance(st, n, 0);
    if op.Next? && d < n then Some(Slot(st.cursor, d, n)) else None
  }

  function Step(st: State, n: nat, op: Op): State
    requires 0 < n
  {
    match op
    case Next =>
      (match Returned(st, n, op)
       case Some(pid) => State(st.reserved + {pid}, pid + 1)
       case None => st)
    case Free(pid) => st.(reserved := st.reserved - {pid})
    case Reserve(pid) => st.(reserved := st.reserved + {pid})
  }

  /** The allocator before operation `t` of a run. */
  ghost function StateAt(n: nat, ops: seq<Op>, t: nat): State
    requires 0 < n && t <= |ops|
  {
    if t == 0 then State({}, 0) else Step(StateAt(n, ops, t - 1), n, ops[t - 1])
  }

  ghost function ReturnedAt(n: nat, ops: seq<Op>, t: nat): Option<nat>
    requires 0 < n && t < |ops|
  {
    Returned(StateAt(n, ops, t), n, ops[t])
  }

  // ---------- One search ----------

  /** The search returns a free identifier, and panics only if every identifier is reserved. */
  lemma NextIsFree(st: State, n: nat)
    requires 0 < n
    ensures match Returned(st, n, Next)
            case Some(pid) => pid < n && pid !in st.reserved
            case None => forall q: nat | q < n :: q in st.reserved
  {
    if Returned(st, n, Next) == None {
      forall q: nat | q < n ensures q in st.reserved {
        var i := Ahead(n, st.cursor, q);
      }
    }
  }

  // ---------- What is in use ----------

  /** Whether `p` is in use before operation `t`, told from what was asked and answered alone. */
  ghost predicate InUse(n: nat, ops: seq<Op>, t: nat, p: nat)
    requires 0 < n && t <= |ops|
  {
    t > 0 && ops[t - 1] != Free(p)
    && (ops[t - 1] == Reserve(p) || ReturnedAt(n, ops, t - 1) == Some(p) || InUse(n, ops, t - 1, p))
  }

  /** Exactly the identifiers in use are reserved. */
  lemma {:induction false} ReservedIsInUse(n: nat, ops: seq<Op>, t: nat, p: nat)
    requires 0 < n && t <= |ops|
    ensures p in StateAt(n, ops, t).reserved <==> InUse(n, ops, t, p)
  {
    if t > 0 {
      ReservedIsInUse(n, ops, t - 1, p);
    }
  }

  lemma {:induction false} UsedUntilFreed(n: nat, ops: seq<Op>, t: nat, u: nat, p: nat)
    requires 0 < n && t <= u <= |ops| && InUse(n, ops, t, p) && Free(p) !in ops[t..u]
    ensures InUse(n, ops, u, p)
    decreases u - t
  {
    if t < u {
      InStretch(ops, t, u, Free(p));
      UsedUntilFreed(n, ops, t, u - 1, p);
    }
  }

  /** A search never returns an identifier in use, and panics only when all of them are. */
  lemma SearchAnswers(n: nat, ops: seq<Op>, t: nat)
    requires 0 < n && t < |ops| && ops[t] == Next
    ensures match ReturnedAt(n, ops, t)
            case Some(p) => p < n && !InUse(n, ops, t, p)
            case None => forall p: nat | p < n :: InUse(n, ops, t, p)
  {
    NextIsFree(StateAt(n, ops, t), n);
    match ReturnedAt(n, ops, t)
    case Some(p) => ReservedIsInUse(n, ops, t, p);
    case None =>
      forall p: nat | p < n ensures InUse(n, ops, t, p) { ReservedIsInUse(n, ops, t, p); }
  }

  /** No identifier is given to two processes: it comes back only after it has been freed. */
  lemma ReturnedOnce(n: nat, ops: seq<Op>, t1: nat, t2: nat, p: nat)
    requires 0 < n && t1 < t2 < |ops| && ReturnedAt(n, ops, t1) == Some(p) == ReturnedAt(n, ops, t2)
    ensures Free(p) in ops[t1 + 1..t2]
  {
    SearchAnswers(n, ops, t2);
    if Free(p) !in ops[t1 + 1..t2] { UsedUntilFreed(n, ops, t1 + 1, t2, p); }
  }

  // ---------- Fairness over whole runs ----------

  /** How far operation `t` moves the cursor. */
  ghost function Advance(n: nat, ops: seq<Op>, t: nat): nat
    requires 0 < n && t < |ops|
  {
    if ReturnedAt(n, ops, t).Some? then Distance(StateAt(n, ops, t), n, 0) + 1 else 0
  }

  /** Operation `t` was a search that probed `q`, and returned it or found it reserved. */
  ghost predicate Passed(n: nat, ops: seq<Op>, t: nat, q: nat)
    requires 0 < n && t < |ops|
  {
    && ops[t] == Next
    && (exists i: nat :: i < Advance(n, ops, t) && Slot(StateAt(n, ops, t).cursor, i, n) == q)
    && (ReturnedAt(n, ops, t) == Some(q) || q in StateAt(n, ops, t).reserved)
  }

  ghost predicate PassedWithin(n: nat, ops: seq<Op>, lo: nat, hi: nat, q: nat)
    requires 0 < n && hi <= |ops|
  {
    exists t: nat :: lo <= t < hi && Passed(n, ops, t, q)
  }

  /** A search moves the cursor over exactly the identifiers it came past. */
  lemma Advances(n: nat, ops: seq<Op>, t: nat)
    requires 0 < n && t < |ops|
    ensures Pos(StateAt(n, ops, t + 1).cursor, n) == Slot(StateAt(n, ops, t).cursor, Advance(n, ops, t), n)
    ensures forall i: nat | i < Advance(n, ops, t) :: Passed(n, ops, t, Slot(StateAt(n, ops, t).cursor, i, n))
  {
    var st := StateAt(n, ops, t);
    if ReturnedAt(n, ops, t).Some? { PosAdd(st.cursor + Distance(st, n, 0), 1, n); }
  }

  /** Where the cursor stands before operation `t`. */
  ghost predicate StopAt(n: nat, ops: seq<Op>, stops: seq<nat>, t: nat)
    requires 0 < n && t <= |ops| < |stops|
  {
    stops[t] == StateAt(n, ops, t).cursor
  }

  /** How far operation `t` takes it. */
  ghost predicate LegAt(n: nat, ops: seq<Op>, legs: seq<nat>, t: nat)
    requires 0 < n && t < |ops| <= |legs|
  {
    legs[t] == Advance(n, ops, t)
  }

  /** The cursor's walk over a run. */
  ghost predicate Itinerary(n: nat, ops: seq<Op>, stops: seq<nat>, legs: seq<nat>)
    requires 0 < n
  {
    && |stops| == |ops| + 1 && |legs| == |ops|
    && (forall t: nat | t <= |ops| :: StopAt(n, ops, stops, t))
    && (forall t: nat | t < |ops| :: LegAt(n, ops, legs, t))
  }

  lemma WalkOf(n: nat, ops: seq<Op>) returns (stops: seq<nat>, legs: seq<nat>)
    requires 0 < n
    ensures Itinerary(n, ops, stops, legs)
  {
    stops := seq(|ops| + 1, t requires 0 <= t <= |ops| => StateAt(n, ops, t).cursor);
    legs := seq(|ops|, t requires 0 <= t < |ops| => Advance(n, ops, t));
  }

  lemma LegHolds(n: nat, ops: seq<Op>, stops: seq<nat>, legs: seq<nat>, t: nat)
    requires 0 < n && Itinerary(n, ops, stops, legs) && t < |ops|
    ensures Leg(stops, legs, n, t)
  {
    assert StopAt(n, ops, stops, t) && StopAt(n, ops, stops, t + 1) && LegAt(n, ops, legs, t);
    Advances(n, ops, t);
  }

  /** A search that returned an identifier left the cursor right behind it. */
  lemma CursorBehind(n: nat, ops: seq<Op>, stops: seq<nat>, legs: seq<nat>, t: nat, p: nat)
    requires 0 < n && Itinerary(n, ops, stops, legs) && t < |ops| && ReturnedAt(n, ops, t) == Some(p)
    ensures stops[t + 1] == p + 1 && legs[t] > 0
  {
    assert StopAt(n, ops, stops, t + 1) && LegAt(n, ops, legs, t);
  }

  lemma PassedOnLeg(n: nat, ops: seq<Op>, stops: seq<nat>, legs: seq<nat>, t: nat, j: nat)
    requires 0 < n && Itinerary(n, ops, stops, legs) && t < |ops| && j < legs[t]
    ensures Passed(n, ops, t, Slot(stops[t], j, n))
  {
    assert StopAt(n, ops, stops, t) && LegAt(n, ops, legs, t);
    Advances(n, ops, t);
  }

  /** A cursor back where it was has come past everything. */
  lemma RoundPasses(n: nat, ops: seq<Op>, stops: seq<nat>, legs: seq<nat>, lo: nat, hi: nat, q: nat)
    requires 0 < n && Itinerary(n, ops, stops, legs) && lo < hi <= |ops| && q < n
    requires stops[lo] == stops[hi] && legs[hi - 1] > 0
    ensures PassedWithin(n, ops, lo, hi, q)
  {
    forall t: nat | t < |legs| ensures Leg(stops, legs, n, t) { LegHolds(n, ops, stops, legs, t); }
    var t, j := RoundTrip(stops, legs, n, lo, hi, q);
    PassedOnLeg(n, ops, stops, legs, t, j);
  }

  /**
   Between two returns of the same identifier, the searches came past every other one:
   each was returned in between, or was found reserved.
   */
  lemma Fairness(n: nat, ops: seq<Op>, t1: nat, t2: nat, p: nat, q: nat)
    requires 0 < n && t1 < t2 < |ops| && q < n
    requires ReturnedAt(n, ops, t1) == Some(p) && ReturnedAt(n, ops, t2) == Some(p)
    ensures PassedWithin(n, ops, t1 + 1, t2 + 1, q)
  {
    var stops, legs := WalkOf(n, ops);
    CursorBehind(n, ops, stops, legs, t1, p);
    CursorBehind(n, ops, stops, legs, t2, p);
    RoundPasses(n, ops, stops, legs, t1 + 1, t2 + 1, q);
  }

  // ---------- The bitmap in place ----------

  class ProcessBitmap {
    const bitmap: array<bv8>
    var firstIndexToTry: nat

    ghost predicate Valid()
      reads this
    {
      0 < bitmap.Length && firstIndexToTry <= Count()
    }

    function Count(): nat { 8 * bitmap.Length }

    ghost function Abs(): State
      reads this, bitmap
    {
      State(BitsOf(bitmap[..]), firstIndexToTry)
    }

    constructor (numBytes: nat)
      requires 0 < numBytes
      ensures Valid() && fresh(bitmap) && Count() == 8 * numBytes && Abs() == StateAt(Count(), [], 0)
    {
      bitmap := new bv8[numBytes](_ => 0);
      firstIndexToTry := 0;
      new;
      forall i: nat | i < Count() ensures !BitAt(bitmap[..], i) { }
      assert BitsOf(bitmap[..]) == {};
    }

    method IsFree(p: nat) returns (b: bool)
      requires p < Count()
      ensures b <==> p !in Abs().reserved
    {
      b := bitmap[p / 8] & Mask(p % 8) == 0;
      assert BitAt(bitmap[..], p) <==> !b;
    }

    method Free(p: nat)
      requires p < Count()
      modifies bitmap
      ensures Abs() == Step(old(Abs()), Count(), Op.Free(p))
    {
      ClearBitAt(bitmap[..], p);
      ghost var after := bitmap[..][p / 8 := bitmap[p / 8] & !Mask(p % 8)];
      bitmap[p / 8] := bitmap[p / 8] & !Mask(p % 8);
      assert bitmap[..] == after;
    }

    method Reserve(p: nat)
      requires p < Count()
      modifies bitmap
      ensures Abs() == Step(old(Abs()), Count(), Op.Reserve(p))
    {
      SetBitAt(bitmap[..], p);
      ghost var after := bitmap[..][p / 8 := bitmap[p / 8] | Mask(p % 8)];
      bitmap[p / 8] := bitmap[p / 8] | Mask(p % 8);
      assert bitmap[..] == after;
    }

    method IndexToTry(i: nat) returns (idx: nat)
      requires Valid()
      ensures idx == Slot(firstIndexToTry, i, Count())
    {
      idx := (firstIndexToTry + i) % Count();
      PosIsMod(firstIndexToTry + i, Count());
    }

    method Next() returns (pid: Option<nat>)
      requires Valid()
      modifies this, bitmap
      ensures Valid()
      ensures pid == Returned(old(Abs()), Count(), Op.Next)
      ensures Abs() == Step(old(Abs()), Count(), Op.Next)
      ensures pid.Some? ==> pid.value !in old(Abs()).reserved && Abs().reserved == old(Abs()).reserved + {pid.value}
      ensures pid == None ==> Abs() == old(Abs())
    {
      var i := 0;
      while i < Count()
        invariant 0 <= i <= Count() && Valid() && Abs() == old(Abs())
        invariant Distance(Abs(), Count(), 0) == Distance(Abs(), Count(), i)
      {
        var idx := IndexToTry(i);
        var free := IsFree(idx);
        if free {
          Reserve(idx);
          firstIndexToTry := idx + 1;
          return Some(idx);
        }
        i := i + 1;
      }
      return None;
    }
  }
}
