/**
 Positions on a circle of `n` slots. `Pos` is the remainder, written so that its laws follow
 by counting turns; `PosIsMod` ties it to the `%` of the sources.
 */
module Cyclic {

  function Pos(x: nat, n: nat): (p: nat)
    requires 0 < n
    ensures p < n
    ensures x < n ==> p == x
  {
    if x < n then x else Pos(x - n, n)
  }

  lemma Multiple(k: int, n: nat)
    requires k >= 1
    ensures k * n >= n
  {
  }

  /** Quotient and remainder are determined by the number they make up. */
  lemma Quotient(x: int, n: nat, k: int, r: nat)
    requires r < n && x == k * n + r
    ensures x % n == r && x / n == k
  {
    var k', r' := x / n, x % n;
    assert (k - k') * n == r' - r;
    if k - k' >= 1 { Multiple(k - k', n); }
    if k' - k >= 1 { Multiple(k' - k, n); }
  }

  lemma ModTurn(x: nat, n: nat)
    requires 0 < n
    ensures (x + n) % n == x % n
  {
    var q, r := x / n, x % n;
    assert x + n == (q + 1) * n + r;
    Quotient(x + n, n, q + 1, r);
  }

  lemma {:induction false} PosIsMod(x: nat, n: nat)
    requires 0 < n
    ensures Pos(x, n) == x % n
  {
    if x >= n {
      PosIsMod(x - n, n);
      ModTurn(x - n, n);
    }
  }

  /** How many whole turns fit: the quotient, by the same count. */
  function Turns(x: nat, n: nat): (t: nat)
    requires 0 < n
    ensures t <= x && (x >= n ==> t > 0) && (2 <= n && 0 < x ==> t < x)
  {
    if x < n then 0 else 1 + Turns(x - n, n)
  }

  lemma {:induction false} TurnsAndPos(x: nat, n: nat)
    requires 0 < n
    ensures Turns(x, n) * n + Pos(x, n) == x
  {
    if x >= n {
      TurnsAndPos(x - n, n);
      assert Turns(x, n) * n == Turns(x - n, n) * n + n;
    }
  }

  /** A number is made of its quotient and remainder in one way only. */
  lemma {:induction false} TurnsOf(v: nat, d: nat, n: nat)
    requires d < n
    ensures Turns(v * n + d, n) == v && Pos(v * n + d, n) == d
  {
    if v > 0 {
      assert v * n + d - n == (v - 1) * n + d;
      Multiple(v, n);
      TurnsOf(v - 1, d, n);
    }
  }

  lemma TurnsIsDiv(x: nat, n: nat)
    requires 0 < n
    ensures Turns(x, n) == x / n
  {
    TurnsAndPos(x, n);
    Quotient(x, n, Turns(x, n), Pos(x, n));
  }

  /** The slot `i` steps ahead of a position. */
  function Slot(from: nat, i: nat, n: nat): (p: nat)
    requires 0 < n
    ensures p < n
  {
    Pos(from + i, n)
  }

  /** Walking on from a position is walking on from where it stands on the circle. */
  lemma {:induction false} PosAdd(a: nat, b: nat, n: nat)
    requires 0 < n
    ensures Pos(Pos(a, n) + b, n) == Pos(a + b, n)
  {
    if a >= n { PosAdd(a - n, b, n); }
  }

  /** Positions at the same place on the circle stay together. */
  lemma SlotTogether(a: nat, b: nat, i: nat, n: nat)
    requires 0 < n && Pos(a, n) == Pos(b, n)
    ensures Slot(a, i, n) == Slot(b, i, n)
  {
    PosAdd(a, i, n);
    PosAdd(b, i, n);
  }

  /** Every slot is fewer than `n` steps ahead of any position. */
  lemma Ahead(n: nat, from: nat, q: nat) returns (i: nat)
    requires q < n
    ensures i < n && Slot(from, i, n) == q
  {
    var r := Pos(from, n);
    i := if q >= r then q - r else q + n - r;
    PosAdd(from, i, n);
  }

  /** A walk that comes back to where it began has gone around. */
  lemma WholeTurn(n: nat, p: nat, d: nat)
    requires p < n && 0 < d && Slot(p, d, n) == p
    ensures d >= n
  {
  }

  // ---------- Walks in several legs ----------

  /** Leg `t` of a walk goes `legs[t]` steps on from `stops[t]`. */
  ghost predicate Leg(stops: seq<nat>, legs: seq<nat>, n: nat, t: nat)
    requires 0 < n && t < |legs| && |stops| == |legs| + 1
  {
    Pos(stops[t + 1], n) == Slot(stops[t], legs[t], n)
  }

  ghost function Length(legs: seq<nat>, lo: nat, hi: nat): nat
    requires lo <= hi <= |legs|
  {
    if lo == hi then 0 else Length(legs, lo, hi - 1) + legs[hi - 1]
  }

  lemma {:induction false} WalkEnds(stops: seq<nat>, legs: seq<nat>, n: nat, lo: nat, hi: nat)
    requires 0 < n && lo <= hi <= |legs| && |stops| == |legs| + 1
    requires forall t: nat | t < |legs| :: Leg(stops, legs, n, t)
    ensures Pos(stops[hi], n) == Slot(stops[lo], Length(legs, lo, hi), n)
  {
    if lo < hi {
      WalkEnds(stops, legs, n, lo, hi - 1);
      assert Leg(stops, legs, n, hi - 1);
      SlotTogether(stops[hi - 1], stops[lo] + Length(legs, lo, hi - 1), legs[hi - 1], n);
    }
  }

  /** Every step of the walk belongs to one leg. */
  lemma {:induction false} LegOf(stops: seq<nat>, legs: seq<nat>, n: nat, lo: nat, hi: nat, i: nat) returns (t: nat, j: nat)
    requires 0 < n && lo <= hi <= |legs| && |stops| == |legs| + 1
    requires forall t: nat | t < |legs| :: Leg(stops, legs, n, t)
    requires i < Length(legs, lo, hi)
    ensures lo <= t < hi && j < legs[t] && Slot(stops[lo], i, n) == Slot(stops[t], j, n)
  {
    var before := Length(legs, lo, hi - 1);
    if i < before {
      t, j := LegOf(stops, legs, n, lo, hi - 1, i);
    } else {
      t, j := hi - 1, i - before;
      WalkEnds(stops, legs, n, lo, hi - 1);
      SlotTogether(stops[hi - 1], stops[lo] + before, j, n);
    }
  }

  /** A walk that ends where it began, and moved last, has come past every slot. */
  lemma RoundTrip(stops: seq<nat>, legs: seq<nat>, n: nat, lo: nat, hi: nat, q: nat) returns (t: nat, j: nat)
    requires 0 < n && lo < hi <= |legs| && |stops| == |legs| + 1 && q < n
    requires forall t: nat | t < |legs| :: Leg(stops, legs, n, t)
    requires Pos(stops[lo], n) == Pos(stops[hi], n) && legs[hi - 1] > 0
    ensures lo <= t < hi && j < legs[t] && Slot(stops[t], j, n) == q
  {
    var d := Length(legs, lo, hi);
    WalkEnds(stops, legs, n, lo, hi);
    var r := Pos(stops[lo], n);
    SlotTogether(stops[lo], r, d, n);
    WholeTurn(n, r, d);
    var i := Ahead(n, stops[lo], q);
    t, j := LegOf(stops, legs, n, lo, hi, i);
  }
}
