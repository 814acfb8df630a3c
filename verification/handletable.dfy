/**
 The table of file handles: one validity bit per slot and the slot values beside it. What it
 means is the partial map from slot numbers to handles that are valid.
 */
module Handletables {
  import opened Words
  import opened Bits
  import opened Cyclic

  // ---------- The cyclic search, in 32-bit arithmetic ----------

  /** The slot the `k`-th probe looks at; the sum is computed in 32 bits before the remainder. */
  function Probe(idx0: u32, n: nat, k: nat): (slot: nat)
    requires 0 < n
    ensures slot < n
  {
    Wrap(k + idx0) % n
  }

  /** The first probe from `k` on that finds a slot not taken; `n` if none does. */
  function Least(taken: set<nat>, idx0: u32, n: nat, k: nat): (d: nat)
    requires 0 < n && k <= n
    ensures k <= d <= n
    ensures forall j: nat | k <= j < d :: Probe(idx0, n, j) in taken
    ensures d < n ==> Probe(idx0, n, d) !in taken
    decreases n - k
  {
    if k == n || Probe(idx0, n, k) !in taken then k else Least(taken, idx0, n, k + 1)
  }

  /** The slot `set` takes. */
  function FirstFree(taken: set<nat>, idx0: u32, n: nat): (slot: Option<nat>)
    requires 0 < n
    ensures slot.Some? ==> slot.value < n && slot.value !in taken
    ensures slot == None <==> forall j: nat | j < n :: Probe(idx0, n, j) in taken
  {
    var d := Least(taken, idx0, n, 0);
    if d < n then Some(Probe(idx0, n, d)) else None
  }

  /** The starting points from which the probes visit every slot. */
  ghost predicate NoSkip(idx0: u32, n: nat)
    requires 0 < n
  {
    idx0 + n <= TWO32 || TWO32 % n == 0
  }

  lemma ProbeIsSlot(idx0: u32, n: nat, k: nat)
    requires 0 < n && k < n && NoSkip(idx0, n)
    ensures Probe(idx0, n, k) == Slot(idx0, k, n)
  {
    PosIsMod(idx0 + k, n);
    var x: int := k + idx0;
    if x >= TWO32 { TopDropsOut(x, n); }
  }

  /** When `n` divides 2^32, losing the carry loses whole turns. */
  lemma TopDropsOut(x: int, n: nat)
    requires 0 < n && x >= TWO32 && TWO32 % n == 0
    ensures (x - TWO32) % n == x % n
  {
    var q, q', r := TWO32 / n, (x - TWO32) / n, (x - TWO32) % n;
    assert q * n == TWO32 && q' * n + r == x - TWO32;
    assert (q + q') * n == q * n + q' * n;
    Quotient(x, n, q + q', r);
  }

  ghost function Below(n: nat): (s: set<nat>)
    ensures forall i: nat :: i in s <==> i < n
  {
    if n == 0 then {} else Below(n - 1) + {n - 1}
  }

  /** From those points `set` takes the first free slot in cyclic order, and fails only on a full table. */
  lemma FirstFreeIsCyclic(taken: set<nat>, idx0: u32, n: nat)
    requires 0 < n && NoSkip(idx0, n)
    ensures match FirstFree(taken, idx0, n)
            case None => forall s: nat | s < n :: s in taken
            case Some(s) => exists d: nat :: d < n && s == Slot(idx0, d, n) &&
                              forall j: nat | j < d :: Slot(idx0, j, n) in taken
  {
    forall k: nat | k < n ensures Probe(idx0, n, k) == Slot(idx0, k, n) { ProbeIsSlot(idx0, n, k); }
    if FirstFree(taken, idx0, n) == None {
      forall s: nat | s < n ensures s in taken {
        var k := Ahead(n, idx0, s);
      }
    } else {
      var d := Least(taken, idx0, n, 0);
      assert FirstFree(taken, idx0, n) == Some(Slot(idx0, d, n));
    }
  }

  /** From any other point some slot is never probed, so a table with room in it looks full. */
  lemma SkippedSlot(idx0: u32, n: nat) returns (missed: nat)
    requires 0 < n < TWO32 && !NoSkip(idx0, n)
    ensures missed < n && forall k: nat | k < n :: Probe(idx0, n, k) != missed
  {
    var a, r := TWO32 - idx0, TWO32 % n;
    missed := if r <= n - a then n - a else r;
    forall k: nat | k < n ensures Probe(idx0, n, k) != missed {
      if k < a {
        var j := a - k;
        BelowTop(n, j);
      } else {
        assert Wrap(k + idx0) == k - a;
        Quotient(k - a, n, 0, k - a);
      }
    }
  }

  lemma BelowTop(n: nat, j: nat)
    requires 0 < j < n < TWO32
    ensures var r := TWO32 % n; (TWO32 - j) % n == if j <= r then r - j else r - j + n
  {
    var q, r := TWO32 / n, TWO32 % n;
    if j <= r { Quotient(TWO32 - j, n, q, r - j); } else { Quotient(TWO32 - j, n, q - 1, r - j + n); }
  }

  /** `set` fails on full tables only, whatever is taken, exactly from the points that skip nothing. */
  lemma FailsOnlyWhenFull(idx0: u32, n: nat)
    requires 0 < n < TWO32
    ensures NoSkip(idx0, n) <==>
            forall taken: set<nat> :: FirstFree(taken, idx0, n) == None ==> forall s: nat | s < n :: s in taken
  {
    if NoSkip(idx0, n) {
      forall taken: set<nat> | FirstFree(taken, idx0, n) == None ensures forall s: nat | s < n :: s in taken {
        FirstFreeIsCyclic(taken, idx0, n);
      }
    } else {
      var missed := SkippedSlot(idx0, n);
      var taken := Below(n) - {missed};
      assert FirstFree(taken, idx0, n) == None && missed !in taken;
    }
  }

  lemma {:induction false} Pow2Splits(a: nat, b: nat)
    ensures Pow2(a + b) == Pow2(a) * Pow2(b)
  {
    if a > 0 {
      Pow2Splits(a - 1, b);
      assert Pow2(a + b) == 2 * Pow2(a - 1 + b);
      assert 2 * (Pow2(a - 1) * Pow2(b)) == (2 * Pow2(a - 1)) * Pow2(b);
    }
  }

  lemma {:induction false} Pow2Positive(k: nat)
    ensures Pow2(k) > 0
  {
    if k > 0 { Pow2Positive(k - 1); }
  }

  lemma Pow2Of32()
    ensures Pow2(32) == TWO32
  {
    assert Pow2(8) == 0x100;
    Pow2Splits(8, 8);
    Pow2Splits(16, 16);
  }

  /** A table whose size is a power of two skips nothing from anywhere; the kernel's has 64 slots. */
  lemma PowerOfTwoNeverSkips(idx0: u32, k: nat)
    requires k <= 32
    ensures 0 < Pow2(k) && NoSkip(idx0, Pow2(k))
  {
    Pow2Positive(k);
    Pow2Of32();
    Pow2Splits(32 - k, k);
    Quotient(TWO32, Pow2(k), Pow2(32 - k), 0);
  }

  lemma KernelTableNeverSkips(idx0: u32)
    ensures NoSkip(idx0, 64)
  {
    PowerOfTwoNeverSkips(idx0, 6);
    assert Pow2(3) == 8;
    Pow2Splits(3, 3);
  }

  /** A table of 24 handles with the last one free looks full from the highest start. */
  lemma RoomNotFound()
    ensures !NoSkip(0xFFFF_FFFF, 24) && FirstFree(Below(24) - {23}, 0xFFFF_FFFF, 24) == None
  {
    var n := 24;
    forall k: nat | k < n ensures Probe(0xFFFF_FFFF, n, k) in Below(n) - {23} {
      assert Wrap(k + 0xFFFF_FFFF) == if k == 0 then 0xFFFF_FFFF else k - 1;
    }
  }

  // ---------- Packed bits and values as a map ----------

  /** The handles in use. */
  ghost function Handles<T>(valid: seq<bv8>, data: seq<T>): map<nat, T>
    requires |data| == 8 * |valid|
  {
    map i: nat | i in BitsOf(valid) :: data[i]
  }

  lemma HandlesFilled<T>(valid: seq<bv8>, data: seq<T>, i: nat, value: T)
    requires |data| == 8 * |valid| && i < |data|
    ensures Handles(valid[i / 8 := valid[i / 8] | Mask(i % 8)], data[i := value]) == Handles(valid, data)[i := value]
  {
    SetBitAt(valid, i);
  }

  lemma HandlesCleared<T>(valid: seq<bv8>, data: seq<T>, i: nat)
    requires |data| == 8 * |valid| && i < |data|
    ensures Handles(valid[i / 8 := valid[i / 8] & !Mask(i % 8)], data) == Handles(valid, data) - {i}
  {
    ClearBitAt(valid, i);
  }

  // ---------- The table in place ----------

  class Handletable<T(0)> {
    const valid: array<bv8>
    const data: array<T>

    ghost predicate Valid() {
      0 < data.Length == 8 * valid.Length < TWO32
    }

    ghost function Contents(): map<nat, T>
      requires Valid()
      reads valid, data
    {
      Handles(valid[..], data[..])
    }

    constructor (n: nat)
      requires 0 < n < TWO32 && n % 8 == 0
      ensures Valid() && fresh(valid) && fresh(data) && data.Length == n && Contents() == map[]
    {
      valid := new bv8[n / 8](_ => 0);
      data := new T[n];
      new;
      forall i: nat | i < 8 * valid.Length ensures !BitAt(valid[..], i) { }
      assert BitsOf(valid[..]) == {};
    }

    method Is(idx: nat) returns (value: Option<T>)
      requires Valid() && idx < data.Length
      ensures value == if idx in Contents() then Some(Contents()[idx]) else None
    {
      assert BitAt(valid[..], idx) <==> valid[idx / 8] & Mask(idx % 8) != 0;
      if valid[idx / 8] & Mask(idx % 8) != 0 { return Some(data[idx]); }
      return None;
    }

    /** The probing loop. */
    method Search(idx0: u32) returns (idx: Option<nat>)
      requires Valid()
      ensures idx == FirstFree(Contents().Keys, idx0, data.Length)
    {
      var n := data.Length;
      ghost var taken := Contents().Keys;
      var k := 0;
      while k < n
        invariant 0 <= k <= n && Least(taken, idx0, n, 0) == Least(taken, idx0, n, k)
      {
        var i := Wrap(k + idx0) % n;
        var used := Is(i);
        if used == None { return Some(i); }
        k := k + 1;
      }
      return None;
    }

    /** Fills the first free slot probed and names it; without one, nothing changes. */
    method Set(value: T, idx0: u32) returns (idx: Option<nat>)
      requires Valid()
      modifies valid, data
      ensures idx == FirstFree(old(Contents()).Keys, idx0, data.Length)
      ensures Contents() == if idx.Some? then old(Contents())[idx.value := value] else old(Contents())
    {
      idx := Search(idx0);
      if idx.Some? { Fill(idx.value, value); }
    }

    method Fill(i: nat, value: T)
      requires Valid() && i < data.Length
      modifies valid, data
      ensures Contents() == old(Contents())[i := value]
    {
      HandlesFilled(valid[..], data[..], i, value);
      ghost var v, d := valid[..], data[..];
      valid[i / 8] := valid[i / 8] | Mask(i % 8);
      data[i] := value;
      assert valid[..] == v[i / 8 := v[i / 8] | Mask(i % 8)] && data[..] == d[i := value];
    }

    method Reset(idx: nat, value: T) returns (ok: bool)
      requires Valid() && idx < data.Length
      modifies data
      ensures ok <==> idx in old(Contents())
      ensures Contents() == if ok then old(Contents())[idx := value] else old(Contents())
    {
      var used := Is(idx);
      if used.Some? {
        data[idx] := value;
        return true;
      }
      return false;
    }

    method Clear(idx: nat)
      requires Valid() && idx < data.Length
      modifies valid
      ensures Contents() == old(Contents()) - {idx}
    {
      HandlesCleared(valid[..], data[..], idx);
      ghost var v := valid[..];
      valid[idx / 8] := valid[idx / 8] & !Mask(idx % 8);
      assert valid[..] == v[idx / 8 := v[idx / 8] & !Mask(idx % 8)];
    }
  }
}
