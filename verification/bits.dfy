/** Single bits of a byte, as the bitmap allocators address them. */
module Bits {

  function Mask(b: nat): bv8
    requires b < 8
  {
    if b == 0 then 1 else if b == 1 then 2 else if b == 2 then 4 else if b == 3 then 8
    else if b == 4 then 16 else if b == 5 then 32 else if b == 6 then 64 else 128
  }

  predicate BitSet(x: bv8, b: nat)
    requires b < 8
  {
    x & Mask(b) != 0
  }

  lemma SetBit(x: bv8, b: nat, c: nat)
    requires b < 8 && c < 8
    ensures BitSet(x | Mask(b), c) <==> c == b || BitSet(x, c)
  {
  }

  lemma ClearBit(x: bv8, b: nat, c: nat)
    requires b < 8 && c < 8
    ensures BitSet(x & !Mask(b), c) <==> c != b && BitSet(x, c)
  {
  }

  /** Bit `i` of a byte array. */
  predicate BitAt(bytes: seq<bv8>, i: nat)
    requires i < 8 * |bytes|
  {
    BitSet(bytes[i / 8], i % 8)
  }

  ghost function BitsOf(bytes: seq<bv8>): set<nat> {
    set i: nat | i < 8 * |bytes| && BitAt(bytes, i)
  }

  lemma SetBitAt(bytes: seq<bv8>, i: nat)
    requires i < 8 * |bytes|
    ensures BitsOf(bytes[i / 8 := bytes[i / 8] | Mask(i % 8)]) == BitsOf(bytes) + {i}
  {
    var r := bytes[i / 8 := bytes[i / 8] | Mask(i % 8)];
    forall j: nat | j < 8 * |bytes| ensures BitAt(r, j) <==> BitAt(bytes, j) || j == i {
      SetBit(bytes[i / 8], i % 8, j % 8);
    }
  }

  lemma ClearBitAt(bytes: seq<bv8>, i: nat)
    requires i < 8 * |bytes|
    ensures BitsOf(bytes[i / 8 := bytes[i / 8] & !Mask(i % 8)]) == BitsOf(bytes) - {i}
  {
    var r := bytes[i / 8 := bytes[i / 8] & !Mask(i % 8)];
    forall j: nat | j < 8 * |bytes| ensures BitAt(r, j) <==> BitAt(bytes, j) && j != i {
      ClearBit(bytes[i / 8], i % 8, j % 8);
    }
  }
}
