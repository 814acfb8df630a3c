/** Machine words: the sources compute addresses and counters in 32-bit unsigned arithmetic. */
module Words {
  const TWO32: int := 0x1_0000_0000

  type u32 = x: int | 0 <= x < TWO32

  /** What a 32-bit unsigned register holds after an operation with mathematical result `x`. */
  function Wrap(x: int): (r: u32)
    ensures 0 <= x < TWO32 ==> r == x
    ensures TWO32 <= x < 2 * TWO32 ==> r == x - TWO32
  {
    x % TWO32
  }

  lemma WrapShift(a: int, q: int)
    ensures Wrap(a + q * TWO32) == Wrap(a)
  {
    assert (a + q * TWO32) - (a / TWO32 + q) * TWO32 == a % TWO32;
  }

  lemma WrapAdd(a: int, b: int)
    ensures Wrap(Wrap(a) + b) == Wrap(a + b)
    ensures Wrap(Wrap(a) - b) == Wrap(a - b)
  {
    var q := a / TWO32;
    assert a == Wrap(a) + q * TWO32;
    WrapShift(Wrap(a) + b, q);
    WrapShift(Wrap(a) - b, q);
  }

  lemma WrapNeg(a: int, b: int)
    ensures Wrap(b - Wrap(a)) == Wrap(b - a)
  {
    var q := a / TWO32;
    assert a == Wrap(a) + q * TWO32;
    WrapShift(b - Wrap(a), -q);
  }

  ghost function Pow2(n: nat): nat { if n == 0 then 1 else 2 * Pow2(n - 1) }

  datatype Option<+T> = None | Some(value: T)

  /** What a stretch of a sequence holds, by its last element. */
  lemma InStretch<T>(s: seq<T>, lo: nat, hi: nat, x: T)
    requires lo < hi <= |s|
    ensures x in s[lo..hi] <==> x in s[lo..hi - 1] || x == s[hi - 1]
  {
    assert s[lo..hi] == s[lo..hi - 1] + [s[hi - 1]];
  }

  type byte = b: int | 0 <= b < 256

  /** What a C reader finds in memory: the items in front of the first zero. */
  function CString<T(==)>(s: seq<T>, zero: T): seq<T> {
    if s == [] || s[0] == zero then [] else [s[0]] + CString(s[1..], zero)
  }

  lemma {:induction false} CStringOf<T>(text: seq<T>, rest: seq<T>, zero: T)
    requires zero !in text
    ensures CString(text + rest, zero) == text + CString(rest, zero)
  {
    if text != [] {
      assert (text + rest)[1..] == text[1..] + rest;
      CStringOf(text[1..], rest, zero);
    } else {
      assert text + rest == rest;
    }
  }
}
