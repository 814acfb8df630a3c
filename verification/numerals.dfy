/**
 The kernel's number printer: digits are written backwards from the end of a caller's buffer.
 `Numeral` is the text it promises, `Parse` an independent reader of such texts.
 */
module Numerals {
  import opened Words
  import opened Cyclic

  // ---------- Texts and their values ----------

  function DigitChar(d: nat, uppercase: bool): (c: char)
    requires d < 36
  {
    if d <= 9 then '0' + d as char else (if uppercase then 'A' else 'a') + (d - 10) as char
  }

  /** The value of a digit in either case, 36 for any other character. */
  function DigitValue(c: char): (d: nat)
    ensures d <= 36
  {
    if '0' <= c <= '9' then c as nat - '0' as nat
    else if 'A' <= c <= 'Z' then c as nat - 'A' as nat + 10
    else if 'a' <= c <= 'z' then c as nat - 'a' as nat + 10
    else 36
  }

  lemma DigitRoundTrip(d: nat, uppercase: bool)
    requires d < 36
    ensures DigitValue(DigitChar(d, uppercase)) == d
    ensures DigitChar(d, uppercase) != '-' && (DigitChar(d, uppercase) == '0' <==> d == 0)
    ensures d >= 10 ==> if uppercase then 'A' <= DigitChar(d, uppercase) <= 'Z' else 'a' <= DigitChar(d, uppercase) <= 'z'
  {
  }

  ghost predicate Numeric(t: string, base: nat) {
    t != "" && forall c | c in t :: DigitValue(c) < base
  }

  function Value(t: string, base: nat): nat {
    if t == "" then 0 else Value(t[..|t| - 1], base) * base + DigitValue(t[|t| - 1])
  }

  /** Reads an optional sign and at least one digit. */
  ghost function Parse(t: string, base: nat): Option<int> {
    if Numeric(t, base) then Some(Value(t, base))
    else if t != "" && t[0] == '-' && Numeric(t[1..], base) then Some(0 - Value(t[1..], base))
    else None
  }

  function Digits(n: nat, base: nat, uppercase: bool): (t: string)
    requires 2 <= base <= 36
    ensures t != ""
  {
    if n < base then [DigitChar(n, uppercase)]
    else Digits(Turns(n, base), base, uppercase) + [DigitChar(Pos(n, base), uppercase)]
  }

  function Numeral(n: int, base: nat, uppercase: bool): string
    requires 2 <= base <= 36
  {
    if n < 0 then "-" + Digits(-n, base, uppercase) else Digits(n, base, uppercase)
  }

  // ---------- The text says the number, and is the only short one that does ----------

  lemma ValueSnoc(t: string, c: char, base: nat)
    ensures Value(t + [c], base) == Value(t, base) * base + DigitValue(c)
  {
    assert (t + [c])[..|t|] == t;
  }

  lemma NumericSnoc(t: string, c: char, base: nat)
    requires Numeric(t, base) && DigitValue(c) < base
    ensures Numeric(t + [c], base)
  {
  }

  lemma {:induction false} DigitsValue(n: nat, base: nat, uppercase: bool)
    requires 2 <= base <= 36
    ensures Numeric(Digits(n, base, uppercase), base) && Value(Digits(n, base, uppercase), base) == n
    ensures Digits(n, base, uppercase)[0] != '-'
    ensures Digits(n, base, uppercase)[0] == '0' <==> n == 0
    decreases n
  {
    if n < base {
      DigitRoundTrip(n, uppercase);
      assert Digits(n, base, uppercase)[..0] == "";
    } else {
      var q, r := Turns(n, base), Pos(n, base);
      var front, last := Digits(q, base, uppercase), DigitChar(r, uppercase);
      TurnsAndPos(n, base);
      DigitsValue(q, base, uppercase);
      DigitRoundTrip(r, uppercase);
      ValueSnoc(front, last, base);
      NumericSnoc(front, last, base);
    }
  }

  /** Printing and reading back gives the number. */
  lemma ParseNumeral(n: int, base: nat, uppercase: bool)
    requires 2 <= base <= 36
    ensures Parse(Numeral(n, base, uppercase), base) == Some(n)
  {
    DigitsValue(if n < 0 then -n else n, base, uppercase);
    if n < 0 {
      var t := Numeral(n, base, uppercase);
      assert t[1..] == Digits(-n, base, uppercase);
      assert t[0] in t && DigitValue(t[0]) == 36;
    }
  }

  /** No leading zero, and the letters of one case. */
  ghost predicate Canonical(t: string, base: nat, uppercase: bool)
    requires 2 <= base <= 36
  {
    && Numeric(t, base)
    && (|t| > 1 ==> t[0] != '0')
    && forall c | c in t :: c == DigitChar(DigitValue(c), uppercase)
  }

  lemma PositiveValue(t: string, base: nat, uppercase: bool)
    requires 2 <= base <= 36 && t != "" && t[0] != '0' && t == Digits(Value(t, base), base, uppercase)
    ensures Value(t, base) > 0
  {
    DigitsValue(Value(t, base), base, uppercase);
  }

  lemma DigitsSnoc(v: nat, d: nat, base: nat, uppercase: bool)
    requires 2 <= base <= 36 && d < base && v > 0
    ensures Digits(v * base + d, base, uppercase) == Digits(v, base, uppercase) + [DigitChar(d, uppercase)]
  {
    TurnsOf(v, d, base);
    Multiple(v, base);
  }

  lemma CanonicalFront(t: string, base: nat, uppercase: bool)
    requires 2 <= base <= 36 && Canonical(t, base, uppercase) && |t| > 1
    ensures Canonical(t[..|t| - 1], base, uppercase) && t[..|t| - 1][0] != '0'
  {
  }

  lemma CanonicalStep(front: string, last: char, base: nat, uppercase: bool)
    requires 2 <= base <= 36 && front != "" && front[0] != '0' && front == Digits(Value(front, base), base, uppercase)
    requires DigitValue(last) < base && last == DigitChar(DigitValue(last), uppercase)
    ensures front + [last] == Digits(Value(front + [last], base), base, uppercase)
  {
    ValueSnoc(front, last, base);
    PositiveValue(front, base, uppercase);
    DigitsSnoc(Value(front, base), DigitValue(last), base, uppercase);
  }

  /** A canonical text is the text of its value. */
  lemma {:induction false} CanonicalIsDigits(t: string, base: nat, uppercase: bool)
    requires 2 <= base <= 36 && Canonical(t, base, uppercase)
    ensures t == Digits(Value(t, base), base, uppercase)
  {
    var front, last := t[..|t| - 1], t[|t| - 1];
    assert last in t && t == front + [last];
    if front != "" {
      CanonicalFront(t, base, uppercase);
      CanonicalIsDigits(front, base, uppercase);
      CanonicalStep(front, last, base, uppercase);
    } else {
      assert Value(t, base) == DigitValue(last);
    }
  }

  lemma CanonicalSnoc(t: string, d: nat, base: nat, uppercase: bool)
    requires 2 <= base <= 36 && Canonical(t, base, uppercase) && t[0] != '0' && d < base
    ensures Canonical(t + [DigitChar(d, uppercase)], base, uppercase)
  {
    DigitRoundTrip(d, uppercase);
    assert (t + [DigitChar(d, uppercase)])[0] == t[0];
  }

  /** The text of a number has no leading zero and letters of one case: it is the canonical one. */
  lemma {:induction false} DigitsAreCanonical(n: nat, base: nat, uppercase: bool)
    requires 2 <= base <= 36
    ensures Canonical(Digits(n, base, uppercase), base, uppercase)
    decreases n
  {
    if n < base {
      DigitRoundTrip(n, uppercase);
    } else {
      DigitsAreCanonical(Turns(n, base), base, uppercase);
      DigitsValue(Turns(n, base), base, uppercase);
      CanonicalSnoc(Digits(Turns(n, base), base, uppercase), Pos(n, base), base, uppercase);
    }
  }

  // ---------- The printer in place ----------

  /** The `/` and `%` of the digit loop. */
  method Divide(n: nat, base: nat) returns (q: nat, r: nat)
    requires 0 < base
    ensures q == Turns(n, base) && r == Pos(n, base)
  {
    q, r := n / base, n % base;
    TurnsIsDiv(n, base);
    PosIsMod(n, base);
  }

  /** One more digit moves from the number to the text behind it. */
  lemma DigitsFrom(n: nat, base: nat, uppercase: bool, rest: string)
    requires 2 <= base <= 36
    ensures var c := [DigitChar(Pos(n, base), uppercase)];
            Digits(n, base, uppercase) + rest ==
            if Turns(n, base) == 0 then c + rest else Digits(Turns(n, base), base, uppercase) + (c + rest)
  {
  }

  /** The digit loop: null when the digits do not fit. `lo` is where the first digit stands. */
  method WriteDigits(n0: nat, buffer: array<char>, base: nat, uppercase: bool) returns (lo: Option<nat>)
    requires 2 <= base <= 36 && 0 < n0 && 2 <= buffer.Length
    modifies buffer
    ensures lo == None <==> |Digits(n0, base, uppercase)| > buffer.Length - 1
    ensures buffer[buffer.Length - 1] == old(buffer[buffer.Length - 1])
    ensures lo.Some? ==> lo.value < buffer.Length && buffer[lo.value..buffer.Length - 1] == Digits(n0, base, uppercase)
  {
    var n, idx := n0, buffer.Length - 2;
    while true
      invariant 0 < n && 0 <= idx <= buffer.Length - 2
      invariant Digits(n0, base, uppercase) == Digits(n, base, uppercase) + buffer[idx + 1..buffer.Length - 1]
      invariant buffer[buffer.Length - 1] == old(buffer[buffer.Length - 1])
      decreases n
    {
      ghost var rest := buffer[idx + 1..buffer.Length - 1];
      DigitsFrom(n, base, uppercase, rest);
      var digit;
      n, digit := Divide(n, base);
      buffer[idx] := DigitChar(digit, uppercase);
      assert buffer[idx..buffer.Length - 1] == [DigitChar(digit, uppercase)] + rest;
      if n == 0 {
        return Some(idx);
      } else if idx == 0 {
        return None;
      } else {
        idx := idx - 1;
      }
    }
  }

  /**
   `num2str`: the start of the text in the buffer, or null. The number is one whose negation
   is representable; a one-byte buffer serves only the number zero.
   */
  method Num2Str(n: int, buffer: array<char>, base: nat, uppercase: bool) returns (start: Option<nat>)
    requires 2 <= base <= 36 && (buffer.Length == 1 ==> n == 0)
    modifies buffer
    ensures start == None <==> |Numeral(n, base, uppercase)| + 1 > buffer.Length
    ensures start.Some? ==>
              && start.value < buffer.Length && buffer[buffer.Length - 1] == '\0'
              && buffer[start.value..buffer.Length - 1] == Numeral(n, base, uppercase)
  {
    if buffer.Length == 0 { return None; }
    buffer[buffer.Length - 1] := '\0';
    if n == 0 {
      if buffer.Length > 1 {
        buffer[buffer.Length - 2] := '0';
        return Some(buffer.Length - 2);
      }
      return None;
    }
    var lo := WriteDigits(if n < 0 then -n else n, buffer, base, uppercase);
    if lo == None { return None; }
    var idx := lo.value;
    if n < 0 {
      if idx > 0 {
        ghost var digits := buffer[idx..buffer.Length - 1];
        buffer[idx - 1] := '-';
        assert buffer[idx - 1..buffer.Length - 1] == "-" + digits;
        return Some(idx - 1);
      }
      return None;
    }
    return Some(idx);
  }
}
