/** Decimal numerals as bytes. */
module Numerals {
  import opened Bytes

  const ZERO: byte := 0x30

  predicate IsDigit(c: byte) {
    ZERO <= c <= 0x39
  }

  /** The number written by the digits of s from k on, after acc. */
  function DigitsValue(s: bytes, k: nat, acc: nat): (v: nat)
    ensures v >= acc
    decreases |s| - k
  {
    if k >= |s| then acc
    else DigitsValue(s, k + 1, acc * 10 + if IsDigit(s[k]) then s[k] - ZERO else 0)
  }

  predicate AllDigits(s: bytes, k: nat) {
    forall i | k <= i < |s| :: IsDigit(s[i])
  }

  function Decimal(n: nat): (s: bytes)
    ensures s != [] && AllDigits(s, 0)
    ensures n > 0 ==> s[0] != ZERO
    ensures n == 0 ==> s == [ZERO]
  {
    if n < 10 then [ZERO + n] else Decimal(n / 10) + [ZERO + n % 10]
  }

  lemma {:induction false} ValueSnoc(s: bytes, d: byte, k: nat, acc: nat)
    requires IsDigit(d) && k <= |s|
    ensures DigitsValue(s + [d], k, acc) == DigitsValue(s, k, acc) * 10 + (d - ZERO)
    decreases |s| - k
  {
    if k < |s| {
      ValueSnoc(s, d, k + 1, acc * 10 + if IsDigit(s[k]) then s[k] - ZERO else 0);
    } else {
      assert DigitsValue(s + [d], k + 1, acc * 10 + (d - ZERO)) == acc * 10 + (d - ZERO);
    }
  }

  lemma {:induction false} DecimalValue(n: nat)
    ensures DigitsValue(Decimal(n), 0, 0) == n
  {
    if n >= 10 {
      DecimalValue(n / 10);
      ValueSnoc(Decimal(n / 10), ZERO + n % 10, 0, 0);
    } else {
      assert DigitsValue([ZERO + n], 1, n) == n;
    }
  }

  lemma {:induction false} ValueShift(a: byte, s: bytes, k: nat, acc: nat)
    ensures DigitsValue([a] + s, k + 1, acc) == DigitsValue(s, k, acc)
    decreases |s| - k
  {
    if k < |s| {
      ValueShift(a, s, k + 1, acc * 10 + if IsDigit(s[k]) then s[k] - ZERO else 0);
    }
  }
}
