/** Integers as text: what is printed, scanned and parsed
    (libs/yajl/yajl_parser.c:32-62, libs/yajl/yajl_lex.c:370-455, libs/yajl/yajl_gen.c:200-210). */
module YajlNumber {
  import opened Bytes
  import opened Numerals
  import opened YajlLex
  import opened YajlQuoted
  import opened YajlParse

  lemma {:induction false} DigitsExact(s: bytes, k: nat, ret: nat)
    requires AllDigits(s, k) && ret <= LLONG_MAX
    ensures var v := DigitsValue(s, k, ret);
            ParseDigits(s, k, ret) == if v <= LLONG_MAX then Value(v) else OutOfRange
    decreases |s| - k
  {
    if k < |s| {
      var next := ret * 10 + (s[k] - ZERO);
      if next <= LLONG_MAX { DigitsExact(s, k + 1, next); }
    }
  }

  /** An optional minus and at least one digit. */
  predicate IsIntegerText(s: bytes) {
    |s| > 0 && if s[0] == MINUS then |s| > 1 && AllDigits(s, 1) else AllDigits(s, 0)
  }

  function Magnitude(s: bytes): nat {
    DigitsValue(s, if s != [] && s[0] == MINUS then 1 else 0, 0)
  }

  /** An integer text is parsed to its value exactly when the magnitude is at most
      LLONG_MAX; the smallest 64-bit integer is out of range. */
  lemma IntegerExact(s: bytes)
    requires IsIntegerText(s)
    ensures ParseInteger(s) ==
      if Magnitude(s) > LLONG_MAX then OutOfRange
      else if s[0] == MINUS then Value(0 - Magnitude(s)) else Value(Magnitude(s))
  {
    DigitsExact(s, if s[0] == MINUS then 1 else 0, 0);
  }

  // ----- the product before its check

  /** The bound the accumulator is compared with before it is multiplied by ten. */
  const TO_MULTIPLY: nat := LLONG_MAX / 10 + LLONG_MAX % 10

  /** Some product the parsing loop makes is above LLONG_MAX. */
  predicate Overflows(s: bytes, k: nat, ret: nat)
    decreases |s| - k
  {
    && k < |s| && ret <= TO_MULTIPLY
    && (|| ret * 10 > LLONG_MAX
        || (LLONG_MAX - ret * 10 >= s[k] - ZERO && IsDigit(s[k]) && Overflows(s, k + 1, ret * 10 + (s[k] - ZERO))))
  }

  /** The value of the digits from k up to j, after ret. */
  function Beginning(s: bytes, k: nat, j: nat, ret: nat): nat
    requires j <= |s| && AllDigits(s, k)
  {
    DigitsValue(s[..j], k, ret)
  }

  lemma BeginningStep(s: bytes, k: nat, j: nat, ret: nat)
    requires k < j <= |s| && AllDigits(s, k)
    ensures Beginning(s, k, j, ret) == Beginning(s, k + 1, j, ret * 10 + (s[k] - ZERO)) >= ret * 10 + (s[k] - ZERO)
  {
  }

  /** A product overflows exactly when the digits before some digit make a number above
      a tenth of LLONG_MAX by at most seven: the bound is too loose by that much. */
  lemma {:induction false} OverflowExactly(s: bytes, k: nat, ret: nat)
    requires AllDigits(s, k) && ret <= LLONG_MAX
    ensures Overflows(s, k, ret) <==> exists j | k <= j < |s| :: LLONG_MAX / 10 < Beginning(s, k, j, ret) <= TO_MULTIPLY
    decreases |s| - k
  {
    if k < |s| {
      var next := ret * 10 + (s[k] - ZERO);
      assert Beginning(s, k, k, ret) == ret;
      forall j | k < j < |s| ensures Beginning(s, k, j, ret) == Beginning(s, k + 1, j, next) >= next {
        BeginningStep(s, k, j, ret);
      }
      if next <= LLONG_MAX {
        OverflowExactly(s, k + 1, next);
        if Overflows(s, k + 1, next) {
          var j :| k + 1 <= j < |s| && LLONG_MAX / 10 < Beginning(s, k + 1, j, next) <= TO_MULTIPLY;
          assert Beginning(s, k, j, ret) == Beginning(s, k + 1, j, next);
        }
      }
    }
  }

  /** A number in range is parsed without an overflow, so the loop's answer for it is
      that of the machine. */
  lemma {:induction false} InRangeExact(s: bytes, k: nat, ret: nat)
    requires ParseDigits(s, k, ret).Value?
    ensures !Overflows(s, k, ret)
    decreases |s| - k
  {
    if k < |s| { InRangeExact(s, k + 1, ret * 10 + (s[k] - ZERO)); }
  }

  /** The first text whose product overflows: 9223372036854775810. */
  lemma OverflowingText()
    ensures Overflows(Decimal(LLONG_MAX + 3), 0, 0)
  {
    hide Decimal;
    var q := LLONG_MAX / 10 + 1;
    assert q == (LLONG_MAX + 3) / 10;
    var s := Decimal(LLONG_MAX + 3);
    LastDigit(LLONG_MAX + 3);
    DecimalValue(q);
    assert s[..|s| - 1] == Decimal(q);
    assert Beginning(s, 0, |s| - 1, 0) == q;
    OverflowExactly(s, 0, 0);
  }

  lemma LastDigit(n: nat)
    requires n >= 10
    ensures Decimal(n) == Decimal(n / 10) + [ZERO + n % 10]
  {
  }

  // ----- printing

  function Printed(n: int): (s: bytes)
    ensures IsIntegerText(s)
  {
    if n < 0 then [MINUS] + Decimal(-n) else Decimal(n)
  }

  /** Parsing undoes printing, except out of range. */
  lemma PrintedParses(n: int)
    ensures ParseInteger(Printed(n)) == if -LLONG_MAX <= n <= LLONG_MAX then Value(n) else OutOfRange
  {
    hide Decimal, DigitsValue, ParseInteger;
    IntegerExact(Printed(n));
    if n < 0 {
      DecimalValue(-n);
      ValueShift(MINUS, Decimal(-n), 0, 0);
    } else {
      DecimalValue(n);
    }
  }

  // ----- scanning

  /** A character that can be part of a number or a literal. */
  predicate InWord(c: byte) {
    IsDigit(c) || c == MINUS || c == PLUS || c == DOT || c == 0x65 || c == 0x45 || 0x61 <= c <= 0x7a
  }

  lemma {:induction false} DigitsEnd(t: bytes, p: nat, end: nat)
    requires p <= end < |t| && !IsDigit(t[end]) && forall i | p <= i < end :: IsDigit(t[i])
    ensures Digits(t, p) == end
    decreases end - p
  {
    if p < end { DigitsEnd(t, p + 1, end); }
  }

  lemma ScanDecimal(t: bytes, p: nat, n: nat)
    requires Sits(t, p, Decimal(n)) && p + |Decimal(n)| < |t| && !InWord(t[p + |Decimal(n)|])
    ensures t[p] != MINUS && IsDigit(t[p])
    ensures if t[p] == ZERO then |Decimal(n)| == 1 else Digits(t, p) == p + |Decimal(n)|
    ensures ScanFraction(t, p + |Decimal(n)|) == Done(TInteger, p + |Decimal(n)|)
  {
    hide Decimal;
    var s := Decimal(n);
    SitsHead(t, p, s);
    forall i | p <= i < p + |s| ensures IsDigit(t[i]) {
      assert t[p + (i - p)] == s[i - p];
    }
    DigitsEnd(t, p, p + |s|);
  }

  /** A printed integer, followed by what cannot belong to it, is one token. */
  lemma ScanPrinted(t: bytes, p: nat, n: int)
    requires Sits(t, p, Printed(n)) && p + |Printed(n)| < |t| && !InWord(t[p + |Printed(n)|])
    ensures ScanNumber(t, p) == Done(TInteger, p + |Printed(n)|)
    ensures t[p] == MINUS || IsDigit(t[p])
  {
    hide Decimal, Digits, ScanFraction, Sits;
    if n < 0 {
      SitsSplit(t, p, [MINUS], Decimal(-n));
      SitsHead(t, p, [MINUS]);
      ScanDecimal(t, p + 1, -n);
    } else {
      ScanDecimal(t, p, n);
    }
  }
}
