/** When the compact forms of a column lose nothing
    (libs/bysant/sdb_serialize.c:97-213, libs/bysant/sdb_write.c:181-217). */
module SdbLossless {
  import opened SdbColumns

  // ----- quasi-periodic vectors

  lemma {:induction false} RunSnoc(last: real, period: real, n: nat)
    ensures OnTimeRun(last, period, n + 1) == OnTimeRun(last, period, n) + [last + n as real * period + period]
    decreases n
  {
    if n > 0 {
      RunSnoc(last + period, period, n - 1);
      assert last + period + (n - 1) as real * period == last + n as real * period;
    } else {
      assert OnTimeRun(last, period, 1) == [last + period] + OnTimeRun(last + period, period, 0);
      assert 0 as real * period == 0.0;
    }
  }

  lemma {:induction false} RunAt(last: real, period: real, n: nat, i: nat)
    requires i < n
    ensures |OnTimeRun(last, period, n)| == n && OnTimeRun(last, period, n)[i] == last + i as real * period + period
    decreases n
  {
    RunSnoc(last, period, n - 1);
    RunSize(last, period, n - 1);
    if i < n - 1 { RunAt(last, period, n - 1, i); }
  }

  lemma {:induction false} RunSize(last: real, period: real, n: nat)
    ensures |OnTimeRun(last, period, n)| == n
    decreases n
  {
    if n > 0 { RunSize(last + period, period, n - 1); }
  }

  /** What is read for a count and the rest. */
  lemma ReadShift(count: nat, shift: real, rest: seq<Call>, period: real, base: real)
    ensures var b := base + count as real * period;
            ReadQuasi([Int(count), Num(shift)] + rest, period, base) ==
              OnTimeRun(base, period, count) + [b + period + shift] + ReadQuasi(rest, period, b + period + shift)
  {
    hide OnTimeRun;
    var calls := [Int(count), Num(shift)] + rest;
    assert calls[2..] == rest && calls[0] == Int(count) && calls[1] == Num(shift);
    assert RunEnd(base, period, count) == base + count as real * period;
  }

  /** Reading back the values from row r on, after count values on time since base. */
  lemma {:induction false} QuasiBack(t: Table, c: nat, r: nat, period: real, base: real, count: nat)
    requires Filled(t) && c < Columns(t) && 1 <= r <= Rows(t) && ExactlyTimed(t, c, r, period)
    requires ValueAt(t, r - 1, c) == base + count as real * period
    ensures ReadQuasi(QuasiCells(t, c, r, period, ValueAt(t, r - 1, c), count), period, base) ==
      OnTimeRun(base, period, count) + Values(t, c, r)
    decreases Rows(t) - r
  {
    hide ReadQuasi, OnTimeRun, ValueAt, OnTime;
    var previous := ValueAt(t, r - 1, c);
    if r == Rows(t) {
      ReadLast(count, period, base);
      assert OnTimeRun(base, period, count) + [] == OnTimeRun(base, period, count);
    } else {
      var v := ValueAt(t, r, c);
      if OnTime(period, previous, v) {
        assert ValueAt(t, r, c) == ValueAt(t, r - 1, c) + period;
        assert (count + 1) as real * period == count as real * period + period;
        QuasiBack(t, c, r + 1, period, base, count + 1);
        RunSnoc(base, period, count);
        assert OnTimeRun(base, period, count) + [v] + Values(t, c, r + 1) ==
          OnTimeRun(base, period, count) + ([v] + Values(t, c, r + 1));
      } else {
        var shift := v - (previous + period);
        ReadShift(count, shift, QuasiCells(t, c, r + 1, period, v, 0), period, base);
        assert v + 0 as real * period == v;
        QuasiBack(t, c, r + 1, period, v, 0);
        RunSize(v, period, 0);
        assert OnTimeRun(v, period, 0) + Values(t, c, r + 1) == Values(t, c, r + 1);
        assert OnTimeRun(base, period, count) + [v] + Values(t, c, r + 1) ==
          OnTimeRun(base, period, count) + ([v] + Values(t, c, r + 1));
      }
    }
  }

  lemma ReadLast(count: nat, period: real, base: real)
    ensures ReadQuasi([Int(count)], period, base) == OnTimeRun(base, period, count)
  {
  }

  /** The first count sent is at least what was counted before. */
  lemma {:induction false} FirstCount(t: Table, c: nat, r: nat, period: real, previous: real, count: nat)
    requires Filled(t) && c < Columns(t)
    ensures var calls := QuasiCells(t, c, r, period, previous, count); |calls| > 0 && calls[0].Int? && calls[0].n >= count
    decreases Rows(t) - r
  {
    hide ValueAt, OnTime;
    if r < Rows(t) && OnTime(period, previous, ValueAt(t, r, c)) {
      FirstCount(t, c, r + 1, period, ValueAt(t, r, c), count + 1);
    }
  }

  /** The value read at a place counted on time. */
  lemma ReadAtRun(calls: seq<Call>, period: real, base: real, i: nat)
    requires |calls| > 0 && calls[0].Int? && i < calls[0].n
    ensures i < |ReadQuasi(calls, period, base)| && ReadQuasi(calls, period, base)[i] == base + i as real * period + period
  {
    RunAt(base, period, calls[0].n, i);
  }

  lemma {:induction false} QuasiOnlyIf(t: Table, c: nat, r: nat, period: real, base: real, count: nat)
    requires Filled(t) && c < Columns(t) && 1 <= r <= Rows(t)
    requires ValueAt(t, r - 1, c) == base + count as real * period
    requires ReadQuasi(QuasiCells(t, c, r, period, ValueAt(t, r - 1, c), count), period, base) ==
      OnTimeRun(base, period, count) + Values(t, c, r)
    ensures ExactlyTimed(t, c, r, period)
    decreases Rows(t) - r
  {
    hide ReadQuasi, OnTimeRun, ValueAt, OnTime;
    if r < Rows(t) {
      var previous, v := ValueAt(t, r - 1, c), ValueAt(t, r, c);
      RunSize(base, period, count);
      if OnTime(period, previous, v) {
        FirstCount(t, c, r + 1, period, v, count + 1);
        ReadAtRun(QuasiCells(t, c, r, period, previous, count), period, base, count);
        assert (OnTimeRun(base, period, count) + Values(t, c, r))[count] == v;
        assert (count + 1) as real * period == count as real * period + period;
        RunSnoc(base, period, count);
        assert OnTimeRun(base, period, count) + [v] + Values(t, c, r + 1) ==
          OnTimeRun(base, period, count) + Values(t, c, r);
        QuasiOnlyIf(t, c, r + 1, period, base, count + 1);
      } else {
        var rest := QuasiCells(t, c, r + 1, period, v, 0);
        ReadShift(count, v - (previous + period), rest, period, base);
        assert OnTimeRun(base, period, count) + ([v] + Values(t, c, r + 1)) ==
          OnTimeRun(base, period, count) + [v] + Values(t, c, r + 1);
        AppendCancel(OnTimeRun(base, period, count) + [v], ReadQuasi(rest, period, v), Values(t, c, r + 1));
        RunSize(v, period, 0);
        assert OnTimeRun(v, period, 0) + Values(t, c, r + 1) == Values(t, c, r + 1);
        assert v + 0 as real * period == v;
        QuasiOnlyIf(t, c, r + 1, period, v, 0);
      }
      ExactlyTimedStep(t, c, r, period);
    }
  }

  lemma AppendCancel(a: seq<real>, x: seq<real>, y: seq<real>)
    requires a + x == a + y
    ensures x == y
  {
    assert x == (a + x)[|a|..] && y == (a + y)[|a|..];
  }

  lemma ExactlyTimedStep(t: Table, c: nat, r: nat, period: real)
    requires Filled(t) && c < Columns(t) && 1 <= r < Rows(t) && ExactlyTimed(t, c, r + 1, period)
    requires OnTime(period, ValueAt(t, r - 1, c), ValueAt(t, r, c)) ==>
      ValueAt(t, r, c) == ValueAt(t, r - 1, c) + period
    ensures ExactlyTimed(t, c, r, period)
  {
    hide ValueAt, OnTime;
  }

  /** The start value, counts and shifts give the column back exactly when no value
      is taken to be on time within the tolerance only. */
  lemma QuasiLossless(t: Table, c: nat, period: real)
    requires Filled(t) && c < Columns(t)
    ensures ReadQuasi(QuasiCells(t, c, 1, period, ValueAt(t, 0, c), 0), period, ValueAt(t, 0, c)) == Values(t, c, 1)
      <==> ExactlyTimed(t, c, 1, period)
  {
    hide ReadQuasi, ValueAt, ExactlyTimed, QuasiCells, Values;
    var start := ValueAt(t, 0, c);
    assert start + 0 as real * period == start;
    assert OnTimeRun(start, period, 0) + Values(t, c, 1) == Values(t, c, 1);
    if ExactlyTimed(t, c, 1, period) { QuasiBack(t, c, 1, period, start, 0); }
    if ReadQuasi(QuasiCells(t, c, 1, period, start, 0), period, start) == Values(t, c, 1) {
      QuasiOnlyIf(t, c, 1, period, start, 0);
    }
  }

  ghost predicate Whole(x: real) {
    x.Floor as real == x
  }

  /** Whole numbers below 10^15 and a whole period lose nothing. */
  lemma WholeTimed(t: Table, c: nat, period: real)
    requires Filled(t) && c < Columns(t) && Whole(period)
    requires forall i | 0 <= i < Rows(t) :: Whole(ValueAt(t, i, c)) && Abs(ValueAt(t, i, c)) < 1000000000000000.0
    ensures ExactlyTimed(t, c, 1, period)
  {
    hide ValueAt;
    forall i | 0 < i < Rows(t) && OnTime(period, ValueAt(t, i - 1, c), ValueAt(t, i, c))
      ensures ValueAt(t, i, c) == ValueAt(t, i - 1, c) + period
    {
      WholeNear(ValueAt(t, i, c), ValueAt(t, i - 1, c), period);
    }
  }

  lemma WholeNear(v: real, previous: real, period: real)
    requires Whole(v) && Whole(previous) && Whole(period) && Abs(v) < 1000000000000000.0
    requires OnTime(period, previous, v)
    ensures v == previous + period
  {
    var d := v.Floor - previous.Floor - period.Floor;
    assert d as real == v - (previous + period);
    assert Tolerance(v) < 1.0;
  }

  // ----- deltas vectors

  /** The values of a deltas vector after last. */
  function ReadDeltas(calls: seq<Call>, factor: real, last: real): seq<real> {
    if calls == [] || !calls[0].Int? then []
    else
      var v := last + Times(calls[0].n, factor);
      [v] + ReadDeltas(calls[1..], factor, v)
  }

  function Times(k: int, factor: real): real {
    k as real * factor
  }

  ghost predicate Multiple(v: real, factor: real) {
    exists k: int :: v == Times(k, factor)
  }

  /** Every value is a multiple of the factor. */
  ghost predicate Multiples(t: Table, c: nat, factor: real)
    requires Filled(t) && c < Columns(t)
  {
    forall i | 0 <= i < Rows(t) :: Multiple(ValueAt(t, i, c), factor)
  }

  /** No value is so large that the tolerance reaches one. */
  ghost predicate Small(t: Table, c: nat)
    requires Filled(t) && c < Columns(t)
  {
    forall i | 0 <= i < Rows(t) :: Abs(ValueAt(t, i, c)) < 1000000000000000.0
  }

  lemma WholeDelta(k: int, precision: real)
    requires 0.0 <= precision < 1.0
    ensures DeltaInteger(k as real, precision) == k
  {
  }

  lemma QuotientIs(v: real, k: int, factor: Factor)
    requires v == k as real * factor
    ensures v / factor == k as real
  {
  }

  lemma DeltaExact(factor: Factor, previous: real, v: real)
    requires Multiple(previous, factor) && Multiple(v, factor) && Abs(v) < 1000000000000000.0
    ensures v == previous + Times(Delta(factor, previous, v), factor)
  {
    var j: int :| previous == Times(j, factor);
    var k: int :| v == Times(k, factor);
    assert v - previous == (k - j) as real * factor;
    QuotientIs(v - previous, k - j, factor);
    WholeDelta(k - j, Tolerance(v));
  }

  lemma ReadDelta(d: int, rest: seq<Call>, factor: Factor, last: real)
    ensures var v := last + Times(d, factor);
            ReadDeltas([Int(d)] + rest, factor, last) == [v] + ReadDeltas(rest, factor, v)
  {
    hide Times;
    assert ([Int(d)] + rest)[1..] == rest;
  }

  lemma NoTimes(factor: Factor)
    ensures Times(0, factor) == 0.0
  {
  }

  lemma NoDeltas(factor: Factor, last: real)
    ensures ReadDeltas([], factor, last) == []
  {
  }

  lemma {:induction false} DeltasBack(t: Table, c: nat, r: nat, factor: Factor)
    requires Filled(t) && c < Columns(t) && 1 <= r <= Rows(t) && Multiples(t, c, factor) && Small(t, c)
    ensures ReadDeltas(DeltaCells(t, c, r, factor, ValueAt(t, r - 1, c)), factor, ValueAt(t, r - 1, c)) == Values(t, c, r)
    decreases Rows(t) - r
  {
    hide ValueAt, Delta, Multiple, ReadDeltas, Times;
    if r < Rows(t) {
      var previous, v := ValueAt(t, r - 1, c), ValueAt(t, r, c);
      DeltaExact(factor, previous, v);
      DeltasBack(t, c, r + 1, factor);
      var d := Delta(factor, previous, v);
      assert d == 0 ==> v == previous by { NoTimes(factor); }
      ReadDelta(d, DeltaCells(t, c, r + 1, factor, v), factor, previous);
    } else {
      assert ReadDeltas([], factor, ValueAt(t, r - 1, c)) == [] by { NoDeltas(factor, ValueAt(t, r - 1, c)); }
    }
  }

  lemma {:induction false} DeltasAreMultiples(calls: seq<Call>, factor: Factor, last: real, i: nat)
    requires Multiple(last, factor) && i < |ReadDeltas(calls, factor, last)|
    ensures Multiple(ReadDeltas(calls, factor, last)[i], factor)
    decreases |calls|
  {
    var k: int :| last == Times(k, factor);
    var v := last + Times(calls[0].n, factor);
    assert v == Times(k + calls[0].n, factor);
    if i > 0 { DeltasAreMultiples(calls[1..], factor, v, i - 1); }
  }

  lemma {:induction false} ValuesAt(t: Table, c: nat, r: nat, i: nat)
    requires Filled(t) && c < Columns(t) && r + i < Rows(t)
    ensures i < |Values(t, c, r)| && Values(t, c, r)[i] == ValueAt(t, r + i, c)
    decreases i
  {
    hide ValueAt;
    if i > 0 { ValuesAt(t, c, r + 1, i - 1); }
  }

  /** The column as a deltas vector is read: the start and the deltas, in factors. */
  function ReadDeltasVector(t: Table, c: nat, factor: Factor): seq<real>
    requires Filled(t) && c < Columns(t)
  {
    var start := Times(DeltaStart(t, c, factor), factor);
    [start] + ReadDeltas(DeltaCells(t, c, 1, factor, ValueAt(t, 0, c)), factor, start)
  }

  lemma StartExact(t: Table, c: nat, factor: Factor)
    requires Filled(t) && c < Columns(t) && Small(t, c) && Multiple(ValueAt(t, 0, c), factor)
    ensures Times(DeltaStart(t, c, factor), factor) == ValueAt(t, 0, c)
  {
    hide ValueAt;
    var v := ValueAt(t, 0, c);
    var k: int :| v == Times(k, factor);
    QuotientIs(v, k, factor);
    WholeDelta(k, Tolerance(v));
  }

  /** A deltas vector gives the column back exactly when its factor divides every
      value, for values below 10^15. */
  lemma DeltasLossless(t: Table, c: nat, factor: Factor)
    requires Filled(t) && c < Columns(t) && Small(t, c)
    ensures ReadDeltasVector(t, c, factor) == Values(t, c, 0) <==> Multiples(t, c, factor)
  {
    hide ValueAt, Multiple, DeltaStart, DeltaCells, Delta, ReadDeltas, Small, Times;
    if Multiples(t, c, factor) {
      StartExact(t, c, factor);
      DeltasBack(t, c, 1, factor);
      assert Values(t, c, 0) == [ValueAt(t, 0, c)] + Values(t, c, 1);
    }
    if ReadDeltasVector(t, c, factor) == Values(t, c, 0) {
      var start := Times(DeltaStart(t, c, factor), factor);
      StartMultiple(DeltaStart(t, c, factor), factor);
      var rest := ReadDeltas(DeltaCells(t, c, 1, factor, ValueAt(t, 0, c)), factor, start);
      assert Values(t, c, 0) == [start] + rest;
      forall i | 0 <= i < Rows(t) ensures Multiple(ValueAt(t, i, c), factor) {
        ValuesAt(t, c, 0, i);
        if i == 0 {
          assert ValueAt(t, 0, c) == Values(t, c, 0)[0] == start;
        } else {
          assert Values(t, c, 0)[i] == rest[i - 1];
          DeltasAreMultiples(DeltaCells(t, c, 1, factor, ValueAt(t, 0, c)), factor, start, i - 1);
        }
      }
    }
  }

  lemma StartMultiple(k: int, factor: real)
    ensures Multiple(Times(k, factor), factor)
  {
  }

  // ----- the divisor

  /** The remainder of C: it has the sign of the dividend. */
  function Rem(a: int, b: int): int
    requires b != 0
  {
    if a >= 0 then a % b else -((-a) % b)
  }

  ghost predicate Divides(d: int, a: int) {
    exists k: int :: a == k * d
  }

  lemma Distribute(q: int, j: int, k: int, d: int)
    ensures q * (j * d) + k * d == (q * j + k) * d
  {
  }

  lemma DividesRem(d: int, a: int, b: int)
    requires b != 0 && Divides(d, b) && Divides(d, Rem(a, b))
    ensures Divides(d, a)
  {
    var j: int :| b == j * d;
    var k: int :| Rem(a, b) == k * d;
    var q := if a >= 0 then a / b else -((-a) / b);
    assert a == q * b + Rem(a, b);
    Distribute(q, j, k, d);
  }

  lemma RemDivides(d: int, a: int, b: int)
    requires b != 0 && Divides(d, a) && Divides(d, b)
    ensures Divides(d, Rem(a, b))
  {
    var j: int :| b == j * d;
    var k: int :| a == k * d;
    var q := if a >= 0 then a / b else -((-a) / b);
    assert Rem(a, b) == -q * b + a;
    Distribute(-q, j, k, d);
  }

  /** `gcd`: a greatest common divisor; which sign it has depends on the order of the
      arguments. */
  method Gcd(a: int, b: int) returns (d: int)
    ensures Divides(d, a) && Divides(d, b) && (d == 0 ==> a == 0 && b == 0)
    ensures forall e: int :: Divides(e, a) && Divides(e, b) ==> Divides(e, d)
  {
    hide Divides;
    GcdDivides(a, b);
    forall e: int | Divides(e, a) && Divides(e, b) ensures Divides(e, GcdOf(a, b)) {
      GcdGreatest(a, b, e);
    }
    d := a;
    var e := b;
    while e != 0
      invariant GcdOf(d, e) == GcdOf(a, b)
      decreases if e < 0 then -e else e
    {
      d, e := e, Rem(d, e);
    }
  }

  function GcdOf(a: int, b: int): int
    decreases if b < 0 then -b else b
  {
    if b == 0 then a else GcdOf(b, Rem(a, b))
  }

  lemma {:induction false} GcdDivides(a: int, b: int)
    ensures Divides(GcdOf(a, b), a) && Divides(GcdOf(a, b), b) && (GcdOf(a, b) == 0 ==> a == 0 && b == 0)
    decreases if b < 0 then -b else b
  {
    if b == 0 {
      assert a == 1 * a && 0 == 0 * a;
    } else {
      GcdDivides(b, Rem(a, b));
      DividesRem(GcdOf(a, b), a, b);
    }
  }

  lemma {:induction false} GcdGreatest(a: int, b: int, d: int)
    requires Divides(d, a) && Divides(d, b)
    ensures Divides(d, GcdOf(a, b))
    decreases if b < 0 then -b else b
  {
    hide Divides;
    if b != 0 {
      RemDivides(d, a, b);
      GcdGreatest(b, Rem(a, b), d);
    }
  }

  /** The divisor kept while integers are written: the first starts it. */
  function RunningGcd(xs: seq<int>): int
    requires xs != []
  {
    if |xs| == 1 then GcdOf(xs[0], xs[0])
    else GcdOf(xs[|xs| - 1], RunningGcd(xs[..|xs| - 1]))
  }

  lemma DividesTrans(d: int, e: int, a: int)
    requires Divides(d, e) && Divides(e, a)
    ensures Divides(d, a)
  {
    var j: int :| e == j * d;
    var k: int :| a == k * e;
    assert a == (k * j) * d;
  }

  /** It divides every value written, and is zero only if they all are. */
  lemma {:induction false} RunningGcdDivides(xs: seq<int>, i: nat)
    requires i < |xs|
    ensures Divides(RunningGcd(xs), xs[i]) && (RunningGcd(xs) == 0 ==> xs[i] == 0)
    decreases |xs|
  {
    hide GcdOf, Divides;
    var n := |xs| - 1;
    if n == 0 {
      GcdDivides(xs[0], xs[0]);
    } else {
      GcdDivides(xs[n], RunningGcd(xs[..n]));
      if i < n {
        RunningGcdDivides(xs[..n], i);
        DividesTrans(RunningGcd(xs), RunningGcd(xs[..n]), xs[i]);
        ZeroDivides(RunningGcd(xs[..n]), xs[i]);
      }
    }
  }

  /** Whatever divides every value written divides it. */
  lemma {:induction false} RunningGcdGreatest(xs: seq<int>, d: int)
    requires xs != [] && forall i | 0 <= i < |xs| :: Divides(d, xs[i])
    ensures Divides(d, RunningGcd(xs))
    decreases |xs|
  {
    hide GcdOf, Divides;
    var n := |xs| - 1;
    if n == 0 {
      GcdGreatest(xs[0], xs[0], d);
    } else {
      RunningGcdGreatest(xs[..n], d);
      GcdGreatest(xs[n], RunningGcd(xs[..n]), d);
    }
  }

  lemma ZeroDivides(d: int, a: int)
    requires Divides(d, a)
    ensures d == 0 ==> a == 0
  {
  }

  lemma DividesMultiple(d: int, a: int)
    requires Divides(d, a)
    ensures Multiple(a as real, d as real)
  {
    var k: int :| a == k * d;
    assert a as real == Times(k, d as real);
  }

  /** A column of integers loses nothing with its running divisor as the factor. */
  lemma GcdLossless(t: Table, c: nat, xs: seq<int>)
    requires Filled(t) && c < Columns(t) && |xs| == Rows(t) && Small(t, c)
    requires forall i | 0 <= i < Rows(t) :: ValueAt(t, i, c) == xs[i] as real
    requires RunningGcd(xs) != 0
    ensures ReadDeltasVector(t, c, RunningGcd(xs) as real) == Values(t, c, 0)
  {
    hide ValueAt, GcdOf, ReadDeltasVector, Multiple, Divides, RunningGcd;
    var d := RunningGcd(xs);
    forall i | 0 <= i < Rows(t) ensures Multiple(ValueAt(t, i, c), d as real) {
      RunningGcdDivides(xs, i);
      DividesMultiple(d, xs[i]);
    }
    DeltasLossless(t, c, d as real);
  }
}
