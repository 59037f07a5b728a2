/** What a column sends, stated on the cells of the table alone: which cells, how many,
    in which order, and what the compact forms give back
    (libs/bysant/sdb_serialize.c:41-262). */
module SdbMeaning {
  import opened Arithmetic
  import opened SdbColumns
  import opened SdbLossless

  /** There are n complete rows. */
  ghost predicate HasRows(t: Table, n: nat) {
    n * |t.methods| <= |t.cells| < (n + 1) * |t.methods|
  }

  /** Cell c of every complete row, in order. */
  ghost function ColumnOf(t: Table, c: nat, n: nat): (cs: seq<Cell>)
    requires c < |t.methods| && HasRows(t, n)
    ensures |cs| == n
  {
    seq(n, i requires 0 <= i < n => InRow(t, c, n, i); t.cells[i * |t.methods| + c])
  }

  lemma InRow(t: Table, c: nat, n: nat, i: nat)
    requires c < |t.methods| && HasRows(t, n) && i < n
    ensures 0 <= i * |t.methods| + c < |t.cells|
  {
    RowFits(i, c, |t.methods|, n);
  }

  function NumberIn(x: Cell): real {
    if x.Number? then x.v else 0.0
  }

  ghost function Numbers(cs: seq<Cell>): (xs: seq<real>)
    ensures |xs| == |cs|
  {
    seq(|cs|, i requires 0 <= i < |cs| => NumberIn(cs[i]))
  }

  lemma RowsAre(t: Table, n: nat)
    requires Filled(t) && HasRows(t, n)
    ensures Rows(t) == n
  {
    var m := |t.methods|;
    assert |t.cells| == m * n + (|t.cells| - n * m);
    DivMod(|t.cells|, m, n, |t.cells| - n * m);
  }

  lemma CellIs(t: Table, c: nat, n: nat, i: nat)
    requires Filled(t) && c < Columns(t) && HasRows(t, n) && i < n
    ensures Rows(t) == n && CellAt(t, i, c) == ColumnOf(t, c, n)[i] && ValueAt(t, i, c) == Numbers(ColumnOf(t, c, n))[i]
  {
    hide Rows;
    RowsAre(t, n);
  }

  // ----- lists

  ghost function Raws(cs: seq<Cell>): seq<Call> {
    seq(|cs|, i requires 0 <= i < |cs| => Raw(cs[i]))
  }

  lemma {:induction false} ListCellsAre(t: Table, c: nat, n: nat, r: nat)
    requires Filled(t) && c < Columns(t) && HasRows(t, n) && r <= n
    ensures ListCells(t, c, r) == Raws(ColumnOf(t, c, n))[r..]
    decreases n - r
  {
    hide Rows, CellAt, ColumnOf, HasRows;
    RowsAre(t, n);
    if r < n {
      CellIs(t, c, n, r);
      ListCellsAre(t, c, n, r + 1);
      var all := Raws(ColumnOf(t, c, n));
      assert all[r..] == [all[r]] + all[r + 1..];
    }
  }

  /** A list announces as many cells as there are complete rows, and sends the cell of
      each of them. */
  lemma ListSends(t: Table, c: nat, n: nat)
    requires Filled(t) && c < Columns(t) && HasRows(t, n) && t.methods[c].ListOf?
    ensures ColumnCalls(t, c) == [OpenList(n)] + Raws(ColumnOf(t, c, n)) + [Close]
  {
    hide Rows, ListCells, HasRows, ColumnOf;
    RowsAre(t, n);
    ListCellsAre(t, c, n, 0);
    assert Raws(ColumnOf(t, c, n))[0..] == Raws(ColumnOf(t, c, n));
  }

  lemma {:induction false} ValuesAre(t: Table, c: nat, n: nat, r: nat)
    requires Filled(t) && c < Columns(t) && HasRows(t, n) && r <= n
    ensures Values(t, c, r) == Numbers(ColumnOf(t, c, n))[r..]
    decreases n - r
  {
    hide Rows, ValueAt, ColumnOf, HasRows;
    RowsAre(t, n);
    if r < n {
      CellIs(t, c, n, r);
      ValuesAre(t, c, n, r + 1);
      var all := Numbers(ColumnOf(t, c, n));
      assert all[r..] == [all[r]] + all[r + 1..];
    }
  }

  lemma NumbersAre(t: Table, c: nat, n: nat)
    requires Filled(t) && c < Columns(t) && HasRows(t, n)
    ensures var xs := Numbers(ColumnOf(t, c, n));
            Rows(t) == n && n > 0 && Values(t, c, 0) == xs && Values(t, c, 1) == xs[1..]
            && forall i | 0 <= i < n :: ValueAt(t, i, c) == xs[i]
  {
    hide Rows, ValueAt, ColumnOf, HasRows, Values;
    RowsAre(t, n);
    ValuesAre(t, c, n, 0);
    ValuesAre(t, c, n, 1);
    var xs := Numbers(ColumnOf(t, c, n));
    assert xs[0..] == xs;
    forall i | 0 <= i < n ensures ValueAt(t, i, c) == xs[i] { CellIs(t, c, n, i); }
  }

  // ----- quasi-periodic vectors

  /** Value i is more than the 10^15th part of itself away from a period after the one
      before. */
  predicate Late(xs: seq<real>, period: real, i: nat)
    requires 0 < i < |xs|
  {
    Abs(xs[i] - xs[i - 1] - period) * 1000000000000000.0 > Abs(xs[i])
  }

  lemma LateExactly(xs: seq<real>, period: real, i: nat)
    requires 0 < i < |xs|
    ensures Late(xs, period, i) <==> !OnTime(period, xs[i - 1], xs[i])
  {
    var x := xs[i];
    assert Tolerance(x) * 1000000000000000.0 == Abs(x);
  }

  /** The late values from r on, in order. */
  ghost predicate AreLate(xs: seq<real>, period: real, r: nat, late: seq<nat>)
    requires r > 0
  {
    && (forall k | 0 <= k < |late| :: r <= late[k] < |xs| && Late(xs, period, late[k]))
    && (forall j, k | 0 <= j < k < |late| :: late[j] < late[k])
    && (forall i | r <= i < |xs| && Late(xs, period, i) :: i in late)
  }

  /** How many values lie between the late ones, and by how much those are late. */
  function Gaps(xs: seq<real>, period: real, late: seq<nat>, base: nat): seq<Call>
    requires forall k | 0 <= k < |late| :: 0 < late[k] < |xs|
  {
    if late == [] then [Int(|xs| - 1 - base)]
    else [Int(late[0] - base - 1), Num(xs[late[0]] - (xs[late[0] - 1] + period))] + Gaps(xs, period, late[1..], late[0])
  }

  lemma LateFirst(xs: seq<real>, period: real, r: nat, late: seq<nat>)
    requires 0 < r < |xs| && AreLate(xs, period, r, late)
    ensures Late(xs, period, r) ==> late != [] && late[0] == r && AreLate(xs, period, r + 1, late[1..])
    ensures !Late(xs, period, r) ==> AreLate(xs, period, r + 1, late)
  {
    if Late(xs, period, r) {
      var k :| 0 <= k < |late| && late[k] == r;
      var more := late[1..];
      forall i | r + 1 <= i < |xs| && Late(xs, period, i) ensures i in more {
        var j :| 0 <= j < |late| && late[j] == i;
        assert more[j - 1] == i;
      }
    } else {
      forall k | 0 <= k < |late| ensures r + 1 <= late[k] {
        assert Late(xs, period, late[k]);
      }
    }
  }

  lemma {:induction false} QuasiCellsAre(t: Table, c: nat, n: nat, period: real, r: nat, count: nat, late: seq<nat>)
    requires Filled(t) && c < Columns(t) && HasRows(t, n) && 1 <= r <= n && count < r
    requires AreLate(Numbers(ColumnOf(t, c, n)), period, r, late)
    ensures var xs := Numbers(ColumnOf(t, c, n));
            QuasiCells(t, c, r, period, xs[r - 1], count) == Gaps(xs, period, late, r - 1 - count)
    decreases n - r
  {
    hide Rows, ValueAt, ColumnOf, HasRows, OnTime, Late, AreLate, Values, Numbers;
    NumbersAre(t, c, n);
    var xs := Numbers(ColumnOf(t, c, n));
    LateBounds(xs, period, r, late);
    if r == n {
      LateNone(xs, period, late);
    } else {
      LateFirst(xs, period, r, late);
      LateExactly(xs, period, r);
      if Late(xs, period, r) {
        QuasiCellsAre(t, c, n, period, r + 1, 0, late[1..]);
      } else {
        QuasiCellsAre(t, c, n, period, r + 1, count + 1, late);
      }
    }
  }

  lemma LateBounds(xs: seq<real>, period: real, r: nat, late: seq<nat>)
    requires r > 0 && AreLate(xs, period, r, late)
    ensures forall k | 0 <= k < |late| :: 0 < late[k] < |xs|
  {
  }

  lemma {:induction false} Increasing(late: seq<nat>, lo: nat, hi: nat)
    requires lo <= hi && (forall k | 0 <= k < |late| :: lo <= late[k] < hi)
    requires forall j, k | 0 <= j < k < |late| :: late[j] < late[k]
    ensures |late| <= hi - lo
    decreases |late|
  {
    if late != [] {
      var m := |late| - 1;
      Increasing(late[..m], lo, late[m]);
    }
  }

  lemma LateNone(xs: seq<real>, period: real, late: seq<nat>)
    requires |xs| > 0 && AreLate(xs, period, |xs|, late)
    ensures late == []
  {
    Increasing(late, |xs|, |xs|);
  }

  /** A quasi-periodic vector sends its period, the first value, and between the late
      values, and after the last, how many were on time. */
  lemma QuasiSends(t: Table, c: nat, n: nat, period: real, late: seq<nat>)
    requires Filled(t) && c < Columns(t) && HasRows(t, n) && t.methods[c] == Quasi(period)
    requires AreLate(Numbers(ColumnOf(t, c, n)), period, 1, late)
    ensures var xs := Numbers(ColumnOf(t, c, n));
            && n > 0 && (forall k | 0 <= k < |late| :: 0 < late[k] < |xs|)
            && ColumnCalls(t, c) ==
                 [Object(QuasiPeriodicVector), Num(period), Num(xs[0]), OpenList(-1)] + Gaps(xs, period, late, 0) + [Close, Close]
  {
    hide Rows, ValueAt, ColumnOf, HasRows, QuasiCells, AreLate, Gaps, Values, Numbers;
    NumbersAre(t, c, n);
    LateBounds(Numbers(ColumnOf(t, c, n)), period, 1, late);
    QuasiCellsAre(t, c, n, period, 1, 0, late);
  }

  /** What a column's calls between the four opening and the two closing ones are. */
  function Inner(calls: seq<Call>): seq<Call> {
    if |calls| < 6 then [] else calls[4..|calls| - 2]
  }

  /** The counts and shifts of a column give its numbers back exactly when every value
      that is not late is a period after the one before. */
  lemma QuasiBackExactly(t: Table, c: nat, n: nat, period: real)
    requires Filled(t) && c < Columns(t) && HasRows(t, n) && t.methods[c] == Quasi(period)
    ensures var xs := Numbers(ColumnOf(t, c, n));
            && n > 0
            && ([xs[0]] + ReadQuasi(Inner(ColumnCalls(t, c)), period, xs[0]) == xs <==>
                  forall i | 0 < i < n && !Late(xs, period, i) :: xs[i] == xs[i - 1] + period)
  {
    hide Rows, ValueAt, ColumnOf, HasRows, QuasiCells, ReadQuasi, OnTime, Late, Values, Numbers;
    NumbersAre(t, c, n);
    var xs := Numbers(ColumnOf(t, c, n));
    QuasiLossless(t, c, period);
    var inner := QuasiCells(t, c, 1, period, xs[0], 0);
    assert Inner(ColumnCalls(t, c)) == inner by { QuasiInner(t, c, period); }
    assert xs == [xs[0]] + xs[1..];
    SameTail(xs[0], ReadQuasi(inner, period, xs[0]), xs[1..]);
    forall i | 0 < i < n ensures Late(xs, period, i) <==> !OnTime(period, xs[i - 1], xs[i]) { LateExactly(xs, period, i); }
  }

  lemma QuasiInner(t: Table, c: nat, period: real)
    requires Filled(t) && c < Columns(t) && t.methods[c] == Quasi(period)
    ensures Inner(ColumnCalls(t, c)) == QuasiCells(t, c, 1, period, ValueAt(t, 0, c), 0)
  {
    hide Rows, ValueAt, QuasiCells;
  }

  lemma SameTail(x: real, a: seq<real>, b: seq<real>)
    ensures [x] + a == [x] + b <==> a == b
  {
    if [x] + a == [x] + b {
      assert ([x] + a)[1..] == ([x] + b)[1..];
    }
  }

  // ----- deltas vectors

  /** `deltasvector_integer`: a number from zero up is rounded down after the precision is
      added; a negative one is always rounded down. */
  lemma DeltaIntegerIs(v: real, precision: real)
    requires 0.0 <= precision <= 1.0
    ensures var n := DeltaInteger(v, precision) as real;
            if v >= 0.0 then n - precision <= v < n + 1.0 - precision else n <= v < n + 1.0
  {
  }

  /** The 10^15th part of a value. */
  lemma ToleranceIs(v: real)
    ensures Tolerance(v) >= 0.0 && (Tolerance(v) * 1000000000000000.0 == v || Tolerance(v) * 1000000000000000.0 == -v)
  {
  }

  /** What is sent for row i, by calls that begin with row r. */
  ghost function Sent(cs: seq<Call>, r: nat, i: nat): Call
    requires r <= i < r + |cs|
  {
    cs[i - r]
  }

  /** The call for row i is the difference of value j, and none between is sent as other
      than zero. */
  ghost predicate Against(xs: seq<real>, factor: Factor, cs: seq<Call>, r: nat, p: nat, i: nat, j: nat) {
    && r <= i < r + |cs| == |xs| && p <= j < i
    && (j == p || (j >= r && Sent(cs, r, j) != Int(0)))
    && (forall k | r <= k < i :: j < k ==> Sent(cs, r, k) == Int(0))
    && Sent(cs, r, i) == Int(Delta(factor, xs[j], xs[i]))
  }

  lemma AgainstLater(xs: seq<real>, factor: Factor, d: int, rest: seq<Call>, r: nat, p: nat, q: nat, i: nat, j: nat)
    requires p < r && q == (if d != 0 then r else p) && Against(xs, factor, rest, r + 1, q, i, j)
    ensures Against(xs, factor, [Int(d)] + rest, r, p, i, j)
  {
    hide Delta;
    var cs := [Int(d)] + rest;
    forall k | r + 1 <= k < r + |cs| ensures Sent(cs, r, k) == Sent(rest, r + 1, k) {
      assert cs[k - r] == rest[k - r - 1];
    }
    assert Sent(cs, r, r) == Int(d);
  }

  /** Difference i is against the last value before it whose own difference was not zero,
      or the first. */
  lemma {:induction false} DeltaSent(t: Table, c: nat, n: nat, factor: Factor, r: nat, p: nat, i: nat) returns (j: nat)
    requires Filled(t) && c < Columns(t) && HasRows(t, n) && p < r <= i < n
    ensures var xs := Numbers(ColumnOf(t, c, n));
            Against(xs, factor, DeltaCells(t, c, r, factor, xs[p]), r, p, i, j)
    decreases n - r
  {
    hide Rows, ValueAt, ColumnOf, HasRows, Delta, Values, Numbers, Against;
    NumbersAre(t, c, n);
    var xs := Numbers(ColumnOf(t, c, n));
    var d := Delta(factor, xs[p], xs[r]);
    var q := if d != 0 then r else p;
    var rest := DeltaCells(t, c, r + 1, factor, xs[q]);
    assert DeltaCells(t, c, r, factor, xs[p]) == [Int(d)] + rest;
    if i == r {
      j := p;
      DeltaCount(t, c, n, factor, r + 1, xs[q]);
      AgainstFirst(xs, factor, rest, r, p);
    } else {
      j := DeltaSent(t, c, n, factor, r + 1, q, i);
      AgainstLater(xs, factor, d, rest, r, p, q, i, j);
    }
  }

  lemma AgainstFirst(xs: seq<real>, factor: Factor, rest: seq<Call>, r: nat, p: nat)
    requires p < r && r + 1 + |rest| == |xs|
    ensures Against(xs, factor, [Int(Delta(factor, xs[p], xs[r]))] + rest, r, p, r, p)
  {
    hide Delta;
  }

  lemma {:induction false} DeltaCount(t: Table, c: nat, n: nat, factor: Factor, r: nat, previous: real)
    requires Filled(t) && c < Columns(t) && HasRows(t, n) && r <= n
    ensures |DeltaCells(t, c, r, factor, previous)| == n - r
    decreases n - r
  {
    hide Rows, ValueAt, HasRows, Delta;
    RowsAre(t, n);
    if r < n {
      var v := ValueAt(t, r, c);
      DeltaCount(t, c, n, factor, r + 1, if Delta(factor, previous, v) != 0 then v else previous);
    }
  }

  /** A deltas vector sends its factor, the first value in factors, how many differences
      follow, and those. */
  lemma DeltasSends(t: Table, c: nat, n: nat, factor: Factor)
    requires Filled(t) && c < Columns(t) && HasRows(t, n) && t.methods[c] == Deltas(factor)
    ensures var (xs, calls) := (Numbers(ColumnOf(t, c, n)), ColumnCalls(t, c));
            && n > 0 && |calls| == n + 5 && Inner(calls) == DeltaCells(t, c, 1, factor, xs[0])
            && calls[..4] == [Object(DeltasVector), Num(factor), Int(DeltaInteger(xs[0] / factor, Tolerance(xs[0]))), OpenList(n - 1)]
            && calls[n + 3..] == [Close, Close]
  {
    hide Rows, ValueAt, ColumnOf, HasRows, DeltaCells, DeltaInteger, Tolerance, Values, Numbers;
    NumbersAre(t, c, n);
    DeltaCount(t, c, n, factor, 1, Numbers(ColumnOf(t, c, n))[0]);
  }

  /** The numbers of a column come back exactly when the factor divides each of them. */
  lemma DeltasBackExactly(t: Table, c: nat, n: nat, factor: Factor)
    requires Filled(t) && c < Columns(t) && HasRows(t, n) && t.methods[c] == Deltas(factor)
    requires forall x | x in Numbers(ColumnOf(t, c, n)) :: Abs(x) < 1000000000000000.0
    ensures var (xs, calls) := (Numbers(ColumnOf(t, c, n)), ColumnCalls(t, c));
            && |calls| > 2 && calls[2].Int?
            && var start := Times(calls[2].n, factor);
            ([start] + ReadDeltas(Inner(calls), factor, start) == xs <==> forall i | 0 <= i < n :: Multiple(xs[i], factor))
  {
    hide Rows, ValueAt, ColumnOf, HasRows, DeltaCells, DeltaInteger, Tolerance, Values, Numbers, Multiple, Times, ReadDeltas, Abs;
    NumbersAre(t, c, n);
    DeltasSends(t, c, n, factor);
    var xs, calls := Numbers(ColumnOf(t, c, n)), ColumnCalls(t, c);
    assert calls[2] == calls[..4][2];
    assert Small(t, c) by {
      forall i | 0 <= i < Rows(t) ensures Abs(ValueAt(t, i, c)) < 1000000000000000.0 { assert xs[i] in xs; }
    }
    DeltasLossless(t, c, factor);
  }

  // ----- the table

  function Flat(parts: seq<seq<Call>>): seq<Call> {
    if parts == [] then [] else parts[0] + Flat(parts[1..])
  }

  /** What is sent for one column, under its label. */
  ghost function Labelled(t: Table, k: nat): (parts: seq<seq<Call>>)
    requires Filled(t) && k <= Columns(t)
    ensures |parts| == Columns(t) - k
  {
    seq(Columns(t) - k, i requires 0 <= i < Columns(t) - k => [Label(k + i)] + ColumnCalls(t, k + i))
  }

  lemma {:induction false} ColumnsAre(t: Table, k: nat)
    requires Filled(t) && k <= Columns(t)
    ensures ColumnsFrom(t, k) == Flat(Labelled(t, k))
    decreases Columns(t) - k
  {
    hide ColumnCalls;
    if k < Columns(t) {
      ColumnsAre(t, k + 1);
      assert Labelled(t, k)[1..] == Labelled(t, k + 1);
    }
  }

  /** A map, and in it every column once, from the first to the last, under its label. */
  lemma TableSends(t: Table)
    requires Filled(t)
    ensures TableCalls(t) == [OpenMap] + Flat(Labelled(t, 0)) + [Close]
  {
    hide ColumnCalls;
    ColumnsAre(t, 0);
  }
}
