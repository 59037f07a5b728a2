/** What a staging table is serialized to: one call after the other, per column
    (libs/bysant/sdb_serialize.c:41-262), and what the compact forms mean. Numbers
    are exact reals. */
module SdbColumns {
  import Bytes

  /** A cell: a number, or any other serialized value. */
  datatype Cell = Number(v: real) | Other(raw: Bytes.bytes)

  type Factor = x: real | x != 0.0 witness 1.0

  datatype Method = ListOf | Deltas(factor: Factor) | Quasi(period: real) | Unsupported

  /** Rows of cells, one serialization method per column. */
  datatype Table = Table(methods: seq<Method>, cells: seq<Cell>)

  predicate Filled(t: Table) {
    0 < |t.methods| <= |t.cells|
  }

  function Columns(t: Table): nat {
    |t.methods|
  }

  /** Complete rows. */
  function Rows(t: Table): (n: nat)
    requires Filled(t)
    ensures n > 0 && n * Columns(t) <= |t.cells| < (n + 1) * Columns(t)
  {
    |t.cells| / |t.methods|
  }

  function CellAt(t: Table, r: nat, c: nat): Cell
    requires Filled(t) && r < Rows(t) && c < Columns(t)
  {
    RowFits(r, c, Columns(t), Rows(t));
    t.cells[r * Columns(t) + c]
  }

  lemma RowFits(r: nat, c: nat, n: nat, rows: nat)
    requires r < rows && c < n
    ensures 0 <= r * n + c < rows * n
  {
    assert r * n + c < r * n + n == (r + 1) * n <= rows * n by {
      assert (r + 1) * n <= rows * n;
    }
  }

  function ValueAt(t: Table, r: nat, c: nat): real
    requires Filled(t) && r < Rows(t) && c < Columns(t)
  {
    if CellAt(t, r, c).Number? then CellAt(t, r, c).v else 0.0
  }

  // ----- the calls

  datatype Class = DeltasVector | QuasiPeriodicVector

  datatype Call = OpenMap | Label(c: nat) | OpenList(n: int) | Raw(cell: Cell) | Object(class_: Class)
    | Num(v: real) | Int(n: int) | Close

  function Abs(x: real): real {
    if x < 0.0 then -x else x
  }

  /** The relative inaccuracy allowed for. */
  function Tolerance(v: real): real {
    Abs(v / 1000000000000000.0)
  }

  /** `deltasvector_integer`; a negative number has a remainder that is never
      positive, so it is always rounded down. */
  function DeltaInteger(v: real, precision: real): int {
    if v >= 0.0 then v.Floor + (if v - v.Floor as real >= 1.0 - precision then 1 else 0) else v.Floor
  }

  function ListCells(t: Table, c: nat, r: nat): seq<Call>
    requires Filled(t) && c < Columns(t)
    decreases Rows(t) - r
  {
    if r >= Rows(t) then [] else [Raw(CellAt(t, r, c))] + ListCells(t, c, r + 1)
  }

  function Delta(factor: Factor, previous: real, v: real): int {
    DeltaInteger((v - previous) / factor, Tolerance(v))
  }

  function DeltaCells(t: Table, c: nat, r: nat, factor: Factor, previous: real): seq<Call>
    requires Filled(t) && c < Columns(t)
    decreases Rows(t) - r
  {
    if r >= Rows(t) then [] else
    var v := ValueAt(t, r, c);
    var d := Delta(factor, previous, v);
    [Int(d)] + DeltaCells(t, c, r + 1, factor, if d != 0 then v else previous)
  }

  /** Whether v is the period after previous, up to inaccuracy. */
  predicate OnTime(period: real, previous: real, v: real) {
    Abs(v - (previous + period)) <= Tolerance(v)
  }

  /** Counts of values on time, each but the last followed by a shift. */
  function QuasiCells(t: Table, c: nat, r: nat, period: real, previous: real, count: nat): seq<Call>
    requires Filled(t) && c < Columns(t)
    decreases Rows(t) - r
  {
    if r >= Rows(t) then [Int(count)] else
    var v := ValueAt(t, r, c);
    if OnTime(period, previous, v) then QuasiCells(t, c, r + 1, period, v, count + 1)
    else [Int(count), Num(v - (previous + period))] + QuasiCells(t, c, r + 1, period, v, 0)
  }

  function DeltaStart(t: Table, c: nat, factor: Factor): int
    requires Filled(t) && c < Columns(t)
  {
    DeltaInteger(ValueAt(t, 0, c) / factor, Tolerance(ValueAt(t, 0, c)))
  }

  function ColumnCalls(t: Table, c: nat): seq<Call>
    requires Filled(t) && c < Columns(t)
  {
    match t.methods[c]
    case ListOf => [OpenList(Rows(t))] + ListCells(t, c, 0) + [Close]
    case Deltas(factor) =>
      [Object(DeltasVector), Num(factor), Int(DeltaStart(t, c, factor)), OpenList(Rows(t) - 1)]
      + DeltaCells(t, c, 1, factor, ValueAt(t, 0, c)) + [Close, Close]
    case Quasi(period) =>
      [Object(QuasiPeriodicVector), Num(period), Num(ValueAt(t, 0, c)), OpenList(-1)]
      + QuasiCells(t, c, 1, period, ValueAt(t, 0, c), 0) + [Close, Close]
    case Unsupported => []
  }

  function ColumnsFrom(t: Table, c: nat): seq<Call>
    requires Filled(t)
    decreases Columns(t) - c
  {
    if c >= Columns(t) then [] else [Label(c)] + ColumnCalls(t, c) + ColumnsFrom(t, c + 1)
  }

  /** All the calls for a table. */
  function TableCalls(t: Table): seq<Call>
    requires Filled(t)
  {
    [OpenMap] + ColumnsFrom(t, 0) + [Close]
  }

  // ----- what the compact forms mean

  /** The values of a column from row r on. */
  function Values(t: Table, c: nat, r: nat): seq<real>
    requires Filled(t) && c < Columns(t)
    decreases Rows(t) - r
  {
    if r >= Rows(t) then [] else [ValueAt(t, r, c)] + Values(t, c, r + 1)
  }

  /** Reads counts and shifts back: count values a period apart, then one shifted. */
  function ReadQuasi(calls: seq<Call>, period: real, last: real): seq<real> {
    if |calls| == 0 || !calls[0].Int? then []
    else if |calls| == 1 || !calls[1].Num? then OnTimeRun(last, period, calls[0].n)
    else
      var run := OnTimeRun(last, period, calls[0].n);
      var before := RunEnd(last, period, calls[0].n);
      run + [before + period + calls[1].v] + ReadQuasi(calls[2..], period, before + period + calls[1].v)
  }

  function RunEnd(last: real, period: real, n: int): real {
    if n <= 0 then last else last + n as real * period
  }

  function OnTimeRun(last: real, period: real, n: int): seq<real>
    decreases n
  {
    if n <= 0 then [] else [last + period] + OnTimeRun(last + period, period, n - 1)
  }

  /** Every value taken to be on time is exactly so. */
  ghost predicate ExactlyTimed(t: Table, c: nat, r: nat, period: real)
    requires Filled(t) && c < Columns(t)
  {
    forall i | 0 < i < Rows(t) && r <= i ::
      OnTime(period, ValueAt(t, i - 1, c), ValueAt(t, i, c)) ==>
        ValueAt(t, i, c) == ValueAt(t, i - 1, c) + period
  }
}
