/** The resumable table serializer (libs/bysant/sdb_serialize.c:31-81, 110-262 and
    446-507): a call that is refused ends the attempt, and the next attempt jumps
    back to where it was. */
module SdbSerializer {
  import opened Arithmetic
  import opened SdbColumns

  datatype Stage = Initialized | MapOpened | MapLabelSent | ObjectDefined | FactorSent | StartValueSent
    | SendingCells | ShiftSent | ContentSent | LastShiftSent | InnerListClosed | ColumnClosed
    | AllColumnsSent | MapClosed

  const BSS_EOK := 0
  const BSS_EINTERNAL := -100
  const BSS_EINVALID := -3

  // ----- rows

  /** Cell k, counting row after row, is in column c. */
  predicate InColumn(t: Table, k: nat, c: nat)
    requires Filled(t)
  {
    k % Columns(t) == c
  }

  function RowIn(t: Table, k: nat): nat
    requires Filled(t)
  {
    k / Columns(t)
  }

  /** The cells of complete rows. */
  function CellCount(t: Table): nat
    requires Filled(t)
  {
    Rows(t) * Columns(t)
  }

  /** The first row whose cell of column c has not been read, after k cells. */
  function NextRow(t: Table, k: nat, c: nat): nat
    requires Filled(t)
  {
    if k % Columns(t) <= c then k / Columns(t) else k / Columns(t) + 1
  }

  lemma NextRowStep(t: Table, k: nat, c: nat)
    requires Filled(t) && c < Columns(t)
    ensures InColumn(t, k, c) ==> NextRow(t, k, c) == RowIn(t, k) && NextRow(t, k + 1, c) == RowIn(t, k) + 1
    ensures InColumn(t, k, c) ==> k == Columns(t) * RowIn(t, k) + c
    ensures !InColumn(t, k, c) ==> NextRow(t, k + 1, c) == NextRow(t, k, c)
  {
    var n := Columns(t);
    var q, m := k / n, k % n;
    assert k == n * q + m;
    if m + 1 < n {
      DivMod(k + 1, n, q, m + 1);
    } else {
      assert k + 1 == n * (q + 1);
      DivMod(k + 1, n, q + 1, 0);
    }
  }

  lemma NextRowEnds(t: Table, c: nat)
    requires Filled(t) && c < Columns(t)
    ensures NextRow(t, CellCount(t), c) == Rows(t) && NextRow(t, 0, c) == 0
  {
    DivMod(CellCount(t), Columns(t), Rows(t), 0);
    DivMod(0, Columns(t), 0, 0);
  }

  /** A cell of a complete row. */
  lemma CellIs(t: Table, k: nat, c: nat)
    requires Filled(t) && c < Columns(t) && InColumn(t, k, c) && k < CellCount(t)
    ensures k < |t.cells| && RowIn(t, k) < Rows(t) && t.cells[k] == CellAt(t, RowIn(t, k), c)
  {
    var n, q := Columns(t), RowIn(t, k);
    NextRowStep(t, k, c);
    if q >= Rows(t) {
      MulOrder(n, Rows(t), q);
      assert false;
    }
    assert n * q == q * n;
  }

  lemma MulOrder(n: nat, a: nat, b: nat)
    requires a <= b
    ensures a * n <= n * b
  {
    assert n * b == a * n + n * (b - a);
  }

  // ----- what is left to do in a column

  /** The calls left in a column; row is the row of the cell at hand. */
  function ColumnTail(t: Table, c: nat, stage: Stage, row: nat, previous: real, shift: nat): seq<Call>
    requires Filled(t) && c < Columns(t)
  {
    match t.methods[c]
    case ListOf => ListTail(t, c, stage, row)
    case Deltas(factor) => DeltasTail(t, c, stage, row, factor, previous)
    case Quasi(period) => QuasiTail(t, c, stage, row, period, previous, shift)
    case Unsupported => []
  }

  function ListTail(t: Table, c: nat, stage: Stage, row: nat): seq<Call>
    requires Filled(t) && c < Columns(t)
  {
    match stage
    case MapLabelSent => [OpenList(Rows(t))] + ListCells(t, c, 0) + [Close]
    case SendingCells => ListCells(t, c, row) + [Close]
    case _ => [Close]
  }

  function DeltasTail(t: Table, c: nat, stage: Stage, row: nat, factor: Factor, previous: real): seq<Call>
    requires Filled(t) && c < Columns(t)
  {
    var cells := DeltaCells(t, c, 1, factor, ValueAt(t, 0, c)) + [Close, Close];
    match stage
    case MapLabelSent =>
      [Object(DeltasVector), Num(factor), Int(DeltaStart(t, c, factor)), OpenList(Rows(t) - 1)] + cells
    case ObjectDefined => [Num(factor), Int(DeltaStart(t, c, factor)), OpenList(Rows(t) - 1)] + cells
    case FactorSent => [Int(DeltaStart(t, c, factor)), OpenList(Rows(t) - 1)] + cells
    case StartValueSent => [OpenList(Rows(t) - 1)] + cells
    case SendingCells => DeltaCells(t, c, row, factor, previous) + [Close, Close]
    case ContentSent => [Close, Close]
    case _ => [Close]
  }

  function QuasiTail(t: Table, c: nat, stage: Stage, row: nat, period: real, previous: real, shift: nat): seq<Call>
    requires Filled(t) && c < Columns(t)
  {
    var start := ValueAt(t, 0, c);
    var cells := QuasiCells(t, c, 1, period, start, 0) + [Close, Close];
    match stage
    case MapLabelSent => [Object(QuasiPeriodicVector), Num(period), Num(start), OpenList(-1)] + cells
    case ObjectDefined => [Num(period), Num(start), OpenList(-1)] + cells
    case FactorSent => [Num(start), OpenList(-1)] + cells
    case StartValueSent => [OpenList(-1)] + cells
    case SendingCells => QuasiCells(t, c, row, period, previous, shift) + [Close, Close]
    case ShiftSent =>
      var v := if row < Rows(t) then ValueAt(t, row, c) else 0.0;
      [Num(v - (previous + period))] + QuasiCells(t, c, row + 1, period, v, 0) + [Close, Close]
    case ContentSent => [Int(shift), Close, Close]
    case LastShiftSent => [Close, Close]
    case _ => [Close]
  }

  predicate CellStage(s: Stage) {
    s == FactorSent || s == StartValueSent || s == SendingCells || s == ShiftSent
  }

  predicate ColumnStage(s: Stage) {
    CellStage(s) || s == MapLabelSent || s == ObjectDefined || s == ContentSent || s == LastShiftSent
    || s == InnerListClosed
  }

  lemma StageKinds(s: Stage)
    ensures ColumnStage(s) <==>
      s != Initialized && s != MapOpened && s != ColumnClosed && s != AllColumnsSent && s != MapClosed
  {
  }

  /** The stages of each kind of column. */
  predicate StageFits(m: Method, s: Stage) {
    match m
    case ListOf => s == MapLabelSent || s == SendingCells || s == ContentSent
    case Deltas(_) => ColumnStage(s) && s != ShiftSent && s != LastShiftSent
    case Quasi(_) => ColumnStage(s)
    case Unsupported => s == MapLabelSent
  }

  ghost predicate SoundColumn(t: Table, c: nat)
    requires Filled(t) && c < Columns(t)
  {
    && !t.methods[c].Unsupported?
    && (!t.methods[c].ListOf? ==> forall r | 0 <= r < Rows(t) :: CellAt(t, r, c).Number?)
  }

  /** Every method is supported, and the compact ones have numbers only. */
  ghost predicate SoundTable(t: Table)
    requires Filled(t)
  {
    forall c | 0 <= c < Columns(t) :: SoundColumn(t, c)
  }

  /** Which rows the stages that send cells can be at. */
  ghost predicate AtRow(t: Table, c: nat, stage: Stage, row: nat, previous: real)
    requires Filled(t) && c < Columns(t) && row < Rows(t)
  {
    match t.methods[c]
    case Deltas(_) => (stage == SendingCells <==> row > 0)
      && (stage == StartValueSent ==> previous == ValueAt(t, 0, c))
    case Quasi(period) => (stage == FactorSent || stage == StartValueSent <==> row == 0)
      && (stage == ShiftSent ==> !OnTime(period, previous, ValueAt(t, row, c)))
    case _ => stage == SendingCells
  }

  lemma Moved(log: seq<Call>, c: Call, rest: seq<Call>)
    ensures log + ([c] + rest) == log + [c] + rest
  {
  }

  lemma ListStep(t: Table, c: nat, row: nat)
    requires Filled(t) && c < Columns(t) && row < Rows(t)
    ensures ListTail(t, c, SendingCells, row) == [Raw(CellAt(t, row, c))] + ListTail(t, c, SendingCells, row + 1)
  {
    hide CellAt;
    assert [Raw(CellAt(t, row, c))] + ListCells(t, c, row + 1) + [Close] ==
      [Raw(CellAt(t, row, c))] + (ListCells(t, c, row + 1) + [Close]);
  }

  lemma ListEdges(t: Table, c: nat)
    requires Filled(t) && c < Columns(t)
    ensures ListTail(t, c, MapLabelSent, 0) == [OpenList(Rows(t))] + ListTail(t, c, SendingCells, 0)
    ensures ListTail(t, c, SendingCells, Rows(t)) == [Close]
  {
    assert [OpenList(Rows(t))] + ListCells(t, c, 0) + [Close] == [OpenList(Rows(t))] + (ListCells(t, c, 0) + [Close]);
  }

  lemma DeltaStep(t: Table, c: nat, row: nat, factor: Factor, previous: real)
    requires Filled(t) && c < Columns(t) && row < Rows(t)
    ensures var v := ValueAt(t, row, c);
            var d := Delta(factor, previous, v);
            DeltasTail(t, c, SendingCells, row, factor, previous) ==
              [Int(d)] + DeltasTail(t, c, SendingCells, row + 1, factor, if d != 0 then v else previous)
  {
    hide ValueAt, Delta;
    var v := ValueAt(t, row, c);
    var d := Delta(factor, previous, v);
    var more := DeltaCells(t, c, row + 1, factor, if d != 0 then v else previous);
    assert [Int(d)] + more + [Close, Close] == [Int(d)] + (more + [Close, Close]);
  }

  lemma DeltasEdges(t: Table, c: nat, factor: Factor, previous: real)
    requires Filled(t) && c < Columns(t)
    ensures var tail := (s: Stage) => DeltasTail(t, c, s, 0, factor, previous);
            && tail(MapLabelSent) == [Object(DeltasVector)] + tail(ObjectDefined)
            && tail(ObjectDefined) == [Num(factor)] + tail(FactorSent)
            && tail(FactorSent) == [Int(DeltaStart(t, c, factor))] + tail(StartValueSent)
            && tail(StartValueSent) == [OpenList(Rows(t) - 1)] + DeltasTail(t, c, SendingCells, 1, factor, ValueAt(t, 0, c))
            && tail(ContentSent) == [Close] + tail(InnerListClosed) && tail(InnerListClosed) == [Close]
    ensures DeltasTail(t, c, SendingCells, Rows(t), factor, previous) == [Close, Close]
  {
    hide ValueAt, DeltaStart;
    NoDeltas(t, c, factor, previous);
    hide DeltaCells, Rows;
    var cells := DeltaCells(t, c, 1, factor, ValueAt(t, 0, c)) + [Close, Close];
    var a, b := Int(DeltaStart(t, c, factor)), OpenList(Rows(t) - 1);
    Front(Object(DeltasVector), [Num(factor), a, b], cells);
    Front(Num(factor), [a, b], cells);
    Front(a, [b], cells);
  }

  lemma NoDeltas(t: Table, c: nat, factor: Factor, previous: real)
    requires Filled(t) && c < Columns(t)
    ensures DeltaCells(t, c, Rows(t), factor, previous) == []
  {
  }

  lemma Front(c: Call, rest: seq<Call>, more: seq<Call>)
    ensures [c] + rest + more == [c] + (rest + more)
  {
  }

  /** Except where cells are sent, the row does not matter. */
  lemma DeltasAnywhere(t: Table, c: nat, s: Stage, factor: Factor, row: nat, previous: real)
    requires Filled(t) && c < Columns(t) && s != SendingCells
    ensures DeltasTail(t, c, s, row, factor, previous) == DeltasTail(t, c, s, 0, factor, 0.0)
  {
    hide ValueAt, DeltaStart, DeltaCells;
  }

  lemma QuasiStep(t: Table, c: nat, row: nat, period: real, previous: real, shift: nat)
    requires Filled(t) && c < Columns(t) && row < Rows(t)
    ensures var v := ValueAt(t, row, c);
            if OnTime(period, previous, v) then
              QuasiTail(t, c, SendingCells, row, period, previous, shift) ==
                QuasiTail(t, c, SendingCells, row + 1, period, v, shift + 1)
            else
              && QuasiTail(t, c, SendingCells, row, period, previous, shift) ==
                   [Int(shift)] + QuasiTail(t, c, ShiftSent, row, period, previous, shift)
              && QuasiTail(t, c, ShiftSent, row, period, previous, shift) ==
                   [Num(v - (previous + period))] + QuasiTail(t, c, SendingCells, row + 1, period, v, 0)
  {
    hide ValueAt, OnTime;
    var v := ValueAt(t, row, c);
    var more := QuasiCells(t, c, row + 1, period, v, 0);
    var x := v - (previous + period);
    assert [Int(shift), Num(x)] + more + [Close, Close] == [Int(shift)] + ([Num(x)] + more + [Close, Close]);
    assert [Num(x)] + more + [Close, Close] == [Num(x)] + (more + [Close, Close]);
  }

  lemma QuasiEdges(t: Table, c: nat, period: real, previous: real, shift: nat)
    requires Filled(t) && c < Columns(t)
    ensures var tail := (s: Stage) => QuasiTail(t, c, s, 0, period, previous, shift);
            && tail(MapLabelSent) == [Object(QuasiPeriodicVector)] + tail(ObjectDefined)
            && tail(ObjectDefined) == [Num(period)] + tail(FactorSent)
            && tail(FactorSent) == [Num(ValueAt(t, 0, c))] + tail(StartValueSent)
            && tail(StartValueSent) == [OpenList(-1)] + QuasiTail(t, c, SendingCells, 1, period, ValueAt(t, 0, c), 0)
            && tail(ContentSent) == [Int(shift)] + tail(LastShiftSent)
            && tail(LastShiftSent) == [Close] + tail(InnerListClosed) && tail(InnerListClosed) == [Close]
    ensures QuasiTail(t, c, SendingCells, Rows(t), period, previous, shift) == QuasiTail(t, c, ContentSent, 0, period, previous, shift)
  {
    hide ValueAt;
  }

  lemma QuasiAnywhere(t: Table, c: nat, s: Stage, period: real, row: nat, previous: real, shift: nat)
    requires Filled(t) && c < Columns(t) && s != SendingCells && s != ShiftSent
    ensures QuasiTail(t, c, s, row, period, previous, shift) ==
      QuasiTail(t, c, s, 0, period, 0.0, if s == ContentSent then shift else 0)
  {
    hide ValueAt, QuasiCells;
  }

  /** How many of the first m answers accept. */
  function Accepted(answers: nat -> int, m: nat): (n: nat)
    ensures n <= m
  {
    if m == 0 then 0 else Accepted(answers, m - 1) + if answers(m - 1) == BSS_EOK then 1 else 0
  }

  class TableWriter {
    const t: Table
    /** The status of every call the serializer will try: zero, or a refusal. */
    const answers: nat -> int
    var attempts: nat
    ghost var refusals: nat
    /** The calls that succeeded. */
    var log: seq<Call>
    var stage: Stage
    var col: nat
    var nread: nat
    var previous: real
    var shift: nat

    constructor (t: Table, answers: nat -> int)
      requires Filled(t)
      ensures this.t == t && this.answers == answers && Valid() && Tally() && log == [] && refusals == 0 && stage == Initialized
    {
      this.t := t;
      this.answers := answers;
      attempts, refusals, log, stage, col, nread, previous, shift := 0, 0, [], Initialized, 0, 0, 0.0, 0;
    }

    ghost function Row(): nat
      requires Filled(t)
      reads this`nread
    {
      if nread == 0 then 0 else RowIn(t, nread - 1)
    }

    /** Where a column can be taken up again: the cell at hand is in the column. */
    ghost predicate ColumnReady()
      requires Filled(t)
      reads this`stage, this`col, this`nread, this`previous
    {
      && col < Columns(t) && StageFits(t.methods[col], stage)
      && (stage == MapLabelSent || stage == ObjectDefined ==> nread == 0)
      && (CellStage(stage) ==>
           && 0 < nread <= CellCount(t) && InColumn(t, nread - 1, col) && Row() < Rows(t)
           && AtRow(t, col, stage, Row(), previous))
    }

    ghost function ColumnRest(): seq<Call>
      requires Filled(t) && col < Columns(t)
      reads this`stage, this`col, this`nread, this`previous, this`shift
    {
      ColumnTail(t, col, stage, Row(), previous, shift)
    }

    /** All the calls left. */
    ghost function Rest(): seq<Call>
      requires Filled(t) && (ColumnStage(stage) ==> col < Columns(t))
      reads this`stage, this`col, this`nread, this`previous, this`shift
    {
      match stage
      case Initialized => TableCalls(t)
      case MapOpened => ColumnsFrom(t, 0) + [Close]
      case ColumnClosed => ColumnsFrom(t, col) + [Close]
      case AllColumnsSent => [Close]
      case MapClosed => []
      case _ => ColumnRest() + ColumnsFrom(t, col + 1) + [Close]
    }

    /** Whatever was refused so far, the calls made and the calls left are those of
        the table, each once and in order. */
    ghost predicate Valid()
      reads this`stage, this`col, this`nread, this`previous, this`shift, this`log
    {
      && Filled(t)
      && (ColumnStage(stage) ==> ColumnReady())
      && (stage == ColumnClosed ==> col < Columns(t))
      && log + Rest() == TableCalls(t)
    }

    /** The calls tried are those made and those refused. */
    ghost predicate Tally()
      reads this`attempts, this`log, this`refusals
    {
      attempts == |log| + refusals && |log| == Accepted(answers, attempts)
    }

    /** One more refusal than n, and that was the last answer. */
    ghost predicate Refused(n: nat)
      reads this`attempts, this`refusals
    {
      refusals == n + 1 && attempts > 0 && answers(attempts - 1) != BSS_EOK
    }

    /** One call; on success the stage moves on. */
    method Try(c: Call, next: Stage) returns (r: int)
      requires Tally()
      modifies this`attempts, this`refusals, this`log, this`stage
      ensures r == BSS_EOK ==> log == old(log) + [c] && stage == next
      ensures r != BSS_EOK ==> log == old(log) && stage == old(stage)
      ensures Tally() && attempts >= old(attempts) && (r == BSS_EOK ==> refusals == old(refusals)) && (r != BSS_EOK ==> Refused(old(refusals)))
    {
      r := answers(attempts);
      attempts := attempts + 1;
      if r == BSS_EOK {
        log := log + [c];
        stage := next;
      } else {
        refusals := refusals + 1;
      }
    }
  
    /** Reads the next cell; tells whether it is in the column. */
    method ReadCell() returns (incolumn: bool)
      requires Filled(t) && col < Columns(t) && nread < CellCount(t)
      modifies this`nread
      ensures nread == old(nread) + 1
      ensures incolumn ==> InColumn(t, nread - 1, col) && Row() == NextRow(t, old(nread), col)
      ensures !incolumn ==> NextRow(t, nread, col) == NextRow(t, old(nread), col)
    {
      NextRowStep(t, nread, col);
      incolumn := InColumn(t, nread, col);
      nread := nread + 1;
    }

    lemma ReadyBound()
      requires Filled(t) && ColumnReady() && CellStage(stage)
      ensures 0 < nread <= CellCount(t) && InColumn(t, nread - 1, col)
    {
    }

    /** The cell at hand. */
    lemma CellAtHand()
      requires Filled(t) && col < Columns(t) && 0 < nread <= CellCount(t) && InColumn(t, nread - 1, col)
      ensures nread - 1 < |t.cells| && Row() < Rows(t) && t.cells[nread - 1] == CellAt(t, Row(), col)
      ensures NextRow(t, nread, col) == Row() + 1
    {
      hide Tally, InColumn, RowIn, CellCount, NextRow, CellAt;
      NextRowStep(t, nread - 1, col);
      CellIs(t, nread - 1, col);
    }

    method SerializeList() returns (r: int)
      requires Filled(t) && ColumnReady() && t.methods[col].ListOf?
      requires Tally()
      modifies this`attempts, this`refusals, this`log, this`stage, this`nread
      ensures r == BSS_EOK ==> stage == ColumnClosed && log == old(log + ColumnRest())
      ensures r != BSS_EOK ==> ColumnReady() && log + ColumnRest() == old(log + ColumnRest())
      ensures old(stage) == ContentSent ==> r == BSS_EINTERNAL && log == old(log) && refusals == old(refusals) && stage == ContentSent
      ensures Tally() && attempts >= old(attempts) && (r == BSS_EOK ==> refusals == old(refusals)) && (old(stage) != ContentSent && r != BSS_EOK ==> Refused(old(refusals)))
    {
      hide Tally, ListTail, NextRow, CellAt, Rows, InColumn, RowIn, CellCount;
      ghost var goal := log + ColumnRest();
      ListEdges(t, col);
      NextRowEnds(t, col);
      var resumed := false;
      if stage == MapLabelSent {
        Moved(log, OpenList(Rows(t)), ListTail(t, col, SendingCells, 0));
        r := Try(OpenList(Rows(t)), SendingCells);
        if r != BSS_EOK { return; }
      } else if stage == SendingCells {
        resumed := true;
      } else {
        return BSS_EINTERNAL;
      }
      r := ListLoop(resumed, goal);
      if r != BSS_EOK { return; }
      stage := ContentSent;
      ContentList();
      r := Try(Close, ColumnClosed);
    }

    /** The loop over the cells, entered at its top or at a cell already read. */
    method ListLoop(again: bool, ghost goal: seq<Call>) returns (r: int)
      requires Filled(t) && col < Columns(t) && t.methods[col].ListOf? && stage == SendingCells
      requires if again then ColumnReady() && goal == log + ColumnRest()
        else nread == 0 && goal == log + ListTail(t, col, SendingCells, 0)
      requires Tally()
      modifies this`attempts, this`refusals, this`log, this`stage, this`nread
      ensures r == BSS_EOK ==> stage == SendingCells && log + [Close] == goal
      ensures r != BSS_EOK ==> ColumnReady() && log + ColumnRest() == goal
      ensures Tally() && attempts >= old(attempts) && (r == BSS_EOK ==> refusals == old(refusals)) && (r != BSS_EOK ==> Refused(old(refusals)))
    {
      hide Tally, ListTail, NextRow, CellAt, Rows, InColumn, RowIn, CellCount;
      ListEdges(t, col);
      NextRowEnds(t, col);
      var total := CellCount(t);
      if again { ReadyBound(); }
      var resumed := again;
      while resumed || nread < total
        invariant stage == SendingCells && nread <= total && Tally() && attempts >= old(attempts) && refusals == old(refusals)
        invariant resumed ==> 0 < nread && InColumn(t, nread - 1, col)
        invariant log + ListTail(t, col, SendingCells, if resumed then Row() else NextRow(t, nread, col)) == goal
        decreases total - nread, resumed
      {
        var incolumn := true;
        if !resumed { incolumn := ReadCell(); }
        resumed := false;
        if incolumn {
          CellAtHand();
          ListStep(t, col, Row());
          Moved(log, Raw(t.cells[nread - 1]), ListTail(t, col, SendingCells, Row() + 1));
          r := Try(Raw(t.cells[nread - 1]), SendingCells);
          if r != BSS_EOK { return; }
        }
      }
      r := BSS_EOK;
    }

    lemma ContentList()
      requires Filled(t) && col < Columns(t) && stage == ContentSent && t.methods[col].ListOf?
      ensures ColumnRest() == [Close]
    {
    }
  
    /** The number in the cell at hand. */
    method ValueAtHand() returns (ok: bool, v: real)
      requires Filled(t) && col < Columns(t) && 0 < nread <= CellCount(t) && InColumn(t, nread - 1, col)
      ensures Row() < Rows(t) && (ok ==> v == ValueAt(t, Row(), col))
      ensures SoundColumn(t, col) && !t.methods[col].ListOf? ==> ok
    {
      CellAtHand();
      var cell := t.cells[nread - 1];
      if cell.Number? { return true, cell.v; }
      return false, 0.0;
    }

    /** Sends what the cell at hand stands for in a deltas vector. */
    method SendDelta(factor: Factor) returns (r: int)
      requires Filled(t) && ColumnReady() && CellStage(stage) && t.methods[col] == Deltas(factor)
      requires Tally()
      modifies this`attempts, this`refusals, this`log, this`stage, this`previous
      ensures r == BSS_EOK ==>
        && stage == SendingCells
        && log + DeltasTail(t, col, SendingCells, Row() + 1, factor, previous) == old(log + ColumnRest())
      ensures r != BSS_EOK ==> ColumnReady() && log + ColumnRest() == old(log + ColumnRest())
      ensures Tally() && attempts >= old(attempts) && (r == BSS_EOK ==> refusals == old(refusals)) && (SoundColumn(t, col) && r != BSS_EOK ==> Refused(old(refusals)))
    {
      hide Tally, SoundColumn, DeltasTail, DeltaStart, Rows, ValueAt, Delta, Tolerance, DeltaInteger, InColumn,
        RowIn, CellCount, NextRow;
      ghost var row := Row();
      var ok, v := ValueAtHand();
      if !ok { return BSS_EINVALID; }
      if stage == SendingCells {
        DeltaStep(t, col, row, factor, previous);
        var d := DeltaInteger((v - previous) / factor, Tolerance(v));
        assert d == Delta(factor, previous, v) by { DeltaIs(factor, previous, v); }
        Moved(log, Int(d), DeltasTail(t, col, SendingCells, row + 1, factor, if d != 0 then v else previous));
        r := Try(Int(d), SendingCells);
        if r != BSS_EOK { return; }
        if d != 0 { previous := v; }
      } else {
        r := SendDeltaStart(factor, v);
      }
    }

    /** Sends the first value, and opens the list of differences. */
    method SendDeltaStart(factor: Factor, v: real) returns (r: int)
      requires Filled(t) && ColumnReady() && t.methods[col] == Deltas(factor)
      requires (stage == FactorSent || stage == StartValueSent) && v == ValueAt(t, 0, col)
      requires Tally()
      modifies this`attempts, this`refusals, this`log, this`stage, this`previous
      ensures r == BSS_EOK ==>
        && stage == SendingCells
        && log + DeltasTail(t, col, SendingCells, Row() + 1, factor, previous) == old(log + ColumnRest())
      ensures r != BSS_EOK ==> ColumnReady() && log + ColumnRest() == old(log + ColumnRest())
      ensures Tally() && attempts >= old(attempts) && (r == BSS_EOK ==> refusals == old(refusals)) && (r != BSS_EOK ==> Refused(old(refusals)))
    {
      hide Tally, DeltasTail, DeltaStart, Rows, ValueAt, Tolerance, DeltaInteger, InColumn, RowIn, CellCount, NextRow;
      ghost var row := Row();
      DeltasEdges(t, col, factor, previous);
      DeltasAnywhere(t, col, FactorSent, factor, row, previous);
      DeltasAnywhere(t, col, StartValueSent, factor, row, previous);
      if stage == FactorSent {
        var start := DeltaInteger(v / factor, Tolerance(v));
        assert start == DeltaStart(t, col, factor) by { StartIs(t, col, factor); }
        Moved(log, Int(start), DeltasTail(t, col, StartValueSent, 0, factor, previous));
        r := Try(Int(start), StartValueSent);
        if r != BSS_EOK { return; }
        previous := v;
        DeltasAnywhere(t, col, StartValueSent, factor, row, previous);
      }
      Moved(log, OpenList(Rows(t) - 1), DeltasTail(t, col, SendingCells, 1, factor, v));
      r := Try(OpenList(Rows(t) - 1), SendingCells);
    }

    lemma DeltaIs(factor: Factor, previous: real, v: real)
      ensures Delta(factor, previous, v) == DeltaInteger((v - previous) / factor, Tolerance(v))
    {
    }

    lemma StartIs(t: Table, c: nat, factor: Factor)
      requires Filled(t) && c < Columns(t)
      ensures DeltaStart(t, c, factor) == DeltaInteger(ValueAt(t, 0, c) / factor, Tolerance(ValueAt(t, 0, c)))
    {
    }
  
    method SerializeDeltas(factor: Factor) returns (r: int)
      requires Filled(t) && ColumnReady() && t.methods[col] == Deltas(factor)
      requires Tally()
      modifies this`attempts, this`refusals, this`log, this`stage, this`nread, this`previous
      ensures r == BSS_EOK ==> stage == ColumnClosed && log == old(log + ColumnRest())
      ensures r != BSS_EOK ==> ColumnReady() && log + ColumnRest() == old(log + ColumnRest())
      ensures Tally() && attempts >= old(attempts) && (r == BSS_EOK ==> refusals == old(refusals)) && (SoundColumn(t, col) && r != BSS_EOK ==> Refused(old(refusals)))
    {
      hide Tally, SoundColumn, DeltasTail, NextRow, CellAt, Rows, ValueAt, InColumn, RowIn, CellCount;
      ghost var goal := log + ColumnRest();
      NextRowEnds(t, col);
      DeltasEdges(t, col, factor, previous);
      var resumed := CellStage(stage);
      var cells := resumed || stage == MapLabelSent || stage == ObjectDefined;
      if stage == MapLabelSent || stage == ObjectDefined {
        r := OpenDeltas(factor, goal);
        if r != BSS_EOK { return; }
      }
      if cells {
        r := DeltasLoop(factor, resumed, goal);
        if r != BSS_EOK { return; }
        stage := ContentSent;
        DeltasAnywhere(t, col, ContentSent, factor, Row(), previous);
        DeltasEdges(t, col, factor, 0.0);
        assert [Close] + [Close] == [Close, Close];
      }
      r := CloseDeltas(factor, goal);
    }

    /** The opening calls of a deltas vector. */
    method OpenDeltas(factor: Factor, ghost goal: seq<Call>) returns (r: int)
      requires Filled(t) && ColumnReady() && t.methods[col] == Deltas(factor) && goal == log + ColumnRest()
      requires stage == MapLabelSent || stage == ObjectDefined
      requires Tally()
      modifies this`attempts, this`refusals, this`log, this`stage
      ensures r == BSS_EOK ==> stage == FactorSent && goal == log + DeltasTail(t, col, FactorSent, 0, factor, previous)
      ensures r != BSS_EOK ==> ColumnReady() && log + ColumnRest() == goal
      ensures Tally() && attempts >= old(attempts) && (r == BSS_EOK ==> refusals == old(refusals)) && (r != BSS_EOK ==> Refused(old(refusals)))
    {
      hide Tally, DeltasTail, Rows, ValueAt, InColumn, RowIn, CellCount, NextRow;
      DeltasEdges(t, col, factor, previous);
      if stage == MapLabelSent {
        Moved(log, Object(DeltasVector), DeltasTail(t, col, ObjectDefined, 0, factor, previous));
        r := Try(Object(DeltasVector), ObjectDefined);
        if r != BSS_EOK { return; }
      }
      Moved(log, Num(factor), DeltasTail(t, col, FactorSent, 0, factor, previous));
      r := Try(Num(factor), FactorSent);
    }

    /** The closing calls of a deltas vector. */
    method CloseDeltas(factor: Factor, ghost goal: seq<Call>) returns (r: int)
      requires Filled(t) && ColumnReady() && t.methods[col] == Deltas(factor) && goal == log + ColumnRest()
      requires stage == ContentSent || stage == InnerListClosed
      requires Tally()
      modifies this`attempts, this`refusals, this`log, this`stage
      ensures r == BSS_EOK ==> stage == ColumnClosed && log == goal
      ensures r != BSS_EOK ==> ColumnReady() && log + ColumnRest() == goal
      ensures Tally() && attempts >= old(attempts) && (r == BSS_EOK ==> refusals == old(refusals)) && (r != BSS_EOK ==> Refused(old(refusals)))
    {
      hide Tally, SoundColumn, DeltasTail, Rows, ValueAt, InColumn, RowIn, CellCount, NextRow;
      DeltasEdges(t, col, factor, 0.0);
      DeltasAnywhere(t, col, ContentSent, factor, Row(), previous);
      DeltasAnywhere(t, col, InnerListClosed, factor, Row(), previous);
      if stage == ContentSent {
        Moved(log, Close, [Close]);
        r := Try(Close, InnerListClosed);
        if r != BSS_EOK { return; }
      }
      r := Try(Close, ColumnClosed);
    }

    /** A cell of the column just read, or taken up again, is ready to be sent. */
    lemma DeltasAtHand(factor: Factor)
      requires Filled(t) && col < Columns(t) && t.methods[col] == Deltas(factor)
      requires (ColumnReady() && CellStage(stage))
        || (0 < nread <= CellCount(t) && InColumn(t, nread - 1, col)
            && ((stage == FactorSent && Row() == 0) || (stage == SendingCells && Row() > 0)))
      ensures ColumnReady() && CellStage(stage) && NextRow(t, nread, col) == Row() + 1
      ensures ColumnRest() == DeltasTail(t, col, stage, Row(), factor, previous)
    {
      hide Tally, DeltasTail, InColumn, RowIn, CellCount, NextRow, ValueAt, Rows;
      CellAtHand();
    }

    /** The loop over the cells, entered at its top or at a cell already read. */
    method DeltasLoop(factor: Factor, again: bool, ghost goal: seq<Call>) returns (r: int)
      requires Filled(t) && col < Columns(t) && t.methods[col] == Deltas(factor)
      requires if again then ColumnReady() && CellStage(stage) && goal == log + ColumnRest()
        else stage == FactorSent && nread == 0 && goal == log + DeltasTail(t, col, FactorSent, 0, factor, previous)
      requires Tally()
      modifies this`attempts, this`refusals, this`log, this`stage, this`nread, this`previous
      ensures r == BSS_EOK ==> log + [Close, Close] == goal
      ensures r != BSS_EOK ==> ColumnReady() && log + ColumnRest() == goal
      ensures Tally() && attempts >= old(attempts) && (r == BSS_EOK ==> refusals == old(refusals)) && (SoundColumn(t, col) && r != BSS_EOK ==> Refused(old(refusals)))
    {
      hide Tally, SoundColumn, DeltasTail, NextRow, CellAt, Rows, ValueAt, ColumnReady, ColumnRest, AtRow,
        InColumn, RowIn, CellCount;
      NextRowEnds(t, col);
      var total := CellCount(t);
      if again { ReadyBound(); }
      var resumed := again;
      while resumed || nread < total
        invariant nread <= total && (resumed ==> ColumnReady() && CellStage(stage) && goal == log + ColumnRest())
        invariant Tally() && attempts >= old(attempts) && refusals == old(refusals)
        invariant !resumed ==> stage == FactorSent || stage == SendingCells
        invariant !resumed && stage == FactorSent ==>
          NextRow(t, nread, col) == 0 && goal == log + DeltasTail(t, col, FactorSent, 0, factor, previous)
        invariant !resumed && stage == SendingCells ==>
          && NextRow(t, nread, col) > 0
          && goal == log + DeltasTail(t, col, SendingCells, NextRow(t, nread, col), factor, previous)
        decreases total - nread, resumed
      {
        var incolumn := true;
        if !resumed { incolumn := ReadCell(); }
        resumed := false;
        if incolumn {
          DeltasAtHand(factor);
          r := SendDelta(factor);
          if r != BSS_EOK { return; }
        }
      }
      DeltasEdges(t, col, factor, previous);
      r := BSS_EOK;
    }
  
    /** Sends the first value, and opens the list of counts and shifts. */
    method SendStart(period: real, v: real) returns (r: int)
      requires Filled(t) && ColumnReady() && t.methods[col] == Quasi(period)
      requires (stage == FactorSent || stage == StartValueSent) && v == ValueAt(t, 0, col)
      requires Tally()
      modifies this`attempts, this`refusals, this`log, this`stage
      ensures r == BSS_EOK ==>
        stage == SendingCells && log + QuasiTail(t, col, SendingCells, 1, period, v, 0) == old(log + ColumnRest())
      ensures r != BSS_EOK ==> ColumnReady() && CellStage(stage) && log + ColumnRest() == old(log + ColumnRest())
      ensures Tally() && attempts >= old(attempts) && (r == BSS_EOK ==> refusals == old(refusals)) && (r != BSS_EOK ==> Refused(old(refusals)))
    {
      hide Tally, QuasiTail, Rows, ValueAt, InColumn, RowIn, CellCount, NextRow;
      ghost var row := Row();
      QuasiEdges(t, col, period, previous, shift);
      QuasiAnywhere(t, col, FactorSent, period, row, previous, shift);
      QuasiAnywhere(t, col, StartValueSent, period, row, previous, shift);
      if stage == FactorSent {
        Moved(log, Num(v), QuasiTail(t, col, StartValueSent, 0, period, previous, shift));
        r := Try(Num(v), StartValueSent);
        if r != BSS_EOK { return; }
      }
      Moved(log, OpenList(-1), QuasiTail(t, col, SendingCells, 1, period, v, 0));
      r := Try(OpenList(-1), SendingCells);
    }

    /** Sends the count so far, unless that has been sent, and a shift. */
    method SendShift(period: real, v: real) returns (r: int)
      requires Filled(t) && ColumnReady() && t.methods[col] == Quasi(period)
      requires stage == SendingCells || stage == ShiftSent
      requires Row() < Rows(t) && v == ValueAt(t, Row(), col) && !OnTime(period, previous, v)
      requires Tally()
      modifies this`attempts, this`refusals, this`log, this`stage
      ensures r == BSS_EOK ==>
        stage == SendingCells && log + QuasiTail(t, col, SendingCells, Row() + 1, period, v, 0) == old(log + ColumnRest())
      ensures r != BSS_EOK ==> ColumnReady() && CellStage(stage) && log + ColumnRest() == old(log + ColumnRest())
      ensures Tally() && attempts >= old(attempts) && (r == BSS_EOK ==> refusals == old(refusals)) && (r != BSS_EOK ==> Refused(old(refusals)))
    {
      hide Tally, QuasiTail, Rows, ValueAt, OnTime, InColumn, RowIn, CellCount, NextRow;
      ghost var row := Row();
      QuasiStep(t, col, row, period, previous, shift);
      var x := v - (previous + period);
      if stage == SendingCells {
        Moved(log, Int(shift), QuasiTail(t, col, ShiftSent, row, period, previous, shift));
        r := Try(Int(shift), ShiftSent);
        if r != BSS_EOK { return; }
      }
      Moved(log, Num(x), QuasiTail(t, col, SendingCells, row + 1, period, v, 0));
      r := Try(Num(x), SendingCells);
    }

    /** Sends what the cell at hand stands for in a quasi-periodic vector. */
    method SendQuasi(period: real) returns (r: int)
      requires Filled(t) && ColumnReady() && CellStage(stage) && t.methods[col] == Quasi(period)
      requires Tally()
      modifies this`attempts, this`refusals, this`log, this`stage, this`previous, this`shift
      ensures r == BSS_EOK ==>
        && stage == SendingCells
        && log + QuasiTail(t, col, SendingCells, Row() + 1, period, previous, shift) == old(log + ColumnRest())
      ensures r != BSS_EOK ==> ColumnReady() && log + ColumnRest() == old(log + ColumnRest())
      ensures Tally() && attempts >= old(attempts) && (r == BSS_EOK ==> refusals == old(refusals)) && (SoundColumn(t, col) && r != BSS_EOK ==> Refused(old(refusals)))
    {
      hide Tally, SoundColumn, QuasiTail, Rows, ValueAt, Tolerance, Abs, InColumn, RowIn, CellCount, NextRow;
      var ok, v := ValueAtHand();
      if !ok { return BSS_EINVALID; }
      if stage == FactorSent || stage == StartValueSent {
        r := SendStart(period, v);
        if r != BSS_EOK { return; }
        shift := 0;
      } else {
        var x := v - (previous + period);
        if Abs(x) <= Tolerance(v) {
          QuasiStep(t, col, Row(), period, previous, shift);
          shift := shift + 1;
        } else {
          r := SendShift(period, v);
          if r != BSS_EOK { return; }
          shift := 0;
        }
      }
      previous := v;
      r := BSS_EOK;
    }

    lemma QuasiAtHand(period: real)
      requires Filled(t) && col < Columns(t) && t.methods[col] == Quasi(period)
      requires (ColumnReady() && CellStage(stage))
        || (0 < nread <= CellCount(t) && InColumn(t, nread - 1, col)
            && ((stage == FactorSent && Row() == 0) || (stage == SendingCells && Row() > 0)))
      ensures ColumnReady() && CellStage(stage) && NextRow(t, nread, col) == Row() + 1
      ensures ColumnRest() == QuasiTail(t, col, stage, Row(), period, previous, shift)
    {
      hide Tally, QuasiTail, InColumn, RowIn, CellCount, NextRow, ValueAt, Rows;
      CellAtHand();
    }

    /** The loop over the cells, entered at its top or at a cell already read. */
    method QuasiLoop(period: real, again: bool, ghost goal: seq<Call>) returns (r: int)
      requires Filled(t) && col < Columns(t) && t.methods[col] == Quasi(period)
      requires if again then ColumnReady() && CellStage(stage) && goal == log + ColumnRest()
        else stage == FactorSent && nread == 0 && goal == log + QuasiTail(t, col, FactorSent, 0, period, previous, shift)
      requires Tally()
      modifies this`attempts, this`refusals, this`log, this`stage, this`nread, this`previous, this`shift
      ensures r == BSS_EOK ==> log + QuasiTail(t, col, ContentSent, 0, period, previous, shift) == goal
      ensures r != BSS_EOK ==> ColumnReady() && log + ColumnRest() == goal
      ensures Tally() && attempts >= old(attempts) && (r == BSS_EOK ==> refusals == old(refusals)) && (SoundColumn(t, col) && r != BSS_EOK ==> Refused(old(refusals)))
    {
      hide Tally, SoundColumn, QuasiTail, NextRow, CellAt, Rows, ValueAt, ColumnReady, ColumnRest, AtRow,
        InColumn, RowIn, CellCount;
      NextRowEnds(t, col);
      var total := CellCount(t);
      if again { ReadyBound(); }
      var resumed := again;
      while resumed || nread < total
        invariant nread <= total && (resumed ==> ColumnReady() && CellStage(stage) && goal == log + ColumnRest())
        invariant Tally() && attempts >= old(attempts) && refusals == old(refusals)
        invariant !resumed ==> stage == FactorSent || stage == SendingCells
        invariant !resumed && stage == FactorSent ==>
          NextRow(t, nread, col) == 0 && goal == log + QuasiTail(t, col, FactorSent, 0, period, previous, shift)
        invariant !resumed && stage == SendingCells ==>
          && NextRow(t, nread, col) > 0
          && goal == log + QuasiTail(t, col, SendingCells, NextRow(t, nread, col), period, previous, shift)
        decreases total - nread, resumed
      {
        var incolumn := true;
        if !resumed { incolumn := ReadCell(); }
        resumed := false;
        if incolumn {
          QuasiAtHand(period);
          r := SendQuasi(period);
          if r != BSS_EOK { return; }
        }
      }
      QuasiEdges(t, col, period, previous, shift);
      r := BSS_EOK;
    }

    /** The opening calls of a quasi-periodic vector. */
    method OpenQuasi(period: real, ghost goal: seq<Call>) returns (r: int)
      requires Filled(t) && ColumnReady() && t.methods[col] == Quasi(period) && goal == log + ColumnRest()
      requires stage == MapLabelSent || stage == ObjectDefined
      requires Tally()
      modifies this`attempts, this`refusals, this`log, this`stage
      ensures r == BSS_EOK ==> stage == FactorSent && goal == log + QuasiTail(t, col, FactorSent, 0, period, previous, shift)
      ensures r != BSS_EOK ==> ColumnReady() && log + ColumnRest() == goal
      ensures Tally() && attempts >= old(attempts) && (r == BSS_EOK ==> refusals == old(refusals)) && (r != BSS_EOK ==> Refused(old(refusals)))
    {
      hide Tally, QuasiTail, Rows, ValueAt, InColumn, RowIn, CellCount, NextRow;
      QuasiEdges(t, col, period, previous, shift);
      if stage == MapLabelSent {
        Moved(log, Object(QuasiPeriodicVector), QuasiTail(t, col, ObjectDefined, 0, period, previous, shift));
        r := Try(Object(QuasiPeriodicVector), ObjectDefined);
        if r != BSS_EOK { return; }
      }
      Moved(log, Num(period), QuasiTail(t, col, FactorSent, 0, period, previous, shift));
      r := Try(Num(period), FactorSent);
    }

    /** The last count. */
    method SendLastCount(period: real, ghost goal: seq<Call>) returns (r: int)
      requires Filled(t) && ColumnReady() && t.methods[col] == Quasi(period) && goal == log + ColumnRest()
      requires stage == ContentSent
      requires Tally()
      modifies this`attempts, this`refusals, this`log, this`stage
      ensures r == BSS_EOK ==> stage == LastShiftSent
      ensures ColumnReady() && log + ColumnRest() == goal
      ensures Tally() && attempts >= old(attempts) && (r == BSS_EOK ==> refusals == old(refusals)) && (r != BSS_EOK ==> Refused(old(refusals)))
    {
      hide Tally, QuasiTail, Rows, ValueAt, InColumn, RowIn, CellCount, NextRow;
      QuasiEdges(t, col, period, 0.0, shift);
      QuasiAnywhere(t, col, ContentSent, period, Row(), previous, shift);
      QuasiAnywhere(t, col, LastShiftSent, period, Row(), previous, shift);
      QuasiAnywhere(t, col, LastShiftSent, period, 0, 0.0, shift);
      Moved(log, Int(shift), QuasiTail(t, col, LastShiftSent, 0, period, 0.0, shift));
      r := Try(Int(shift), LastShiftSent);
    }

    /** The last count and the closing calls. */
    method CloseQuasi(period: real, ghost goal: seq<Call>) returns (r: int)
      requires Filled(t) && ColumnReady() && t.methods[col] == Quasi(period) && goal == log + ColumnRest()
      requires stage == ContentSent || stage == LastShiftSent || stage == InnerListClosed
      requires Tally()
      modifies this`attempts, this`refusals, this`log, this`stage
      ensures r == BSS_EOK ==> stage == ColumnClosed && log == goal
      ensures r != BSS_EOK ==> ColumnReady() && log + ColumnRest() == goal
      ensures Tally() && attempts >= old(attempts) && (r == BSS_EOK ==> refusals == old(refusals)) && (r != BSS_EOK ==> Refused(old(refusals)))
    {
      hide Tally, QuasiTail, Rows, ValueAt, InColumn, RowIn, CellCount, NextRow;
      if stage == ContentSent {
        r := SendLastCount(period, goal);
        if r != BSS_EOK { return; }
      }
      QuasiEdges(t, col, period, 0.0, 0);
      QuasiAnywhere(t, col, LastShiftSent, period, Row(), previous, shift);
      QuasiAnywhere(t, col, InnerListClosed, period, Row(), previous, shift);
      if stage == LastShiftSent {
        Moved(log, Close, [Close]);
        r := Try(Close, InnerListClosed);
        if r != BSS_EOK { return; }
      }
      r := Try(Close, ColumnClosed);
    }

    method SerializeQuasi(period: real) returns (r: int)
      requires Filled(t) && ColumnReady() && t.methods[col] == Quasi(period)
      requires Tally()
      modifies this`attempts, this`refusals, this`log, this`stage, this`nread, this`previous, this`shift
      ensures r == BSS_EOK ==> stage == ColumnClosed && log == old(log + ColumnRest())
      ensures r != BSS_EOK ==> ColumnReady() && log + ColumnRest() == old(log + ColumnRest())
      ensures Tally() && attempts >= old(attempts) && (r == BSS_EOK ==> refusals == old(refusals)) && (SoundColumn(t, col) && r != BSS_EOK ==> Refused(old(refusals)))
    {
      hide Tally, SoundColumn, QuasiTail, NextRow, CellAt, Rows, ValueAt, InColumn, RowIn, CellCount;
      ghost var goal := log + ColumnRest();
      NextRowEnds(t, col);
      QuasiEdges(t, col, period, previous, shift);
      var resumed := CellStage(stage);
      var cells := resumed || stage == MapLabelSent || stage == ObjectDefined;
      if stage == MapLabelSent || stage == ObjectDefined {
        r := OpenQuasi(period, goal);
        if r != BSS_EOK { return; }
      }
      if cells {
        r := QuasiLoop(period, resumed, goal);
        if r != BSS_EOK { return; }
        stage := ContentSent;
        QuasiAnywhere(t, col, ContentSent, period, Row(), previous, shift);
        QuasiAnywhere(t, col, ContentSent, period, 0, previous, shift);
      }
      r := CloseQuasi(period, goal);
    }
  
    // ----- the table

    /** The column at hand, by its method. */
    method SerializeColumn() returns (r: int)
      requires Filled(t) && ColumnReady()
      requires Tally()
      modifies this`attempts, this`refusals, this`log, this`stage, this`nread, this`previous, this`shift
      ensures r == BSS_EOK ==> stage == ColumnClosed && log == old(log + ColumnRest())
      ensures r != BSS_EOK ==> ColumnReady() && log + ColumnRest() == old(log + ColumnRest())
      ensures old(Stuck()) ==> r == BSS_EINTERNAL && log == old(log) && refusals == old(refusals) && Stuck()
      ensures Tally() && attempts >= old(attempts) && (r == BSS_EOK ==> refusals == old(refusals)) && (SoundColumn(t, col) && !old(Stuck()) && r != BSS_EOK ==> Refused(old(refusals)))
    {
      hide Tally, ColumnTail, InColumn, RowIn, CellCount, NextRow;
      match t.methods[col]
      case ListOf => r := SerializeList();
      case Deltas(factor) => r := SerializeDeltas(factor);
      case Quasi(period) => r := SerializeQuasi(period);
      case Unsupported => r := BSS_EINVALID;
    }

    /** The closing of a list was refused: the list serializer cannot be taken up there. */
    ghost predicate Stuck()
      reads this`stage, this`col
    {
      stage == ContentSent && col < |t.methods| && t.methods[col].ListOf?
    }

    lemma RestOpened()
      requires Filled(t) && stage == MapOpened
      ensures Rest() == ColumnsFrom(t, 0) + [Close]
    {
      hide Tally, ColumnsFrom, ColumnTail;
    }

    lemma NotClosed()
      requires Filled(t) && AtColumn()
      ensures stage != MapClosed && stage != AllColumnsSent && stage != Initialized
      ensures ColumnStage(stage) ==> ColumnReady()
    {
      hide Tally, ColumnReady;
    }

    lemma RestEdges()
      requires Filled(t)
      ensures stage == Initialized ==> Rest() == [OpenMap] + (ColumnsFrom(t, 0) + [Close])
      ensures stage == AllColumnsSent ==> Rest() == [Close]
      ensures stage == MapClosed ==> Rest() == []
      ensures ColumnStage(stage) ==> stage != Initialized && stage != AllColumnsSent && stage != MapClosed
    {
      hide Tally, ColumnsFrom, ColumnTail;
    }

    /** One attempt at the whole table. It succeeds only once all the calls have been
        made; refused, it leaves exactly the calls not yet made. */
    method Serialize() returns (r: int)
      requires Valid()
      requires Tally()
      modifies this`attempts, this`refusals, this`log, this`stage, this`col, this`nread, this`previous, this`shift
      ensures Valid()
      ensures r == BSS_EOK <==> stage == MapClosed
      ensures r == BSS_EOK ==> log == TableCalls(t)
      ensures old(Stuck()) ==> r == BSS_EINTERNAL && log == old(log) && refusals == old(refusals) && Stuck()
      ensures Tally() && attempts >= old(attempts) && (r == BSS_EOK ==> refusals == old(refusals)) && (SoundTable(t) && !old(Stuck()) && r != BSS_EOK ==> Refused(old(refusals)))
    {
      hide Tally, SoundTable, ColumnsFrom, TableCalls, ColumnReady, Rest, ColumnStage;
      r := BSS_EOK;
      RestEdges();
      if stage == Initialized {
        Moved(log, OpenMap, ColumnsFrom(t, 0) + [Close]);
        r := Try(OpenMap, MapOpened);
        if r != BSS_EOK { return; }
        RestOpened();
      }
      if stage == MapOpened {
        RestOpened();
        col := 0;
        RestLabel();
      }
      if stage != AllColumnsSent && stage != MapClosed {
        StageKinds(stage);
        if ColumnStage(stage) { ReadyStage(); }
        r := SerializeColumns();
        if r != BSS_EOK { NotClosed(); return; }
        stage := AllColumnsSent;
        RestEdges();
      }
      if stage == AllColumnsSent {
        r := Try(Close, MapClosed);
        RestEdges();
      }
      assert log + [] == log;
    }

    /** At a label, or inside a column. */
    ghost predicate AtColumn()
      requires Filled(t)
      reads this`stage, this`col, this`nread, this`previous
    {
      && col < Columns(t)
      && (stage == ColumnClosed || (stage == MapOpened && col == 0) || (ColumnStage(stage) && ColumnReady()))
    }

    /** One column: its label, unless that has been sent, and its content. */
    method LabelAndColumn() returns (r: int)
      requires Filled(t) && AtColumn()
      requires Tally()
      modifies this`attempts, this`refusals, this`log, this`stage, this`nread, this`previous, this`shift
      ensures r == BSS_EOK ==> stage == ColumnClosed && log + (ColumnsFrom(t, col + 1) + [Close]) == old(log + Rest())
      ensures r != BSS_EOK ==> AtColumn() && log + Rest() == old(log + Rest())
      ensures old(Stuck()) ==> r == BSS_EINTERNAL && log == old(log) && refusals == old(refusals) && Stuck()
      ensures Tally() && attempts >= old(attempts) && (r == BSS_EOK ==> refusals == old(refusals)) && (SoundColumn(t, col) && !old(Stuck()) && r != BSS_EOK ==> Refused(old(refusals)))
    {
      hide Tally, SoundColumn, ColumnTail, ColumnCalls, ColumnsFrom, TableCalls, ColumnReady, Rest, ColumnRest, ColumnStage,
        InColumn, RowIn, CellCount, NextRow;
      ghost var more := ColumnsFrom(t, col + 1) + [Close];
      ghost var goal := log + Rest();
      StageKinds(stage);
      if stage == MapOpened || stage == ColumnClosed { RestLabel(); } else { RestSplit(); }
      if stage == MapOpened || stage == ColumnClosed {
        r := SendLabel(more);
        if r != BSS_EOK { RestLabel(); return; }
      }
      assert log + ColumnRest() + more == goal;
      r := SerializeColumn();
      if r != BSS_EOK {
        ReadyStage();
        RestSplit();
      }
    }

    method SendLabel(ghost more: seq<Call>) returns (r: int)
      requires Filled(t) && col < Columns(t) && (stage == MapOpened || stage == ColumnClosed)
      requires more == ColumnsFrom(t, col + 1) + [Close]
      requires Tally()
      modifies this`attempts, this`refusals, this`log, this`stage, this`nread
      ensures r == BSS_EOK ==>
        && stage == MapLabelSent && ColumnReady()
        && log + ColumnRest() + more == old(log) + (ColumnsFrom(t, col) + [Close])
      ensures r != BSS_EOK ==> stage == old(stage) && log == old(log)
      ensures Tally() && attempts >= old(attempts) && (r == BSS_EOK ==> refusals == old(refusals)) && (r != BSS_EOK ==> Refused(old(refusals)))
    {
      hide Tally, SoundColumn, ColumnTail, ColumnCalls, ColumnsFrom, ColumnReady, ColumnRest;
      ColumnStep(t, col, previous, shift);
      Moved(log, Label(col), ColumnTail(t, col, MapLabelSent, 0, previous, shift) + more);
      r := Try(Label(col), MapLabelSent);
      if r != BSS_EOK { return; }
      nread := 0;
      FreshColumn();
      Regroup(log, ColumnRest(), more);
    }

    /** Before a label, what is left is the columns from there. */
    lemma RestLabel()
      requires Filled(t) && (stage == ColumnClosed || (stage == MapOpened && col == 0))
      ensures Rest() == ColumnsFrom(t, col) + [Close]
    {
      hide Tally, ColumnTail, ColumnsFrom;
    }

    lemma FreshColumn()
      requires Filled(t) && col < Columns(t) && stage == MapLabelSent && nread == 0
      ensures ColumnReady() && ColumnStage(stage) && ColumnRest() == ColumnTail(t, col, MapLabelSent, 0, previous, shift)
    {
    }

    lemma ReadyStage()
      requires Filled(t) && ColumnReady()
      ensures ColumnStage(stage) && col < Columns(t)
    {
    }

    /** The loop over the columns, entered at a label or inside a column. */
    method SerializeColumns() returns (r: int)
      requires Filled(t) && AtColumn() && log + Rest() == TableCalls(t)
      requires Tally()
      modifies this`attempts, this`refusals, this`log, this`stage, this`col, this`nread, this`previous, this`shift
      ensures r == BSS_EOK ==> log + [Close] == TableCalls(t)
      ensures r != BSS_EOK ==> AtColumn() && log + Rest() == TableCalls(t)
      ensures old(Stuck()) ==> r == BSS_EINTERNAL && log == old(log) && refusals == old(refusals) && Stuck()
      ensures Tally() && attempts >= old(attempts) && (r == BSS_EOK ==> refusals == old(refusals)) && (SoundTable(t) && !old(Stuck()) && r != BSS_EOK ==> Refused(old(refusals)))
    {
      hide Tally, SoundColumn, ColumnsFrom, TableCalls, ColumnReady, ColumnTail, InColumn, RowIn, CellCount,
        NextRow;
      NoColumns(t);
      while col < Columns(t)
        invariant col <= Columns(t)
        invariant col < Columns(t) ==> AtColumn() && log + Rest() == TableCalls(t)
        invariant col == Columns(t) ==> log + [Close] == TableCalls(t)
        invariant old(Stuck()) ==> Stuck() && log == old(log) && refusals == old(refusals)
        invariant Tally() && attempts >= old(attempts) && refusals == old(refusals) && (!old(Stuck()) ==> !Stuck())
        decreases Columns(t) - col
      {
        r := LabelAndColumn();
        if r != BSS_EOK { return; }
        col := col + 1;
        assert [] + [Close] == [Close];
      }
      r := BSS_EOK;
    }

    /** In a column, what is left is the rest of it and the columns after. */
    lemma RestSplit()
      requires Filled(t) && col < Columns(t) && ColumnStage(stage)
      ensures log + Rest() == log + ColumnRest() + (ColumnsFrom(t, col + 1) + [Close])
    {
      hide Tally, ColumnTail, ColumnsFrom;
    }
  }

  lemma Regroup(a: seq<Call>, b: seq<Call>, c: seq<Call>)
    ensures a + (b + c) == a + b + c
  {
  }

  lemma NoColumns(t: Table)
    requires Filled(t)
    ensures ColumnsFrom(t, Columns(t)) == []
  {
  }

  lemma ColumnStep(t: Table, c: nat, previous: real, shift: nat)
    requires Filled(t) && c < Columns(t)
    ensures ColumnsFrom(t, c) + [Close] ==
      [Label(c)] + (ColumnTail(t, c, MapLabelSent, 0, previous, shift) + (ColumnsFrom(t, c + 1) + [Close]))
  {
    hide ListCells, DeltaCells, QuasiCells, ValueAt, DeltaStart;
    ColumnWhole(t, c, previous, shift);
    hide ColumnCalls, ColumnTail;
    var a, b := ColumnCalls(t, c), ColumnsFrom(t, c + 1);
    assert [Label(c)] + a + b + [Close] == [Label(c)] + (a + (b + [Close]));
  }

  lemma ColumnWhole(t: Table, c: nat, previous: real, shift: nat)
    requires Filled(t) && c < Columns(t)
    ensures ColumnTail(t, c, MapLabelSent, 0, previous, shift) == ColumnCalls(t, c)
  {
    hide ListCells, DeltaCells, QuasiCells, ValueAt, DeltaStart;
  }
}
