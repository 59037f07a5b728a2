/** Whole runs of the resumable table serializer: any number of attempts, whatever
    calls are refused (libs/bysant/sdb_serialize.c:41-81, 110-262 and 446-507). */
module SdbInterrupted {
  import opened SdbColumns
  import opened SdbSerializer

  // ----- the closing of a list, by its place among the calls

  /** Call number p closes the list of column c. */
  ghost predicate ClosesList(t: Table, p: nat, c: nat)
    requires Filled(t) && c < Columns(t)
  {
    t.methods[c].ListOf? && p + |ColumnsFrom(t, c + 1)| + 2 == |TableCalls(t)|
  }

  ghost predicate ListClosing(t: Table, p: nat)
    requires Filled(t)
  {
    exists c | 0 <= c < Columns(t) :: ClosesList(t, p, c)
  }

  /** No answer refuses the closing of a list; answer a is for the call whose number
      is how many were accepted before. */
  ghost predicate SparesClosings(t: Table, answers: nat -> int)
    requires Filled(t)
  {
    forall a: nat | answers(a) != BSS_EOK :: !ListClosing(t, Accepted(answers, a))
  }

  function Refusals(answers: nat -> int, m: nat): (n: nat)
    ensures n + Accepted(answers, m) == m
  {
    m - Accepted(answers, m)
  }

  // ----- labels tell columns apart

  function Labels(s: seq<Call>): nat {
    if s == [] then 0 else (if s[0].Label? then 1 else 0) + Labels(s[1..])
  }

  lemma {:induction false} LabelsJoin(a: seq<Call>, b: seq<Call>)
    ensures Labels(a + b) == Labels(a) + Labels(b)
    decreases |a|
  {
    if a == [] {
      assert a + b == b;
    } else {
      assert (a + b)[1..] == a[1..] + b;
      LabelsJoin(a[1..], b);
    }
  }

  /** No call of s is a label. */
  ghost predicate Plain(s: seq<Call>) {
    forall i | 0 <= i < |s| :: !s[i].Label?
  }

  lemma {:induction false} PlainNone(s: seq<Call>)
    requires Plain(s)
    ensures Labels(s) == 0
  {
    if s != [] { PlainNone(s[1..]); }
  }

  lemma {:induction false} ListPlain(t: Table, c: nat, r: nat)
    requires Filled(t) && c < Columns(t)
    ensures Plain(ListCells(t, c, r))
    decreases Rows(t) - r
  {
    hide CellAt, Rows;
    if r < Rows(t) { ListPlain(t, c, r + 1); }
  }

  lemma {:induction false} DeltaPlain(t: Table, c: nat, r: nat, factor: Factor, previous: real)
    requires Filled(t) && c < Columns(t)
    ensures Plain(DeltaCells(t, c, r, factor, previous))
    decreases Rows(t) - r
  {
    hide ValueAt, Delta, Rows;
    if r < Rows(t) {
      var v := ValueAt(t, r, c);
      DeltaPlain(t, c, r + 1, factor, if Delta(factor, previous, v) != 0 then v else previous);
    }
  }

  lemma {:induction false} QuasiPlain(t: Table, c: nat, r: nat, period: real, previous: real, count: nat)
    requires Filled(t) && c < Columns(t)
    ensures Plain(QuasiCells(t, c, r, period, previous, count))
    decreases Rows(t) - r
  {
    hide ValueAt, OnTime, Rows;
    if r < Rows(t) {
      var v := ValueAt(t, r, c);
      if OnTime(period, previous, v) {
        QuasiPlain(t, c, r + 1, period, v, count + 1);
      } else {
        QuasiPlain(t, c, r + 1, period, v, 0);
      }
    }
  }

  lemma TailPlain(t: Table, c: nat, stage: Stage, row: nat, previous: real, shift: nat)
    requires Filled(t) && c < Columns(t)
    ensures Plain(ColumnTail(t, c, stage, row, previous, shift))
  {
    hide ValueAt, Rows, ListCells, DeltaCells, QuasiCells, DeltaStart, OnTime;
    match t.methods[c]
    case ListOf =>
      ListPlain(t, c, 0);
      ListPlain(t, c, row);
    case Deltas(factor) =>
      DeltaPlain(t, c, 1, factor, ValueAt(t, 0, c));
      DeltaPlain(t, c, row, factor, previous);
    case Quasi(period) =>
      QuasiPlain(t, c, 1, period, ValueAt(t, 0, c), 0);
      QuasiPlain(t, c, row, period, previous, shift);
      QuasiPlain(t, c, row + 1, period, if row < Rows(t) then ValueAt(t, row, c) else 0.0, 0);
    case Unsupported =>
  }

  lemma {:induction false} ColumnLabels(t: Table, c: nat)
    requires Filled(t) && c <= Columns(t)
    ensures Labels(ColumnsFrom(t, c)) == Columns(t) - c
    decreases Columns(t) - c
  {
    hide ColumnCalls, ColumnTail;
    if c < Columns(t) {
      var a, b := ColumnCalls(t, c), ColumnsFrom(t, c + 1);
      ColumnLabels(t, c + 1);
      ColumnWhole(t, c, 0.0, 0);
      TailPlain(t, c, MapLabelSent, 0, 0.0, 0);
      PlainNone(a);
      LabelsJoin([Label(c)] + a, b);
      LabelsJoin([Label(c)], a);
    }
  }

  // ----- where a list is closed

  lemma {:induction false} ColumnsSplit(t: Table, k: nat, c: nat)
    requires Filled(t) && k <= c < Columns(t) && t.methods[c].ListOf?
    ensures var tail := [Close] + ColumnsFrom(t, c + 1);
            |ColumnsFrom(t, k)| >= |tail| && ColumnsFrom(t, k)[|ColumnsFrom(t, k)| - |tail|..] == tail
    decreases c - k
  {
    hide ListCells, DeltaCells, QuasiCells, ValueAt, DeltaStart, Rows;
    var tail := [Close] + ColumnsFrom(t, c + 1);
    if k == c {
      var a := [Label(c)] + ([OpenList(Rows(t))] + ListCells(t, c, 0));
      assert ColumnsFrom(t, c) == a + tail;
    } else {
      ColumnsSplit(t, k + 1, c);
      var a, b := [Label(k)] + ColumnCalls(t, k), ColumnsFrom(t, k + 1);
      assert ColumnsFrom(t, k) == a + b;
      assert (a + b)[|a + b| - |tail|..] == b[|b| - |tail|..];
    }
  }

  /** What is left at the closing of a list. */
  lemma ClosingRest(t: Table, log: seq<Call>, rest: seq<Call>, c: nat)
    requires Filled(t) && c < Columns(t) && log + rest == TableCalls(t) && ClosesList(t, |log|, c)
    ensures rest == [Close] + ColumnsFrom(t, c + 1) + [Close]
  {
    hide ColumnsFrom;
    ColumnsSplit(t, 0, c);
    var all, tail := ColumnsFrom(t, 0), [Close] + ColumnsFrom(t, c + 1);
    var a := all[..|all| - |tail|];
    assert all == a + tail;
    assert TableCalls(t) == [OpenMap] + a + (tail + [Close]);
    assert |log| == |[OpenMap] + a|;
    assert rest == TableCalls(t)[|log|..];
  }

  lemma RestLabels(t: Table, c: nat)
    requires Filled(t) && c < Columns(t)
    ensures Labels([Close] + ColumnsFrom(t, c + 1) + [Close]) == Columns(t) - c - 1
  {
    hide ColumnsFrom;
    LabelsJoin([Close] + ColumnsFrom(t, c + 1), [Close]);
    LabelsJoin([Close], ColumnsFrom(t, c + 1));
    ColumnLabels(t, c + 1);
  }

  /** A column that has only its last call left, where a list stands. */
  lemma LastCall(t: Table, c: nat, stage: Stage, row: nat, previous: real, shift: nat)
    requires Filled(t) && c < Columns(t) && t.methods[c].ListOf? && StageFits(t.methods[c], stage)
    requires stage == SendingCells ==> row < Rows(t)
    ensures stage == ContentSent <==> |ColumnTail(t, c, stage, row, previous, shift)| == 1
    ensures stage == ContentSent ==> ColumnTail(t, c, stage, row, previous, shift) == [Close]
  {
    hide CellAt, Rows;
  }

  /** The writer is stuck exactly when the call at hand closes a list. */
  lemma StuckExactly(w: TableWriter)
    requires w.Valid()
    ensures w.Stuck() <==> ListClosing(w.t, |w.log|)
  {
    hide ColumnTail, ColumnsFrom, TableCalls, ClosesList, Rows, CellCount, InColumn, AtRow;
    if w.Stuck() {
      LastCall(w.t, w.col, w.stage, w.Row(), w.previous, w.shift);
      assert ClosesList(w.t, |w.log|, w.col) by { StuckCloses(w); }
    } else {
      forall c | 0 <= c < Columns(w.t) ensures !ClosesList(w.t, |w.log|, c) {
        if ClosesList(w.t, |w.log|, c) { OnlyStuckCloses(w, c); }
      }
    }
  }

  lemma StuckCloses(w: TableWriter)
    requires w.Valid() && w.Stuck() && w.ColumnRest() == [Close]
    ensures ClosesList(w.t, |w.log|, w.col)
  {
    hide ColumnTail, ColumnsFrom, TableCalls, Rows, CellCount, InColumn, AtRow;
    assert |TableCalls(w.t)| == |w.log| + |w.Rest()|;
  }

  /** The labels left tell the column. */
  lemma ClosesInside(w: TableWriter, c: nat)
    requires w.Valid() && c < Columns(w.t) && w.Rest() == [Close] + ColumnsFrom(w.t, c + 1) + [Close]
    ensures ColumnStage(w.stage) && w.col == c
  {
    hide ColumnTail, ColumnsFrom, Rows, CellCount, InColumn, AtRow, Labels, TableCalls;
    RestLabels(w.t, c);
    if ColumnStage(w.stage) {
      TailLabels(w.t, w.ColumnRest(), w.col, w.stage, w.Row(), w.previous, w.shift);
    } else {
      OuterLabels(w.t, if w.stage == ColumnClosed then w.col else 0);
    }
  }

  /** One call left of a list tells the stage. */
  lemma OnlyStuckCloses(w: TableWriter, c: nat)
    requires w.Valid() && c < Columns(w.t) && ClosesList(w.t, |w.log|, c)
    ensures w.Stuck()
  {
    hide ColumnTail, ColumnsFrom, Rows, CellCount, InColumn, AtRow, TableCalls;
    ClosingRest(w.t, w.log, w.Rest(), c);
    ClosesInside(w, c);
    OneLeft(w.ColumnRest(), ColumnsFrom(w.t, c + 1));
    LastCall(w.t, c, w.stage, w.Row(), w.previous, w.shift);
  }

  lemma OneLeft(rest: seq<Call>, more: seq<Call>)
    requires rest + more + [Close] == [Close] + more + [Close]
    ensures |rest| == 1
  {
    assert |rest + more + [Close]| == |rest| + |more| + 1;
  }

  lemma TailLabels(t: Table, rest: seq<Call>, c: nat, stage: Stage, row: nat, previous: real, shift: nat)
    requires Filled(t) && c < Columns(t) && rest == ColumnTail(t, c, stage, row, previous, shift)
    ensures Labels(rest + ColumnsFrom(t, c + 1) + [Close]) == Columns(t) - c - 1
  {
    hide ColumnTail, ColumnsFrom;
    TailPlain(t, c, stage, row, previous, shift);
    PlainNone(rest);
    LabelsJoin(rest + ColumnsFrom(t, c + 1), [Close]);
    LabelsJoin(rest, ColumnsFrom(t, c + 1));
    ColumnLabels(t, c + 1);
  }

  lemma OuterLabels(t: Table, k: nat)
    requires Filled(t) && k < Columns(t)
    ensures Labels(ColumnsFrom(t, k) + [Close]) == Columns(t) - k
    ensures Labels(TableCalls(t)) == Columns(t)
  {
    hide ColumnsFrom;
    LabelsJoin(ColumnsFrom(t, k), [Close]);
    ColumnLabels(t, k);
    ColumnLabels(t, 0);
    LabelsJoin([OpenMap] + ColumnsFrom(t, 0), [Close]);
    LabelsJoin([OpenMap], ColumnsFrom(t, 0));
  }

  // ----- runs

  lemma {:induction false} AcceptedGrows(answers: nat -> int, a: nat, b: nat)
    requires a <= b
    ensures Accepted(answers, a) <= Accepted(answers, b) <= Accepted(answers, a) + (b - a)
    ensures Accepted(answers, b) == Accepted(answers, a) + (b - a) ==> forall i | a <= i < b :: answers(i) == BSS_EOK
    decreases b - a
  {
    if a < b { AcceptedGrows(answers, a, b - 1); }
  }

  /** Of the first m answers none refuses the closing of a list. */
  ghost predicate Spared(t: Table, answers: nat -> int, m: nat)
    requires Filled(t)
  {
    forall a | 0 <= a < m && answers(a) != BSS_EOK :: !ListClosing(t, Accepted(answers, a))
  }

  lemma SparedAccepted(t: Table, answers: nat -> int, a0: nat, a1: nat)
    requires Filled(t) && a0 <= a1 && Spared(t, answers, a0) && Accepted(answers, a1) - Accepted(answers, a0) == a1 - a0
    ensures Spared(t, answers, a1)
  {
    hide ListClosing, Accepted;
    AcceptedGrows(answers, a0, a1);
  }

  lemma SparedRefused(t: Table, answers: nat -> int, m: nat)
    requires Filled(t) && Spared(t, answers, m) && answers(m) != BSS_EOK
    ensures Accepted(answers, m + 1) == Accepted(answers, m)
    ensures Spared(t, answers, m + 1) <==> !ListClosing(t, Accepted(answers, m))
  {
    hide ListClosing;
  }

  lemma NothingYet(t: Table, answers: nat -> int)
    requires Filled(t)
    ensures Spared(t, answers, 0) && Accepted(answers, 0) == 0
  {
  }

  lemma SparedLess(t: Table, answers: nat -> int, m: nat)
    requires Filled(t) && !Spared(t, answers, m)
    ensures !SparesClosings(t, answers)
  {
  }

  /** Past the last call nothing is closed. */
  lemma SparedAll(t: Table, answers: nat -> int, m: nat)
    requires Filled(t) && Accepted(answers, m) == |TableCalls(t)|
    ensures Spared(t, answers, m) <==> SparesClosings(t, answers)
  {
    hide TableCalls, ColumnsFrom;
    forall a: nat | a >= m ensures !ListClosing(t, Accepted(answers, a)) {
      AcceptedGrows(answers, m, a);
    }
  }

  /** After i attempts: the writer is stuck exactly if the closing of a list was
      refused, and if it is not, every attempt that was not the last met a refusal. */
  ghost predicate Running(w: TableWriter, done: bool, i: nat)
    reads w
  {
    && w.Valid() && w.Tally() && (done <==> w.stage == MapClosed)
    && (SoundTable(w.t) ==>
         && (Spared(w.t, w.answers, w.attempts) <==> !w.Stuck())
         && (!done && !w.Stuck() ==> w.refusals >= i))
  }

  /** A whole attempt, from answer a0 on, that was refused nothing. */
  lemma AttemptDone(w: TableWriter, a0: nat, n: nat)
    requires w.Valid() && w.Tally() && w.stage == MapClosed && w.refusals == n && a0 <= w.attempts
    requires Accepted(w.answers, a0) + n == a0 && Spared(w.t, w.answers, a0)
    ensures Spared(w.t, w.answers, w.attempts) && !w.Stuck()
  {
    assert Filled(w.t);
    hide TableCalls, Accepted, Spared, TableWriter.Valid;
    SparedAccepted(w.t, w.answers, a0, w.attempts);
  }

  /** An attempt, from answer a0 on, that ended with a refusal. */
  lemma AttemptRefused(w: TableWriter, a0: nat, n: nat)
    requires w.Valid() && w.Tally() && w.Refused(n) && a0 <= w.attempts
    requires Accepted(w.answers, a0) + n == a0 && Spared(w.t, w.answers, a0)
    ensures Spared(w.t, w.answers, w.attempts) <==> !w.Stuck()
  {
    assert Filled(w.t);
    hide TableCalls, Accepted, Spared, ListClosing, TableWriter.Valid, TableWriter.Stuck, Filled;
    RefusalSpares(w.t, w.answers, a0, w.attempts, n);
    StuckExactly(w);
  }

  lemma RefusalSpares(t: Table, answers: nat -> int, a0: nat, a1: nat, n: nat)
    requires Filled(t) && a0 <= a1 && 0 < a1 && Spared(t, answers, a0) && answers(a1 - 1) != BSS_EOK
    requires Accepted(answers, a0) + n == a0 && Accepted(answers, a1) + n + 1 == a1
    ensures Spared(t, answers, a1) <==> !ListClosing(t, Accepted(answers, a1))
  {
    hide Accepted, Spared, ListClosing;
    var m := a1 - 1;
    LastRefused(answers, m);
    SparedAccepted(t, answers, a0, m);
    SparedRefused(t, answers, m);
  }

  lemma LastRefused(answers: nat -> int, m: nat)
    requires answers(m) != BSS_EOK
    ensures Accepted(answers, m + 1) == Accepted(answers, m)
  {
  }

  method Attempt(w: TableWriter, ghost i: nat) returns (done: bool)
    requires Running(w, false, i)
    modifies w
    ensures Running(w, done, i + 1)
  {
    assert Filled(w.t);
    assert Accepted(w.answers, w.attempts) + w.refusals == w.attempts;
    hide TableCalls, Accepted, SoundTable, Spared, TableWriter.Valid, TableWriter.Stuck, TableWriter.Tally, Filled;
    ghost var a0, n, stuck := w.attempts, w.refusals, w.Stuck();
    var r := w.Serialize();
    done := r == BSS_EOK;
    if !stuck && SoundTable(w.t) {
      if done { AttemptDone(w, a0, n); } else { AttemptRefused(w, a0, n); }
    }
  }

  lemma NeverStuck(w: TableWriter)
    requires w.stage == MapClosed
    ensures !w.Stuck()
  {
  }

  lemma RunningEnds(w: TableWriter, done: bool, i: nat, k: nat)
    requires Running(w, done, i) && SoundTable(w.t) && w.refusals <= k < i
    ensures done <==> SparesClosings(w.t, w.answers)
  {
    hide TableCalls, Accepted, SoundTable, Spared, ListClosing, SparesClosings, TableWriter.Stuck;
    if done {
      NeverStuck(w);
      SparedAll(w.t, w.answers, w.attempts);
    } else {
      SparedLess(w.t, w.answers, w.attempts);
    }
  }

  /** Attempts until the table is through, at most n of them: whatever was refused and
      when, the calls that succeeded are the beginning of those of an uninterrupted
      run. If at most k calls are ever refused, then k + 1 attempts make all of them
      exactly when the closing of a list is never refused. */
  method SerializeInterrupted(t: Table, answers: nat -> int, n: nat, ghost k: nat) returns (done: bool, log: seq<Call>)
    requires Filled(t)
    ensures log <= TableCalls(t)
    ensures done ==> log == TableCalls(t)
    ensures SoundTable(t) && (forall m: nat :: Refusals(answers, m) <= k) && n > k ==> (done <==> SparesClosings(t, answers))
  {
    hide TableCalls, Accepted, SoundTable, Running, SparesClosings;
    var w := new TableWriter(t, answers);
    done := false;
    Begins(w);
    var i := 0;
    while i < n && !done
      invariant fresh(w) && w.t == t && w.answers == answers && i <= n && Running(w, done, i)
    {
      done := Attempt(w, i);
      i := i + 1;
    }
    log := w.log;
    Whole(w, done, i);
    if SoundTable(t) && (forall m: nat :: Refusals(answers, m) <= k) && n > k {
      assert w.refusals == Refusals(answers, w.attempts) by { TallyIs(w, done, i); }
      RunningEnds(w, done, if done then i + k + 1 else i, k);
    }
  }

  lemma Begins(w: TableWriter)
    requires w.Valid() && w.Tally() && w.log == [] && w.refusals == 0 && w.stage == Initialized
    ensures Running(w, false, 0)
  {
    NothingYet(w.t, w.answers);
  }

  lemma TallyIs(w: TableWriter, done: bool, i: nat)
    requires Running(w, done, i)
    ensures w.refusals == Refusals(w.answers, w.attempts)
  {
  }

  lemma Whole(w: TableWriter, done: bool, i: nat)
    requires Running(w, done, i)
    ensures w.log <= TableCalls(w.t) && (done ==> w.log == TableCalls(w.t))
    ensures done ==> forall j: nat :: Running(w, done, j)
  {
    hide TableCalls;
    if done { assert w.log + [] == w.log; }
  }

  /** A column with one cell, sent as a list: refusing the fifth call, once, leaves the
      table unfinished for good. */
  lemma ClosingRefused(cell: Cell)
    ensures var t, answers := Table([ListOf], [cell]), (a: nat) => if a == 4 then -5 else BSS_EOK;
            && Filled(t) && SoundTable(t) && (forall m: nat :: Refusals(answers, m) <= 1)
            && !SparesClosings(t, answers)
  {
    var t, answers := Table([ListOf], [cell]), (a: nat) => if a == 4 then -5 else BSS_EOK;
    forall m: nat ensures Refusals(answers, m) <= 1 { OneRefusal(answers, m); }
    OneRefusal(answers, 4);
    assert Rows(t) == 1;
    assert ListCells(t, 0, 0) == [Raw(CellAt(t, 0, 0))];
    assert ColumnsFrom(t, 1) == [];
    assert |ColumnsFrom(t, 0)| == 4;
    assert ClosesList(t, 4, 0);
    assert answers(4) != BSS_EOK;
  }

  lemma {:induction false} OneRefusal(answers: nat -> int, m: nat)
    requires forall a: nat :: answers(a) == BSS_EOK <==> a != 4
    ensures Accepted(answers, m) == if m <= 4 then m else m - 1
  {
    if m > 0 { OneRefusal(answers, m - 1); }
  }
}
