/** The serializer's countdown against an independent count of children. */
module BysantSizes {
  import opened Bytes
  import opened BysantCommon
  import opened BysantEncoding

  /** For one open container: the size it declared (-1 if none), and how many
      children were completed since; keys and values of a map count apart. */
  datatype Tally = Tally(declared: int, done: nat)

  function Bump(t: seq<Tally>): seq<Tally>
    requires t != []
  {
    t[|t| - 1 := t[|t| - 1].(done := t[|t| - 1].done + 1)]
  }

  /** Counting calls alone: a value completes a child of the innermost container,
      a close completes a child of the next one. */
  function Count(t: seq<Tally>, classes: Classes, op: Op): seq<Tally>
    requires t != [] && (op.Close? ==> |t| > 1) && (op.Object? ==> op.classid in classes)
  {
    match op
    case Chunked => t + [Tally(-1, 0)]
    case List(len, _) => t + [Tally(if len < 0 then -1 else len, 0)]
    case Map(len, _) => t + [Tally(if len < 0 then -1 else 2 * len, 0)]
    case Object(id) => t + [Tally(|classes[id].fields|, 0)]
    case Close => Bump(t[..|t| - 1])
    case _ => Bump(t)
  }

  ghost predicate Counted(f: Frame, t: Tally) {
    && (IsFixed(f) <==> t.declared >= 0)
    && (IsFixed(f) ==> f.missing + t.done == t.declared)
    && (IsMap(f) ==> (f.even <==> t.done % 2 == 0))
  }

  ghost predicate Tallied(s: Enc, t: seq<Tally>) {
    && ValidEnc(s)
    && |t| == s.size + 1
    && forall i | 0 <= i <= s.size :: Counted(s.stack[i], t[i])
  }

  /** What an accepted call does to the frames it leaves below the top. */
  lemma StepBelow(s: Enc, classes: Classes, op: Op, i: nat)
    requires ValidEnc(s) && ValidClasses(classes) && EncStep(s, classes, op).Emit? && i <= EncStep(s, classes, op).next.size
    ensures var next := EncStep(s, classes, op).next;
            && |s.stack| == |next.stack| == STACK_SIZE > next.size && s.size < STACK_SIZE
            && next.size == (if op.Close? then s.size - 1 else if Opens(op) then s.size + 1 else s.size)
            && (i < next.size && i <= s.size ==> next.stack[i] == s.stack[i])
            && (i == next.size <= s.size ==> next.stack[i] == Charge(s.stack[i]) && !Full(s.stack[i]))
            && (i == next.size > s.size ==>
                 (op.Object? ==> op.classid in classes) && next.stack[i] == Opened(s.stack[i], classes, op))
  {
    hide CodeOf, Opened, Charge;
    StepKeepsValid(s, classes, op);
    if !op.Close? { CodedFacts(Top(s), classes, op); }
  }

  lemma ChargeCounts(f: Frame, t: Tally)
    requires Counted(f, t) && !Full(f)
    ensures Counted(Charge(f), t.(done := t.done + 1))
  {
  }

  lemma OpenedCounts(slot: Frame, classes: Classes, op: Op)
    requires Opens(op) && (op.Object? ==> op.classid in classes)
    ensures Counted(Opened(slot, classes, op), Count([Tally(-1, 0)], classes, op)[1])
  {
  }

  /** Each accepted call keeps `missing + completed = declared` in every open
      fixed container, and the parity flag of every open map right. */
  lemma StepCounts(s: Enc, t: seq<Tally>, classes: Classes, op: Op)
    requires Tallied(s, t) && ValidClasses(classes)
    requires EncStep(s, classes, op).Emit?
    ensures Tallied(EncStep(s, classes, op).next, Count(t, classes, op))
  {
    hide EncStep, ValidEnc, ValidClasses, Counted, Charge, Opened;
    StepKeepsValid(s, classes, op);
    StepBelow(s, classes, op, 0);
    var next := EncStep(s, classes, op).next;
    StepBelow(s, classes, op, next.size);
    var t' := Count(t, classes, op);
    forall i | 0 <= i <= next.size ensures Counted(next.stack[i], t'[i]) {
      StepBelow(s, classes, op, i);
      if i > s.size {
        OpenedCounts(s.stack[i], classes, op);
      } else if i == next.size {
        ChargeCounts(s.stack[i], t[i]);
      }
    }
  }

  /** No value and no container enters a full container, whatever lies past the
      fields of a full object. */
  lemma NothingIntoFull(s: Enc, t: seq<Tally>, classes: Classes, op: Op)
    requires Tallied(s, t) && !op.Close? && t[s.size].done == t[s.size].declared
    ensures EncStep(s, classes, op).Refuse?
  {
    assert Counted(s.stack[s.size], t[s.size]);
  }

  /** A close is accepted exactly when the container is complete: as many children
      as declared, or, for a variable map, as many values as keys. */
  lemma CloseExactly(s: Enc, t: seq<Tally>, classes: Classes)
    requires Tallied(s, t)
    ensures EncStep(s, classes, Close).Emit? <==>
              && s.size > 0
              && (t[s.size].declared >= 0 ==> t[s.size].done == t[s.size].declared)
              && (Top(s).kind.FZMap? ==> t[s.size].done % 2 == 0)
  {
    assert Counted(s.stack[s.size], t[s.size]);
    assert ValidFrame(s.stack[s.size], s.size == 0, false);
  }

  datatype Reached = At(s: Enc, t: seq<Tally>) | Nowhere

  function Play(s: Enc, t: seq<Tally>, classes: Classes, ops: seq<Op>): Reached
    requires ValidEnc(s) && ValidClasses(classes) && |t| == s.size + 1
    decreases |ops|
  {
    if ops == [] then At(s, t) else
    var step := EncStep(s, classes, ops[0]);
    if step.Refuse? then Nowhere else
    StepKeepsValid(s, classes, ops[0]);
    Play(step.next, Count(t, classes, ops[0]), classes, ops[1..])
  }

  /** The count holds in every state a run of accepted calls reaches. */
  lemma {:induction false} RunCounts(s: Enc, t: seq<Tally>, classes: Classes, ops: seq<Op>)
    requires Tallied(s, t) && ValidClasses(classes)
    requires Play(s, t, classes, ops).At?
    ensures Tallied(Play(s, t, classes, ops).s, Play(s, t, classes, ops).t)
    decreases |ops|
  {
    if ops != [] {
      StepCounts(s, t, classes, ops[0]);
      RunCounts(EncStep(s, classes, ops[0]).next, Count(t, classes, ops[0]), classes, ops[1..]);
    }
  }

  /** From a fresh serializer, along every run of accepted calls: each open fixed
      container misses as many children as it declared less those completed, no call
      enters a full one, and a close is accepted exactly when the innermost container
      is complete. */
  lemma FreshRunCounts(classes: Classes, ops: seq<Op>)
    requires ValidClasses(classes) && Play(Init(), [Tally(-1, 0)], classes, ops).At?
    ensures var r := Play(Init(), [Tally(-1, 0)], classes, ops);
            && Tallied(r.s, r.t)
            && (forall op: Op | !op.Close? && r.t[r.s.size].done == r.t[r.s.size].declared :: EncStep(r.s, classes, op).Refuse?)
            && (EncStep(r.s, classes, Close).Emit? <==>
                  && r.s.size > 0
                  && (r.t[r.s.size].declared >= 0 ==> r.t[r.s.size].done == r.t[r.s.size].declared)
                  && (Top(r.s).kind.FZMap? ==> r.t[r.s.size].done % 2 == 0))
  {
    hide EncStep, Play;
    var t := [Tally(-1, 0)];
    FreshTally();
    RunCounts(Init(), t, classes, ops);
    var r := Play(Init(), t, classes, ops);
    CloseExactly(r.s, r.t, classes);
    forall op: Op | !op.Close? && r.t[r.s.size].done == r.t[r.s.size].declared ensures EncStep(r.s, classes, op).Refuse? {
      NothingIntoFull(r.s, r.t, classes, op);
    }
  }

  lemma FreshTally()
    ensures Tallied(Init(), [Tally(-1, 0)])
  {
  }
}
