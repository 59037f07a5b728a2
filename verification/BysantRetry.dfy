/** Retrying interrupted calls: for every behaviour of the writer, a call that is
    repeated until it succeeds leaves its bytes in the output exactly once. */
module BysantRetry {
  import opened Bytes
  import opened BysantCommon
  import opened BysantEncoding
  import opened BysantSerializer
  import R = BysantRoundTrip

  /** When a call may be repeated after an interruption: always, except that an
      opening is checked against its own half-filled frame, where leftovers of
      earlier use of the slot are still visible. */
  predicate Retries(s: Enc, op: Op)
    requires ValidEnc(s)
  {
    Opens(op) && s.size < STACK_SIZE - 1 ==>
      var slot := s.stack[s.size + 1];
      match op
      case Chunked => false
      case List(len, c) => c == CtxOf(Top(s)) && (len < 0 || slot.missing != 0)
      case Map(len, c) => !slot.even && c == CtxOf(Top(s)) && (len < 0 || slot.missing != 0)
      case Object(_) => CtxOf(HalfOpened(slot, op)) == CTX_GLOBAL && slot.missing != 0
      case _ => true
  }

  lemma TablesDiffer(len: int, c: byte)
    ensures CollectionBytes(len, c, GLOBAL_LIST) != CollectionBytes(len, c, LISTMAP_LIST)
    ensures CollectionBytes(len, c, GLOBAL_MAP) != CollectionBytes(len, c, LISTMAP_MAP)
  {
    var g, l := CollectionBytes(len, c, GLOBAL_LIST), CollectionBytes(len, c, LISTMAP_LIST);
    if 9 < len <= 60 {
      assert |g| > |l|;
    } else {
      assert g[0] != l[0];
    }
    assert CollectionBytes(len, c, GLOBAL_MAP)[0] != CollectionBytes(len, c, LISTMAP_MAP)[0];
  }

  /** How an opening is planned when it is repeated. */
  function Again(s: Enc, classes: Classes, op: Op): Coding
    requires ValidEnc(s) && Opens(op) && s.size < STACK_SIZE - 1
  {
    SlotKeepsValid(s, HalfOpened(s.stack[s.size + 1], op));
    Attempt(Halfway(s, op), HalfOpened(s.stack[s.size + 1], op), false, classes, op)
  }

  lemma RetryCollection(s: Enc, classes: Classes, op: Op)
    requires ValidEnc(s) && (op.List? || op.Map?)
    requires Attempt(s, Top(s), false, classes, op).Coded?
    ensures Again(s, classes, op) == Attempt(s, Top(s), false, classes, op) <==> Retries(s, op)
  {
    var c := op.ctx;
    var half := HalfOpened(s.stack[s.size + 1], op);
    TablesDiffer(op.len, c);
    if op.Map? && half.even {
      assert CtxOf(half) == CTX_UIS;
    } else {
      assert CtxOf(half) == c;
    }
  }

  /** The condition is exact: a repeated opening is planned as the first time if
      and only if it holds. */
  lemma RetryExactly(s: Enc, classes: Classes, op: Op)
    requires ValidEnc(s) && Opens(op)
    requires Attempt(s, Top(s), false, classes, op).Coded?
    ensures Again(s, classes, op) == Attempt(s, Top(s), false, classes, op) <==> Retries(s, op)
  {
    if op.List? || op.Map? {
      RetryCollection(s, classes, op);
    }
  }

  /** An interrupted `bss_chunked` can never be completed. */
  lemma ChunkedNeverRetries(s: Enc, classes: Classes)
    requires ValidEnc(s)
    requires Attempt(s, Top(s), false, classes, Chunked).Coded?
    ensures Again(s, classes, Chunked) == Refused(EBADCONTEXT)
  {
  }

  /** Once the context is broken nothing is written any more: the only call that
      still succeeds is the close of a complete fixed container, which writes
      nothing and opens no transaction. */
  lemma BrokenForever(s: Enc, seen: Frame, classes: Classes, op: Op)
    requires ValidEnc(s)
    ensures var a := Attempt(s, seen, true, classes, op);
            && (a.Coded? <==> op.Close? && Full(seen))
            && (a.Coded? ==> a.out == [])
            && (!op.Close? && CodeOf(seen, classes, op).Coded? ==> a == Refused(EBROKEN))
  {
  }

  lemma HalfwayTwice(s: Enc, classes: Classes, op: Op)
    requires ValidEnc(s) && CanCommit(s, classes, op)
    ensures ValidEnc(Halfway(s, op)) && CanCommit(Halfway(s, op), classes, op)
    ensures Halfway(Halfway(s, op), op) == Halfway(s, op)
    ensures Next(Halfway(s, op), classes, op) == Next(s, classes, op)
  {
    if Opens(op) {
      SlotKeepsValid(s, HalfOpened(s.stack[s.size + 1], op));
    }
  }

  /** Repeats one call until it is not interrupted any more. */
  method Retry(ser: Serializer, op: Op) returns (r: int)
    requires ser.Valid() && ser.Idle() && !ser.broken && Retries(ser.State(), op)
    modifies ser, ser.stack, ser.writer
    ensures ser.Valid() && r != EAGAIN
    ensures var step := EncStep(old(ser.State()), ser.classes, op);
            if step.Refuse? then r == step.status && ser.Now() == old(ser.Now()) && ser.Idle()
            else if r == EOK then
              && ser.committed == old(ser.committed) + step.out
              && ser.State() == step.next && ser.Idle() && !ser.broken
            else
              && r < 0 && !Patient(old(ser.writer.script))
              && ser.committed == old(ser.committed)
              && ser.pending <= step.out && ser.broken == (ser.pending != [])
    ensures Patient(old(ser.writer.script)) ==> Patient(ser.writer.script)
  {
    hide CodeOf, ValidFrame, ValidClasses, Retries;
    ghost var s, done := ser.State(), ser.committed;
    PlanFacts(s, ser.classes, op);
    ghost var plan := ser.Planned(op);
    r := ser.Call(op);
    if plan.Coded? {
      HalfwayTwice(s, ser.classes, op);
      if Opens(op) { RetryExactly(s, ser.classes, op); }
    }
    while r == EAGAIN
      invariant ser.Valid()
      invariant plan.Refused? ==> r == plan.status != EAGAIN && ser.Now() == old(ser.Now()) && ser.Idle()
      invariant plan.Coded? ==> if r == EOK then
          && ser.committed == done + plan.out
          && ser.State() == Next(s, ser.classes, op) && ser.Idle() && !ser.broken
        else
          && (r == EAGAIN || r < 0)
          && (r < 0 ==> !Patient(old(ser.writer.script)))
          && ser.committed == done && ser.pending <= plan.out
          && ser.State() == Halfway(s, op)
          && ser.stacksize == (if Opens(op) then ser.ackStacksize + 1 else ser.ackStacksize)
          && ser.broken == (r < 0 && ser.pending != [])
      invariant Patient(old(ser.writer.script)) ==> Patient(ser.writer.script)
      decreases |ser.writer.script|, r == EAGAIN
    {
      assert ser.Planned(op) == plan;
      r := ser.Call(op);
    }
  }

  method RetryAccepted(ser: Serializer, op: Op, ghost out: bytes, ghost next: Enc)
    requires ser.Valid() && ser.Idle() && !ser.broken && Patient(ser.writer.script)
    requires Retries(ser.State(), op) && EncStep(ser.State(), ser.classes, op) == Emit(out, next)
    modifies ser, ser.stack, ser.writer
    ensures ser.Valid() && ser.Idle() && !ser.broken && Patient(ser.writer.script)
    ensures ser.committed == old(ser.committed) + out && ser.State() == next
  {
    hide CodeOf, ValidFrame, ValidClasses, Retries, Attempt;
    var r := Retry(ser, op);
  }

  /** A run as a list of calls with the bytes and the stack each one leads to. */
  datatype Planned = Planned(op: Op, out: bytes, next: Enc)

  function Before(s: Enc, plan: seq<Planned>, i: nat): Enc
    requires i <= |plan|
  {
    if i == 0 then s else plan[i - 1].next
  }

  /** Call i is accepted, and may be repeated if it is interrupted. */
  ghost predicate Accepted(s: Enc, classes: Classes, plan: seq<Planned>, i: nat)
    requires i < |plan|
  {
    && ValidEnc(Before(s, plan, i))
    && Retries(Before(s, plan, i), plan[i].op)
    && EncStep(Before(s, plan, i), classes, plan[i].op) == Emit(plan[i].out, plan[i].next)
  }

  ghost predicate AllAccepted(s: Enc, classes: Classes, plan: seq<Planned>) {
    forall i | 0 <= i < |plan| :: Accepted(s, classes, plan, i)
  }

  function Output(plan: seq<Planned>): bytes {
    if plan == [] then [] else Output(plan[..|plan| - 1]) + plan[|plan| - 1].out
  }

  lemma TakeCall(s: Enc, classes: Classes, plan: seq<Planned>, i: nat)
    requires AllAccepted(s, classes, plan) && i < |plan|
    ensures ValidEnc(Before(s, plan, i)) && Retries(Before(s, plan, i), plan[i].op)
    ensures EncStep(Before(s, plan, i), classes, plan[i].op) == Emit(plan[i].out, plan[i].next)
    ensures Output(plan[..i + 1]) == Output(plan[..i]) + plan[i].out
  {
    assert Accepted(s, classes, plan, i);
    assert plan[..i + 1][..i] == plan[..i];
  }

  /** A whole run over a writer that interrupts it in any way, short of an error:
      every call's bytes come out once, in order. */
  method SerializeAll(ser: Serializer, ghost plan: seq<Planned>, ops: seq<Op>)
    requires ser.Valid() && ser.Idle() && !ser.broken && Patient(ser.writer.script)
    requires |ops| == |plan| && forall i | 0 <= i < |ops| :: ops[i] == plan[i].op
    requires AllAccepted(ser.State(), ser.classes, plan)
    modifies ser, ser.stack, ser.writer
    ensures ser.Valid() && ser.Idle() && !ser.broken
    ensures ser.committed == old(ser.committed) + Output(plan)
    ensures ser.State() == Before(old(ser.State()), plan, |plan|)
  {
    hide EncStep, ValidFrame, ValidClasses, Retries, AllAccepted, Accepted;
    ghost var s := ser.State();
    var i := 0;
    while i < |ops|
      invariant 0 <= i <= |ops|
      invariant ser.Valid() && ser.Idle() && !ser.broken && Patient(ser.writer.script)
      invariant ser.State() == Before(s, plan, i)
      invariant ser.committed == old(ser.committed) + Output(plan[..i])
    {
      TakeCall(s, ser.classes, plan, i);
      RetryAccepted(ser, ops[i], plan[i].out, plan[i].next);
      i := i + 1;
    }
    assert plan[..|plan|] == plan;
  }

  lemma {:induction false} RunOutput(s: Enc, classes: Classes, plan: seq<Planned>, ops: seq<Op>)
    requires ValidEnc(s) && ValidClasses(classes)
    requires |ops| == |plan| && forall i | 0 <= i < |ops| :: ops[i] == plan[i].op
    requires AllAccepted(s, classes, plan) && R.EncRun(s, classes, ops).Done?
    ensures R.EncRun(s, classes, ops).out == Output(plan)
    decreases |ops|
  {
    if ops != [] {
      assert Accepted(s, classes, plan, 0);
      StepKeepsValid(s, classes, ops[0]);
      var tail := plan[1..];
      forall i | 0 <= i < |tail| ensures Accepted(plan[0].next, classes, tail, i) {
        assert Accepted(s, classes, plan, i + 1);
      }
      RunOutput(plan[0].next, classes, tail, ops[1..]);
      OutputCons(plan);
    }
  }

  lemma {:induction false} OutputCons(plan: seq<Planned>)
    requires plan != []
    ensures Output(plan) == plan[0].out + Output(plan[1..])
    decreases |plan|
  {
    var init := plan[..|plan| - 1];
    if init == [] {
      assert plan[1..] == [];
    } else {
      OutputCons(init);
      assert plan[1..][..|plan| - 2] == init[1..];
    }
  }

  /** From fresh contexts: whatever the writer did, it ends up with the bytes of
      the run, which by `BysantRoundTrip.RoundTrip` read back as its elements. */
  method Serialize(script: seq<int>, classes: Classes, ops: seq<Op>, ghost plan: seq<Planned>) returns (out: bytes)
    requires ValidClasses(classes) && Patient(script)
    requires |ops| == |plan| && forall i | 0 <= i < |ops| :: ops[i] == plan[i].op
    requires AllAccepted(Init(), classes, plan) && R.EncRun(Init(), classes, ops).Done?
    ensures out == R.EncRun(Init(), classes, ops).out
  {
    hide Init, EncStep, ValidFrame, ValidClasses, Retries, AllAccepted, R.EncRun;
    InitValid();
    RunOutput(Init(), classes, plan, ops);
    var writer := new Writer(script);
    var ser := new Serializer(writer, classes);
    SerializeAll(ser, plan, ops);
    out := writer.out;
  }
}
