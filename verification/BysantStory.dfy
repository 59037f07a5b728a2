/** What a run of serializer calls tells a reader, stated on the calls alone: which
    containers are open, how many children each has, and from that the context, the place
    and the token of every element. The round trip is then about this story, in which
    neither codec has a part (libs/bysant/bysants.c:31-39 and 445-737,
    libs/bysant/bysantd.c:36-60 and 632-701). */
module BysantStory {
  import opened Bytes
  import opened BysantCommon
  import opened BysantEncoding
  import opened BysantRoundTrip
  import opened BysantSizes
  import D = BysantDecoding

  /** An open container: what it is, and how many of its children are complete; a key and
      its value are two children. */
  datatype Container = Bottom | AList(ctx: int, len: int) | AMap(ctx: int, len: int) | AnObject(fields: seq<int>) | AString

  datatype Open = Open(what: Container, done: nat)

  const BEGIN: seq<Open> := [Open(Bottom, 0)]

  /** The place of child number k, counted from one. */
  function Place(what: Container, k: nat): D.Slot {
    match what
    case Bottom => D.KTopLevel
    case AList(_, _) => D.KListItem
    case AMap(_, _) => if k % 2 == 1 then D.KMapKey else D.KMapValue
    case AnObject(_) => D.KObjField
    case AString => D.KChunk
  }

  /** The context of the next child; none in an object that has all its fields. */
  function Context(o: Open): int {
    match o.what
    case Bottom => CTX_GLOBAL
    case AList(c, _) => c
    case AMap(c, _) => if o.done % 2 == 0 then CTX_UIS else c
    case AnObject(fields) => if o.done < |fields| then fields[o.done] else -1
    case AString => CTX_CHUNKED
  }

  /** How a reader names the end of a container. */
  function EndOf(what: Container): D.Token {
    match what
    case Bottom => D.TNone
    case AList(_, len) => D.TClose(if len < 0 then FZList else FList)
    case AMap(_, len) => D.TClose(if len < 0 then FZMap else FMap)
    case AnObject(_) => D.TClose(FObject)
    case AString => D.TClose(FChunked)
  }

  function NewOpen(classes: Classes, op: Op): Open
    requires Opens(op)
  {
    match op
    case Chunked => Open(AString, 0)
    case List(len, c) => Open(AList(c, len), 0)
    case Map(len, c) => Open(AMap(c, len), 0)
    case Object(id) => Open(AnObject(if id in classes then classes[id].fields else []), 0)
  }

  function LastOpen(st: seq<Open>): Open
    requires st != []
  {
    st[|st| - 1]
  }

  /** One more child of the innermost container is complete. */
  function Completed(st: seq<Open>): seq<Open>
    requires st != []
  {
    st[|st| - 1 := LastOpen(st).(done := LastOpen(st).done + 1)]
  }

  function After(st: seq<Open>, classes: Classes, op: Op): seq<Open>
    requires st != [] && (op.Close? ==> |st| > 1)
  {
    if op.Close? then Completed(st[..|st| - 1])
    else if Opens(op) then st + [NewOpen(classes, op)]
    else Completed(st)
  }

  /** Strings of more bytes than this travel as a chunked string. */
  function Longest(ctx: int): nat {
    if ctx == CTX_GLOBAL then 66592 else 67631
  }

  /** What a reader is told by a call: tokens and places. */
  function Told(st: seq<Open>, op: Op): seq<Element>
    requires st != [] && (op.Close? ==> |st| > 1)
  {
    var o := LastOpen(st);
    var place := Place(o.what, o.done + 1);
    match op
    case Int(x) => [(D.TInt(if Context(o) == CTX_UIS then x % 0x1_0000_0000 else x), place)]
    case Bool(b) => [(D.TBool(b), place)]
    case Null => [(D.TNull, place)]
    case Str(data) =>
      if |data| <= Longest(Context(o)) then [(D.TString(data), place)]
      else [(D.TChunked, D.KNewContainer)] + ChunksTold(data) + [(D.TClose(FChunked), place)]
    case Chunk(piece) => ChunksTold(piece)
    case Chunked => [(D.TChunked, D.KNewContainer)]
    case List(len, _) => [(if len < 0 then D.TZList else D.TList(len), D.KNewContainer)]
    case Map(len, _) => [(if len < 0 then D.TZMap else D.TMap(len), D.KNewContainer)]
    case Object(id) => [(D.TObject(id), D.KNewContainer)]
    case Close =>
      var parent := st[|st| - 2];
      [(EndOf(o.what), Place(parent.what, parent.done + 1))]
  }

  /** Pieces of at most 65535 bytes. */
  function ChunksTold(data: bytes): seq<Element>
    decreases |data|
  {
    if data == [] then []
    else if |data| <= 0xffff then [(D.TChunk(data), D.KChunk)]
    else [(D.TChunk(data[..0xffff]), D.KChunk)] + ChunksTold(data[0xffff..])
  }

  /** All a run tells. */
  function Tale(st: seq<Open>, classes: Classes, ops: seq<Op>): seq<Element>
    requires st != []
    decreases |ops|
  {
    if ops == [] || (ops[0].Close? && |st| == 1) then []
    else Told(st, ops[0]) + Tale(After(st, classes, ops[0]), classes, ops[1..])
  }

  // ----- which calls are accepted

  predicate IsFull(o: Open) {
    match o.what
    case AList(_, len) => o.done == len
    case AMap(_, len) => len >= 0 && o.done == 2 * len
    case AnObject(fields) => o.done == |fields|
    case _ => false
  }

  /** What the innermost container lets a call do. */
  predicate Allowed(st: seq<Open>, classes: Classes, op: Op)
    requires st != []
  {
    var o := LastOpen(st);
    var c := Context(o);
    match op
    case Close =>
      && !o.what.Bottom?
      && (o.what.AList? && o.what.len >= 0 ==> o.done == o.what.len)
      && (o.what.AMap? ==> if o.what.len >= 0 then o.done == 2 * o.what.len else o.done % 2 == 0)
      && (o.what.AnObject? ==> o.done == |o.what.fields|)
    case Int(x) => !IsFull(o) && (c == CTX_GLOBAL || c == CTX_NUMBER || (c == CTX_UIS && x >= 0)
      || (c == CTX_INT32 && -0x8000_0000 <= x < 0x8000_0000))
    case Bool(_) => !IsFull(o) && c == CTX_GLOBAL
    case Null => !IsFull(o) && !(o.what.AList? && o.what.len < 0) && !(o.what.AMap? && o.done % 2 == 0)
    case Str(_) => !IsFull(o) && (c == CTX_GLOBAL || c == CTX_UIS)
    case Chunk(piece) => o.what.AString? && piece != []
    case Chunked => !IsFull(o) && (c == CTX_GLOBAL || c == CTX_UIS) && |st| < STACK_SIZE
    case List(_, d) => !IsFull(o) && (c == CTX_GLOBAL || c == CTX_LISTMAP) && d < CTX_LAST && |st| < STACK_SIZE
    case Map(_, d) => !IsFull(o) && (c == CTX_GLOBAL || c == CTX_LISTMAP) && d < CTX_LAST && |st| < STACK_SIZE
    case Object(id) => !IsFull(o) && c == CTX_GLOBAL && id in classes && |st| < STACK_SIZE
  }

  predicate AllAllowed(st: seq<Open>, classes: Classes, ops: seq<Op>)
    requires st != []
    decreases |ops|
  {
    ops == [] || (Allowed(st, classes, ops[0]) && (ops[0].Close? ==> |st| > 1)
                  && AllAllowed(After(st, classes, ops[0]), classes, ops[1..]))
  }

  /** A null in a chunked string, and a long string at the last level, cannot be told. */
  predicate Clear(st: seq<Open>, classes: Classes, ops: seq<Op>)
    requires st != []
    decreases |ops|
  {
    ops == [] || (ops[0].Close? && |st| == 1) || (
      && !(ops[0].Null? && LastOpen(st).what.AString?)
      && !(ops[0].Str? && |ops[0].data| > Longest(Context(LastOpen(st))) && |st| == STACK_SIZE)
      && Clear(After(st, classes, ops[0]), classes, ops[1..]))
  }

  // ----- the serializer's stack follows the story

  /** A frame of the serializer, and the container it stands for. */
  ghost predicate Stands(f: Frame, o: Open) {
    match o.what
    case Bottom => f.kind.FTop? && f.ctxid == CTX_GLOBAL
    case AList(c, len) => (if len < 0 then f.kind.FZList? else f.kind.FList? && f.missing == len - o.done) && f.ctxid == c
    case AMap(c, len) =>
      && (if len < 0 then f.kind.FZMap? else f.kind.FMap? && f.missing == 2 * len - o.done)
      && f.ctxid == c && f.even == (o.done % 2 == 0)
    case AnObject(fields) => f.kind.FObject? && f.klass.fields == fields && f.missing == |fields| - o.done
    case AString => f.kind.FChunked? && f.ctxid == CTX_CHUNKED
  }

  ghost predicate Follows(s: Enc, st: seq<Open>) {
    && ValidEnc(s) && |st| == s.size + 1
    && forall i | 0 <= i <= s.size :: Stands(s.stack[i], st[i])
  }

  lemma FollowsBegin()
    ensures Follows(Init(), BEGIN)
  {
  }

  /** The context and the fullness of a frame are those of its container. */
  lemma StandsContext(f: Frame, o: Open)
    requires Stands(f, o) && (IsFixed(f) ==> f.missing >= 0)
    ensures Full(f) <==> IsFull(o)
    ensures !Full(f) ==> CtxOf(f) == Context(o)
  {
  }

  lemma TopStands(s: Enc, st: seq<Open>)
    requires Follows(s, st)
    ensures st != [] && Stands(Top(s), LastOpen(st)) && ValidFrame(Top(s), s.size == 0, false)
  {
  }

  lemma AcceptedOp(f: Frame, o: Open, classes: Classes, op: Op, bottom: bool, deep: bool)
    requires Stands(f, o) && ValidFrame(f, bottom, false) && !op.Close?
    ensures var c := CodeOf(f, classes, op);
            c.Coded? && !Full(f) && !(Opens(op) && deep) <==>
              Allowed(if deep then seq(STACK_SIZE - 1, _ => o) + [o] else [o], classes, op)
  {
    hide IntegerBytes, UnsignedBytes, Int32Bytes, StringBytes, ChunksBytes, CollectionBytes, ObjectBytes, NullBytes;
    StandsContext(f, o);
  }

  /** The serializer accepts exactly the calls the story allows. */
  lemma AcceptedExactly(s: Enc, st: seq<Open>, classes: Classes, op: Op)
    requires Follows(s, st)
    ensures st != [] && (EncStep(s, classes, op).Emit? <==> Allowed(st, classes, op) && (op.Close? ==> |st| > 1))
  {
    hide CodeOf, ValidFrame, Stands, CtxOf, Context;
    TopStands(s, st);
    var f, o := Top(s), LastOpen(st);
    if op.Close? {
      AcceptedClose(f, o);
      assert ValidFrame(f, s.size == 0, false);
      BottomOnly(f, o, s.size == 0);
    } else {
      AcceptedOp(f, o, classes, op, s.size == 0, s.size == STACK_SIZE - 1);
    }
  }

  lemma AcceptedClose(f: Frame, o: Open)
    requires Stands(f, o)
    ensures CloseOf(f).Coded? <==> Allowed([o], map[], Close)
  {
  }

  lemma BottomOnly(f: Frame, o: Open, bottom: bool)
    requires Stands(f, o) && ValidFrame(f, bottom, false)
    ensures bottom <==> o.what.Bottom?
  {
  }

  lemma StandsCharged(f: Frame, o: Open)
    requires Stands(f, o)
    ensures Stands(Charge(f), o.(done := o.done + 1))
  {
  }

  lemma StandsOpened(slot: Frame, classes: Classes, op: Op)
    requires Opens(op) && (op.Object? ==> op.classid in classes)
    ensures Stands(Opened(slot, classes, op), NewOpen(classes, op))
  {
  }

  /** The stacks stay together. */
  lemma FollowsStep(s: Enc, st: seq<Open>, classes: Classes, op: Op)
    requires Follows(s, st) && ValidClasses(classes) && EncStep(s, classes, op).Emit?
    ensures st != [] && (op.Close? ==> |st| > 1)
    ensures Follows(EncStep(s, classes, op).next, After(st, classes, op))
  {
    AcceptedExactly(s, st, classes, op);
    StepKeepsValid(s, classes, op);
    StepBelow(s, classes, op, 0);
    hide EncStep, ValidEnc, ValidClasses, Stands, Charge, Opened, Allowed, NewOpen;
    var next, st' := EncStep(s, classes, op).next, After(st, classes, op);
    StepBelow(s, classes, op, next.size);
    assert |st'| == next.size + 1;
    forall i | 0 <= i <= next.size ensures Stands(next.stack[i], st'[i]) {
      StepBelow(s, classes, op, i);
      if i > s.size {
        StandsOpened(s.stack[i], classes, op);
      } else if i == next.size {
        StandsCharged(s.stack[i], st[i]);
      }
    }
  }

  /** The reader's place for the next child is the one the count tells. */
  lemma PlaceIs(f: Frame, o: Open)
    requires Stands(f, o)
    ensures SlotAt(f) == Place(o.what, o.done + 1)
    ensures !o.what.Bottom? ==> D.TClose(f.kind) == EndOf(o.what)
  {
  }

  lemma {:induction false} ChunksAre(data: bytes)
    ensures ChunkElements(Pieces(data)) == ChunksTold(data)
    decreases |data|
  {
    if |data| > 0xffff {
      ChunksAre(data[0xffff..]);
      var p := Pieces(data);
      assert p[1..] == Pieces(data[0xffff..]);
    } else if data != [] {
      assert Pieces(data)[1..] == [];
      assert ChunkElements([]) == [];
    }
  }

  /** The elements expected of a call are those the story tells. */
  lemma ToldIs(s: Enc, st: seq<Open>, classes: Classes, op: Op)
    requires Follows(s, st) && EncStep(s, classes, op).Emit?
    ensures st != [] && (op.Close? ==> |st| > 1) && Elements(s, op) == Told(st, op)
    ensures Readable(s, op) <==>
      && !(op.Null? && LastOpen(st).what.AString?)
      && !(op.Str? && |op.data| > Longest(Context(LastOpen(st))) && |st| == STACK_SIZE)
  {
    AcceptedExactly(s, st, classes, op);
    TopStands(s, st);
    var f, o := Top(s), LastOpen(st);
    NotFull(s, st, classes, op);
    if op.Close? { assert Stands(s.stack[s.size - 1], st[|st| - 2]); }
    hide EncStep, Allowed, Stands, ValidEnc, Charge, ChunksTold, ChunkElements, Pieces, SlotAt, CtxOf, Context, Place;
    PlaceIs(f, o);
    if op.Close? { PlaceIs(s.stack[s.size - 1], st[|st| - 2]); }
    if op.Chunk? { ChunksAre(op.piece); }
    if op.Str? { ChunksAre(op.data); }
    StringContext(f, o);
  }

  lemma NotFull(s: Enc, st: seq<Open>, classes: Classes, op: Op)
    requires Follows(s, st) && EncStep(s, classes, op).Emit?
    ensures st != [] && (!op.Close? ==> CtxOf(Top(s)) == Context(LastOpen(st)))
    ensures op.Str? ==> Context(LastOpen(st)) == CTX_GLOBAL || Context(LastOpen(st)) == CTX_UIS
  {
    hide Stands;
    TopStands(s, st);
    StandsContext(Top(s), LastOpen(st));
  }

  lemma StringContext(f: Frame, o: Open)
    requires Stands(f, o)
    ensures f.kind.FChunked? <==> o.what.AString?
  {
  }

  /** A whole run: accepted exactly when allowed; then it stands for the tale. */
  lemma {:induction false} RunTells(s: Enc, st: seq<Open>, classes: Classes, ops: seq<Op>)
    requires Follows(s, st) && ValidClasses(classes)
    ensures ValidEnc(s) && st != [] && (EncRun(s, classes, ops).Done? <==> AllAllowed(st, classes, ops))
    ensures EncRun(s, classes, ops).Done? ==>
      EncRun(s, classes, ops).elements == Tale(st, classes, ops) && (Legible(s, classes, ops) <==> Clear(st, classes, ops))
    decreases |ops|
  {
    hide EncStep, Allowed, Told, Elements, Stands, After, Readable;
    if ops != [] {
      AcceptedExactly(s, st, classes, ops[0]);
      if EncStep(s, classes, ops[0]).Emit? {
        ToldIs(s, st, classes, ops[0]);
        FollowsStep(s, st, classes, ops[0]);
        RunTells(EncStep(s, classes, ops[0]).next, After(st, classes, ops[0]), classes, ops[1..]);
      }
    }
  }

  /** From fresh contexts: a run is accepted if and only if the story allows each of its
      calls, and its bytes then read back as the tale, no byte left over, if and only if
      the tale is clear. */
  lemma TaleExactly(classes: Classes, ops: seq<Op>)
    requires ValidClasses(classes)
    ensures var run := EncRun(Init(), classes, ops);
            && (run.Done? <==> AllAllowed(BEGIN, classes, ops))
            && (run.Done? ==>
                  (ReadsBack(classes, run.out, Tale(BEGIN, classes, ops), run.next.size == 0) <==> Clear(BEGIN, classes, ops)))
  {
    hide EncRun, Legible, Tale, AllAllowed, Clear, ReadsBack, ValidClasses;
    FollowsBegin();
    RunTells(Init(), BEGIN, classes, ops);
    if EncRun(Init(), classes, ops).Done? { RoundTripExactly(classes, ops); }
  }

  /** A map of one pair: a key, then a value. */
  lemma OnePair(classes: Classes, x: int64, key: bytes)
    requires ValidClasses(classes) && |key| <= 47
    ensures var ops := [Map(1, CTX_GLOBAL), Str(key), Int(x), Close];
            && AllAllowed(BEGIN, classes, ops)
            && Tale(BEGIN, classes, ops) == [(D.TMap(1), D.KNewContainer), (D.TString(key), D.KMapKey),
                 (D.TInt(x), D.KMapValue), (D.TClose(FMap), D.KTopLevel)]
  {
    var ops := [Map(1, CTX_GLOBAL), Str(key), Int(x), Close];
    var a := After(BEGIN, classes, ops[0]);
    assert a == [Open(Bottom, 0), Open(AMap(CTX_GLOBAL, 1), 0)];
    var b := After(a, classes, ops[1]);
    assert b == [Open(Bottom, 0), Open(AMap(CTX_GLOBAL, 1), 1)];
    var c := After(b, classes, ops[2]);
    assert c == [Open(Bottom, 0), Open(AMap(CTX_GLOBAL, 1), 2)];
    assert ops[1..] == [Str(key), Int(x), Close] && ops[1..][1..] == [Int(x), Close] && ops[1..][1..][1..] == [Close];
    assert [Close][1..] == [];
    assert Tale(c, classes, [Close]) == [(D.TClose(FMap), D.KTopLevel)];
    assert Tale(b, classes, [Int(x), Close]) == [(D.TInt(x), D.KMapValue)] + Tale(c, classes, [Close]);
    assert AllAllowed(b, classes, [Int(x), Close]);
  }
}
