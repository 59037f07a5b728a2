/** What the Bysant serializer emits for each call, as a function of the open
    containers (libs/bysant/bysants.c, on a writer that takes everything). */
module BysantEncoding {
  import opened Bytes
  import opened BysantCommon

  // Status codes (libs/bysant/bysants.h).
  const EOK := 0
  const EAGAIN := 1
  const ETOODEEP := -2
  const EINVALID := -3
  const EBROKEN := -5
  const ENOCONTAINER := -6
  const EBADMAP := -7
  const ESIZE := -8
  const EBADCTXID := -9
  const EBADCONTEXT := -10
  const EBADCLASSID := -11
  const EOUTOFBOUNDS := -13

  /** Conversion to `uint8_t`. */
  function Low(x: int): byte {
    x % 256
  }

  /** `x >> (8*k)`, an arithmetic shift. */
  function Shr8(x: int, k: nat): int {
    if k == 0 then x else Shr8(x, k - 1) / 256
  }

  /** The two's complement big-endian form of x on n bytes. */
  function BigEndian(x: int, n: nat): (r: bytes)
    ensures |r| == n
  {
    if n == 0 then [] else [Low(Shr8(x, n - 1))] + BigEndian(x, n - 1)
  }

  function Offset(x: int, ifNeg: int, ifPos: int): int {
    if x < 0 then -x - (-ifNeg + 1) else x - (ifPos + 1)
  }

  function IntegerBytes(x: int, enc: IntEncoding): bytes {
    if enc.tinyMin <= x <= enc.tinyMax then
      [Low(enc.tinyZero + x)]
    else if enc.smallMin <= x <= enc.smallMax then
      var o := Offset(x, enc.tinyMin, enc.tinyMax);
      [Low((if x < 0 then enc.smallNeg else enc.smallPos) + o / 0x100), Low(o)]
    else if enc.mediumMin <= x <= enc.mediumMax then
      var o := Offset(x, enc.smallMin, enc.smallMax);
      [Low((if x < 0 then enc.mediumNeg else enc.mediumPos) + o / 0x1_0000), Low(o / 0x100), Low(o)]
    else if enc.largeMin <= x <= enc.largeMax then
      var o := Offset(x, enc.mediumMin, enc.mediumMax);
      [Low((if x < 0 then enc.largeNeg else enc.largePos) + o / 0x100_0000),
       Low(o / 0x1_0000), Low(o / 0x100), Low(o)]
    else if -0x8000_0000 <= x < 0x8000_0000 then
      [enc.int32Op] + BigEndian(x, 4)
    else
      [enc.int64Op] + BigEndian(x, 8)
  }

  function UnsignedBytes(x: nat): bytes {
    if x <= UTI_MAX then
      [Low(x + 0x3b)]
    else if x <= USI_MAX then
      var o := x - (UTI_MAX + 1);
      [Low(0xc7 + o / 0x100), Low(o)]
    else if x <= UMI_MAX then
      var o := x - (USI_MAX + 1);
      [Low(0xe7 + o / 0x1_0000), Low(o / 0x100), Low(o)]
    else if x <= ULI_MAX then
      var o := x - (UMI_MAX + 1);
      [Low(0xf7 + o / 0x100_0000), Low(o / 0x1_0000), Low(o / 0x100), Low(o)]
    else
      [0xff] + BigEndian(x, 4)
  }

  /** A 32-bit integer of the INT32 context; the null pattern is escaped. */
  function Int32Bytes(x: int): bytes {
    BigEndian(x, 4) + (if x == -0x8000_0000 then [0x01] else [])
  }

  /** One piece of a chunked string: a length on two bytes, then the data. */
  function ChunkBytes(data: bytes): bytes {
    [Low(|data| / 0x100), Low(|data|)] + data
  }

  /** `writeChunk`: pieces of 65535 bytes, then what is left. */
  function ChunksBytes(data: bytes): bytes {
    if |data| > 0xffff then ChunkBytes(data[..0xffff]) + ChunksBytes(data[0xffff..])
    else if data == [] then []
    else ChunkBytes(data)
  }

  function StringBytes(data: bytes, enc: StringEncoding): bytes {
    var len := |data|;
    if len <= enc.smallLimit then
      [Low(enc.smallOp + len)] + data
    else if len <= enc.mediumLimit then
      var o := len - (enc.smallLimit + 1);
      [Low(enc.mediumOp + o / 0x100), Low(o)] + data
    else if len <= enc.largeLimit then
      var o := len - (enc.mediumLimit + 1);
      [enc.largeOp, Low(o / 0x100), Low(o)] + data
    else
      [enc.chunkedOp] + ChunksBytes(data) + [0, 0]
  }

  /** Opcode of a list or map; a negative length means "not known yet". */
  function CollectionOp(len: int, typed: bool, enc: CollEncoding): byte {
    if len < 0 then if typed then enc.variableTyped else enc.variableUntyped
    else if len == 0 then enc.emptyOp
    else if len <= enc.smallLimit then Low(len + (if typed then enc.smallTyped else enc.smallUntyped) - 1)
    else if typed then enc.longTyped else enc.longUntyped
  }

  function CollectionBytes(len: int, ctxid: byte, enc: CollEncoding): bytes {
    var typed := ctxid != CTX_GLOBAL;
    [CollectionOp(len, typed, enc)]
    + (if len > enc.smallLimit then UnsignedBytes(len - (enc.smallLimit + 1)) else [])
    + (if len != 0 && typed then [ctxid] else [])
  }

  function ObjectBytes(classid: nat): bytes {
    if classid < 0x10 then [0x60 + classid] else [0x70] + UnsignedBytes(classid - 0x10)
  }

  function NullBytes(ctxid: int): bytes {
    if ctxid == CTX_INT32 then [0x80, 0, 0, 0, 0]
    else if ctxid == CTX_FLOAT then [0xff, 0xff, 0xff, 0xff, 0]
    else if ctxid == CTX_DOUBLE then [0xff, 0xff, 0xff, 0xff, 0xff, 0xff, 0xff, 0xff, 0]
    else [0]
  }

  /** The public serializer calls. */
  datatype Op =
    | Int(x: int64)
    | Bool(b: bool)
    | Null
    | Str(data: bytes)
    | Chunk(piece: bytes)
    | Chunked
    | List(len: int32, ctx: nat)
    | Map(len: int32, ctx: nat)
    | Object(classid: uint32)
    | Close

  /** Outcome of a call: the bytes it stands for, or the status that refuses it. */
  datatype Coding = Coded(out: bytes) | Refused(status: int)

  /** The checks a call makes before its transaction starts, and its bytes, given
      the frame it finds on top of the stack. `Close` is treated apart. */
  function CodeOf(f: Frame, classes: Classes, op: Op): Coding
    requires !op.Close?
  {
    var ctx := CtxOf(f);
    match op
    case Int(x) =>
      if ctx == CTX_GLOBAL then Coded(IntegerBytes(x, GLOBAL_INTEGER))
      else if ctx == CTX_NUMBER then Coded(IntegerBytes(x, NUMBER_INTEGER))
      else if ctx == CTX_UIS then
        if x < 0 then Refused(EBADCONTEXT) else Coded(UnsignedBytes(x % 0x1_0000_0000))
      else if ctx == CTX_INT32 then
        if -0x8000_0000 <= x < 0x8000_0000 then Coded(Int32Bytes(x)) else Refused(EOUTOFBOUNDS)
      else Refused(EBADCONTEXT)
    case Bool(b) =>
      if ctx == CTX_GLOBAL then Coded([if b then 0x01 else 0x02]) else Refused(EBADCONTEXT)
    case Null =>
      if f.kind.FZList? || (IsMap(f) && f.even) then Refused(EINVALID) else Coded(NullBytes(ctx))
    case Str(data) =>
      if ctx == CTX_GLOBAL then Coded(StringBytes(data, GLOBAL_STRING))
      else if ctx == CTX_UIS then Coded(StringBytes(data, UIS_STRING))
      else Refused(EBADCONTEXT)
    case Chunk(piece) =>
      if f.ctxid != CTX_CHUNKED then Refused(EBADCONTEXT)
      else if piece == [] then Refused(EINVALID)
      else Coded(ChunksBytes(piece))
    case Chunked =>
      if ctx == CTX_GLOBAL then Coded([GLOBAL_STRING.chunkedOp])
      else if ctx == CTX_UIS then Coded([UIS_STRING.chunkedOp])
      else Refused(EBADCONTEXT)
    case List(len, c) =>
      if ctx != CTX_GLOBAL && ctx != CTX_LISTMAP then Refused(EBADCONTEXT)
      else if c >= CTX_LAST then Refused(EBADCTXID)
      else Coded(CollectionBytes(len, c, if ctx == CTX_GLOBAL then GLOBAL_LIST else LISTMAP_LIST))
    case Map(len, c) =>
      if ctx != CTX_GLOBAL && ctx != CTX_LISTMAP then Refused(EBADCONTEXT)
      else if c >= CTX_LAST then Refused(EBADMAP)
      else Coded(CollectionBytes(len, c, if ctx == CTX_GLOBAL then GLOBAL_MAP else LISTMAP_MAP))
    case Object(id) =>
      if ctx != CTX_GLOBAL then Refused(EBADCONTEXT)
      else if id !in classes then Refused(EBADCLASSID)
      else Coded(ObjectBytes(id))
  }

  /** A fixed container that already holds all its children. */
  predicate Full(f: Frame) {
    IsFixed(f) && f.missing == 0
  }

  /** `commitTransaction` on the top frame: one more child is complete. */
  function Charge(f: Frame): Frame {
    match f.kind
    case FZMap => f.(even := !f.even)
    case FMap => f.(even := !f.even, missing := f.missing - 1)
    case FList => f.(missing := f.missing - 1)
    case FObject => f.(missing := f.missing - 1)
    case _ => f
  }

  predicate Opens(op: Op) {
    op.Chunked? || op.List? || op.Map? || op.Object?
  }

  /** The frame of a container just opened on the slot `slot`, once committed. A
      variable container keeps whatever `missing` the slot had. */
  function Opened(slot: Frame, classes: Classes, op: Op): Frame
    requires Opens(op) && (op.Object? ==> op.classid in classes)
  {
    match op
    case Chunked => slot.(kind := FChunked, ctxid := CTX_CHUNKED)
    case List(len, c) =>
      if len < 0 then slot.(kind := FZList, ctxid := c)
      else slot.(kind := FList, ctxid := c, missing := len)
    case Map(len, c) =>
      if len < 0 then slot.(kind := FZMap, ctxid := c, even := true)
      else slot.(kind := FMap, ctxid := c, missing := 2 * len, even := true)
    case Object(id) =>
      slot.(kind := FObject, ctxid := CTX_OBJECT, missing := |classes[id].fields|, klass := classes[id])
  }

  /** The slot while its opening is in progress: the rest is still what was there. */
  function HalfOpened(slot: Frame, op: Op): Frame
    requires Opens(op)
  {
    match op
    case Chunked => slot.(kind := FChunked, ctxid := CTX_CHUNKED)
    case List(len, c) => slot.(kind := if len < 0 then FZList else FList, ctxid := c)
    case Map(len, c) => slot.(kind := if len < 0 then FZMap else FMap, ctxid := c)
    case Object(_) => slot.(kind := FObject, ctxid := CTX_OBJECT)
  }

  /** Bytes that end a container, or the refusal, given its frame. */
  function CloseOf(f: Frame): Coding {
    match f.kind
    case FTop => Refused(ENOCONTAINER)
    case FZMap => if f.even then Coded(NullBytes(CTX_UIS)) else Refused(EBADMAP)
    case FZList => Coded(NullBytes(f.ctxid))
    case FChunked => Coded([0, 0])
    case _ => if f.missing == 0 then Coded([]) else Refused(ESIZE)
  }

  /** The serializer's stack: all its slots, and the index of the top frame. */
  datatype Enc = Enc(stack: seq<Frame>, size: nat)

  function Init(): Enc {
    Enc([TOP_FRAME] + seq(STACK_SIZE - 1, _ => TOP_FRAME), 0)
  }

  predicate ValidClasses(classes: Classes) {
    forall id <- classes, i | 0 <= i < |classes[id].fields| :: 0 <= classes[id].fields[i] < CTX_LAST
  }

  /** What holds of the frame at depth i; `parent` when a child is open above it. */
  predicate ValidFrame(f: Frame, bottom: bool, parent: bool) {
    && (bottom <==> f.kind.FTop?)
    && (f.kind.FTop? ==> f.ctxid == CTX_GLOBAL)
    && (f.kind.FChunked? ==> f.ctxid == CTX_CHUNKED && !parent)
    && (f.kind.FList? || f.kind.FZList? || IsMap(f) ==> 0 <= f.ctxid < CTX_LAST)
    && (IsFixed(f) ==> (if parent then 1 else 0) <= f.missing)
    && (f.kind.FObject? ==>
          && f.ctxid == CTX_OBJECT
          && f.missing <= |f.klass.fields|
          && forall i | 0 <= i < |f.klass.fields| :: 0 <= f.klass.fields[i] < CTX_LAST)
  }

  predicate ValidEnc(s: Enc) {
    && |s.stack| == STACK_SIZE
    && s.size < STACK_SIZE
    && forall i | 0 <= i <= s.size :: ValidFrame(s.stack[i], i == 0, i < s.size)
  }

  function Top(s: Enc): Frame
    requires ValidEnc(s)
  {
    s.stack[s.size]
  }

  /** The bytes a call will write, or the status that refuses it before any
      write. `seen` is the frame the call finds on top of the stack; it is the top
      of s except after an interrupted opening, whose half-filled frame is still
      there when the next call makes its checks. */
  function Attempt(s: Enc, seen: Frame, broken: bool, classes: Classes, op: Op): Coding
    requires ValidEnc(s)
  {
    if op.Close? then
      if broken && (seen.kind.FZMap? || seen.kind.FZList? || seen.kind.FChunked?) then Refused(EBROKEN)
      else CloseOf(seen)
    else
      var c := CodeOf(seen, classes, op);
      if c.Refused? then c
      else if broken then Refused(EBROKEN)
      else if Full(seen) then Refused(ESIZE)
      else if Opens(op) && s.size == STACK_SIZE - 1 then Refused(ETOODEEP)
      else c
  }

  predicate CanCommit(s: Enc, classes: Classes, op: Op) {
    && (op.Close? ==> s.size > 0)
    && (Opens(op) ==> s.size < STACK_SIZE - 1 && (op.Object? ==> op.classid in classes))
  }

  /** The stack once the call is committed. */
  function Next(s: Enc, classes: Classes, op: Op): Enc
    requires ValidEnc(s) && CanCommit(s, classes, op)
  {
    if op.Close? then Enc(s.stack[s.size - 1 := Charge(s.stack[s.size - 1])], s.size - 1)
    else if Opens(op) then Enc(s.stack[s.size + 1 := Opened(s.stack[s.size + 1], classes, op)], s.size + 1)
    else s.(stack := s.stack[s.size := Charge(Top(s))])
  }

  /** A planned call can be committed, and a refusal is never EAGAIN. */
  lemma PlanFacts(s: Enc, classes: Classes, op: Op)
    requires ValidEnc(s)
    ensures var a := Attempt(s, Top(s), false, classes, op);
            if a.Coded? then CanCommit(s, classes, op) else a.status < 0
  {
    assert ValidFrame(s.stack[s.size], s.size == 0, false);
  }

  lemma InitValid()
    ensures ValidEnc(Init())
  {
  }

  /** The slots while the call is in progress. */
  function Halfway(s: Enc, op: Op): Enc
    requires ValidEnc(s) && (Opens(op) ==> s.size < STACK_SIZE - 1)
  {
    if Opens(op) then s.(stack := s.stack[s.size + 1 := HalfOpened(s.stack[s.size + 1], op)]) else s
  }

  datatype Step = Emit(out: bytes, next: Enc) | Refuse(status: int)

  /** One serializer call on an unbroken context whose writer takes everything. */
  function EncStep(s: Enc, classes: Classes, op: Op): Step
    requires ValidEnc(s)
  {
    match Attempt(s, Top(s), false, classes, op)
    case Refused(status) => Refuse(status)
    case Coded(out) => Emit(out, Next(s, classes, op))
  }

  lemma CodedFacts(f: Frame, classes: Classes, op: Op)
    requires !op.Close? && CodeOf(f, classes, op).Coded?
    ensures op.Object? ==> op.classid in classes
    ensures op.List? || op.Map? ==> op.ctx < CTX_LAST
    ensures Opens(op) ==> CtxOf(f) != CTX_CHUNKED
  {
  }

  /** Every call keeps the stack well formed; in particular the frame that a
      closing or a value charges always has a child left to charge, so the
      size check of `commitTransaction` never fires. */
  lemma StepKeepsValid(s: Enc, classes: Classes, op: Op)
    requires ValidEnc(s) && ValidClasses(classes)
    ensures EncStep(s, classes, op).Emit? ==> ValidEnc(EncStep(s, classes, op).next)
    ensures op.Close? && EncStep(s, classes, op).Emit? ==> !Full(s.stack[s.size - 1])
  {
    hide CodeOf;
    if EncStep(s, classes, op).Emit? {
      if !op.Close? { CodedFacts(Top(s), classes, op); }
      var next := Next(s, classes, op);
      if op.Object? {
        assert forall i | 0 <= i < |classes[op.classid].fields| :: 0 <= classes[op.classid].fields[i] < CTX_LAST;
      }
      assert ValidFrame(s.stack[s.size], s.size == 0, false);
      forall i | 0 <= i <= next.size ensures ValidFrame(next.stack[i], i == 0, i < next.size) {
        if i <= s.size { assert ValidFrame(s.stack[i], i == 0, i < s.size); }
      }
    }
  }
}
