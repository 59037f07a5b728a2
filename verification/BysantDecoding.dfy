/** The Bysant deserializer (libs/bysant/bysantd.c) as a function of its frame
    stack, the bytes at hand and the length the caller announces. */
module BysantDecoding {
  import opened Bytes
  import opened BysantCommon

  // Error codes (libs/bysant/bysantd.h).
  const EINVALID := -2
  const EBADCONTEXT := -3
  const EBADCLASSID := -5
  const ETOODEEP := -6

  /** Contents of a `bsd_data_t`. `TNone` stands for a record whose content was
      not set. Floating point values keep their raw big-endian bytes. */
  datatype Token =
    | TNone
    | TError(code: int)
    | TClose(kind: Kind)
    | TNull
    | TInt(i: int)
    | TBool(b: bool)
    | TDouble(raw: bytes)
    | TString(data: bytes)
    | TChunked
    | TChunk(piece: bytes)
    | TList(len: nat)
    | TZList
    | TMap(len: nat)
    | TZMap
    | TObject(classid: uint32)

  /** Where the element sits, `bsd_data_kind_t`. */
  datatype Slot = KTopLevel | KListItem | KMapKey | KMapValue | KObjField | KChunk | KNewContainer

  datatype Effect = Stay | Push(frame: Frame) | Pop

  /** Result of a decoding routine: n > 0 bytes consumed; n < 0 for lack of data;
      n == 0 with an error token, or with any other token if the opcode is not
      one of the routine's own. */
  datatype Item = Item(n: int, tok: Token, eff: Effect)

  /** What a routine may do to the stack: open a container if there is room for
      it, close the one it was reading. */
  predicate Sane(i: Item, f: Frame, atLimit: bool) {
    match i.eff
    case Stay => true
    case Push(g) => !atLimit && !g.kind.FTop? && (g.kind.FChunked? <==> g.ctxid == CTX_CHUNKED)
    case Pop => !f.kind.FTop?
  }

  const NOT_MINE := Item(0, TNone, Stay)

  /** `CHECK_LENGTH`: a negative length disables the check. */
  predicate Short(length: int, n: int) {
    0 <= length < n
  }

  function Lacking(n: int): Item {
    Item(-n, TNone, Stay)
  }

  function Failed(code: int): Item {
    Item(0, TError(code), Stay)
  }

  /** Byte i of the memory behind `buffer`; past the modelled bytes it reads 0. */
  function At(buffer: bytes, i: nat): byte {
    if i < |buffer| then buffer[i] else 0
  }

  function Slice(buffer: bytes, from: nat, len: nat): bytes {
    if from + len <= |buffer| then buffer[from..from + len]
    else seq<byte>(len, i requires 0 <= i => At(buffer, from + i))
  }

  /** The unsigned value of `n` big-endian bytes starting at `from`. */
  function Unsigned(buffer: bytes, from: nat, n: nat): nat {
    if n == 0 then 0 else Unsigned(buffer, from, n - 1) * 256 + At(buffer, from + n - 1)
  }

  function Signed32(u: int): int {
    if u < 0x8000_0000 then u else u - 0x1_0000_0000
  }

  function Signed64(u: int): int {
    if u < 0x8000_0000_0000_0000 then u else u - 0x1_0000_0000_0000_0000
  }

  function DecodeInteger(buffer: bytes, length: int, enc: IntEncoding): Item {
    var op := At(buffer, 0);
    if Short(length, 1) then Lacking(1)
    else if enc.tinyZero + enc.tinyMin <= op <= enc.tinyZero + enc.tinyMax then
      Item(1, TInt(op - enc.tinyZero), Stay)
    else if enc.smallPos <= op < enc.smallNeg then
      if Short(length, 2) then Lacking(2)
      else Item(2, TInt((op - enc.smallPos) * 0x100 + At(buffer, 1) + enc.tinyMax + 1), Stay)
    else if enc.smallNeg <= op < enc.mediumPos then
      if Short(length, 2) then Lacking(2)
      else Item(2, TInt(-((op - enc.smallNeg) * 0x100 + At(buffer, 1)) + enc.tinyMin - 1), Stay)
    else if enc.mediumPos <= op < enc.mediumNeg then
      if Short(length, 3) then Lacking(3)
      else Item(3, TInt((op - enc.mediumPos) * 0x1_0000 + At(buffer, 1) * 0x100 + At(buffer, 2) + enc.smallMax + 1), Stay)
    else if enc.mediumNeg <= op < enc.largePos then
      if Short(length, 3) then Lacking(3)
      else Item(3, TInt(-((op - enc.mediumNeg) * 0x1_0000 + At(buffer, 1) * 0x100 + At(buffer, 2)) + enc.smallMin - 1), Stay)
    else if enc.largePos <= op < enc.largeNeg then
      if Short(length, 4) then Lacking(4)
      else Item(4, TInt((op - enc.largePos) * 0x100_0000 + At(buffer, 1) * 0x1_0000 + At(buffer, 2) * 0x100
                        + At(buffer, 3) + enc.mediumMax + 1), Stay)
    else if enc.largeNeg <= op <= enc.lastLargeNeg then
      if Short(length, 4) then Lacking(4)
      else Item(4, TInt(-((op - enc.largeNeg) * 0x100_0000 + At(buffer, 1) * 0x1_0000 + At(buffer, 2) * 0x100
                          + At(buffer, 3)) + enc.mediumMin - 1), Stay)
    else if op == enc.int32Op then
      if Short(length, 5) then Lacking(5) else Item(5, TInt(Signed32(Unsigned(buffer, 1, 4))), Stay)
    else if op == enc.int64Op then
      if Short(length, 9) then Lacking(9) else Item(9, TInt(Signed64(Unsigned(buffer, 1, 8))), Stay)
    else NOT_MINE
  }

  /** `openContainer`: both keys and values of a map count as children. */
  function Opening(atLimit: bool, n: int, tok: Token, frame: Frame): Item {
    if atLimit then Failed(ETOODEEP) else Item(n, tok, Push(frame))
  }

  function NewFrame(kind: Kind, ctxid: int, missing: int): Frame {
    var map_ := kind.FMap? || kind.FZMap?;
    Frame(kind, ctxid, if map_ then 2 * missing else missing, map_, NO_CLASS)
  }

  function DecodeString(buffer: bytes, length: int, atLimit: bool, enc: StringEncoding): Item {
    var op := At(buffer, 0);
    if Short(length, 1) then Lacking(1)
    else if enc.smallOp <= op < enc.mediumOp then
      var len := op - enc.smallOp;
      if Short(length, len + 1) then Lacking(len + 1) else Item(len + 1, TString(Slice(buffer, 1, len)), Stay)
    else if enc.mediumOp <= op < enc.largeOp then
      if Short(length, 2) then Lacking(2) else
      var len := (op - enc.mediumOp) * 0x100 + At(buffer, 1) + enc.smallLimit + 1;
      if Short(length, len + 2) then Lacking(len + 2) else Item(len + 2, TString(Slice(buffer, 2, len)), Stay)
    else if op == enc.largeOp then
      if Short(length, 3) then Lacking(3) else
      var len := At(buffer, 1) * 0x100 + At(buffer, 2) + enc.mediumLimit + 1;
      if Short(length, len + 3) then Lacking(len + 3) else Item(len + 3, TString(Slice(buffer, 3, len)), Stay)
    else if op == enc.chunkedOp then
      Opening(atLimit, 1, TChunked, NewFrame(FChunked, CTX_CHUNKED, -1))
    else NOT_MINE
  }

  /** `decodeNull`: in a variable container the null token is the terminator. */
  function DecodeNull(n: int, f: Frame): Item {
    if f.kind.FZList? || (f.kind.FZMap? && f.even) then Item(n, TClose(f.kind), Pop)
    else Item(n, TNull, Stay)
  }

  /** The unsigned-or-string context. */
  function DecodeUis(buffer: bytes, length: int, f: Frame, atLimit: bool): (r: Item)
    ensures r.tok.TInt? ==> r.tok.i >= 0
    ensures Sane(r, f, atLimit)
  {
    var op := At(buffer, 0);
    if Short(length, 1) then Lacking(1) else
    var s := DecodeString(buffer, length, atLimit, UIS_STRING);
    if s.n != 0 || s.tok.TError? then s
    else if 0x3b <= op <= 0xc6 then Item(1, TInt(op - 0x3b), Stay)
    else if 0xc7 <= op <= 0xe6 then
      if Short(length, 2) then Lacking(2) else
      Item(2, TInt((op - 0xc7) * 0x100 + At(buffer, 1) + UTI_MAX + 1), Stay)
    else if 0xe7 <= op <= 0xf6 then
      if Short(length, 3) then Lacking(3) else
      Item(3, TInt((op - 0xe7) * 0x1_0000 + At(buffer, 1) * 0x100 + At(buffer, 2) + USI_MAX + 1), Stay)
    else if 0xf7 <= op <= 0xfe then
      if Short(length, 4) then Lacking(4) else
      Item(4, TInt((op - 0xf7) * 0x100_0000 + At(buffer, 1) * 0x1_0000 + At(buffer, 2) * 0x100 + At(buffer, 3) + UMI_MAX + 1), Stay)
    else if op == 0xff then
      if Short(length, 5) then Lacking(5) else Item(5, TInt(Unsigned(buffer, 1, 4)), Stay)
    else if op == 0x00 then DecodeNull(1, f)
    else Failed(EINVALID)
  }

  /** `CHECK_SUBDECODE` when the inner read did not give an integer. The count
      returned for an inner lack of data has the wrong sign, as in the source. */
  function SubFailed(nread: int, sub: Item): Item {
    if sub.n <= 0 then sub.(n := -nread - sub.n) else Item(0, TError(EINVALID), sub.eff)
  }

  function CollToken(kind: Kind, len: nat): Token {
    match kind
    case FMap => TMap(len)
    case FZMap => TZMap
    case FList => TList(len)
    case _ => TZList
  }

  /** The long headers pass `length + 1` where `length - 1` bytes are left. */
  function DecodeCollection(buffer: bytes, length: int, f: Frame, atLimit: bool, enc: CollEncoding): (r: Item)
    requires (enc.fixedKind, enc.variableKind) in {(FList, FZList), (FMap, FZMap)}
    ensures Sane(r, f, atLimit)
  {
    var op := At(buffer, 0);
    if Short(length, 1) then Lacking(1)
    else if op == enc.emptyOp then
      Opening(atLimit, 1, CollToken(enc.fixedKind, 0), NewFrame(enc.fixedKind, CTX_GLOBAL, 0))
    else if enc.smallUntyped <= op <= enc.smallUntyped + enc.smallLimit - 1 then
      var len := op - enc.smallUntyped + 1;
      Opening(atLimit, 1, CollToken(enc.fixedKind, len), NewFrame(enc.fixedKind, CTX_GLOBAL, len))
    else if op == enc.longUntyped then
      var sub := DecodeUis(Tail(buffer), length + 1, f, atLimit);
      if sub.n <= 0 || !sub.tok.TInt? then SubFailed(1, sub) else
      var len := sub.tok.i + enc.smallLimit + 1;
      Opening(atLimit, 1 + sub.n, CollToken(enc.fixedKind, len), NewFrame(enc.fixedKind, CTX_GLOBAL, len))
    else if op == enc.variableUntyped then
      Opening(atLimit, 1, CollToken(enc.variableKind, 0), NewFrame(enc.variableKind, CTX_GLOBAL, -1))
    else if enc.smallTyped <= op <= enc.smallTyped + enc.smallLimit - 1 then
      if Short(length, 2) then Lacking(2) else
      var len := op - enc.smallTyped + 1;
      Opening(atLimit, 2, CollToken(enc.fixedKind, len), NewFrame(enc.fixedKind, At(buffer, 1), len))
    else if op == enc.longTyped then
      var sub := DecodeUis(Tail(buffer), length + 1, f, atLimit);
      if sub.n <= 0 || !sub.tok.TInt? then SubFailed(1, sub) else
      var nread := 1 + sub.n + 1;
      if Short(length, nread) then Lacking(nread) else
      var len := sub.tok.i + enc.smallLimit + 1;
      Opening(atLimit, nread, CollToken(enc.fixedKind, len), NewFrame(enc.fixedKind, At(buffer, nread - 1), len))
    else if op == enc.variableTyped then
      if Short(length, 2) then Lacking(2) else
      Opening(atLimit, 2, CollToken(enc.variableKind, 0), NewFrame(enc.variableKind, At(buffer, 1), -1))
    else NOT_MINE
  }

  function Tail(buffer: bytes): bytes {
    if buffer == [] then [] else buffer[1..]
  }

  function DecodeObject(n: int, id: nat, classes: Classes, atLimit: bool): Item {
    var cid: uint32 := id % 0x1_0000_0000;
    if cid !in classes then Failed(EBADCLASSID)
    else Opening(atLimit, n, TObject(cid), Frame(FObject, CTX_GLOBAL, |classes[cid].fields|, false, classes[cid]))
  }

  /** Runs the first routine, and the second one if the opcode was not its own. */
  predicate Settled(i: Item) {
    i.n != 0 || i.tok.TError?
  }

  function DecodeGlobal(buffer: bytes, length: int, f: Frame, atLimit: bool, classes: Classes): (r: Item)
    ensures Sane(r, f, atLimit)
  {
    if Short(length, 1) then Lacking(1) else
    var op := At(buffer, 0);
    var int_ := DecodeInteger(buffer, length, GLOBAL_INTEGER);
    if Settled(int_) then int_ else
    var str := DecodeString(buffer, length, atLimit, GLOBAL_STRING);
    if Settled(str) then str else
    var list := DecodeCollection(buffer, length, f, atLimit, GLOBAL_LIST);
    if Settled(list) then list else
    var map_ := DecodeCollection(buffer, length, f, atLimit, GLOBAL_MAP);
    if Settled(map_) then map_ else
    if 0x60 <= op <= 0x6f then DecodeObject(1, op - 0x60, classes, atLimit)
    else if op == 0x00 then DecodeNull(1, f)
    else if op == 0x01 then Item(1, TBool(true), Stay)
    else if op == 0x02 then Item(1, TBool(false), Stay)
    else if op == 0x70 then
      var sub := DecodeUis(Tail(buffer), length - 1, f, atLimit);
      if sub.n <= 0 || !sub.tok.TInt? then SubFailed(1, sub)
      else DecodeObject(1 + sub.n, sub.tok.i + 0x10, classes, atLimit)
    else if op == 0xfe then
      if Short(length, 5) then Lacking(5) else Item(5, TDouble(Slice(buffer, 1, 4)), Stay)
    else if op == 0xff then
      if Short(length, 9) then Lacking(9) else Item(9, TDouble(Slice(buffer, 1, 8)), Stay)
    else Failed(EINVALID)
  }

  function DecodeNumber(buffer: bytes, length: int, f: Frame): (r: Item)
    ensures Sane(r, f, true)
  {
    if Short(length, 1) then Lacking(1) else
    var op := At(buffer, 0);
    var int_ := DecodeInteger(buffer, length, NUMBER_INTEGER);
    if Settled(int_) then int_
    else if op == 0x00 then DecodeNull(1, f)
    else if op == 0xfe then
      if Short(length, 5) then Lacking(5) else Item(5, TDouble(Slice(buffer, 1, 4)), Stay)
    else if op == 0xff then
      if Short(length, 9) then Lacking(9) else Item(9, TDouble(Slice(buffer, 1, 8)), Stay)
    else Failed(EINVALID)
  }

  /** Fixed-width contexts: one bit pattern is followed by an escape byte. */
  function DecodeEscaped(buffer: bytes, length: int, f: Frame, width: nat, value: Token): (r: Item)
    ensures Sane(r, f, true)
  {
    if Short(length, width + 1) then Lacking(width + 1)
    else if At(buffer, width) == 0x00 then DecodeNull(width + 1, f)
    else if At(buffer, width) == 0x01 then Item(width + 1, value, Stay)
    else Failed(EINVALID)
  }

  function DecodeInt32(buffer: bytes, length: int, f: Frame): (r: Item)
    ensures Sane(r, f, true)
  {
    if Short(length, 4) then Lacking(4) else
    var u := Unsigned(buffer, 0, 4);
    if u == 0x8000_0000 then DecodeEscaped(buffer, length, f, 4, TInt(Signed32(u)))
    else Item(4, TInt(Signed32(u)), Stay)
  }

  function DecodeFloat(buffer: bytes, length: int, f: Frame, width: nat): (r: Item)
    ensures Sane(r, f, true)
  {
    if Short(length, width) then Lacking(width) else
    var raw := Slice(buffer, 0, width);
    if raw == seq(width, _ => 0xff) then DecodeEscaped(buffer, length, f, width, TDouble(raw))
    else Item(width, TDouble(raw), Stay)
  }

  function DecodeListMap(buffer: bytes, length: int, f: Frame, atLimit: bool): (r: Item)
    ensures Sane(r, f, atLimit)
  {
    if Short(length, 1) then Lacking(1) else
    var list := DecodeCollection(buffer, length, f, atLimit, LISTMAP_LIST);
    if Settled(list) then list else
    var map_ := DecodeCollection(buffer, length, f, atLimit, LISTMAP_MAP);
    if Settled(map_) then map_
    else if At(buffer, 0) == 0x00 then DecodeNull(1, f)
    else Failed(EINVALID)
  }

  function DecodeChunk(buffer: bytes, length: int): Item {
    if Short(length, 2) then Lacking(2) else
    var size := At(buffer, 0) * 0x100 + At(buffer, 1);
    if size == 0 then Item(2, TClose(FChunked), Pop)
    else if Short(length, size + 2) then Lacking(size + 2)
    else Item(size + 2, TChunk(Slice(buffer, 2, size)), Stay)
  }

  /** The routine of the context in which the top frame codes its next child. */
  function DecodeIn(buffer: bytes, length: int, f: Frame, atLimit: bool, classes: Classes): (r: Item)
    requires f.kind.FTop? ==> f.ctxid != CTX_CHUNKED
    ensures Sane(r, f, atLimit)
  {
    var ctx := CtxOf(f);
    if ctx == CTX_GLOBAL then DecodeGlobal(buffer, length, f, atLimit, classes)
    else if ctx == CTX_UIS then DecodeUis(buffer, length, f, atLimit)
    else if ctx == CTX_NUMBER then DecodeNumber(buffer, length, f)
    else if ctx == CTX_INT32 then DecodeInt32(buffer, length, f)
    else if ctx == CTX_FLOAT then DecodeFloat(buffer, length, f, 4)
    else if ctx == CTX_DOUBLE then DecodeFloat(buffer, length, f, 8)
    else if ctx == CTX_LISTMAP then DecodeListMap(buffer, length, f, atLimit)
    else if ctx == CTX_CHUNKED then DecodeChunk(buffer, length)
    else Failed(EBADCONTEXT)
  }

  function SlotOf(f: Frame): Slot {
    match f.kind
    case FTop => KTopLevel
    case FMap => if f.even then KMapValue else KMapKey
    case FZMap => if f.even then KMapValue else KMapKey
    case FObject => KObjField
    case FList => KListItem
    case FZList => KListItem
    case FChunked => KChunk
  }

  /** The deserializer's open frames, outermost first. */
  type Frames = seq<Frame>

  predicate ValidDec(d: Frames) {
    && 0 < |d| <= STACK_SIZE
    && d[0].missing < 0
    && forall i | 0 <= i < |d| :: (d[i].kind.FTop? <==> i == 0) && (d[i].kind.FChunked? <==> d[i].ctxid == CTX_CHUNKED)
  }

  const DEC_INIT: Frames := [TOP_FRAME]

  /** The deserializer charges a child to its parent as soon as it is read, that
      is, for a container, when it opens. */
  function ChargeRead(f: Frame): Frame {
    f.(missing := if f.missing > 0 then f.missing - 1 else f.missing,
       even := if IsMap(f) then !f.even else f.even)
  }

  function Last(d: Frames): Frame
    requires |d| > 0
  {
    d[|d| - 1]
  }

  function Apply(d: Frames, eff: Effect): Frames
    requires |d| > 0
  {
    match eff
    case Stay => d
    case Push(f) => d + [f]
    case Pop => d[..|d| - 1]
  }

  datatype Reading = Reading(n: int, tok: Token, slot: Slot, next: Frames)

  /** What `bsd_read` does once the element is decoded: charge it to the frame it
      was read in, unless it is an error or lacks data. */
  function Settle(d: Frames, item: Item): Reading
    requires ValidDec(d) && Sane(item, Last(d), |d| == STACK_SIZE)
  {
    if item.n < 0 || item.tok.TError? then Reading(item.n, item.tok, KTopLevel, Apply(d, item.eff))
    else
      var next := Apply(d[|d| - 1 := ChargeRead(Last(d))], item.eff);
      Reading(item.n, item.tok, if item.eff.Push? then KNewContainer else SlotOf(Last(next)), next)
  }

  /** `bsd_read`: a fixed container that is complete closes without consuming
      anything; otherwise one element is decoded and charged. */
  function ReadNext(d: Frames, classes: Classes, buffer: bytes, length: int): Reading
    requires ValidDec(d)
  {
    var f := Last(d);
    if f.missing == 0 then
      var rest := d[..|d| - 1];
      Reading(0, TClose(f.kind), SlotOf(Last(rest)), rest)
    else
      Settle(d, DecodeIn(buffer, length, f, |d| == STACK_SIZE, classes))
  }

  lemma ReadKeepsValid(d: Frames, classes: Classes, buffer: bytes, length: int)
    requires ValidDec(d)
    ensures ValidDec(ReadNext(d, classes, buffer, length).next)
  {
  }

  datatype Outcome = Outcome(elements: seq<(Token, Slot)>, used: nat, next: Frames)

  /** The reader with its classes fixed and the length of the buffer announced. */
  function Reader(classes: Classes): (Frames, bytes) -> Reading {
    (d, buffer) => if ValidDec(d) then ReadNext(d, classes, buffer, |buffer|)
                   else Reading(0, TError(EINVALID), KTopLevel, d)
  }

  /** k successive reads, each on what the previous ones left; None if one fails. */
  function ReadMany(read: (Frames, bytes) -> Reading, d: Frames, buffer: bytes, k: nat): Option<Outcome>
    decreases k
  {
    if k == 0 then Some(Outcome([], 0, d)) else
    var r := read(d, buffer);
    if r.tok.TError? || !(0 <= r.n <= |buffer|) then None else
    match ReadMany(read, r.next, buffer[r.n..], k - 1)
    case None => None
    case Some(o) => Some(Outcome([(r.tok, r.slot)] + o.elements, r.n + o.used, o.next))
  }
}
