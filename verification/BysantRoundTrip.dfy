/** Reading back what a run of serializer calls emitted. The serializer charges
    a container to its parent when it closes, the deserializer when it opens;
    the relation `Sim` ties the two stacks together. */
module BysantRoundTrip {
  import opened Bytes
  import opened BysantCommon
  import opened BysantEncoding
  import opened BysantValues
  import D = BysantDecoding

  type Element = (D.Token, D.Slot)

  // ----- collection headers

  function HeaderFrame(len: int, c: int, enc: CollEncoding): Frame {
    if len < 0 then D.NewFrame(enc.variableKind, c, -1)
    else D.NewFrame(enc.fixedKind, if len == 0 then CTX_GLOBAL else c, len)
  }

  function HeaderToken(len: int, enc: CollEncoding): D.Token {
    if len < 0 then D.CollToken(enc.variableKind, 0) else D.CollToken(enc.fixedKind, len)
  }

  ghost predicate Table(enc: CollEncoding) {
    enc == GLOBAL_LIST || enc == GLOBAL_MAP || enc == LISTMAP_LIST || enc == LISTMAP_MAP
  }

  /** A long header whose length field reads as v on n bytes. */
  lemma LongForm(v: nat, n: nat, typed: bool, enc: CollEncoding, buffer: bytes, length: int, f: Frame)
    requires Table(enc) && n > 0
    requires D.At(buffer, 0) == (if typed then enc.longTyped else enc.longUntyped)
    requires D.DecodeUis(D.Tail(buffer), length + 1, f, false) == D.Item(n, D.TInt(v), D.Stay)
    requires length >= (if typed then n + 2 else n + 1)
    ensures var len := v + enc.smallLimit + 1;
            var c := if typed then D.At(buffer, 1 + n) else CTX_GLOBAL;
            D.DecodeCollection(buffer, length, f, false, enc)
            == D.Item(if typed then n + 2 else n + 1, D.CollToken(enc.fixedKind, len), D.Push(D.NewFrame(enc.fixedKind, c, len)))
  {
  }

  lemma LongBytes(len: int32, c: byte, enc: CollEncoding)
    requires Table(enc) && len > enc.smallLimit
    ensures var typed := c != CTX_GLOBAL;
            CollectionBytes(len, c, enc)
            == [if typed then enc.longTyped else enc.longUntyped] + UnsignedBytes(len - (enc.smallLimit + 1))
               + (if typed then [c] else [])
    ensures UnsignedBytes(len - (enc.smallLimit + 1)) != []
  {
  }

  lemma InnerBytes(buffer: bytes, op: byte, u: bytes, tail: bytes)
    requires [op] + u + tail <= buffer
    ensures D.At(buffer, 0) == op && u <= D.Tail(buffer)
    ensures tail != [] ==> D.At(buffer, 1 + |u|) == tail[0]
  {
    var e := [op] + u + tail;
    assert buffer[1..][..|u|] == buffer[1..1 + |u|] == e[1..1 + |u|] == u;
    assert tail != [] ==> e[1 + |u|] == tail[0];
  }

  lemma LongHeader(len: int32, c: byte, enc: CollEncoding, buffer: bytes, length: int, f: Frame)
    requires Table(enc) && c < CTX_LAST && len > enc.smallLimit
    requires CollectionBytes(len, c, enc) <= buffer && |CollectionBytes(len, c, enc)| <= length
    ensures D.DecodeCollection(buffer, length, f, false, enc)
         == D.Item(|CollectionBytes(len, c, enc)|, HeaderToken(len, enc), D.Push(HeaderFrame(len, c, enc)))
  {
    var typed := c != CTX_GLOBAL;
    var v := len - (enc.smallLimit + 1);
    var u := UnsignedBytes(v);
    LongBytes(len, c, enc);
    hide CollectionBytes, UnsignedBytes, D.DecodeCollection, D.DecodeUis, D.At, D.Tail, Table;
    InnerBytes(buffer, if typed then enc.longTyped else enc.longUntyped, u, if typed then [c] else []);
    UnsignedRoundTrip(v, D.Tail(buffer), length + 1, f, false);
    LongForm(v, |u|, typed, enc, buffer, length, f);
  }

  /** Every list or map header, in both contexts that allow one. */
  lemma HeaderRoundTrip(len: int32, c: byte, enc: CollEncoding, buffer: bytes, length: int, f: Frame)
    requires Table(enc) && c < CTX_LAST
    requires CollectionBytes(len, c, enc) <= buffer && |CollectionBytes(len, c, enc)| <= length
    ensures D.DecodeCollection(buffer, length, f, false, enc)
         == D.Item(|CollectionBytes(len, c, enc)|, HeaderToken(len, enc), D.Push(HeaderFrame(len, c, enc)))
  {
    var e := CollectionBytes(len, c, enc);
    assert D.At(buffer, 0) == e[0];
    if len > enc.smallLimit {
      LongHeader(len, c, enc, buffer, length, f);
    } else if len != 0 && c != CTX_GLOBAL {
      assert D.At(buffer, 1) == e[1] == c;
    }
  }

  /** Opcode ranges: which routine of the global context owns a byte. */
  lemma Dispatch(buffer: bytes, length: int, f: Frame, atLimit: bool)
    requires !D.Short(length, 1)
    ensures D.At(buffer, 0) < 0x80 ==> D.DecodeInteger(buffer, length, GLOBAL_INTEGER) == D.NOT_MINE
    ensures D.At(buffer, 0) < 0x03 || D.At(buffer, 0) > 0x29 ==>
              D.DecodeString(buffer, length, atLimit, GLOBAL_STRING) == D.NOT_MINE
    ensures D.At(buffer, 0) < 0x2a || D.At(buffer, 0) > 0x40 ==>
              D.DecodeCollection(buffer, length, f, atLimit, GLOBAL_LIST) == D.NOT_MINE
    ensures D.At(buffer, 0) < 0x41 || D.At(buffer, 0) > 0x57 ==>
              D.DecodeCollection(buffer, length, f, atLimit, GLOBAL_MAP) == D.NOT_MINE
    ensures D.At(buffer, 0) == 0 || D.At(buffer, 0) > 0x7d ==>
              D.DecodeCollection(buffer, length, f, atLimit, LISTMAP_LIST) == D.NOT_MINE
    ensures D.At(buffer, 0) < 0x83 ==>
              D.DecodeCollection(buffer, length, f, atLimit, LISTMAP_MAP) == D.NOT_MINE
  {
  }

  lemma HeaderRange(len: int32, c: byte, enc: CollEncoding)
    requires Table(enc) && c < CTX_LAST
    ensures CollectionBytes(len, c, enc) != []
    ensures var op := CollectionBytes(len, c, enc)[0];
            match (enc.emptyOp)
            case 0x2a => 0x2a <= op <= 0x40
            case 0x41 => 0x41 <= op <= 0x57
            case 0x01 => 0x01 <= op <= 0x7d
            case _ => 0x83 <= op
  {
  }

  // ----- the two stacks

  /** Frame e of the serializer, charged for a child in progress if there is
      one, against frame d of the deserializer. */
  ghost predicate FrameSim(e: Frame, d: Frame) {
    && d.kind == e.kind
    && (e.kind.FTop? ==> d == TOP_FRAME)
    && (if IsFixed(e) then d.missing == e.missing else d.missing < 0)
    && (IsMap(e) ==> d.even == e.even)
    && (if e.kind.FObject? then d.klass == e.klass && d.ctxid == CTX_GLOBAL
        else d.ctxid == e.ctxid || (IsFixed(e) && e.missing == 0 && d.ctxid == CTX_GLOBAL))
  }

  function Progress(s: Enc, i: nat): Frame
    requires ValidEnc(s) && i <= s.size
  {
    if i < s.size then Charge(s.stack[i]) else s.stack[i]
  }

  ghost predicate Sim(s: Enc, d: D.Frames) {
    && ValidEnc(s)
    && D.ValidDec(d)
    && |d| == s.size + 1
    && forall i | 0 <= i <= s.size :: FrameSim(Progress(s, i), d[i])
  }

  /** The position the next child of a frame will take. */
  function SlotAt(f: Frame): D.Slot {
    D.SlotOf(Charge(f))
  }

  function Pieces(data: bytes): seq<bytes> {
    if |data| > 0xffff then [data[..0xffff]] + Pieces(data[0xffff..])
    else if data == [] then []
    else [data]
  }

  function ChunkElements(pieces: seq<bytes>): seq<Element> {
    if pieces == [] then [] else [(D.TChunk(pieces[0]), D.KChunk)] + ChunkElements(pieces[1..])
  }

  predicate Long(f: Frame, data: bytes) {
    |data| > (if CtxOf(f) == CTX_GLOBAL then GLOBAL_STRING.largeLimit else UIS_STRING.largeLimit)
  }

  /** The token of a call that a reader sees as one element. */
  function TokenOf(f: Frame, op: Op): D.Token {
    match op
    case Int(x) => D.TInt(if CtxOf(f) == CTX_UIS then x % 0x1_0000_0000 else x)
    case Bool(b) => D.TBool(b)
    case Null => D.TNull
    case Str(data) => D.TString(data)
    case Chunk(piece) => D.TChunk(piece)
    case Chunked => D.TChunked
    case List(len, _) => if len < 0 then D.TZList else D.TList(len)
    case Map(len, _) => if len < 0 then D.TZMap else D.TMap(len)
    case Object(id) => D.TObject(id)
    case Close => D.TClose(f.kind)
  }

  /** What a reader must see for a call: one element, except that long strings
      and chunks arrive in pieces. */
  function Elements(s: Enc, op: Op): seq<Element>
    requires ValidEnc(s) && (op.Close? ==> s.size > 0)
  {
    var f := Top(s);
    if op.Chunk? then ChunkElements(Pieces(op.piece))
    else if op.Str? && Long(f, op.data) then
      [(D.TChunked, D.KNewContainer)] + ChunkElements(Pieces(op.data)) + [(D.TClose(FChunked), SlotAt(f))]
    else if op.Close? then [(TokenOf(f, op), SlotAt(s.stack[s.size - 1]))]
    else [(TokenOf(f, op), if Opens(op) then D.KNewContainer else SlotAt(f))]
  }

  /** The two calls the serializer takes but no reader can follow: a null inside
      a chunked string, and a long string when no frame is left for it. */
  predicate Readable(s: Enc, op: Op)
    requires ValidEnc(s)
  {
    && !(op.Null? && Top(s).kind.FChunked?)
    && !(op.Str? && Long(Top(s), op.data) && s.size == STACK_SIZE - 1)
  }

  lemma SameContext(s: Enc, d: D.Frames)
    requires Sim(s, d) && !Full(Top(s))
    ensures CtxOf(D.Last(d)) == CtxOf(Top(s))
    ensures D.Last(d).missing != 0
  {
    assert FrameSim(Progress(s, s.size), d[s.size]);
  }

  lemma AfterValue(s: Enc, d: D.Frames, n: nat, tok: D.Token)
    requires Sim(s, d) && !Full(Top(s)) && !tok.TError?
    ensures var r := D.Settle(d, D.Item(n, tok, D.Stay));
            && r.n == n && r.tok == tok && r.slot == SlotAt(Top(s))
            && Sim(s.(stack := s.stack[s.size := Charge(Top(s))]), r.next)
  {
    var next := s.(stack := s.stack[s.size := Charge(Top(s))]);
    var r := d[s.size := D.ChargeRead(d[s.size])];
    assert FrameSim(Progress(s, s.size), d[s.size]);
    forall i | 0 <= i <= s.size ensures FrameSim(Progress(next, i), r[i]) {
      assert FrameSim(Progress(s, i), d[i]);
    }
  }

  /** Charging a frame for a child that opens, on both sides. */
  lemma ChargedSim(e: Frame, d: Frame, bottom: bool)
    requires FrameSim(e, d) && ValidFrame(e, bottom, false) && !Full(e) && !e.kind.FChunked?
    ensures FrameSim(Charge(e), D.ChargeRead(d)) && ValidFrame(e, bottom, true)
  {
  }

  lemma AfterOpen(s: Enc, d: D.Frames, n: nat, tok: D.Token, f: Frame, g: Frame)
    requires Sim(s, d) && !Full(Top(s)) && !Top(s).kind.FChunked? && s.size < STACK_SIZE - 1
    requires !tok.TError?
    requires ValidFrame(f, false, false) && FrameSim(f, g)
    requires g.kind.FChunked? <==> g.ctxid == CTX_CHUNKED
    ensures var r := D.Settle(d, D.Item(n, tok, D.Push(g)));
            && r.n == n && r.tok == tok && r.slot == D.KNewContainer
            && Sim(Enc(s.stack[s.size + 1 := f], s.size + 1), r.next)
  {
    var next := Enc(s.stack[s.size + 1 := f], s.size + 1);
    var r := d[s.size := D.ChargeRead(d[s.size])] + [g];
    assert FrameSim(Progress(s, s.size), d[s.size]);
    ChargedSim(Top(s), d[s.size], s.size == 0);
    hide FrameSim, ValidFrame, Charge;
    forall i | 0 <= i <= next.size
      ensures FrameSim(Progress(next, i), r[i])
      ensures ValidFrame(next.stack[i], i == 0, i < next.size)
    {
      if i <= s.size {
        assert FrameSim(Progress(s, i), d[i]);
        assert ValidFrame(s.stack[i], i == 0, i < s.size);
      }
    }
    assert D.ValidDec(r) by { OpenedDec(d, g, s.size); }
  }

  lemma OpenedDec(d: D.Frames, g: Frame, top: nat)
    requires D.ValidDec(d) && |d| == top + 1 < STACK_SIZE && !g.kind.FTop? && (g.kind.FChunked? <==> g.ctxid == CTX_CHUNKED)
    ensures D.ValidDec(d[top := D.ChargeRead(d[top])] + [g])
  {
  }

  /** Popping the top frame restores the relation: what the serializer charges
      to the parent now, the deserializer charged when the container opened. */
  lemma AfterPop(s: Enc, d: D.Frames)
    requires Sim(s, d) && s.size > 0
    ensures Sim(Enc(s.stack[s.size - 1 := Charge(s.stack[s.size - 1])], s.size - 1), d[..|d| - 1])
    ensures D.SlotOf(D.Last(d[..|d| - 1])) == SlotAt(s.stack[s.size - 1])
  {
    var next := Enc(s.stack[s.size - 1 := Charge(s.stack[s.size - 1])], s.size - 1);
    forall i | 0 <= i <= next.size
      ensures FrameSim(Progress(next, i), d[i])
      ensures ValidFrame(next.stack[i], i == 0, i < next.size)
    {
      assert FrameSim(Progress(s, i), d[i]);
      assert ValidFrame(s.stack[i], i == 0, i < s.size);
    }
  }

  // ----- one element, in the context of the frame it is read in

  lemma IntItem(x: int64, g: Frame, atLimit: bool, classes: Classes, rest: bytes)
    requires CtxOf(g) in {CTX_GLOBAL, CTX_NUMBER, CTX_UIS, CTX_INT32}
    requires CtxOf(g) == CTX_UIS ==> x >= 0
    requires CtxOf(g) == CTX_INT32 ==> -0x8000_0000 <= x < 0x8000_0000
    ensures var e := CodeOf(g, classes, Int(x)).out;
            var v := if CtxOf(g) == CTX_UIS then x % 0x1_0000_0000 else x;
            e != [] && D.DecodeIn(e + rest, |e + rest|, g, atLimit, classes) == D.Item(|e|, D.TInt(v), D.Stay)
  {
    var e := CodeOf(g, classes, Int(x)).out;
    if CtxOf(g) == CTX_GLOBAL {
      IntegerRoundTrip(x, GLOBAL_INTEGER, e + rest, |e + rest|);
    } else if CtxOf(g) == CTX_NUMBER {
      IntegerRoundTrip(x, NUMBER_INTEGER, e + rest, |e + rest|);
    } else if CtxOf(g) == CTX_UIS {
      UnsignedRoundTrip(x % 0x1_0000_0000, e + rest, |e + rest|, g, atLimit);
    } else {
      Int32RoundTrip(x, e + rest, |e + rest|, g);
    }
  }

  lemma BoolItem(b: bool, g: Frame, atLimit: bool, classes: Classes, rest: bytes)
    requires CtxOf(g) == CTX_GLOBAL
    ensures D.DecodeIn([if b then 0x01 else 0x02] + rest, 1 + |rest|, g, atLimit, classes) == D.Item(1, D.TBool(b), D.Stay)
  {
    Dispatch([if b then 0x01 else 0x02] + rest, 1 + |rest|, g, atLimit);
  }

  /** The null token of a context reads as null or as the end of the container. */
  lemma NullItem(g: Frame, atLimit: bool, classes: Classes, rest: bytes)
    requires 0 <= CtxOf(g) < CTX_LAST
    ensures var e := NullBytes(CtxOf(g));
            D.DecodeIn(e + rest, |e + rest|, g, atLimit, classes) == D.DecodeNull(|e|, g)
  {
    var e := NullBytes(CtxOf(g));
    var buffer := e + rest;
    assert forall i | 0 <= i < |e| :: D.At(buffer, i) == e[i];
    Dispatch(buffer, |buffer|, g, atLimit);
    if CtxOf(g) == CTX_INT32 {
      assert BigEndian(-0x8000_0000, 4) == [0x80, 0, 0, 0] by { BigEndian4(-0x8000_0000); }
      assert buffer[0..4] == [0x80, 0, 0, 0];
      Unsigned4(-0x8000_0000, buffer, 0);
    } else if CtxOf(g) == CTX_FLOAT {
      assert D.Slice(buffer, 0, 4) == buffer[..4] == e[..4] == seq<byte>(4, _ => 0xff);
    } else if CtxOf(g) == CTX_DOUBLE {
      assert D.Slice(buffer, 0, 8) == buffer[..8] == e[..8] == seq<byte>(8, _ => 0xff);
    }
  }

  lemma StringOpcode(data: bytes)
    requires |data| <= GLOBAL_STRING.largeLimit
    ensures StringBytes(data, GLOBAL_STRING) != [] && 0x03 <= StringBytes(data, GLOBAL_STRING)[0] <= 0x28
  {
    var o := |data| - (GLOBAL_STRING.smallLimit + 1);
    assert GLOBAL_STRING.smallLimit < |data| <= GLOBAL_STRING.mediumLimit ==> 0 <= o / 0x100 < 4;
  }

  lemma StringItem(data: bytes, g: Frame, atLimit: bool, classes: Classes, rest: bytes)
    requires CtxOf(g) in {CTX_GLOBAL, CTX_UIS} && !Long(g, data)
    ensures var e := CodeOf(g, classes, Str(data)).out;
            e != [] && D.DecodeIn(e + rest, |e + rest|, g, atLimit, classes) == D.Item(|e|, D.TString(data), D.Stay)
  {
    var e := CodeOf(g, classes, Str(data)).out;
    var buffer := e + rest;
    if CtxOf(g) == CTX_GLOBAL {
      StringOpcode(data);
      assert D.At(buffer, 0) == e[0];
      Dispatch(buffer, |buffer|, g, atLimit);
      StringRoundTrip(data, buffer, |buffer|, atLimit, GLOBAL_STRING);
    } else {
      StringRoundTrip(data, buffer, |buffer|, atLimit, UIS_STRING);
    }
  }

  lemma ChunkedItem(g: Frame, classes: Classes, rest: bytes)
    requires CtxOf(g) in {CTX_GLOBAL, CTX_UIS}
    ensures var e := CodeOf(g, classes, Chunked).out;
            D.DecodeIn(e + rest, |e + rest|, g, false, classes)
            == D.Item(1, D.TChunked, D.Push(D.NewFrame(FChunked, CTX_CHUNKED, -1)))
  {
    var e := CodeOf(g, classes, Chunked).out;
    Dispatch(e + rest, |e + rest|, g, false);
  }

  lemma CollectionItem(len: int32, c: byte, enc: CollEncoding, g: Frame, classes: Classes, rest: bytes)
    requires c < CTX_LAST
    requires (CtxOf(g) == CTX_GLOBAL && enc in {GLOBAL_LIST, GLOBAL_MAP})
          || (CtxOf(g) == CTX_LISTMAP && enc in {LISTMAP_LIST, LISTMAP_MAP})
    ensures var e := CollectionBytes(len, c, enc);
            e != [] && D.DecodeIn(e + rest, |e + rest|, g, false, classes)
            == D.Item(|e|, HeaderToken(len, enc), D.Push(HeaderFrame(len, c, enc)))
  {
    var e := CollectionBytes(len, c, enc);
    var buffer := e + rest;
    HeaderRange(len, c, enc);
    assert D.At(buffer, 0) == e[0];
    Dispatch(buffer, |buffer|, g, false);
    HeaderRoundTrip(len, c, enc, buffer, |buffer|, g);
  }

  lemma LongObject(v: nat, n: nat, buffer: bytes, length: int, g: Frame, classes: Classes)
    requires D.At(buffer, 0) == 0x70 && n > 0 && !D.Short(length, 1)
    requires D.DecodeUis(D.Tail(buffer), length - 1, g, false) == D.Item(n, D.TInt(v), D.Stay)
    ensures D.DecodeGlobal(buffer, length, g, false, classes) == D.DecodeObject(1 + n, v + 0x10, classes, false)
  {
    Dispatch(buffer, length, g, false);
  }

  lemma UnsignedNonEmpty(x: uint32)
    ensures UnsignedBytes(x) != []
  {
  }

  lemma LongObjectItem(id: uint32, g: Frame, classes: Classes, rest: bytes)
    requires CtxOf(g) == CTX_GLOBAL && id in classes && id >= 0x10
    ensures var e := ObjectBytes(id);
            e != [] && D.DecodeIn(e + rest, |e + rest|, g, false, classes)
            == D.Item(|e|, D.TObject(id), D.Push(Frame(FObject, CTX_GLOBAL, |classes[id].fields|, false, classes[id])))
  {
    hide D.DecodeUis, D.DecodeGlobal, UnsignedBytes;
    var e := ObjectBytes(id);
    var buffer := e + rest;
    var u := UnsignedBytes(id - 0x10);
    UnsignedNonEmpty(id - 0x10);
    assert [0x70] + u + [] == e;
    hide ObjectBytes, D.At, D.Tail;
    InnerBytes(buffer, 0x70, u, []);
    UnsignedRoundTrip(id - 0x10, D.Tail(buffer), |buffer| - 1, g, false);
    LongObject(id - 0x10, |u|, buffer, |buffer|, g, classes);
  }

  lemma ObjectItem(id: uint32, g: Frame, classes: Classes, rest: bytes)
    requires CtxOf(g) == CTX_GLOBAL && id in classes
    ensures var e := ObjectBytes(id);
            e != [] && D.DecodeIn(e + rest, |e + rest|, g, false, classes)
            == D.Item(|e|, D.TObject(id), D.Push(Frame(FObject, CTX_GLOBAL, |classes[id].fields|, false, classes[id])))
  {
    if id < 0x10 {
      var e := ObjectBytes(id);
      assert D.At(e + rest, 0) == e[0];
      Dispatch(e + rest, |e + rest|, g, false);
    } else {
      LongObjectItem(id, g, classes, rest);
    }
  }

  lemma ChunkItem(data: bytes, g: Frame, atLimit: bool, classes: Classes, rest: bytes)
    requires CtxOf(g) == CTX_CHUNKED && !g.kind.FTop? && 0 < |data| <= 0xffff
    ensures var e := ChunkBytes(data);
            D.DecodeIn(e + rest, |e + rest|, g, atLimit, classes) == D.Item(|e|, D.TChunk(data), D.Stay)
  {
    var e := ChunkBytes(data);
    var buffer := e + rest;
    Digits(|data|);
    assert D.At(buffer, 0) == |data| / 0x100 && D.At(buffer, 1) == Low(|data|);
    assert D.Slice(buffer, 2, |data|) == buffer[2..2 + |data|] == e[2..] == data;
  }

  // ----- one call

  type Reader = (D.Frames, bytes) -> D.Reading

  ghost predicate Reads(read: Reader, d: D.Frames, buffer: bytes, els: seq<Element>, used: nat, d': D.Frames) {
    && used <= |buffer|
    && D.ReadMany(read, d, buffer, |els|) == Some(D.Outcome(els, used, d'))
  }

  lemma ReadOne(read: Reader, d: D.Frames, buffer: bytes, r: D.Reading)
    requires r == read(d, buffer) && !r.tok.TError? && 0 <= r.n <= |buffer|
    ensures Reads(read, d, buffer, [(r.tok, r.slot)], r.n, r.next)
  {
    assert D.ReadMany(read, r.next, buffer[r.n..], 0) == Some(D.Outcome([], 0, r.next));
    assert [(r.tok, r.slot)] + [] == [(r.tok, r.slot)];
  }

  lemma FirstElement(read: Reader, d: D.Frames, buffer: bytes, els: seq<Element>, used: nat, d': D.Frames)
    requires els != []
    ensures Reads(read, d, buffer, els, used, d') ==> els[0].0 == read(d, buffer).tok
  {
  }

  lemma {:induction false} ReadsLength(read: Reader, d: D.Frames, buffer: bytes, k: nat)
    requires D.ReadMany(read, d, buffer, k).Some?
    ensures |D.ReadMany(read, d, buffer, k).value.elements| == k
    ensures D.ReadMany(read, d, buffer, k).value.used <= |buffer|
    decreases k
  {
    if k > 0 {
      var r := read(d, buffer);
      ReadsLength(read, r.next, buffer[r.n..], k - 1);
    }
  }

  lemma {:induction false} ReadsAppend(read: Reader, d: D.Frames, buffer: bytes,
                                       els1: seq<Element>, used1: nat, d1: D.Frames,
                                       els2: seq<Element>, used2: nat, d2: D.Frames)
    requires Reads(read, d, buffer, els1, used1, d1)
    requires Reads(read, d1, buffer[used1..], els2, used2, d2)
    ensures Reads(read, d, buffer, els1 + els2, used1 + used2, d2)
    decreases |els1|
  {
    if els1 == [] {
      assert buffer[0..] == buffer && els1 + els2 == els2;
    } else {
      var r := read(d, buffer);
      var o := D.ReadMany(read, r.next, buffer[r.n..], |els1| - 1).value;
      ReadsLength(read, r.next, buffer[r.n..], |els1| - 1);
      assert els1[1..] == o.elements;
      assert buffer[r.n..][o.used..] == buffer[used1..];
      ReadsAppend(read, r.next, buffer[r.n..], els1[1..], o.used, d1, els2, used2, d2);
      assert (els1 + els2)[1..] == els1[1..] + els2;
      assert [els1[0]] + (els1[1..] + els2) == els1 + els2;
    }
  }

  /** Reading e1 then e2. */
  lemma ReadsJoin(read: Reader, d: D.Frames, e1: bytes, e2: bytes, rest: bytes,
                  els1: seq<Element>, d1: D.Frames, els2: seq<Element>, d2: D.Frames)
    requires Reads(read, d, e1 + (e2 + rest), els1, |e1|, d1)
    requires Reads(read, d1, e2 + rest, els2, |e2|, d2)
    ensures Reads(read, d, (e1 + e2) + rest, els1 + els2, |e1 + e2|, d2)
  {
    assert (e1 + (e2 + rest))[|e1|..] == e2 + rest;
    ReadsAppend(read, d, e1 + (e2 + rest), els1, |e1|, d1, els2, |e2|, d2);
    assert (e1 + e2) + rest == e1 + (e2 + rest);
  }

  lemma ReadsJoin3(read: Reader, d: D.Frames, e1: bytes, e2: bytes, e3: bytes, rest: bytes,
                   els1: seq<Element>, els2: seq<Element>, els3: seq<Element>, d1: D.Frames, d2: D.Frames)
    requires Reads(read, d, e1 + (e2 + (e3 + rest)), els1, |e1|, d1)
    requires Reads(read, d1, e2 + (e3 + rest), els2, |e2|, d1)
    requires Reads(read, d1, e3 + rest, els3, |e3|, d2)
    ensures Reads(read, d, (e1 + e2 + e3) + rest, els1 + els2 + els3, |e1 + e2 + e3|, d2)
  {
    ReadsJoin(read, d, e1, e2, e3 + rest, els1, d1, els2, d1);
    ReadsJoin(read, d, e1 + e2, e3, rest, els1 + els2, d1, els3, d2);
  }

  lemma ReadItem(d: D.Frames, classes: Classes, buffer: bytes, item: D.Item)
    requires D.ValidDec(d) && D.Last(d).missing != 0
    requires D.DecodeIn(buffer, |buffer|, D.Last(d), |d| == STACK_SIZE, classes) == item
    ensures D.Sane(item, D.Last(d), |d| == STACK_SIZE)
    ensures D.Reader(classes)(d, buffer) == D.Settle(d, item)
  {
  }

  /** The element a simple value decodes to, read in frame g. */
  lemma ValueItem(f: Frame, g: Frame, atLimit: bool, classes: Classes, op: Op, rest: bytes)
    requires CtxOf(f) == CtxOf(g) && f.kind == g.kind && (IsMap(f) ==> f.even == g.even)
    requires op.Int? || op.Bool? || op.Null? || (op.Str? && !Long(f, op.data))
    requires CodeOf(f, classes, op).Coded?
    requires op.Null? ==> 0 <= CtxOf(f) < CTX_LAST
    requires g.kind.FTop? ==> g.ctxid != CTX_CHUNKED
    ensures var e := CodeOf(f, classes, op).out;
            D.DecodeIn(e + rest, |e + rest|, g, atLimit, classes) == D.Item(|e|, TokenOf(f, op), D.Stay)
  {
    match op
    case Int(x) => IntItem(x, g, atLimit, classes, rest);
    case Bool(b) => BoolItem(b, g, atLimit, classes, rest);
    case Null => NullItem(g, atLimit, classes, rest);
    case Str(data) => StringItem(data, g, atLimit, classes, rest);
  }

  lemma NextContext(s: Enc)
    requires ValidEnc(s) && !Full(Top(s)) && !Top(s).kind.FChunked?
    ensures 0 <= CtxOf(Top(s)) < CTX_LAST
  {
    assert ValidFrame(s.stack[s.size], s.size == 0, false);
  }

  lemma ValueStep(s: Enc, d: D.Frames, classes: Classes, op: Op, rest: bytes) returns (d': D.Frames)
    requires Sim(s, d) && Readable(s, op)
    requires op.Int? || op.Bool? || op.Null? || (op.Str? && !Long(Top(s), op.data))
    requires EncStep(s, classes, op).Emit?
    ensures var e := EncStep(s, classes, op);
            Reads(D.Reader(classes), d, e.out + rest, Elements(s, op), |e.out|, d') && Sim(e.next, d')
  {
    hide CodeOf, D.DecodeIn;
    var e := EncStep(s, classes, op).out;
    var g := D.Last(d);
    SameContext(s, d);
    assert FrameSim(Progress(s, s.size), d[s.size]);
    if op.Null? { NextContext(s); }
    ValueItem(Top(s), g, |d| == STACK_SIZE, classes, op, rest);
    var item := D.DecodeIn(e + rest, |e + rest|, g, |d| == STACK_SIZE, classes);
    ReadItem(d, classes, e + rest, item);
    AfterValue(s, d, item.n, item.tok);
    var r := D.Settle(d, item);
    ReadOne(D.Reader(classes), d, e + rest, r);
    d' := r.next;
  }

  lemma OpenItem(f: Frame, g: Frame, classes: Classes, op: Op, slot: Frame, rest: bytes)
    requires CtxOf(f) == CtxOf(g) && Opens(op) && CodeOf(f, classes, op).Coded?
    requires g.kind.FTop? ==> g.ctxid != CTX_CHUNKED
    ensures var e := CodeOf(f, classes, op).out;
            var item := D.DecodeIn(e + rest, |e + rest|, g, false, classes);
            && item.n == |e|
            && item.eff.Push? && FrameSim(Opened(slot, classes, op), item.eff.frame)
            && item.tok == TokenOf(f, op)
  {
    match op
    case Chunked => ChunkedItem(g, classes, rest);
    case List(len, c) =>
      CollectionItem(len, c, if CtxOf(f) == CTX_GLOBAL then GLOBAL_LIST else LISTMAP_LIST, g, classes, rest);
    case Map(len, c) =>
      CollectionItem(len, c, if CtxOf(f) == CTX_GLOBAL then GLOBAL_MAP else LISTMAP_MAP, g, classes, rest);
    case Object(id) => ObjectItem(id, g, classes, rest);
  }

  lemma OpenStep(s: Enc, d: D.Frames, classes: Classes, op: Op, rest: bytes) returns (d': D.Frames)
    requires Sim(s, d) && ValidClasses(classes) && Opens(op)
    requires EncStep(s, classes, op).Emit?
    ensures var e := EncStep(s, classes, op);
            Reads(D.Reader(classes), d, e.out + rest, Elements(s, op), |e.out|, d') && Sim(e.next, d')
  {
    hide CodeOf, D.DecodeIn;
    CodedFacts(Top(s), classes, op);
    var e := EncStep(s, classes, op).out;
    var f := Opened(s.stack[s.size + 1], classes, op);
    SameContext(s, d);
    StepKeepsValid(s, classes, op);
    assert ValidFrame(EncStep(s, classes, op).next.stack[s.size + 1], false, false);
    assert ValidFrame(s.stack[s.size], s.size == 0, false);
    OpenItem(Top(s), D.Last(d), classes, op, s.stack[s.size + 1], rest);
    var item := D.DecodeIn(e + rest, |e + rest|, D.Last(d), false, classes);
    ReadItem(d, classes, e + rest, item);
    AfterOpen(s, d, item.n, item.tok, f, item.eff.frame);
    var r := D.Settle(d, item);
    ReadOne(D.Reader(classes), d, e + rest, r);
    d' := r.next;
  }

  lemma CloseItem(f: Frame, g: Frame, atLimit: bool, classes: Classes, rest: bytes)
    requires FrameSim(f, g) && ValidFrame(f, false, false)
    requires CloseOf(f).Coded? && !IsFixed(f)
    ensures var e := CloseOf(f).out;
            D.DecodeIn(e + rest, |e + rest|, g, atLimit, classes) == D.Item(|e|, D.TClose(f.kind), D.Pop)
  {
    if f.kind.FChunked? {
      assert D.At([0, 0] + rest, 0) == 0 && D.At([0, 0] + rest, 1) == 0;
    } else {
      NullItem(g, atLimit, classes, rest);
    }
  }

  lemma CloseStep(s: Enc, d: D.Frames, classes: Classes, rest: bytes) returns (d': D.Frames)
    requires Sim(s, d) && EncStep(s, classes, Close).Emit?
    ensures var e := EncStep(s, classes, Close);
            Reads(D.Reader(classes), d, e.out + rest, Elements(s, Close), |e.out|, d') && Sim(e.next, d')
  {
    hide D.DecodeIn;
    var e := EncStep(s, classes, Close).out;
    d' := d[..|d| - 1];
    assert ValidFrame(s.stack[s.size], s.size == 0, false);
    assert FrameSim(Progress(s, s.size), d[s.size]);
    AfterPop(s, d);
    var r := D.Reading(|e|, D.TClose(Top(s).kind), SlotAt(s.stack[s.size - 1]), d');
    assert D.Reader(classes)(d, e + rest) == r by {
      if IsFixed(Top(s)) {
        assert e + rest == rest;
      } else {
        CloseItem(Top(s), D.Last(d), |d| == STACK_SIZE, classes, rest);
        var item := D.Item(|e|, D.TClose(Top(s).kind), D.Pop);
        ReadItem(d, classes, e + rest, item);
        assert D.Apply(d[|d| - 1 := D.ChargeRead(D.Last(d))], D.Pop) == d';
      }
    }
    ReadOne(D.Reader(classes), d, e + rest, r);
  }

  /** Any chunk, however long, inside a chunked string. */
  lemma {:induction false} ChunksStep(s: Enc, d: D.Frames, classes: Classes, data: bytes, rest: bytes)
    requires Sim(s, d) && Top(s).kind.FChunked?
    ensures Reads(D.Reader(classes), d, ChunksBytes(data) + rest, ChunkElements(Pieces(data)), |ChunksBytes(data)|, d)
    decreases |data|
  {
    hide D.DecodeIn;
    if data == [] {
      assert ChunksBytes(data) + rest == rest;
    } else {
      var first := if |data| > 0xffff then data[..0xffff] else data;
      var left := data[|first|..];
      var e := ChunkBytes(first);
      assert ValidFrame(s.stack[s.size], s.size == 0, false);
      assert FrameSim(Progress(s, s.size), d[s.size]);
      assert ChunksBytes(data) == e + ChunksBytes(left);
      assert Pieces(data) == [first] + Pieces(left);
      assert ChunksBytes(data) + rest == e + (ChunksBytes(left) + rest);
      var buffer := e + (ChunksBytes(left) + rest);
      ChunkItem(first, D.Last(d), |d| == STACK_SIZE, classes, ChunksBytes(left) + rest);
      var item := D.Item(|e|, D.TChunk(first), D.Stay);
      ReadItem(d, classes, buffer, item);
      assert d[|d| - 1 := D.ChargeRead(D.Last(d))] == d;
      ReadOne(D.Reader(classes), d, buffer, D.Settle(d, item));
      ChunksStep(s, d, classes, left, rest);
      assert buffer[|e|..] == ChunksBytes(left) + rest;
      ReadsAppend(D.Reader(classes), d, buffer, [(D.TChunk(first), D.KChunk)], |e|, d,
                  ChunkElements(Pieces(left)), |ChunksBytes(left)|, d);
    }
  }

  /** The relation looks at the open frames only. */
  lemma SimAgree(s: Enc, s': Enc, d: D.Frames)
    requires Sim(s, d) && s.size == s'.size && |s'.stack| == STACK_SIZE
    requires forall i | 0 <= i <= s.size :: s.stack[i] == s'.stack[i]
    ensures Sim(s', d)
  {
    forall i | 0 <= i <= s'.size
      ensures FrameSim(Progress(s', i), d[i])
      ensures ValidFrame(s'.stack[i], i == 0, i < s'.size)
    {
      assert FrameSim(Progress(s, i), d[i]);
    }
  }

  /** A string past the large limit is read as a chunked string: it needs a frame
      on the reader's side although it takes none on the writer's. */
  lemma LongStep(s: Enc, d: D.Frames, classes: Classes, data: bytes, rest: bytes) returns (d': D.Frames)
    requires Sim(s, d) && ValidClasses(classes) && Readable(s, Str(data)) && Long(Top(s), data)
    requires EncStep(s, classes, Str(data)).Emit?
    ensures var e := EncStep(s, classes, Str(data));
            Reads(D.Reader(classes), d, e.out + rest, Elements(s, Str(data)), |e.out|, d') && Sim(e.next, d')
  {
    LongElements(s, data);
    SimValid(s, d);
    hide EncStep, Sim, Reads, D.Reader, ValidEnc, ValidClasses, ValidFrame, Elements, SlotAt, ChunkElements, Pieces, ChunksBytes, Long, Readable;
    var open := EncStep(s, classes, Chunked);
    LongOpens(s, classes, data);
    var d1 := OpenStep(s, d, classes, Chunked, ChunksBytes(data) + ([0, 0] + rest));
    ChunksStep(open.next, d1, classes, data, [0, 0] + rest);
    d' := CloseStep(open.next, d1, classes, rest);
    ReadsJoin3(D.Reader(classes), d, open.out, ChunksBytes(data), [0, 0], rest,
               Elements(s, Chunked), ChunkElements(Pieces(data)), Elements(open.next, Close), d1, d');
    SimAgree(EncStep(open.next, classes, Close).next, EncStep(s, classes, Str(data)).next, d');
  }

  lemma LongElements(s: Enc, data: bytes)
    requires ValidEnc(s) && Long(Top(s), data)
    ensures Elements(s, Str(data)) ==
      Elements(s, Chunked) + ChunkElements(Pieces(data)) + [(D.TClose(FChunked), SlotAt(Top(s)))]
  {
  }

  lemma LongOpens(s: Enc, classes: Classes, data: bytes)
    requires ValidEnc(s) && ValidClasses(classes) && Readable(s, Str(data)) && Long(Top(s), data)
    requires EncStep(s, classes, Str(data)).Emit?
    ensures var open := EncStep(s, classes, Chunked);
            && open.Emit? && ValidEnc(open.next) && Top(open.next).kind.FChunked?
            && EncStep(s, classes, Str(data)).out == open.out + ChunksBytes(data) + [0, 0]
            && var close := EncStep(open.next, classes, Close);
            && close.Emit? && close.out == [0, 0]
            && Elements(open.next, Close) == [(D.TClose(FChunked), SlotAt(Top(s)))]
            && var next := EncStep(s, classes, Str(data)).next;
            && next.size == close.next.size
            && |next.stack| == STACK_SIZE
            && forall i | 0 <= i <= next.size :: next.stack[i] == close.next.stack[i]
  {
    StepKeepsValid(s, classes, Chunked);
  }

  /** One accepted call: its bytes, whatever follows them, read back as exactly
      its elements, and the two stacks stay related. */
  lemma StepRoundTrip(s: Enc, d: D.Frames, classes: Classes, op: Op, rest: bytes) returns (d': D.Frames)
    requires Sim(s, d) && ValidClasses(classes) && Readable(s, op)
    requires EncStep(s, classes, op).Emit?
    ensures var e := EncStep(s, classes, op);
            Reads(D.Reader(classes), d, e.out + rest, Elements(s, op), |e.out|, d') && Sim(e.next, d')
  {
    if op.Close? {
      d' := CloseStep(s, d, classes, rest);
    } else if Opens(op) {
      d' := OpenStep(s, d, classes, op, rest);
    } else if op.Chunk? {
      assert ValidFrame(s.stack[s.size], s.size == 0, false);
      ChunksStep(s, d, classes, op.piece, rest);
      assert s.stack[s.size := Charge(Top(s))] == s.stack;
      d' := d;
    } else if op.Str? && Long(Top(s), op.data) {
      d' := LongStep(s, d, classes, op.data, rest);
    } else {
      d' := ValueStep(s, d, classes, op, rest);
    }
  }

  // ----- whole runs

  datatype Run = Done(out: bytes, elements: seq<Element>, next: Enc) | Stopped

  /** A run of calls that are all accepted: its bytes, and the elements it stands for. */
  function EncRun(s: Enc, classes: Classes, ops: seq<Op>): Run
    requires ValidEnc(s) && ValidClasses(classes)
    decreases |ops|
  {
    if ops == [] then Done([], [], s) else
    var step := EncStep(s, classes, ops[0]);
    if step.Refuse? then Stopped else
    StepKeepsValid(s, classes, ops[0]);
    match EncRun(step.next, classes, ops[1..])
    case Stopped => Stopped
    case Done(out, els, next) => Done(step.out + out, Elements(s, ops[0]) + els, next)
  }

  /** Every call of the run is readable. */
  predicate Legible(s: Enc, classes: Classes, ops: seq<Op>)
    requires ValidEnc(s) && ValidClasses(classes) && EncRun(s, classes, ops).Done?
    decreases |ops|
  {
    ops == [] || (
      StepKeepsValid(s, classes, ops[0]);
      Readable(s, ops[0]) && Legible(EncStep(s, classes, ops[0]).next, classes, ops[1..]))
  }

  lemma {:induction false} RunRoundTrip(s: Enc, d: D.Frames, classes: Classes, ops: seq<Op>, rest: bytes) returns (d': D.Frames)
    requires Sim(s, d) && ValidClasses(classes)
    requires EncRun(s, classes, ops).Done? && Legible(s, classes, ops)
    ensures var run := EncRun(s, classes, ops);
            Reads(D.Reader(classes), d, run.out + rest, run.elements, |run.out|, d') && Sim(run.next, d')
    decreases |ops|
  {
    var run := EncRun(s, classes, ops);
    if ops == [] {
      d' := d;
    } else {
      var step := EncStep(s, classes, ops[0]);
      StepKeepsValid(s, classes, ops[0]);
      var tail := EncRun(step.next, classes, ops[1..]);
      var d1 := StepRoundTrip(s, d, classes, ops[0], tail.out + rest);
      d' := RunRoundTrip(step.next, d1, classes, ops[1..], rest);
      ReadsJoin(D.Reader(classes), d, step.out, tail.out, rest, Elements(s, ops[0]), d1, tail.elements, d');
    }
  }

  lemma InitialSim()
    ensures Sim(Init(), D.DEC_INIT)
  {
    assert Init().stack[0] == TOP_FRAME;
    assert FrameSim(Progress(Init(), 0), TOP_FRAME);
  }

  /** The bytes, read from a fresh context, are exactly these elements with none
      left over; the reader ends at top level if the run closed all it opened. */
  ghost predicate ReadsBack(classes: Classes, out: bytes, elements: seq<Element>, closed: bool) {
    var back := D.ReadMany(D.Reader(classes), D.DEC_INIT, out, |elements|);
    && back.Some?
    && back.value.elements == elements
    && back.value.used == |out|
    && (closed ==> back.value.next == D.DEC_INIT)
  }

  /** From fresh contexts, every accepted run of readable calls reads back. */
  lemma RoundTrip(classes: Classes, ops: seq<Op>)
    requires ValidClasses(classes)
    requires EncRun(Init(), classes, ops).Done? && Legible(Init(), classes, ops)
    ensures var run := EncRun(Init(), classes, ops);
            ReadsBack(classes, run.out, run.elements, run.next.size == 0)
  {
    InitialSim();
    var run := EncRun(Init(), classes, ops);
    var d' := RunRoundTrip(Init(), D.DEC_INIT, classes, ops, []);
    assert run.out + [] == run.out;
    if run.next.size == 0 {
      assert FrameSim(Progress(run.next, 0), d'[0]);
      assert ValidFrame(run.next.stack[0], true, false);
    }
  }

  // ----- exactly which accepted calls read back

  /** The condition is exact: of the calls the serializer accepts, those that
      are not `Readable` never read back as their elements, whatever follows. */
  lemma Unreadable(s: Enc, d: D.Frames, classes: Classes, op: Op, rest: bytes)
    requires Sim(s, d) && !Readable(s, op)
    requires EncStep(s, classes, op).Emit?
    ensures var e := EncStep(s, classes, op).out;
            forall used: nat, d' :: !Reads(D.Reader(classes), d, e + rest, Elements(s, op), used, d')
  {
    var e := EncStep(s, classes, op).out;
    var buffer := e + rest;
    assert FrameSim(Progress(s, s.size), d[s.size]);
    SameContext(s, d);
    assert ValidFrame(s.stack[s.size], s.size == 0, false);
    var r := D.Reader(classes)(d, buffer);
    assert r.tok != Elements(s, op)[0].0 by {
      if op.Str? {
        assert D.At(buffer, 0) == e[0];
        Dispatch(buffer, |buffer|, D.Last(d), true);
      }
    }
    forall used: nat, d' ensures !Reads(D.Reader(classes), d, buffer, Elements(s, op), used, d') {
      FirstElement(D.Reader(classes), d, buffer, Elements(s, op), used, d');
    }
  }

  lemma ReadsCons(read: Reader, d: D.Frames, buffer: bytes, x: Element, els: seq<Element>, used: nat, d2: D.Frames)
    ensures var r := read(d, buffer);
            Reads(read, d, buffer, [x] + els, used, d2) <==>
              && !r.tok.TError? && 0 <= r.n <= |buffer| && x == (r.tok, r.slot) && r.n <= used
              && Reads(read, r.next, buffer[r.n..], els, used - r.n, d2)
  {
    var r := read(d, buffer);
    assert |[x] + els| == |els| + 1;
    if !r.tok.TError? && 0 <= r.n <= |buffer| {
      var o := D.ReadMany(read, r.next, buffer[r.n..], |els|);
      if o.Some? {
        ReadsLength(read, r.next, buffer[r.n..], |els|);
        var y := [(r.tok, r.slot)] + o.value.elements;
        assert y == [x] + els <==> x == (r.tok, r.slot) && o.value.elements == els by {
          if y == [x] + els {
            assert y[0] == ([x] + els)[0] && y[1..] == ([x] + els)[1..];
          }
        }
      }
    }
  }

  /** Reading els1 + els2 is reading els1 and then els2. */
  lemma {:induction false} ReadsSplit(read: Reader, d: D.Frames, buffer: bytes, els1: seq<Element>, els2: seq<Element>,
                                      used: nat, d2: D.Frames) returns (used1: nat, d1: D.Frames)
    requires Reads(read, d, buffer, els1 + els2, used, d2)
    ensures used1 <= used && used1 <= |buffer|
    ensures Reads(read, d, buffer, els1, used1, d1) && Reads(read, d1, buffer[used1..], els2, used - used1, d2)
    decreases |els1|
  {
    if els1 == [] {
      assert buffer[0..] == buffer && els1 + els2 == els2;
      used1, d1 := 0, d;
    } else {
      hide Reads;
      var r, x, more := read(d, buffer), els1[0], els1[1..];
      assert els1 + els2 == [x] + (more + els2) && els1 == [x] + more;
      ReadsCons(read, d, buffer, x, more + els2, used, d2);
      var u, e := ReadsSplit(read, r.next, buffer[r.n..], more, els2, used - r.n, d2);
      used1, d1 := r.n + u, e;
      ReadsCons(read, d, buffer, x, more, used1, d1);
      assert buffer[r.n..][u..] == buffer[used1..];
    }
  }

  /** A run is its first call and the rest. */
  lemma RunCons(s: Enc, classes: Classes, ops: seq<Op>)
    requires ValidEnc(s) && ValidClasses(classes) && ops != [] && EncRun(s, classes, ops).Done?
    ensures EncStep(s, classes, ops[0]).Emit? && (ops[0].Close? ==> s.size > 0)
    ensures var next := EncStep(s, classes, ops[0]).next;
            && ValidEnc(next) && EncRun(next, classes, ops[1..]).Done?
            && EncRun(s, classes, ops).out == EncStep(s, classes, ops[0]).out + EncRun(next, classes, ops[1..]).out
            && EncRun(s, classes, ops).elements == Elements(s, ops[0]) + EncRun(next, classes, ops[1..]).elements
            && (Legible(s, classes, ops) <==> Readable(s, ops[0]) && Legible(next, classes, ops[1..]))
  {
    hide Elements, Readable;
    StepKeepsValid(s, classes, ops[0]);
  }

  lemma StepFacts(s: Enc, d: D.Frames, classes: Classes, op: Op)
    requires Sim(s, d) && EncStep(s, classes, op).Emit?
    ensures ValidEnc(s) && (op.Close? ==> s.size > 0)
  {
  }

  lemma NothingLegible(s: Enc, classes: Classes, ops: seq<Op>)
    requires ValidEnc(s) && ValidClasses(classes) && ops == []
    ensures EncRun(s, classes, ops).Done? && Legible(s, classes, ops)
  {
  }

  lemma SimValid(s: Enc, d: D.Frames)
    requires Sim(s, d)
    ensures ValidEnc(s)
  {
  }

  /** A call that reads back as its elements, and more after it. */
  lemma StepLegible(s: Enc, d: D.Frames, classes: Classes, op: Op, rest: bytes, els: seq<Element>, used: nat, d2: D.Frames)
    returns (d1: D.Frames)
    requires Sim(s, d) && ValidClasses(classes) && EncStep(s, classes, op).Emit?
    requires Reads(D.Reader(classes), d, EncStep(s, classes, op).out + rest, Elements(s, op) + els, used, d2)
    ensures Readable(s, op) && Sim(EncStep(s, classes, op).next, d1) && |EncStep(s, classes, op).out| <= used
    ensures Reads(D.Reader(classes), d1, rest, els, used - |EncStep(s, classes, op).out|, d2)
  {
    hide *;
    StepFacts(s, d, classes, op);
    var read, out := D.Reader(classes), EncStep(s, classes, op).out;
    var u, e := ReadsSplit(read, d, out + rest, Elements(s, op), els, used, d2);
    if !Readable(s, op) {
      Unreadable(s, d, classes, op, rest);
      assert false;
    }
    d1 := StepRoundTrip(s, d, classes, op, rest);
    ReadsOnce(read, d, out + rest, Elements(s, op), u, e, |out|, d1);
    assert (out + rest)[|out|..] == rest;
  }

  /** A run that reads back as its elements has readable calls only. */
  lemma {:induction false} RunLegible(s: Enc, d: D.Frames, classes: Classes, ops: seq<Op>, rest: bytes, used: nat, d2: D.Frames)
    requires Sim(s, d) && ValidClasses(classes) && EncRun(s, classes, ops).Done?
    requires Reads(D.Reader(classes), d, EncRun(s, classes, ops).out + rest, EncRun(s, classes, ops).elements, used, d2)
    ensures Legible(s, classes, ops)
    decreases |ops|
  {
    hide *;
    SimValid(s, d);
    if ops == [] {
      NothingLegible(s, classes, ops);
    } else {
      RunCons(s, classes, ops);
      var step := EncStep(s, classes, ops[0]);
      var tail := EncRun(step.next, classes, ops[1..]);
      assert step.out + tail.out + rest == step.out + (tail.out + rest);
      var d1 := StepLegible(s, d, classes, ops[0], tail.out + rest, tail.elements, used, d2);
      RunLegible(step.next, d1, classes, ops[1..], rest, used - |step.out|, d2);
    }
  }

  /** Reading gives one result. */
  lemma ReadsOnce(read: Reader, d: D.Frames, buffer: bytes, els: seq<Element>, u: nat, a: D.Frames, v: nat, b: D.Frames)
    requires Reads(read, d, buffer, els, u, a) && Reads(read, d, buffer, els, v, b)
    ensures u == v && a == b
  {
  }

  /** From fresh contexts, an accepted run reads back as its elements if and only if
      every one of its calls is readable. */
  lemma RoundTripExactly(classes: Classes, ops: seq<Op>)
    requires ValidClasses(classes) && EncRun(Init(), classes, ops).Done?
    ensures var run := EncRun(Init(), classes, ops);
            ReadsBack(classes, run.out, run.elements, run.next.size == 0) <==> Legible(Init(), classes, ops)
  {
    var run := EncRun(Init(), classes, ops);
    if Legible(Init(), classes, ops) {
      RoundTrip(classes, ops);
    } else if ReadsBack(classes, run.out, run.elements, run.next.size == 0) {
      hide Legible, EncRun, Sim;
      InitialSim();
      var back := D.ReadMany(D.Reader(classes), D.DEC_INIT, run.out, |run.elements|).value;
      assert run.out + [] == run.out;
      RunLegible(Init(), D.DEC_INIT, classes, ops, [], back.used, back.next);
    }
  }

  /** A null in a chunked string: both calls are accepted and the run does not read back. */
  lemma NullInChunked(classes: Classes)
    requires ValidClasses(classes)
    ensures var run := EncRun(Init(), classes, [Chunked, Null]);
            run.Done? && !ReadsBack(classes, run.out, run.elements, run.next.size == 0)
  {
    var s := Init();
    InitialSim();
    var a := EncStep(s, classes, Chunked);
    assert a.Emit? && Top(a.next).kind.FChunked?;
    StepKeepsValid(s, classes, Chunked);
    assert EncStep(a.next, classes, Null).Emit? && !Readable(a.next, Null);
    assert [Chunked, Null][1..] == [Null] && [Null][1..] == [];
    RoundTripExactly(classes, [Chunked, Null]);
  }

  lemma TruncatedElement(s: Enc, x: int64)
    requires ValidEnc(s) && CtxOf(Top(s)) == CTX_UIS && x >= 0
    ensures Readable(s, Int(x)) && |Elements(s, Int(x))| == 1
    ensures Elements(s, Int(x))[0].0 == D.TInt(x % 0x1_0000_0000)
  {
  }

  /** In the unsigned-or-string context an integer loses its high bits: it reads back
      modulo 2^32, so it reads back as itself exactly when it is below 2^32. */
  lemma TruncatedInteger(s: Enc, d: D.Frames, classes: Classes, x: int64, rest: bytes)
    requires Sim(s, d) && ValidClasses(classes) && CtxOf(Top(s)) == CTX_UIS && x >= 0
    requires EncStep(s, classes, Int(x)).Emit?
    ensures var tok := D.Reader(classes)(d, EncStep(s, classes, Int(x)).out + rest).tok;
            tok == D.TInt(x % 0x1_0000_0000) && (tok == D.TInt(x) <==> x < 0x1_0000_0000)
  {
    assert ValidEnc(s);
    TruncatedElement(s, x);
    hide D.Reader, Sim, EncStep, Elements, Reads, ValidEnc, ValidClasses;
    var e := EncStep(s, classes, Int(x));
    var d' := StepRoundTrip(s, d, classes, Int(x), rest);
    FirstElement(D.Reader(classes), d, e.out + rest, Elements(s, Int(x)), |e.out|, d');
  }

  /** A negative length is documented as "no verification", but a long header
      then fails for the value -1, because `length + 1` announces no byte. */
  lemma LongHeaderUnchecked(len: int32, c: byte, g: Frame, classes: Classes, rest: bytes)
    requires CtxOf(g) == CTX_GLOBAL && c < CTX_LAST
    ensures var buffer := CollectionBytes(len, c, GLOBAL_LIST) + rest;
            D.DecodeIn(buffer, -1, g, false, classes).tok.TError? <==> len > GLOBAL_LIST.smallLimit
  {
    var e := CollectionBytes(len, c, GLOBAL_LIST);
    var buffer := e + rest;
    HeaderRange(len, c, GLOBAL_LIST);
    assert D.At(buffer, 0) == e[0];
    Dispatch(buffer, -1, g, false);
  }
}
