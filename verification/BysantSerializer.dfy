/** The serializer as it runs: transactions over a writer that may take any part
    of what it is given (libs/bysant/bysants.c:41-125, 312-737). */
module BysantSerializer {
  import opened Bytes
  import opened BysantCommon
  import opened BysantEncoding

  /** The application's writer callback. `script` holds its next answers: a
      negative one is an error, another is the most bytes it will take; when the
      script runs out it takes everything. */
  class Writer {
    var out: bytes
    var script: seq<int>

    constructor (script: seq<int>)
      ensures out == [] && this.script == script
    {
      out := [];
      this.script := script;
    }

    method Write(data: bytes) returns (n: int)
      modifies this
      ensures n == if old(script) == [] || old(script)[0] > |data| then |data| else old(script)[0]
      ensures script == if old(script) == [] then [] else old(script)[1..]
      ensures out == if n >= 0 then old(out) + data[..n] else old(out)
    {
      n := |data|;
      if script != [] {
        if script[0] <= |data| { n := script[0]; }
        script := script[1..];
      }
      if n >= 0 { out := out + data[..n]; }
    }
  }

  datatype Snap = Snap(enc: Enc, committed: bytes, pending: bytes, answers: nat, patient: bool, broken: bool, rolled: bool)

  /** No answer of the script is an error. */
  ghost predicate Patient(script: seq<int>) {
    forall i | 0 <= i < |script| :: script[i] >= 0
  }

  class Serializer {
    const classes: Classes
    const writer: Writer
    const stack: array<Frame>
    var written: int
    var acknowledged: int
    var skipped: int
    var broken: bool
    var stacksize: int
    var ackStacksize: int

    /** What the writer took: the bytes of the completed calls, then those of the
        call in progress. */
    ghost var committed: bytes
    ghost var pending: bytes

    /** The stack of the completed calls. */
    ghost function State(): Enc
      reads this, stack
      requires ackStacksize >= 0
    {
      Enc(stack[..], ackStacksize)
    }

    ghost predicate Counters()
      reads this, writer
    {
      && writer.out == committed + pending
      && acknowledged == |committed|
      && written == |committed| + |pending|
    }

    /** A transaction that is writing e: what is pending starts e. */
    ghost predicate Tx(e: bytes)
      reads this, writer
    {
      && Counters()
      && 0 <= skipped <= written - acknowledged
      && pending <= e
    }

    ghost predicate Valid()
      reads this, stack, writer
    {
      && ValidClasses(classes)
      && Counters()
      && 0 <= ackStacksize <= stacksize <= ackStacksize + 1
      && stacksize < STACK_SIZE
      && stack.Length == STACK_SIZE
      && ValidEnc(State())
      && (stacksize > ackStacksize ==> !Full(stack[ackStacksize]) && !stack[ackStacksize].kind.FChunked?)
    }

    /** The frame that the next call finds on top. */
    ghost function Seen(): Frame
      reads this, stack
      requires 0 <= stacksize < stack.Length
    {
      stack[stacksize]
    }

    ghost function Planned(op: Op): Coding
      reads this, stack, writer
      requires Valid()
    {
      Attempt(State(), Seen(), broken, classes, op)
    }

    /** The caller's duty: while bytes are pending, only the call that wrote them
        may be tried again; and an interrupted opening is not followed by a close. */
    ghost predicate Ready(op: Op)
      reads this, stack, writer
      requires Valid()
    {
      && (Planned(op).Coded? ==> pending <= Planned(op).out)
      && (op.Close? ==> stacksize == ackStacksize)
    }

    /** Result of presenting n bytes of the encoding e to the writer. */
    twostate predicate Wrote(e: bytes, n: nat, r: int)
      reads this, writer
    {
      && Tx(e)
      && committed == old(committed)
      && old(pending) <= pending
      && |writer.script| <= |old(writer.script)|
      && (broken ==> old(broken) || (r < 0 && written != acknowledged))
      && (old(broken) ==> broken)
      && (r == EOK ==> skipped == old(skipped) + n)
      && (r == EAGAIN ==> |writer.script| < |old(writer.script)| && pending != e)
      && (r == EOK || r == EAGAIN || r < 0)
      && (Patient(old(writer.script)) ==> r >= 0 && Patient(writer.script))
    }

    /** What a caller can tell of the context. */
    ghost function Now(): Snap
      reads this, stack, writer
      requires Valid()
    {
      Snap(State(), committed, pending, |writer.script|, Patient(writer.script), broken, stacksize == ackStacksize)
    }

    /** Result of a public call that was planned as a, from the situation `was`. */
    ghost predicate Outcome(was: Snap, a: Coding, op: Op, r: int)
      reads this, stack, writer
      requires Valid() && ValidEnc(was.enc)
      requires a.Coded? ==> CanCommit(was.enc, classes, op)
    {
      if a.Refused? then
        && r == a.status
        && Now() == was.(broken := was.broken || (r == ETOODEEP && pending != []), rolled := stacksize == ackStacksize)
        && (was.rolled ==> stacksize == ackStacksize)
      else if r == EOK then
        && committed == was.committed + a.out
        && pending == []
        && State() == Next(was.enc, classes, op)
        && stacksize == ackStacksize
        && broken == was.broken
        && |writer.script| <= was.answers
        && (was.patient ==> Patient(writer.script))
      else
        && (r == EAGAIN || r < 0)
        && (was.patient ==> r == EAGAIN && Patient(writer.script))
        && committed == was.committed
        && was.pending <= pending <= a.out
        && |writer.script| <= was.answers
        && (r == EAGAIN ==> pending < a.out && |writer.script| < was.answers)
        && State() == Halfway(was.enc, op)
        && stacksize == (if Opens(op) then ackStacksize + 1 else ackStacksize)
        && broken == (was.broken || (r < 0 && pending != []))
    }

    /** A call in progress: part of e may be written, the frames are as before. */
    ghost predicate During(was: Snap, e: bytes, w: int)
      reads this, stack, writer
    {
      && Valid()
      && committed == was.committed
      && was.pending <= pending <= e
      && (w == EOK ==> pending == e)
      && (w == EAGAIN ==> pending != e && |writer.script| < was.answers)
      && |writer.script| <= was.answers
      && (w == EOK || w == EAGAIN || w < 0)
      && (was.patient ==> w >= 0 && Patient(writer.script))
      && (broken ==> was.broken || (w < 0 && pending != []))
      && (was.broken ==> broken)
    }

    /** An opening in progress: the slot above the top is taken. */
    ghost predicate HalfOpen(was: Snap, e: bytes, w: int, op: Op)
      reads this, stack, writer
    {
      && During(was, e, w)
      && stacksize == ackStacksize + 1
      && ValidEnc(was.enc) && was.enc.size < STACK_SIZE - 1 && Opens(op)
      && State() == Halfway(was.enc, op)
    }

    /** An opening refused for lack of a slot. */
    ghost predicate TooDeep(was: Snap, r: int)
      reads this, stack, writer
    {
      && Valid()
      && r == ETOODEEP
      && stacksize == ackStacksize
      && Now() == was.(broken := was.broken || pending != [], rolled := true)
    }

    /** Where `openContainer` is called from. */
    ghost predicate Opening(was: Snap, e: bytes)
      reads this, stack, writer
    {
      && Valid() && Now() == was.(rolled := true)
      && stacksize == ackStacksize && skipped == 0 && !broken
      && !Full(stack[stacksize]) && !stack[stacksize].kind.FChunked?
      && (stacksize < STACK_SIZE - 1 ==> pending <= e)
    }

    constructor (writer: Writer, classes: Classes)
      requires ValidClasses(classes) && writer.out == []
      ensures Valid() && fresh(stack) && this.writer == writer && this.classes == classes
      ensures committed == [] && pending == [] && !broken && stacksize == 0 && State() == Init()
    {
      this.writer := writer;
      this.classes := classes;
      stack := new Frame[STACK_SIZE](_ => TOP_FRAME);
      written, acknowledged, skipped, broken := 0, 0, 0, false;
      stacksize, ackStacksize := 0, 0;
      committed, pending := [], [];
      new;
      assert stack[..] == Init().stack;
    }

    /** The bytes s are the ones to present next out of the encoding e. */
    ghost predicate Due(e: bytes, s: bytes)
      reads this
    {
      0 <= skipped && Sits(e, skipped, s)
    }

    method WriteData(data: bytes, ghost e: bytes) returns (r: int)
      requires Tx(e) && Due(e, data)
      modifies this`written, this`skipped, this`pending, writer
      ensures Wrote(e, |data|, r)
    {
      var toskip := written - acknowledged - skipped;
      if toskip >= |data| && toskip > 0 {
        skipped := skipped + |data|;
        return EOK;
      }
      LeftDue(e, pending, skipped, data);
      var left := data[toskip..];
      skipped := skipped + toskip;
      var n := writer.Write(left);
      if n < 0 { return n; }
      written := written + n;
      skipped := skipped + n;
      Extend(e, committed, pending, left, n);
      pending := pending + left[..n];
      r := if n == |left| then EOK else EAGAIN;
    }

    /** The TRY macro on a status that is about to be returned. */
    method Try(r: int)
      modifies this`broken
      ensures broken == (old(broken) || (r < 0 && written != acknowledged))
    {
      if r != EOK && r != EAGAIN && written != acknowledged && r < 0 {
        broken := true;
      }
    }

    method WriteBigEndian(x: int, nbytes: nat, ghost e: bytes) returns (r: int)
      requires Tx(e) && Due(e, BigEndian(x, nbytes))
      modifies this`written, this`skipped, this`pending, this`broken, writer
      ensures Wrote(e, nbytes, r)
    {
      var i := nbytes;
      while i > 0
        invariant 0 <= i <= nbytes
        invariant Tx(e) && Due(e, BigEndian(x, i))
        invariant skipped == old(skipped) + nbytes - i
        invariant committed == old(committed) && old(pending) <= pending
        invariant |writer.script| <= |old(writer.script)|
        invariant Patient(old(writer.script)) ==> Patient(writer.script)
        invariant broken == old(broken)
      {
        DueSplit(e, skipped, [Low(Shr8(x, i - 1))], BigEndian(x, i - 1));
        r := WriteData([Low(Shr8(x, i - 1))], e);
        if r != EOK { Try(r); return; }
        i := i - 1;
      }
      r := EOK;
    }

    /** An opcode, then the integer on n bytes. */
    method WriteWide(op: byte, x: int, n: nat, ghost e: bytes) returns (r: int)
      requires Tx(e) && Due(e, [op] + BigEndian(x, n))
      modifies this`written, this`skipped, this`pending, this`broken, writer
      ensures Wrote(e, 1 + n, r)
    {
      DueSplit(e, skipped, [op], BigEndian(x, n));
      r := WriteData([op], e);
      if r != EOK { Try(r); return; }
      r := WriteBigEndian(x, n, e);
      Try(r);
    }

    method WriteInteger(x: int64, enc: IntEncoding, ghost e: bytes) returns (r: int)
      requires Tx(e) && Due(e, IntegerBytes(x, enc))
      modifies this`written, this`skipped, this`pending, this`broken, writer
      ensures Wrote(e, |IntegerBytes(x, enc)|, r)
    {
      if enc.tinyMin <= x <= enc.tinyMax {
        r := WriteData([Low(enc.tinyZero + x)], e);
      } else if enc.smallMin <= x <= enc.smallMax {
        var o := Offset(x, enc.tinyMin, enc.tinyMax);
        r := WriteData([Low((if x < 0 then enc.smallNeg else enc.smallPos) + o / 0x100), Low(o)], e);
      } else if enc.mediumMin <= x <= enc.mediumMax {
        var o := Offset(x, enc.smallMin, enc.smallMax);
        r := WriteData([Low((if x < 0 then enc.mediumNeg else enc.mediumPos) + o / 0x1_0000), Low(o / 0x100), Low(o)], e);
      } else if enc.largeMin <= x <= enc.largeMax {
        var o := Offset(x, enc.mediumMin, enc.mediumMax);
        r := WriteData([Low((if x < 0 then enc.largeNeg else enc.largePos) + o / 0x100_0000),
                        Low(o / 0x1_0000), Low(o / 0x100), Low(o)], e);
      } else {
        var fits := -0x8000_0000 <= x < 0x8000_0000;
        r := WriteWide(if fits then enc.int32Op else enc.int64Op, x, if fits then 4 else 8, e);
      }
    }

    method WriteUnsigned(x: uint32, ghost e: bytes) returns (r: int)
      requires Tx(e) && Due(e, UnsignedBytes(x))
      modifies this`written, this`skipped, this`pending, this`broken, writer
      ensures Wrote(e, |UnsignedBytes(x)|, r)
    {
      if x <= UTI_MAX {
        r := WriteData([Low(x + 0x3b)], e);
      } else if x <= USI_MAX {
        var o := x - (UTI_MAX + 1);
        r := WriteData([Low(0xc7 + o / 0x100), Low(o)], e);
      } else if x <= UMI_MAX {
        var o := x - (USI_MAX + 1);
        r := WriteData([Low(0xe7 + o / 0x1_0000), Low(o / 0x100), Low(o)], e);
      } else if x <= ULI_MAX {
        var o := x - (UMI_MAX + 1);
        r := WriteData([Low(0xf7 + o / 0x100_0000), Low(o / 0x1_0000), Low(o / 0x100), Low(o)], e);
      } else {
        r := WriteWide(0xff, x, 4, e);
      }
    }

    method WriteChunk(data: bytes, ghost e: bytes) returns (r: int)
      requires Tx(e) && Due(e, ChunksBytes(data))
      modifies this`written, this`skipped, this`pending, this`broken, writer
      ensures Wrote(e, |ChunksBytes(data)|, r)
    {
      var left := data;
      while |left| > 0xffff
        invariant Tx(e) && Due(e, ChunksBytes(left))
        invariant skipped + |ChunksBytes(left)| == old(skipped) + |ChunksBytes(data)|
        invariant committed == old(committed) && old(pending) <= pending
        invariant |writer.script| <= |old(writer.script)|
        invariant Patient(old(writer.script)) ==> Patient(writer.script)
        invariant broken == old(broken)
      {
        var first := left[..0xffff];
        DueSplit(e, skipped, ChunkBytes(first), ChunksBytes(left[0xffff..]));
        assert ChunkBytes(first) == [0xff, 0xff] + first;
        r := WriteHeaded([0xff, 0xff], first, e);
        if r != EOK { return; }
        left := left[0xffff..];
      }
      r := EOK;
      if left != [] {
        r := WriteHeaded([Low(|left| / 0x100), Low(|left|)], left, e);
      }
    }

    /** A header, then the data it announces. */
    method WriteHeaded(head: bytes, data: bytes, ghost e: bytes) returns (r: int)
      requires Tx(e) && Due(e, head + data)
      modifies this`written, this`skipped, this`pending, this`broken, writer
      ensures Wrote(e, |head + data|, r)
    {
      DueSplit(e, skipped, head, data);
      r := WriteData(head, e);
      if r != EOK { Try(r); return; }
      r := WriteData(data, e);
      Try(r);
    }

    method WriteString(data: bytes, enc: StringEncoding, ghost e: bytes) returns (r: int)
      requires Tx(e) && Due(e, StringBytes(data, enc))
      modifies this`written, this`skipped, this`pending, this`broken, writer
      ensures Wrote(e, |StringBytes(data, enc)|, r)
    {
      var len := |data|;
      if len <= enc.smallLimit {
        r := WriteHeaded([Low(enc.smallOp + len)], data, e);
      } else if len <= enc.mediumLimit {
        var o := len - (enc.smallLimit + 1);
        r := WriteHeaded([Low(enc.mediumOp + o / 0x100), Low(o)], data, e);
      } else if len <= enc.largeLimit {
        var o := len - (enc.mediumLimit + 1);
        r := WriteHeaded([enc.largeOp, Low(o / 0x100), Low(o)], data, e);
      } else {
        r := WriteLong(enc.chunkedOp, data, e);
      }
    }

    method WriteLong(op: byte, data: bytes, ghost e: bytes) returns (r: int)
      requires Tx(e) && Due(e, [op] + ChunksBytes(data) + [0, 0])
      modifies this`written, this`skipped, this`pending, this`broken, writer
      ensures Wrote(e, |[op] + ChunksBytes(data) + [0, 0]|, r)
    {
      DueSplit(e, skipped, [op] + ChunksBytes(data), [0, 0]);
      DueSplit(e, skipped, [op], ChunksBytes(data));
      r := WriteData([op], e);
      if r != EOK { Try(r); return; }
      r := WriteChunk(data, e);
      if r != EOK { Try(r); return; }
      r := WriteData([0, 0], e);
      Try(r);
    }

    /** `startTransaction`: it looks at the frame on top before the rollback. */
    method Start() returns (r: int)
      requires Valid()
      modifies this`stacksize, this`skipped
      ensures Valid() && stacksize == ackStacksize
      ensures r == if broken then EBROKEN else if Full(old(Seen())) then ESIZE else EOK
      ensures skipped == if r == EOK then 0 else old(skipped)
    {
      var f := stack[stacksize];
      stacksize := ackStacksize;
      if broken { return EBROKEN; }
      if Full(f) { return ESIZE; }
      skipped := 0;
      r := EOK;
    }

    /** `commitTransaction` once all of e is written. */
    method Commit(ghost e: bytes) returns (r: int)
      requires Counters() && pending == e
      requires 0 <= stacksize < stack.Length
      modifies this`acknowledged, this`ackStacksize, this`committed, this`pending, stack
      ensures if Full(old(stack[stacksize])) then r == ESIZE else
              && r == EOK
              && stack[..] == old(stack[..])[stacksize := Charge(old(stack[stacksize]))]
              && Counters() && ackStacksize == stacksize
              && committed == old(committed) + e && pending == []
    {
      var f := stack[stacksize];
      if Full(f) { return ESIZE; }
      stack[stacksize] := Charge(f);
      acknowledged := written;
      committed, pending := committed + pending, [];
      ackStacksize := stacksize;
      r := EOK;
    }

    /** How the transaction of a value ends, w being the status of its writes. */
    method End(w: int, ghost op: Op, ghost e: bytes, ghost was: Snap) returns (r: int)
      requires During(was, e, w) && State() == was.enc && stacksize == ackStacksize
      requires !Full(stack[stacksize]) && !op.Close? && !Opens(op)
      modifies this`acknowledged, this`ackStacksize, this`committed, this`pending, this`broken, stack
      ensures Valid() && Outcome(was, Coded(e), op, r)
    {
      Try(w);
      if w != EOK { return w; }
      r := Commit(e);
      assert State() == Next(was.enc, classes, op);
      ChargeKeepsValid(was.enc);
    }

    method Bool(b: bool) returns (r: int)
      requires Valid() && Ready(Op.Bool(b))
      modifies this, stack, writer
      ensures Valid() && Outcome(old(Now()), old(Planned(Op.Bool(b))), Op.Bool(b), r)
    {
      ghost var e := Planned(Op.Bool(b));
      if CtxOf(stack[stacksize]) != CTX_GLOBAL { return EBADCONTEXT; }
      r := Start();
      if r != EOK { return; }
      r := WriteData([if b then 0x01 else 0x02], e.out);
      r := End(r, Op.Bool(b), e.out, old(Now()));
    }

    method Int(x: int64) returns (r: int)
      requires Valid() && Ready(Op.Int(x))
      modifies this, stack, writer
      ensures Valid() && Outcome(old(Now()), old(Planned(Op.Int(x))), Op.Int(x), r)
    {
      ghost var e := Planned(Op.Int(x));
      var ctx := CtxOf(stack[stacksize]);
      if ctx !in {CTX_GLOBAL, CTX_NUMBER, CTX_UIS, CTX_INT32} { return EBADCONTEXT; }
      if ctx == CTX_UIS && x < 0 { return EBADCONTEXT; }
      if ctx == CTX_INT32 && !(-0x8000_0000 <= x < 0x8000_0000) { return EOUTOFBOUNDS; }
      ghost var c := CodeOf(stack[stacksize], classes, Op.Int(x)).out;
      r := Start();
      if r != EOK { return; }
      r := WriteIntIn(ctx, x, c);
      r := End(r, Op.Int(x), c, old(Now()));
    }

    method WriteIntIn(ctx: int, x: int64, ghost e: bytes) returns (r: int)
      requires ctx in {CTX_GLOBAL, CTX_NUMBER, CTX_UIS, CTX_INT32}
      requires ctx == CTX_UIS ==> x >= 0
      requires ctx == CTX_INT32 ==> -0x8000_0000 <= x < 0x8000_0000
      requires Tx(e) && skipped == 0
      requires e == if ctx == CTX_GLOBAL then IntegerBytes(x, GLOBAL_INTEGER)
                    else if ctx == CTX_NUMBER then IntegerBytes(x, NUMBER_INTEGER)
                    else if ctx == CTX_UIS then UnsignedBytes(x % 0x1_0000_0000)
                    else Int32Bytes(x)
      modifies this`written, this`skipped, this`pending, this`broken, writer
      ensures Wrote(e, |e|, r)
    {
      if ctx == CTX_UIS {
        r := WriteUnsigned(x % 0x1_0000_0000, e);
      } else if ctx == CTX_INT32 {
        r := WriteInt32(x, e);
      } else {
        r := WriteInteger(x, if ctx == CTX_GLOBAL then GLOBAL_INTEGER else NUMBER_INTEGER, e);
      }
    }

    method WriteInt32(x: int32, ghost e: bytes) returns (r: int)
      requires Tx(e) && Due(e, Int32Bytes(x))
      modifies this`written, this`skipped, this`pending, this`broken, writer
      ensures Wrote(e, |Int32Bytes(x)|, r)
    {
      DueSplit(e, skipped, BigEndian(x, 4), Int32Bytes(x)[4..]);
      r := WriteBigEndian(x, 4, e);
      if r != EOK { Try(r); return; }
      if x == -0x8000_0000 {
        r := WriteData([0x01], e);
        Try(r);
      }
    }

    method Null() returns (r: int)
      requires Valid() && Ready(Op.Null)
      modifies this, stack, writer
      ensures Valid() && Outcome(old(Now()), old(Planned(Op.Null)), Op.Null, r)
    {
      ghost var e := Planned(Op.Null);
      var top := stack[stacksize];
      if top.kind.FZList? || (IsMap(top) && top.even) { return EINVALID; }
      var token := NullBytes(CtxOf(top));
      r := Start();
      if r != EOK { return; }
      r := WriteData(token, e.out);
      r := End(r, Op.Null, e.out, old(Now()));
    }

    method LString(data: bytes) returns (r: int)
      requires Valid() && Ready(Op.Str(data))
      modifies this, stack, writer
      ensures Valid() && Outcome(old(Now()), old(Planned(Op.Str(data))), Op.Str(data), r)
    {
      ghost var e := Planned(Op.Str(data));
      var ctx := CtxOf(stack[stacksize]);
      if ctx != CTX_GLOBAL && ctx != CTX_UIS { return EBADCONTEXT; }
      r := Start();
      if r != EOK { return; }
      r := WriteString(data, if ctx == CTX_GLOBAL then GLOBAL_STRING else UIS_STRING, e.out);
      r := End(r, Op.Str(data), e.out, old(Now()));
    }

    method Chunk(data: bytes) returns (r: int)
      requires Valid() && Ready(Op.Chunk(data))
      modifies this, stack, writer
      ensures Valid() && Outcome(old(Now()), old(Planned(Op.Chunk(data))), Op.Chunk(data), r)
    {
      ghost var e := Planned(Op.Chunk(data));
      if stack[stacksize].ctxid != CTX_CHUNKED { return EBADCONTEXT; }
      if data == [] { return EINVALID; }
      r := Start();
      if r != EOK { return; }
      r := WriteChunk(data, e.out);
      r := End(r, Op.Chunk(data), e.out, old(Now()));
    }

    method Close() returns (r: int)
      requires Valid() && Ready(Op.Close)
      modifies this, stack, writer
      ensures Valid() && Outcome(old(Now()), old(Planned(Op.Close)), Op.Close, r)
    {
      var f := stack[stacksize];
      if f.kind.FTop? { return ENOCONTAINER; }
      ghost var e := if CloseOf(f).Coded? then CloseOf(f).out else [];
      if IsFixed(f) {
        if f.missing != 0 { return ESIZE; }
        r := EOK;
      } else {
        r := Start();
        if r != EOK { return; }
        if f.kind.FZMap? && !f.even { return EBADMAP; }
        r := WriteData(if f.kind.FZMap? then NullBytes(CTX_UIS)
                       else if f.kind.FZList? then NullBytes(f.ctxid) else [0, 0], e);
      }
      r := EndClose(r, e, old(Now()));
    }

    /** How a close ends, w being the status of its writes. */
    method EndClose(w: int, ghost e: bytes, ghost was: Snap) returns (r: int)
      requires During(was, e, w) && State() == was.enc && 0 < stacksize == ackStacksize
      modifies this`acknowledged, this`ackStacksize, this`committed, this`pending, this`stacksize, this`broken, stack
      ensures Valid() && Outcome(was, Coded(e), Op.Close, r)
    {
      Try(w);
      if w != EOK { return w; }
      stacksize := stacksize - 1;
      PopKeepsValid(was.enc);
      r := Commit(e);
      assert State() == Next(was.enc, classes, Op.Close);
    }

    /** Start of an opening that passed its own checks and will write e. */
    method StartOpen(ghost op: Op, ghost e: bytes) returns (r: int)
      requires Valid() && Ready(op) && Opens(op) && CodeOf(Seen(), classes, op) == Coded(e)
      modifies this`stacksize, this`skipped
      ensures Valid() && Now() == old(Now()).(rolled := true) && stacksize == ackStacksize
      ensures r != EOK ==> old(Planned(op)) == Refused(r) && r != ETOODEEP
      ensures r == EOK ==>
                && skipped == 0 && !broken
                && !Full(stack[ackStacksize]) && !stack[ackStacksize].kind.FChunked?
                && old(Planned(op)) == (if stacksize == STACK_SIZE - 1 then Refused(ETOODEEP) else Coded(e))
                && (stacksize < STACK_SIZE - 1 ==> pending <= e)
    {
      r := Start();
    }

    /** `openContainer`: takes a slot, then writes the opcode. */
    method OpenContainer(kind: Kind, ctxid: int, prefix: byte, ghost e: bytes, ghost was: Snap) returns (r: int)
      requires Opening(was, e) && Due(e, [prefix])
      modifies this`stacksize, this`written, this`skipped, this`pending, this`broken, writer, stack
      ensures old(stacksize) == STACK_SIZE - 1 ==> TooDeep(was, r)
      ensures old(stacksize) < STACK_SIZE - 1 ==>
                && Progress(was, e, r) && stacksize == ackStacksize + 1
                && State() == Enc(was.enc.stack[stacksize := was.enc.stack[stacksize].(kind := kind, ctxid := ctxid)], was.enc.size)
                && (r == EOK ==> skipped == 1)
    {
      if stacksize == STACK_SIZE - 1 {
        r := ETOODEEP;
        Try(r);
        return;
      }
      stacksize := stacksize + 1;
      stack[stacksize] := stack[stacksize].(kind := kind, ctxid := ctxid);
      SlotKeepsValid(was.enc, stack[stacksize]);
      assert State().stack == was.enc.stack[stacksize := stack[stacksize]];
      r := WriteData([prefix], e);
      Try(r);
    }

    /** The writes of the call go on: like `During`, with more to present. */
    ghost predicate Progress(was: Snap, e: bytes, w: int)
      reads this, stack, writer
    {
      && Valid() && Tx(e)
      && committed == was.committed
      && was.pending <= pending
      && (w == EAGAIN ==> pending != e && |writer.script| < was.answers)
      && |writer.script| <= was.answers
      && (w == EOK || w == EAGAIN || w < 0)
      && (was.patient ==> w >= 0 && Patient(writer.script))
      && (broken ==> was.broken || (w < 0 && pending != []))
      && (was.broken ==> broken)
    }

    /** `openCollection`: the header of a list or map. */
    method OpenCollection(len: int32, c: byte, enc: CollEncoding, ghost op: Op, ghost e: bytes, ghost was: Snap) returns (r: int)
      requires Opening(was, e) && e == CollectionBytes(len, c, enc)
      requires (op == Op.List(len, c) && enc.fixedKind == FList && enc.variableKind == FZList)
            || (op == Op.Map(len, c) && enc.fixedKind == FMap && enc.variableKind == FZMap)
      modifies this`stacksize, this`written, this`skipped, this`pending, this`broken, writer, stack
      ensures old(stacksize) == STACK_SIZE - 1 ==> TooDeep(was, r)
      ensures old(stacksize) < STACK_SIZE - 1 ==>
                HalfOpen(was, e, r, op)
    {
      r := OpenContainer(if len < 0 then enc.variableKind else enc.fixedKind, c,
                         CollectionOp(len, c != CTX_GLOBAL, enc), e, was);
      if r != EOK { return; }
      r := WriteHeaderTail(len, c, enc, e);
    }

    method WriteHeaderTail(len: int32, c: byte, enc: CollEncoding, ghost e: bytes) returns (r: int)
      requires Tx(e) && skipped == 1 && e == CollectionBytes(len, c, enc)
      modifies this`written, this`skipped, this`pending, this`broken, writer
      ensures Wrote(e, |e| - 1, r)
    {
      hide CollectionBytes, UnsignedBytes;
      r := EOK;
      HeaderTail(len, c, enc);
      if len > enc.smallLimit {
        r := WriteUnsigned(len - (enc.smallLimit + 1), e);
        Try(r);
        if r != EOK { return; }
      }
      if len != 0 && c != CTX_GLOBAL {
        r := WriteData([c], e);
        Try(r);
      }
    }

    method OpenObject(classid: uint32, ghost e: bytes, ghost was: Snap) returns (r: int)
      requires Opening(was, e) && e == ObjectBytes(classid)
      modifies this`stacksize, this`written, this`skipped, this`pending, this`broken, writer, stack
      ensures old(stacksize) == STACK_SIZE - 1 ==> TooDeep(was, r)
      ensures old(stacksize) < STACK_SIZE - 1 ==> HalfOpen(was, e, r, Op.Object(classid))
    {
      var direct := classid < 0x10;
      r := OpenContainer(FObject, CTX_OBJECT, if direct then 0x60 + classid else 0x70, e, was);
      if r != EOK { return; }
      r := WriteClassId(classid, e);
    }

    method WriteClassId(classid: uint32, ghost e: bytes) returns (r: int)
      requires Tx(e) && skipped == 1 && e == ObjectBytes(classid)
      modifies this`written, this`skipped, this`pending, this`broken, writer
      ensures Wrote(e, |e| - 1, r)
    {
      hide UnsignedBytes;
      r := EOK;
      if classid >= 0x10 {
        assert e == [0x70] + UnsignedBytes(classid - 0x10);
        hide ObjectBytes;
        DueSplit(e, 0, [0x70], UnsignedBytes(classid - 0x10));
        r := WriteUnsigned(classid - 0x10, e);
        Try(r);
      }
    }

    /** How an opening ends: the frame is completed with `filled` and committed. */
    method EndOpen(w: int, filled: Frame, ghost op: Op, ghost e: bytes, ghost was: Snap) returns (r: int)
      requires HalfOpen(was, e, w, op) && CanCommit(was.enc, classes, op)
      requires !Full(filled) && Charge(filled) == Opened(was.enc.stack[stacksize], classes, op)
      requires ValidFrame(Charge(filled), false, false)
      modifies this`acknowledged, this`ackStacksize, this`committed, this`pending, this`broken, stack
      ensures Valid() && Outcome(was, Coded(e), op, r)
    {
      Try(w);
      if w != EOK { return w; }
      stack[stacksize] := filled;
      r := Commit(e);
      assert State() == Next(was.enc, classes, op);
      OpenKeepsValid(was.enc, Charge(filled));
    }

    /** The transaction of `bss_chunked`, after its checks. */
    method RunChunked(op: Op, opcode: byte) returns (r: int)
      requires Valid() && Ready(op) && op == Op.Chunked
      requires CodeOf(Seen(), classes, op) == Coded([opcode])
      modifies this, stack, writer
      ensures Valid() && Outcome(old(Now()), old(Planned(op)), op, r)
    {
      hide CodeOf, CtxOf, ObjectBytes, CollectionBytes, CloseOf, NullBytes, ValidClasses;
      ghost var was := Now();
      ghost var e := [opcode];
      r := StartOpen(op, e);
      if r != EOK { return; }
      r := OpenContainer(FChunked, CTX_CHUNKED, opcode, e, was);
      if stacksize == ackStacksize { return; }
      r := EndOpen(r, stack[stacksize], op, e, was);
    }

    method Chunked() returns (r: int)
      requires Valid() && Ready(Op.Chunked)
      modifies this, stack, writer
      ensures Valid() && Outcome(old(Now()), old(Planned(Op.Chunked)), Op.Chunked, r)
    {
      var ctx := CtxOf(stack[stacksize]);
      if ctx != CTX_GLOBAL && ctx != CTX_UIS { return EBADCONTEXT; }
      r := RunChunked(Op.Chunked, if ctx == CTX_GLOBAL then GLOBAL_STRING.chunkedOp else UIS_STRING.chunkedOp);
    }

    /** The transaction of `bss_list` or `bss_map`, after its checks. */
    method RunCollection(op: Op, len: int32, c: byte, enc: CollEncoding) returns (r: int)
      requires Valid() && Ready(op) && c < CTX_LAST
      requires (op == Op.List(len, c) && enc.fixedKind == FList && enc.variableKind == FZList)
            || (op == Op.Map(len, c) && enc.fixedKind == FMap && enc.variableKind == FZMap)
      requires CodeOf(Seen(), classes, op) == Coded(CollectionBytes(len, c, enc))
      modifies this, stack, writer
      ensures Valid() && Outcome(old(Now()), old(Planned(op)), op, r)
    {
      hide CodeOf, CtxOf, ObjectBytes, CollectionBytes, CloseOf, NullBytes, ValidClasses;
      ghost var was := Now();
      ghost var e := CollectionBytes(len, c, enc);
      r := StartOpen(op, e);
      if r != EOK { return; }
      r := OpenCollection(len, c, enc, op, e, was);
      if stacksize == ackStacksize { return; }
      var f := stack[stacksize];
      if op.List? {
        if len >= 0 { f := f.(missing := len + 1); }
      } else {
        if len >= 0 { f := f.(missing := 2 * len + 1); }
        f := f.(even := false);
      }
      r := EndOpen(r, f, op, e, was);
    }

    method List(len: int32, c: nat) returns (r: int)
      requires Valid() && Ready(Op.List(len, c))
      modifies this, stack, writer
      ensures Valid() && Outcome(old(Now()), old(Planned(Op.List(len, c))), Op.List(len, c), r)
    {
      var ctx := CtxOf(stack[stacksize]);
      if ctx != CTX_GLOBAL && ctx != CTX_LISTMAP { return EBADCONTEXT; }
      if c >= CTX_LAST { return EBADCTXID; }
      r := RunCollection(Op.List(len, c), len, c, if ctx == CTX_GLOBAL then GLOBAL_LIST else LISTMAP_LIST);
    }

    method Map(len: int32, c: nat) returns (r: int)
      requires Valid() && Ready(Op.Map(len, c))
      modifies this, stack, writer
      ensures Valid() && Outcome(old(Now()), old(Planned(Op.Map(len, c))), Op.Map(len, c), r)
    {
      var ctx := CtxOf(stack[stacksize]);
      if ctx != CTX_GLOBAL && ctx != CTX_LISTMAP { return EBADCONTEXT; }
      if c >= CTX_LAST { return EBADMAP; }
      r := RunCollection(Op.Map(len, c), len, c, if ctx == CTX_GLOBAL then GLOBAL_MAP else LISTMAP_MAP);
    }

    /** The transaction of `bss_object`, after its checks. */
    method RunObject(op: Op, classid: uint32, k: Class, ghost e: bytes) returns (r: int)
      requires Valid() && Ready(op) && op == Op.Object(classid) && classid in classes && classes[classid] == k
      requires CodeOf(Seen(), classes, op) == Coded(e) && e == ObjectBytes(classid)
      modifies this, stack, writer
      ensures Valid() && Outcome(old(Now()), old(Planned(op)), op, r)
    {
      hide CodeOf, CtxOf, ObjectBytes, CollectionBytes, CloseOf, NullBytes, ValidClasses;
      ghost var was := Now();
      r := StartOpen(op, e);
      if r != EOK { return; }
      r := OpenObject(classid, e, was);
      if stacksize == ackStacksize { return; }
      r := FinishObject(r, op, k, e, was);
    }

    /** The new object expects all its fields. */
    method FinishObject(w: int, op: Op, k: Class, ghost e: bytes, ghost was: Snap) returns (r: int)
      requires HalfOpen(was, e, w, op) && CanCommit(was.enc, classes, op)
      requires op.Object? && op.classid in classes && classes[op.classid] == k
      modifies this`acknowledged, this`ackStacksize, this`committed, this`pending, this`broken, stack
      ensures Valid() && Outcome(was, Coded(e), op, r)
    {
      var f := stack[stacksize].(missing := |k.fields| + 1, klass := k);
      assert stack[stacksize] == State().stack[stacksize];
      ObjectFrame(classes, op.classid, was.enc.stack[stacksize], f);
      r := EndOpen(w, f, op, e, was);
    }

    method Object(classid: uint32) returns (r: int)
      requires Valid() && Ready(Op.Object(classid))
      modifies this, stack, writer
      ensures Valid() && Outcome(old(Now()), old(Planned(Op.Object(classid))), Op.Object(classid), r)
    {
      if CtxOf(stack[stacksize]) != CTX_GLOBAL { return EBADCONTEXT; }
      if classid !in classes { return EBADCLASSID; }
      r := RunObject(Op.Object(classid), classid, classes[classid], ObjectBytes(classid));
    }

    method Call(op: Op) returns (r: int)
      requires Valid() && Ready(op)
      modifies this, stack, writer
      ensures Valid() && Outcome(old(Now()), old(Planned(op)), op, r)
    {
      match op {
        case Int(x) => r := Int(x);
        case Bool(b) => r := Bool(b);
        case Null => r := Null();
        case Str(data) => r := LString(data);
        case Chunk(data) => r := Chunk(data);
        case Chunked => r := Chunked();
        case List(len, c) => r := List(len, c);
        case Map(len, c) => r := Map(len, c);
        case Object(id) => r := Object(id);
        case Close => r := Close();
      }
    }

    /** No call is in progress. */
    ghost predicate Idle()
      reads this, stack, writer
      requires Valid()
    {
      pending == [] && stacksize == ackStacksize
    }
  }

  lemma HeaderTail(len: int32, c: byte, enc: CollEncoding)
    ensures var e := CollectionBytes(len, c, enc);
            var u := if len > enc.smallLimit then UnsignedBytes(len - (enc.smallLimit + 1)) else [];
            var t := if len != 0 && c != CTX_GLOBAL then [c] else [];
            && |e| == 1 + |u| + |t| && Sits(e, 1, u) && Sits(e, 1 + |u|, t)
  {
    hide UnsignedBytes;
  }

  lemma ObjectFrame(classes: Classes, id: uint32, slot: Frame, f: Frame)
    requires ValidClasses(classes) && id in classes
    requires f == HalfOpened(slot, Op.Object(id)).(missing := |classes[id].fields| + 1, klass := classes[id])
    ensures !Full(f) && Charge(f) == Opened(slot, classes, Op.Object(id)) && ValidFrame(Charge(f), false, false)
  {
    assert forall i | 0 <= i < |classes[id].fields| :: 0 <= classes[id].fields[i] < CTX_LAST;
  }

  lemma ChargeKeepsValid(s: Enc)
    requires ValidEnc(s) && !Full(Top(s))
    ensures ValidEnc(s.(stack := s.stack[s.size := Charge(Top(s))]))
  {
    var next := s.(stack := s.stack[s.size := Charge(Top(s))]);
    forall i | 0 <= i <= next.size ensures ValidFrame(next.stack[i], i == 0, i < next.size) {
      assert ValidFrame(s.stack[i], i == 0, i < s.size);
    }
  }

  /** The parent of an open container has a child left to charge. */
  lemma PopKeepsValid(s: Enc)
    requires ValidEnc(s) && s.size > 0
    ensures !Full(s.stack[s.size - 1])
    ensures ValidEnc(Enc(s.stack[s.size - 1 := Charge(s.stack[s.size - 1])], s.size - 1))
  {
    var next := Enc(s.stack[s.size - 1 := Charge(s.stack[s.size - 1])], s.size - 1);
    forall i | 0 <= i <= next.size ensures ValidFrame(next.stack[i], i == 0, i < next.size) {
      assert ValidFrame(s.stack[i], i == 0, i < s.size);
    }
  }

  /** Only the open frames matter, so a slot above them may hold anything. */
  lemma SlotKeepsValid(s: Enc, f: Frame)
    requires ValidEnc(s) && s.size < STACK_SIZE - 1
    ensures ValidEnc(Enc(s.stack[s.size + 1 := f], s.size))
  {
    var next := Enc(s.stack[s.size + 1 := f], s.size);
    forall i | 0 <= i <= next.size ensures ValidFrame(next.stack[i], i == 0, i < next.size) {
      assert ValidFrame(s.stack[i], i == 0, i < s.size);
    }
  }

  lemma OpenKeepsValid(s: Enc, f: Frame)
    requires ValidEnc(s) && s.size < STACK_SIZE - 1 && !Full(Top(s)) && !Top(s).kind.FChunked?
    requires ValidFrame(f, false, false)
    ensures ValidEnc(Enc(s.stack[s.size + 1 := f], s.size + 1))
  {
    var next := Enc(s.stack[s.size + 1 := f], s.size + 1);
    forall i | 0 <= i <= next.size ensures ValidFrame(next.stack[i], i == 0, i < next.size) {
      if i <= s.size { assert ValidFrame(s.stack[i], i == 0, i < s.size); }
    }
  }

  /** What is left to write of data once the pending bytes are skipped. */
  lemma LeftDue(e: bytes, p: bytes, k: nat, data: bytes)
    requires p <= e && k <= |p| <= k + |data| && Sits(e, k, data)
    ensures Sits(e, |p|, data[|p| - k..])
  {
  }

  lemma Extend(e: bytes, c: bytes, p: bytes, left: bytes, n: nat)
    requires p <= e && n <= |left| && Sits(e, |p|, left)
    ensures p <= p + left[..n] <= e
    ensures (c + p) + left[..n] == c + (p + left[..n])
    ensures n < |left| ==> p + left[..n] != e
  {
    var q := p + left[..n];
    forall i | 0 <= i < |q| ensures q[i] == e[i] {
      if i >= |p| { assert left[i - |p|] == e[|p| + (i - |p|)]; }
    }
  }

  lemma DueSplit(e: bytes, k: nat, a: bytes, b: bytes)
    requires Sits(e, k, a + b)
    ensures Sits(e, k, a) && Sits(e, k + |a|, b)
  {
    forall i | 0 <= i < |a| ensures a[i] == e[k + i] {
      assert (a + b)[i] == a[i];
    }
    forall i | 0 <= i < |b| ensures b[i] == e[k + |a| + i] {
      assert (a + b)[|a| + i] == b[i];
    }
  }
}
