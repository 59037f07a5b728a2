/** The generator's state machine (libs/yajl/yajl_gen.c:27-338). */
module YajlGen {
  import opened Bytes
  import opened YajlLex
  import opened YajlString
  import opened YajlNumber

  const MAX_DEPTH: nat := 128

  datatype GState = GStart | GMapStart | GMapKey | GMapVal | GArrayStart | GInArray | GComplete | GError

  datatype GStatus = GOk | KeysMustBeStrings | InErrorState | GenerationComplete | MaxDepthExceeded | DepthError
    | InvalidText

  datatype GFlags = GFlags(beautify: bool, validateUtf8: bool, escapeSolidus: bool, indent: bytes)

  datatype Call = CNull | CBool(b: bool) | CInteger(n: int) | CString(s: bytes)
    | CMapOpen | CMapClose | CArrayOpen | CArrayClose

  /** The state of every depth, the current depth, and the output. */
  datatype Gen = Gen(states: seq<GState>, depth: int, out: bytes)

  predicate Usable(g: Gen) {
    |g.states| == MAX_DEPTH && 0 <= g.depth < MAX_DEPTH
  }

  function Now(g: Gen): GState
    requires Usable(g)
  {
    g.states[g.depth]
  }

  const FRESH := Gen(seq(MAX_DEPTH, _ => GStart), 0, [])

  function Line(f: GFlags): bytes {
    if f.beautify then [NEWLINE] else []
  }

  /** INSERT_SEP */
  function Sep(f: GFlags, st: GState): bytes {
    if st == GMapKey || st == GInArray then [COMMA] + Line(f)
    else if st == GMapVal then [COLON] + (if f.beautify then [0x20] else [])
    else []
  }

  function Repeat(s: bytes, n: nat): bytes {
    if n == 0 then [] else Repeat(s, n - 1) + s
  }

  /** INSERT_WHITESPACE */
  function White(f: GFlags, st: GState, depth: nat): bytes {
    if f.beautify && st != GMapVal then Repeat(f.indent, depth) else []
  }

  /** APPENDED_ATOM */
  function AtomDone(st: GState): GState {
    match st
    case GStart => GComplete
    case GMapStart => GMapVal
    case GMapKey => GMapVal
    case GArrayStart => GInArray
    case GMapVal => GMapKey
    case _ => st
  }

  /** ENSURE_VALID_STATE */
  function Ensure(st: GState): GStatus {
    if st == GError then InErrorState else if st == GComplete then GenerationComplete else GOk
  }

  predicate IsKeyState(st: GState) {
    st == GMapKey || st == GMapStart
  }

  function Print(g: Gen, s: bytes): Gen {
    g.(out := g.out + s)
  }

  /** FINAL_NEWLINE */
  function Final(f: GFlags, g: Gen): Gen
    requires Usable(g)
  {
    if f.beautify && Now(g) == GComplete then Print(g, [NEWLINE]) else g
  }

  function Became(g: Gen, st: GState): Gen
    requires Usable(g)
  {
    g.(states := g.states[g.depth := st])
  }

  /** What comes before any atom or opening. */
  function Lead(f: GFlags, g: Gen): (r: Gen)
    requires Usable(g)
    ensures Usable(r) && r.states == g.states && r.depth == g.depth
  {
    Print(Print(g, Sep(f, Now(g))), White(f, Now(g), g.depth))
  }

  function Atom(f: GFlags, g: Gen, text: bytes): (r: Gen)
    requires Usable(g)
    ensures Usable(r) && r.depth == g.depth
  {
    Final(f, Became(Print(Lead(f, g), text), AtomDone(Now(g))))
  }

  function OpenWith(f: GFlags, g: Gen, bracket: byte, st: GState): (r: (Gen, GStatus))
    requires Usable(g)
    ensures r.1 == GOk ==> Usable(r.0)
  {
    var a := Lead(f, g);
    var d := a.(depth := a.depth + 1);
    if d.depth >= MAX_DEPTH then (d, MaxDepthExceeded)
    else (Print(Print(Became(d, st), [bracket]), Line(f)), GOk)
  }

  function CloseWith(f: GFlags, g: Gen, bracket: byte): (r: (Gen, GStatus))
    requires Usable(g)
    ensures r.1 == GOk ==> Usable(r.0)
  {
    var d := g.(depth := g.depth - 1);
    if d.depth < 0 then (d, DepthError) else
    var a := Print(d, Line(f));
    var b := Became(a, AtomDone(Now(a)));
    (Final(f, Print(Print(b, White(f, Now(b), b.depth)), [bracket])), GOk)
  }

  function WordOf(c: Call): bytes
    requires c.CNull? || c.CBool?
  {
    if c.CNull? then [0x6e] + ULL else if c.b then [0x74] + RUE else [0x66] + ALSE
  }

  function Quoted(s: bytes, solidus: bool): bytes {
    [QUOTE] + Encode(s, solidus) + [QUOTE]
  }

  function Generate(f: GFlags, g: Gen, c: Call): (r: (Gen, GStatus))
    requires Usable(g)
    ensures r.1 == GOk ==> Usable(r.0)
  {
    if c.CString? && f.validateUtf8 && !IsUtf8(c.s, 0) then (g, InvalidText)
    else if Ensure(Now(g)) != GOk then (g, Ensure(Now(g)))
    else if !c.CString? && !c.CMapClose? && !c.CArrayClose? && IsKeyState(Now(g)) then (g, KeysMustBeStrings)
    else
      match c
      case CNull => (Atom(f, g, WordOf(c)), GOk)
      case CBool(_) => (Atom(f, g, WordOf(c)), GOk)
      case CInteger(n) => (Atom(f, g, Printed(n)), GOk)
      case CString(s) => (Atom(f, g, Quoted(s, f.escapeSolidus)), GOk)
      case CMapOpen => OpenWith(f, g, LCURLY, GMapStart)
      case CArrayOpen => OpenWith(f, g, LSQUARE, GArrayStart)
      case CMapClose => CloseWith(f, g, RCURLY)
      case CArrayClose => CloseWith(f, g, RSQUARE)
  }

  /** The generator. */
  class Generator {
    const flags: GFlags
    const state: array<GState>
    var depth: int
    var out: bytes

    ghost predicate Valid()
      reads this, state
    {
      state.Length == MAX_DEPTH && 0 <= depth < MAX_DEPTH
    }

    ghost function G(): Gen
      reads this, state
    {
      Gen(state[..], depth, out)
    }

    constructor (flags: GFlags)
      ensures Valid() && G() == FRESH && this.flags == flags && fresh(state)
    {
      this.flags := flags;
      state := new GState[MAX_DEPTH](_ => GStart);
      depth, out := 0, [];
      new;
      assert state[..] == FRESH.states;
    }

    method InsertSep()
      requires Valid()
      modifies this`out
      ensures out == old(out) + Sep(flags, state[depth])
    {
      if state[depth] == GMapKey || state[depth] == GInArray {
        out := out + [COMMA];
        if flags.beautify { out := out + [NEWLINE]; }
      } else if state[depth] == GMapVal {
        out := out + [COLON];
        if flags.beautify { out := out + [0x20]; }
      }
    }

    method InsertWhitespace()
      requires Valid()
      modifies this`out
      ensures out == old(out) + White(flags, state[depth], depth)
    {
      if flags.beautify && state[depth] != GMapVal {
        for i := 0 to depth
          invariant out == old(out) + Repeat(flags.indent, i)
        {
          out := out + flags.indent;
        }
      }
    }

    method AppendedAtom()
      requires Valid()
      modifies state
      ensures state[..] == old(state[..])[depth := AtomDone(old(state[depth]))]
    {
      match state[depth]
      case GStart => state[depth] := GComplete;
      case GMapStart => state[depth] := GMapVal;
      case GMapKey => state[depth] := GMapVal;
      case GArrayStart => state[depth] := GInArray;
      case GMapVal => state[depth] := GMapKey;
      case _ =>
    }

    method FinalNewline()
      requires Valid()
      modifies this`out
      ensures G() == Final(flags, old(G()))
    {
      if flags.beautify && state[depth] == GComplete { out := out + [NEWLINE]; }
    }

    method GenAtom(text: bytes)
      requires Valid()
      modifies this`out, state
      ensures Valid() && G() == Atom(flags, old(G()), text)
    {
      InsertSep();
      InsertWhitespace();
      out := out + text;
      AppendedAtom();
      FinalNewline();
    }

    method GenOpen(bracket: byte, st: GState) returns (r: GStatus)
      requires Valid()
      modifies this`out, this`depth, state
      ensures (G(), r) == OpenWith(flags, old(G()), bracket, st)
    {
      hide Sep, White;
      InsertSep();
      InsertWhitespace();
      depth := depth + 1;
      if depth >= MAX_DEPTH { return MaxDepthExceeded; }
      state[depth] := st;
      assert state[..] == old(state[..])[depth := st];
      out := out + [bracket];
      assert out + [] == out;
      if flags.beautify { out := out + [NEWLINE]; }
      r := GOk;
    }

    method GenClose(bracket: byte) returns (r: GStatus)
      requires Valid()
      modifies this`out, this`depth, state
      ensures (G(), r) == CloseWith(flags, old(G()), bracket)
    {
      depth := depth - 1;
      if depth < 0 { return DepthError; }
      assert out + [] == out;
      if flags.beautify { out := out + [NEWLINE]; }
      AppendedAtom();
      InsertWhitespace();
      out := out + [bracket];
      FinalNewline();
      r := GOk;
    }

    /** Any of the calls of the generator. */
    method Emit(c: Call) returns (r: GStatus)
      requires Valid()
      modifies this`out, this`depth, state
      ensures (G(), r) == Generate(flags, old(G()), c)
    {
      if c.CString? && flags.validateUtf8 {
        var ok := ValidateUtf8(c.s);
        if !ok { return InvalidText; }
      }
      if state[depth] == GError { return InErrorState; }
      if state[depth] == GComplete { return GenerationComplete; }
      if !c.CString? && !c.CMapClose? && !c.CArrayClose? {
        if state[depth] == GMapKey || state[depth] == GMapStart { return KeysMustBeStrings; }
      }
      r := GOk;
      match c
      case CNull => GenAtom(WordOf(c));
      case CBool(_) => GenAtom(WordOf(c));
      case CInteger(n) => GenAtom(Printed(n));
      case CString(s) =>
        var e := StringEncode(s, flags.escapeSolidus);
        GenAtom([QUOTE] + e + [QUOTE]);
      case CMapOpen => r := GenOpen(LCURLY, GMapStart);
      case CArrayOpen => r := GenOpen(LSQUARE, GArrayStart);
      case CMapClose => r := GenClose(RCURLY);
      case CArrayClose => r := GenClose(RSQUARE);
    }
  }
}
