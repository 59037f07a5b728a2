/** The parser on the generator's output: every run of calls whose closings match
    comes back as the same callbacks (libs/yajl/yajl_gen.c:135-338, libs/yajl/yajl_parser.c:185-497). */
module YajlMirror {
  import opened Bytes
  import opened YajlLex
  import opened YajlString
  import opened YajlQuoted
  import opened YajlNumber
  import opened YajlParse
  import opened YajlParser
  import opened YajlLexeme
  import opened YajlGen

  // ----- the correspondence

  /** The parser's state at a depth where the generator's is st. */
  function Corr(st: GState): PState {
    match st
    case GStart => Start
    case GMapStart => MapStart
    case GMapKey => MapGotVal
    case GMapVal => MapSep
    case GArrayStart => ArrayStart
    case GInArray => ArrayGotVal
    case GComplete => Complete
    case GError => ParseError
  }

  /** The parser moves on when a container opens, the generator when it closes. */
  function StackOf(g: Gen): (s: seq<PState>)
    requires Usable(g)
    ensures |s| == g.depth + 1
  {
    seq(g.depth + 1, i requires 0 <= i <= g.depth =>
      if i < g.depth then Corr(AtomDone(g.states[i])) else Corr(g.states[i]))
  }

  function MachineOf(g: Gen, events: seq<Event>): Machine
    requires Usable(g)
  {
    Machine(StackOf(g), events, NoFault)
  }

  predicate Quiet(out: bytes) {
    out == [] || !InWord(out[|out| - 1])
  }

  predicate TakesValue(st: GState) {
    st == GStart || st == GMapVal || st == GArrayStart || st == GInArray
  }

  /** The states the generator can be in at each depth. */
  predicate Shape(g: Gen) {
    && Usable(g)
    && (g.states[0] == GStart || (g.depth == 0 && g.states[0] == GComplete))
    && (forall i | 0 <= i < g.depth :: TakesValue(g.states[i]))
    && (forall i | 1 <= i <= g.depth :: g.states[i] != GStart && g.states[i] != GComplete && g.states[i] != GError)
    && (Now(g) == GStart || Now(g) == GMapStart || Now(g) == GArrayStart ==> Quiet(g.out))
  }

  /** All callbacks set, one value only. */
  predicate Strict(cfg: Config) {
    && !cfg.flags.allowMultipleValues && !cfg.flags.allowTrailingGarbage
    && cfg.handlers == Handlers(true, true, cfg.handlers.onInteger, cfg.handlers.onDouble, true, true, true, true, true, true, true)
  }

  // ----- the parser's moves

  function WithTop(m: Machine, p: PState): Machine
    requires |m.stack| > 0
  {
    m.(stack := m.stack[|m.stack| - 1 := p])
  }

  function Plus(m: Machine, e: Event): Machine {
    m.(events := m.events + [e])
  }

  lemma CommaEffect(cfg: Config, m: Machine)
    requires Stacked(m) && (Top(m) == MapGotVal || Top(m) == ArrayGotVal)
    ensures Effect(cfg, m, Punct(COMMA)) == Go(WithTop(m, if Top(m) == MapGotVal then MapNeedKey else ArrayNeedVal))
  {
    hide OnValue, OnKey, Emit;
  }

  lemma ColonEffect(cfg: Config, m: Machine)
    requires Stacked(m) && Top(m) == MapSep
    ensures Effect(cfg, m, Punct(COLON)) == Go(WithTop(m, MapNeedVal))
  {
    hide OnValue, OnKey, Emit;
  }

  /** The lexeme of an atom, and its event where a value stands. */
  function AtomLexeme(c: Call, solidus: bool): Lexeme
    requires c.CNull? || c.CBool? || c.CInteger? || c.CString?
  {
    match c
    case CNull => NullWord
    case CBool(b) => if b then TrueWord else FalseWord
    case CInteger(n) => Int(n)
    case CString(s) => Str(s, solidus)
  }

  function AtomEvent(c: Call): Event
    requires c.CNull? || c.CBool? || c.CInteger? || c.CString?
  {
    match c
    case CNull => Null
    case CBool(b) => Boolean(b)
    case CInteger(n) => Number(Printed(n))
    case CString(s) => String(s)
  }

  lemma AtomEffect(cfg: Config, m: Machine, c: Call, solidus: bool)
    requires c.CNull? || c.CBool? || c.CInteger? || c.CString?
    requires Strict(cfg) && Stacked(m) && NeedsValue(Top(m)) && cfg.accepts(m.events + [AtomEvent(c)])
    requires c.CString? ==> StringValue(TokOf(Str(c.s, solidus)), BodyOf(Str(c.s, solidus))) == c.s
    ensures Effect(cfg, m, AtomLexeme(c, solidus)) == Go(WithTop(Plus(m, AtomEvent(c)), AfterValue(Top(m))))
  {
    hide ParseInteger, Decode, Encode, Printed, HasEscape;
    var l := AtomLexeme(c, solidus);
    assert Effect(cfg, m, l) == OnValue(cfg, m, TokOf(l), BodyOf(l));
    var n := Plus(m, AtomEvent(c));
    assert Set(n, AfterValue(Top(n))).stack + [] == WithTop(n, AfterValue(Top(m))).stack;
  }

  lemma KeyEffect(cfg: Config, m: Machine, s: bytes, solidus: bool)
    requires Strict(cfg) && Stacked(m) && (Top(m) == MapStart || Top(m) == MapNeedKey)
    requires cfg.accepts(m.events + [MapKey(s)])
    requires StringValue(TokOf(Str(s, solidus)), BodyOf(Str(s, solidus))) == s
    ensures Effect(cfg, m, Str(s, solidus)) == Go(WithTop(Plus(m, MapKey(s)), MapSep))
  {
    hide Decode, Encode, HasEscape, OnValue;
  }

  lemma OpenEffect(cfg: Config, m: Machine, isMap: bool)
    requires Strict(cfg) && Stacked(m) && NeedsValue(Top(m))
    requires cfg.accepts(m.events + [if isMap then StartMap else StartArray])
    ensures var w := WithTop(Plus(m, if isMap then StartMap else StartArray), AfterValue(Top(m)));
            Effect(cfg, m, Punct(if isMap then LCURLY else LSQUARE)) ==
              Go(w.(stack := w.stack + [if isMap then MapStart else ArrayStart]))
  {
    hide ParseInteger, Decode, Encode, Printed, HasEscape;
  }

  lemma CloseEffect(cfg: Config, m: Machine, isMap: bool)
    requires Strict(cfg) && Stacked(m) && |m.stack| > 1
    requires if isMap then Top(m) == MapStart || Top(m) == MapGotVal else Top(m) == ArrayStart || Top(m) == ArrayGotVal
    requires cfg.accepts(m.events + [if isMap then EndMap else EndArray])
    ensures Effect(cfg, m, Punct(if isMap then RCURLY else RSQUARE)) ==
      Go(Pop(Plus(m, if isMap then EndMap else EndArray)))
  {
    hide ParseInteger, Decode, Encode, Printed, HasEscape;
  }

  // ----- the simulation

  /** The parser on the output so far has given these callbacks, and stands where the
      generator does. */
  ghost predicate Mirrors(cfg: Config, g: Gen, events: seq<Event>) {
    Shape(g) && Reads(cfg, g.out, MachineOf(g, events))
  }

  lemma StackFacts(cfg: Config, g: Gen, events: seq<Event>)
    requires Strict(cfg) && Shape(g)
    ensures var m := MachineOf(g, events);
            && Stacked(m) && |m.stack| == g.depth + 1 && Top(m) == Corr(Now(g)) && Listens(cfg, m)
            && m.events == events && (g.depth > 0 ==> !Outer(Top(m)))
  {
  }

  lemma TopListens(cfg: Config, m: Machine, p: PState)
    requires Strict(cfg) && Stacked(m) && !Outer(p) && |m.stack| > 1
    ensures Listens(cfg, WithTop(m, p)) && Top(WithTop(m, p)) == p
  {
  }

  lemma {:induction false} RepeatSpaces(s: bytes, n: nat)
    requires Spaces(s)
    ensures Spaces(Repeat(s, n))
  {
    if n > 0 { RepeatSpaces(s, n - 1); }
  }

  lemma QuietSpaces(out: bytes, ws: bytes)
    requires Quiet(out) && Spaces(ws)
    ensures Quiet(out + ws)
  {
    if ws != [] {
      assert (out + ws)[|out + ws| - 1] == ws[|ws| - 1];
    }
  }

  /** The parser's state once the separator is read. */
  function LeadState(st: GState): PState {
    if st == GMapKey then MapNeedKey
    else if st == GInArray then ArrayNeedVal
    else if st == GMapVal then MapNeedVal
    else Corr(st)
  }

  lemma WhiteSpaces(f: GFlags, st: GState, depth: nat)
    requires Spaces(f.indent)
    ensures Spaces(White(f, st, depth))
  {
    RepeatSpaces(f.indent, depth);
  }

  /** A separator and the space after it. */
  lemma SepReads(cfg: Config, f: GFlags, g: Gen, events: seq<Event>)
    requires Strict(cfg) && Mirrors(cfg, g, events) && Now(g) != GComplete
    ensures var m := WithTop(MachineOf(g, events), LeadState(Now(g)));
            Reads(cfg, g.out + Sep(f, Now(g)), m) && Listens(cfg, m) && Quiet(g.out + Sep(f, Now(g)))
  {
    hide Parse, OnToken, Reads, Apart;
    var st, m := Now(g), MachineOf(g, events);
    StackFacts(cfg, g, events);
    if st == GMapKey || st == GInArray || st == GMapVal {
      var c := if st == GMapVal then COLON else COMMA;
      if st == GMapVal { ColonEffect(cfg, m); } else { CommaEffect(cfg, m); }
      TopListens(cfg, m, LeadState(st));
      PunctApart(g.out, c);
      LexemeStep(cfg, g.out, m, Punct(c));
      var ws := if !f.beautify then [] else if st == GMapVal then [0x20] else [NEWLINE];
      SpaceStep(cfg, g.out + [c], WithTop(m, LeadState(st)), ws);
      assert g.out + Sep(f, st) == g.out + [c] + ws;
      QuietSpaces(g.out + [c], ws);
    } else {
      assert g.out + [] == g.out;
      assert WithTop(m, Corr(st)) == m;
    }
  }

  lemma PunctApart(out: bytes, c: byte)
    requires IsPunct(c)
    ensures Apart(out, [c]) && Quiet(out + [c])
  {
  }

  lemma QuietApart(out: bytes, t: bytes)
    requires Quiet(out)
    ensures Apart(out, t)
  {
  }

  lemma LeadReads(cfg: Config, f: GFlags, g: Gen, events: seq<Event>)
    requires Strict(cfg) && Mirrors(cfg, g, events) && Now(g) != GComplete && Spaces(f.indent)
    ensures var m := WithTop(MachineOf(g, events), LeadState(Now(g)));
            Reads(cfg, Lead(f, g).out, m) && Listens(cfg, m) && Quiet(Lead(f, g).out)
  {
    hide Parse, OnToken, Reads, Sep, White, Quiet, Listens, Spaces;
    SepReads(cfg, f, g, events);
    WhiteSpaces(f, Now(g), g.depth);
    SpaceStep(cfg, g.out + Sep(f, Now(g)), WithTop(MachineOf(g, events), LeadState(Now(g))), White(f, Now(g), g.depth));
    QuietSpaces(g.out + Sep(f, Now(g)), White(f, Now(g), g.depth));
  }

  /** A final newline. */
  lemma FinalMirrors(cfg: Config, f: GFlags, g: Gen, events: seq<Event>)
    requires Strict(cfg) && Mirrors(cfg, g, events)
    ensures Usable(g) && Mirrors(cfg, Final(f, g), events)
  {
    hide Parse, Reads;
    StackFacts(cfg, g, events);
    if f.beautify && Now(g) == GComplete {
      SpaceStep(cfg, g.out, MachineOf(g, events), [NEWLINE]);
      assert MachineOf(Final(f, g), events) == MachineOf(g, events);
    }
  }

  // ----- calls

  /** The callback a call comes back as. */
  function EventOf(g: Gen, c: Call): Event
    requires Usable(g)
  {
    match c
    case CMapOpen => StartMap
    case CMapClose => EndMap
    case CArrayOpen => StartArray
    case CArrayClose => EndArray
    case CString(s) => if IsKeyState(Now(g)) then MapKey(s) else String(s)
    case _ => AtomEvent(c)
  }

  /** A closing call matches what is open; the generator does not check this. */
  predicate Matching(g: Gen, c: Call)
    requires Usable(g)
  {
    && (c.CMapClose? ==> Now(g) == GMapStart || Now(g) == GMapKey)
    && (c.CArrayClose? ==> Now(g) == GArrayStart || Now(g) == GInArray)
  }

  /** The parser will take this string. */
  predicate Acceptable(cfg: Config, c: Call) {
    c.CString? && !cfg.flags.dontValidateStrings ==> IsUtf8(c.s, 0)
  }

  lemma StrValue(s: bytes, solidus: bool)
    ensures StringValue(TokOf(Str(s, solidus)), BodyOf(Str(s, solidus))) == s
  {
    hide Encode, Decode, HasEscape;
    if HasEscape(s, 0, solidus) {
      DecodeEncode(s, solidus);
    } else {
      NothingEscaped(s, 0, solidus);
      assert s[0..] == s;
    }
  }

  lemma StackTop(g: Gen, st: GState, out: bytes)
    requires Usable(g)
    ensures StackOf(Became(g, st).(out := out)) == StackOf(g)[g.depth := Corr(st)]
  {
  }

  /** The machine after the separator and an atom. */
  lemma AtomMoves(cfg: Config, g: Gen, events: seq<Event>, c: Call, solidus: bool)
    requires c.CNull? || c.CBool? || c.CInteger? || c.CString?
    requires Strict(cfg) && Shape(g) && Now(g) != GComplete && cfg.accepts(events + [EventOf(g, c)])
    requires IsKeyState(Now(g)) ==> c.CString?
    ensures var m := WithTop(MachineOf(g, events), LeadState(Now(g)));
            && Stacked(m)
            && Effect(cfg, m, AtomLexeme(c, solidus)) ==
                 Go(WithTop(Plus(m, EventOf(g, c)), Corr(AtomDone(Now(g)))))
  {
    hide Effect;
    StackFacts(cfg, g, events);
    var m := WithTop(MachineOf(g, events), LeadState(Now(g)));
    if c.CString? { StrValue(c.s, solidus); }
    if IsKeyState(Now(g)) {
      KeyEffect(cfg, m, c.s, solidus);
    } else {
      AtomEffect(cfg, m, c, solidus);
    }
  }

  lemma AtomMirrors(cfg: Config, f: GFlags, g: Gen, events: seq<Event>, c: Call)
    requires c.CNull? || c.CBool? || c.CInteger? || c.CString?
    requires Strict(cfg) && Mirrors(cfg, g, events) && Now(g) != GComplete && Spaces(f.indent)
    requires cfg.accepts(events + [EventOf(g, c)]) && Acceptable(cfg, c)
    requires IsKeyState(Now(g)) ==> c.CString?
    ensures Mirrors(cfg, Atom(f, g, Written(AtomLexeme(c, f.escapeSolidus))), events + [EventOf(g, c)])
  {
    hide Parse, Reads, Effect, Written, Listens, Quiet, Sep, White, Apart, IsUtf8, TokOf, BodyOf;
    var l, st := AtomLexeme(c, f.escapeSolidus), Now(g);
    var m := WithTop(MachineOf(g, events), LeadState(st));
    LeadReads(cfg, f, g, events);
    AtomMoves(cfg, g, events, c, f.escapeSolidus);
    var a := Lead(f, g);
    QuietApart(a.out, Written(l));
    LexemeStep(cfg, a.out, m, l);
    var b := Became(Print(a, Written(l)), AtomDone(st));
    StackTop(g, AtomDone(st), b.out);
    assert MachineOf(b, events + [EventOf(g, c)]) == WithTop(Plus(m, EventOf(g, c)), Corr(AtomDone(st)));
    FinalMirrors(cfg, f, b, events + [EventOf(g, c)]);
  }

  lemma StackPush(g: Gen, st: GState, out: bytes)
    requires Usable(g) && g.depth + 1 < MAX_DEPTH
    ensures StackOf(Became(g.(depth := g.depth + 1), st).(out := out)) ==
      StackOf(g)[g.depth := Corr(AtomDone(Now(g)))] + [Corr(st)]
  {
  }

  lemma StackPop(g: Gen, out: bytes)
    requires Usable(g) && g.depth > 0
    ensures var d := g.(depth := g.depth - 1); StackOf(Became(d, AtomDone(Now(d))).(out := out)) == StackOf(g)[..g.depth]
  {
  }

  lemma OpenShape(g: Gen, st: GState, out: bytes)
    requires Shape(g) && TakesValue(Now(g)) && g.depth + 1 < MAX_DEPTH && Quiet(out)
    requires st == GMapStart || st == GArrayStart
    ensures Shape(Became(g.(depth := g.depth + 1), st).(out := out))
  {
  }

  /** The generator and the machine after the separator and an opening bracket. */
  lemma OpenMoves(cfg: Config, g: Gen, events: seq<Event>, isMap: bool, out: bytes)
    requires Strict(cfg) && Shape(g) && TakesValue(Now(g)) && g.depth + 1 < MAX_DEPTH && Quiet(out)
    requires cfg.accepts(events + [if isMap then StartMap else StartArray])
    ensures var m := WithTop(MachineOf(g, events), LeadState(Now(g)));
            var h := Became(g.(depth := g.depth + 1), if isMap then GMapStart else GArrayStart).(out := out);
            && Shape(h) && Stacked(m)
            && Effect(cfg, m, Punct(if isMap then LCURLY else LSQUARE)) ==
                 Go(MachineOf(h, events + [if isMap then StartMap else StartArray]))
  {
    hide Effect, Quiet, StackOf, Strict;
    OpenShape(g, if isMap then GMapStart else GArrayStart, out);
    hide Shape;
    StackFacts(cfg, g, events);
    var m := WithTop(MachineOf(g, events), LeadState(Now(g)));
    OpenEffect(cfg, m, isMap);
    StackPush(g, if isMap then GMapStart else GArrayStart, out);
  }

  lemma OpenMirrors(cfg: Config, f: GFlags, g: Gen, events: seq<Event>, isMap: bool)
    requires Strict(cfg) && Mirrors(cfg, g, events) && TakesValue(Now(g)) && Spaces(f.indent)
    requires g.depth + 1 < MAX_DEPTH && cfg.accepts(events + [if isMap then StartMap else StartArray])
    ensures var c := if isMap then LCURLY else LSQUARE;
            var st := if isMap then GMapStart else GArrayStart;
            Mirrors(cfg, OpenWith(f, g, c, st).0, events + [if isMap then StartMap else StartArray])
  {
    hide Parse, Reads, Effect, Listens, Quiet, Sep, White, Apart, MachineOf, Shape, Strict;
    MirrorsShape(cfg, g, events);
    var c := if isMap then LCURLY else LSQUARE;
    var e := if isMap then StartMap else StartArray;
    var st := if isMap then GMapStart else GArrayStart;
    StackFacts(cfg, g, events);
    var m := WithTop(MachineOf(g, events), LeadState(Now(g)));
    LeadReads(cfg, f, g, events);
    var a := Lead(f, g);
    PunctApart(a.out, c);
    var out := a.out + [c];
    QuietSpaces(out, Line(f));
    OpenMoves(cfg, g, events, isMap, out);
    OpenMoves(cfg, g, events, isMap, out + Line(f));
    LexemeStep(cfg, a.out, m, Punct(c));
    var h := Became(g.(depth := g.depth + 1), st).(out := out);
    StackFacts(cfg, h, events + [e]);
    SpaceStep(cfg, out, MachineOf(h, events + [e]), Line(f));
    assert OpenWith(f, g, c, st).0 == h.(out := out + Line(f));
  }

  lemma CloseMoves(cfg: Config, g: Gen, events: seq<Event>, isMap: bool, out: bytes)
    requires Strict(cfg) && Shape(g)
    requires if isMap then Now(g) == GMapStart || Now(g) == GMapKey else Now(g) == GArrayStart || Now(g) == GInArray
    requires cfg.accepts(events + [if isMap then EndMap else EndArray])
    ensures g.depth > 0 && Stacked(MachineOf(g, events))
    ensures var d := g.(depth := g.depth - 1);
            var h := Became(d, AtomDone(Now(d))).(out := out);
            && Shape(h)
            && Effect(cfg, MachineOf(g, events), Punct(if isMap then RCURLY else RSQUARE)) ==
                 Go(MachineOf(h, events + [if isMap then EndMap else EndArray]))
  {
    hide Effect, Quiet, StackOf;
    StackFacts(cfg, g, events);
    CloseEffect(cfg, MachineOf(g, events), isMap);
    StackPop(g, out);
  }

  lemma CloseMirrors(cfg: Config, f: GFlags, g: Gen, events: seq<Event>, isMap: bool)
    requires Strict(cfg) && Mirrors(cfg, g, events) && Spaces(f.indent)
    requires if isMap then Now(g) == GMapStart || Now(g) == GMapKey else Now(g) == GArrayStart || Now(g) == GInArray
    requires cfg.accepts(events + [if isMap then EndMap else EndArray])
    ensures var r := CloseWith(f, g, if isMap then RCURLY else RSQUARE);
            r.1 == GOk && Mirrors(cfg, r.0, events + [if isMap then EndMap else EndArray])
  {
    hide Parse, Reads, Effect, Listens, Quiet, White, Apart, MachineOf, Shape, Strict, Final;
    MirrorsShape(cfg, g, events);
    var c := if isMap then RCURLY else RSQUARE;
    var e := if isMap then EndMap else EndArray;
    var m := MachineOf(g, events);
    StackFacts(cfg, g, events);
    CloseMoves(cfg, g, events, isMap, []);
    var d := g.(depth := g.depth - 1);
    var st := AtomDone(Now(d));
    var ws := White(f, st, d.depth);
    SpaceStep(cfg, g.out, m, Line(f));
    WhiteSpaces(f, st, d.depth);
    SpaceStep(cfg, g.out + Line(f), m, ws);
    var out := g.out + Line(f) + ws;
    PunctApart(out, c);
    LexemeStep(cfg, out, m, Punct(c));
    CloseMoves(cfg, g, events, isMap, out + [c]);
    var h := Became(d, st).(out := out + [c]);
    FinalMirrors(cfg, f, h, events + [e]);
    assert CloseWith(f, g, c) == (Final(f, h), GOk);
  }

  /** A call that succeeds adds its callback to what the parser gives for the output. */
  lemma GenerateMirrors(cfg: Config, f: GFlags, g: Gen, events: seq<Event>, c: Call)
    requires Strict(cfg) && Mirrors(cfg, g, events) && Spaces(f.indent)
    requires Matching(g, c) && Acceptable(cfg, c) && cfg.accepts(events + [EventOf(g, c)])
    requires Generate(f, g, c).1 == GOk
    ensures Mirrors(cfg, Generate(f, g, c).0, events + [EventOf(g, c)])
  {
    hide Mirrors, Atom, CloseWith, IsUtf8, Printed, Encode;
    assert Shape(g) by { MirrorsShape(cfg, g, events); }
    match c
    case CMapOpen => OpenMirrors(cfg, f, g, events, true);
    case CArrayOpen => OpenMirrors(cfg, f, g, events, false);
    case CMapClose => CloseMirrors(cfg, f, g, events, true);
    case CArrayClose => CloseMirrors(cfg, f, g, events, false);
    case _ => AtomMirrors(cfg, f, g, events, c);
  }

  lemma MirrorsShape(cfg: Config, g: Gen, events: seq<Event>)
    requires Mirrors(cfg, g, events)
    ensures Shape(g)
  {
  }

  lemma FreshMirrors(cfg: Config)
    ensures Mirrors(cfg, FRESH, [])
  {
    hide Parse;
    assert MachineOf(FRESH, []) == INIT;
  }

  // ----- runs

  /** Every call of the run succeeds. */
  ghost predicate Runs(f: GFlags, g: Gen, calls: seq<Call>)
    decreases |calls|
  {
    calls == [] || (Usable(g) && Generate(f, g, calls[0]).1 == GOk && Runs(f, Generate(f, g, calls[0]).0, calls[1..]))
  }

  /** Every closing of the run matches what is open, and every string can be parsed. */
  ghost predicate Fits(cfg: Config, f: GFlags, g: Gen, calls: seq<Call>)
    requires Runs(f, g, calls)
    decreases |calls|
  {
    calls == []
    || (Matching(g, calls[0]) && Acceptable(cfg, calls[0]) && Fits(cfg, f, Generate(f, g, calls[0]).0, calls[1..]))
  }

  ghost function Ran(f: GFlags, g: Gen, calls: seq<Call>): (r: Gen)
    requires Runs(f, g, calls)
    ensures Usable(g) ==> Usable(r)
    decreases |calls|
  {
    hide Generate;
    if calls == [] then g else Ran(f, Generate(f, g, calls[0]).0, calls[1..])
  }

  ghost function Echo(f: GFlags, g: Gen, calls: seq<Call>): seq<Event>
    requires Runs(f, g, calls)
    decreases |calls|
  {
    if calls == [] then []
    else [EventOf(g, calls[0])] + Echo(f, Generate(f, g, calls[0]).0, calls[1..])
  }

  /** The client lets every beginning of these callbacks through. */
  ghost predicate Lets(cfg: Config, all: seq<Event>) {
    forall k | 0 <= k <= |all| :: cfg.accepts(all[..k])
  }

  lemma LetsOne(cfg: Config, all: seq<Event>, events: seq<Event>, e: Event)
    requires Lets(cfg, all) && events + [e] <= all
    ensures cfg.accepts(events + [e])
  {
    assert all[..|events| + 1] == events + [e];
  }

  /** The callbacks for the output of a run that fits are the run's own calls. */
  lemma {:induction false} RunMirrors(cfg: Config, f: GFlags, g: Gen, events: seq<Event>, calls: seq<Call>, all: seq<Event>)
    requires Strict(cfg) && Mirrors(cfg, g, events) && Spaces(f.indent) && Runs(f, g, calls) && Fits(cfg, f, g, calls)
    requires Lets(cfg, all) && events + Echo(f, g, calls) <= all
    ensures Mirrors(cfg, Ran(f, g, calls), events + Echo(f, g, calls))
    decreases |calls|
  {
    hide Mirrors, Generate, EventOf, Lets, Matching, Acceptable;
    if calls == [] {
      assert events + [] == events;
    } else {
      var e, rest := EventOf(g, calls[0]), Echo(f, Generate(f, g, calls[0]).0, calls[1..]);
      assert events + ([e] + rest) == events + [e] + rest;
      LetsOne(cfg, all, events, e);
      GenerateMirrors(cfg, f, g, events, calls[0]);
      RunMirrors(cfg, f, Generate(f, g, calls[0]).0, events + [e], calls[1..], all);
    }
  }

  /** Once the generator is complete, its output parses to the end without error. */
  lemma CompleteOutcome(cfg: Config, g: Gen, events: seq<Event>)
    requires Strict(cfg) && Mirrors(cfg, g, events) && Now(g) == GComplete
    ensures Outcome(cfg, g.out) == (MachineOf(g, events), StatusOk)
  {
    hide Parse, LexAt;
    var s, m := g.out + SPACE, MachineOf(g, events);
    StackFacts(cfg, g, events);
    assert Apart(g.out, SPACE);
    LexSpaces(OptionsOf(cfg.flags), s, |g.out|, |s|);
    LexHereEof(OptionsOf(cfg.flags), s);
    ParseHere(cfg, s, |g.out|, m);
    Resumed(cfg, g.out, s);
  }

  lemma LexHereEof(o: Options, s: bytes)
    ensures LexAt(o, s, |s|) == Eof(|s|)
  {
  }
}
