/** The pushdown parser on a text in one piece (libs/yajl/yajl_parser.c:158-497):
    what the streaming parser must do whatever the chunks. */
module YajlParse {
  import opened Bytes
  import opened Numerals
  import opened YajlLex
  import opened YajlString
  import opened YajlQuoted

  datatype PState = Start | Complete | ParseError | LexicalError
    | MapStart | MapSep | MapNeedVal | MapGotVal | MapNeedKey
    | ArrayStart | ArrayGotVal | ArrayNeedVal | GotValue

  datatype Event = Null | Boolean(b: bool) | Integer(n: int) | Double(text: bytes) | Number(text: bytes)
    | String(s: bytes) | StartMap | MapKey(s: bytes) | EndMap | StartArray | EndArray

  datatype Fault = NoFault | ClientCancelled | TrailingGarbage | IntegerOverflow | FloatOverflow | UnallowedToken
    | InvalidKey | ColonExpected | MapEndExpected | ArrayEndExpected | PrematureEof | Lexical(err: LexError)

  datatype Status = StatusOk | StatusCancelled | StatusError

  datatype Flags = Flags(allowComments: bool, dontValidateStrings: bool, allowTrailingGarbage: bool,
    allowMultipleValues: bool, allowPartialValues: bool)

  /** Which callbacks the client has set. */
  datatype Handlers = Handlers(onNull: bool, onBoolean: bool, onInteger: bool, onDouble: bool, onNumber: bool,
    onString: bool, onStartMap: bool, onMapKey: bool, onEndMap: bool, onStartArray: bool, onEndArray: bool)

  /** The client: what it lets through after all the callbacks so far, and which
      texts overflow a double. */
  datatype Config = Config(flags: Flags, handlers: Handlers, accepts: seq<Event> -> bool, overflows: bytes -> bool)

  function OptionsOf(f: Flags): Options {
    Options(f.allowComments, !f.dontValidateStrings)
  }

  // ----- integers

  const LLONG_MAX := 0x7fff_ffff_ffff_ffff

  datatype Parsed = Value(n: int) | OutOfRange

  /** The digits of s from k on, after ret. */
  function ParseDigits(s: bytes, k: nat, ret: nat): Parsed
    decreases |s| - k
  {
    if k >= |s| then Value(ret)
    else if ret > LLONG_MAX / 10 + LLONG_MAX % 10 then OutOfRange
    else if LLONG_MAX - ret * 10 < s[k] - ZERO then OutOfRange
    else if !IsDigit(s[k]) then OutOfRange
    else ParseDigits(s, k + 1, ret * 10 + (s[k] - ZERO))
  }

  function DigitsAt(s: bytes): nat {
    var k := if s != [] && s[0] == MINUS then 1 else 0;
    if k < |s| && s[k] == PLUS then k + 1 else k
  }

  function ParseInteger(s: bytes): Parsed {
    var r := ParseDigits(s, DigitsAt(s), 0);
    if r.Value? && s != [] && s[0] == MINUS then Value(-r.n) else r
  }

  // ----- one token

  datatype Machine = Machine(stack: seq<PState>, events: seq<Event>, fault: Fault)

  const INIT := Machine([Start], [], NoFault)

  /** The bottom of the stack is never inside a container. */
  predicate Stacked(m: Machine) {
    |m.stack| > 0 &&
    (m.stack[0] == Start || m.stack[0] == Complete || m.stack[0] == ParseError || m.stack[0] == LexicalError
     || m.stack[0] == GotValue)
  }

  function Top(m: Machine): PState
    requires Stacked(m)
  {
    m.stack[|m.stack| - 1]
  }

  predicate Outer(p: PState) {
    p == Start || p == Complete || p == ParseError || p == LexicalError || p == GotValue
  }

  function Set(m: Machine, p: PState): (r: Machine)
    requires Stacked(m) && (|m.stack| == 1 ==> Outer(p))
    ensures Stacked(r)
  {
    m.(stack := m.stack[|m.stack| - 1 := p])
  }

  function Push(m: Machine, p: PState): (r: Machine)
    requires Stacked(m)
    ensures Stacked(r)
  {
    m.(stack := m.stack + [p])
  }

  function Pop(m: Machine): (r: Machine)
    requires Stacked(m) && |m.stack| > 1
    ensures Stacked(r)
  {
    m.(stack := m.stack[..|m.stack| - 1])
  }

  function Fail(m: Machine, fault: Fault): (r: Machine)
    requires Stacked(m)
    ensures Stacked(r)
  {
    Set(m, ParseError).(fault := fault)
  }

  /** Go on from a machine, or stop because the client said so. */
  datatype Step = Go(m: Machine) | Cancelled(m: Machine)

  function Emit(cfg: Config, m: Machine, on: bool, e: Event): (r: Step)
    requires Stacked(m)
    ensures Stacked(r.m) && (r.Go? ==> r.m.stack == m.stack) && (r.Cancelled? ==> Top(r.m) == ParseError)
  {
    if !on then Go(m) else
    var n := m.(events := m.events + [e]);
    if cfg.accepts(n.events) then Go(n) else Cancelled(Fail(n, ClientCancelled))
  }

  /** The state after a value. */
  function AfterValue(p: PState): PState {
    if p == Start || p == GotValue then Complete else if p == MapNeedVal then MapGotVal else ArrayGotVal
  }

  predicate NeedsValue(p: PState) {
    p == Start || p == GotValue || p == MapNeedVal || p == ArrayNeedVal || p == ArrayStart
  }

  function Valued(r: Step, push: seq<PState>): (t: Step)
    requires Stacked(r.m) && (r.Go? ==> NeedsValue(Top(r.m)))
    ensures Stacked(t.m) && (t.Cancelled? ==> t == r)
  {
    if r.Cancelled? then r else
    var m := Set(r.m, AfterValue(Top(r.m)));
    Go(m.(stack := m.stack + push))
  }

  function Closed(r: Step): (t: Step)
    requires Stacked(r.m) && (r.Go? ==> |r.m.stack| > 1)
    ensures Stacked(t.m) && (t.Cancelled? ==> t == r)
  {
    if r.Cancelled? then r else Go(Pop(r.m))
  }

  function OnValue(cfg: Config, m: Machine, tok: Tok, text: bytes): (r: Step)
    requires Stacked(m) && NeedsValue(Top(m))
    ensures Stacked(r.m) && (r.Cancelled? ==> Top(r.m) == ParseError)
  {
    var h := cfg.handlers;
    match tok
    case TString => Valued(Emit(cfg, m, h.onString, String(text)), [])
    case TStringWithEscapes => Valued(Emit(cfg, m, h.onString, String(Decode(text))), [])
    case TBool => Valued(Emit(cfg, m, h.onBoolean, Boolean(text != [] && text[0] == 0x74)), [])
    case TNull => Valued(Emit(cfg, m, h.onNull, Null), [])
    case TLeftBracket => Valued(Emit(cfg, m, h.onStartMap, StartMap), [MapStart])
    case TLeftBrace => Valued(Emit(cfg, m, h.onStartArray, StartArray), [ArrayStart])
    case TInteger =>
      if h.onNumber then Valued(Emit(cfg, m, true, Number(text)), [])
      else if !h.onInteger then Valued(Go(m), [])
      else (
        match ParseInteger(text)
        case OutOfRange => Go(Fail(m, IntegerOverflow))
        case Value(n) => Valued(Emit(cfg, m, true, Integer(n)), [])
      )
    case TDouble =>
      if h.onNumber then Valued(Emit(cfg, m, true, Number(text)), [])
      else if !h.onDouble then Valued(Go(m), [])
      else if cfg.overflows(text) then Go(Fail(m, FloatOverflow))
      else Valued(Emit(cfg, m, true, Double(text)), [])
    case TRightBrace =>
      if Top(m) == ArrayStart then Closed(Emit(cfg, m, h.onEndArray, EndArray)) else Go(Fail(m, UnallowedToken))
    case TColon => Go(Fail(m, UnallowedToken))
    case TComma => Go(Fail(m, UnallowedToken))
    case TRightBracket => Go(Fail(m, UnallowedToken))
  }

  function OnKey(cfg: Config, m: Machine, tok: Tok, text: bytes): (r: Step)
    requires Stacked(m) && (Top(m) == MapStart || Top(m) == MapNeedKey)
    ensures Stacked(r.m) && (r.Cancelled? ==> Top(r.m) == ParseError)
  {
    if tok == TString || tok == TStringWithEscapes then
      var r := Emit(cfg, m, cfg.handlers.onMapKey, MapKey(StringValue(tok, text)));
      if r.Cancelled? then r else Go(Set(r.m, MapSep))
    else if tok == TRightBracket && Top(m) == MapStart then
      Closed(Emit(cfg, m, cfg.handlers.onEndMap, EndMap))
    else Go(Fail(m, InvalidKey))
  }

  /** What a token does, in every state that reads one. */
  function OnToken(cfg: Config, m: Machine, tok: Tok, text: bytes): (r: Step)
    requires Stacked(m)
    ensures Stacked(r.m) && (r.Cancelled? ==> Top(r.m) == ParseError)
  {
    match Top(m)
    case MapStart => OnKey(cfg, m, tok, text)
    case MapNeedKey => OnKey(cfg, m, tok, text)
    case MapSep => if tok == TColon then Go(Set(m, MapNeedVal)) else Go(Fail(m, ColonExpected))
    case MapGotVal =>
      if tok == TRightBracket then Closed(Emit(cfg, m, cfg.handlers.onEndMap, EndMap))
      else if tok == TComma then Go(Set(m, MapNeedKey))
      else Go(Fail(m, MapEndExpected))
    case ArrayGotVal =>
      if tok == TRightBrace then Closed(Emit(cfg, m, cfg.handlers.onEndArray, EndArray))
      else if tok == TComma then Go(Set(m, ArrayNeedVal))
      else Go(Fail(m, ArrayEndExpected))
    case Complete => Go(Fail(m, TrailingGarbage))
    case ParseError => Go(m)
    case LexicalError => Go(m)
    case _ => OnValue(cfg, m, tok, text)
  }

  // ----- a whole text

  /** Where parsing stops: the machine, the place from which to read on, the status. */
  datatype Stop = Stop(m: Machine, pos: nat, status: Status)

  /** No further input is read in this state. */
  predicate Deaf(cfg: Config, p: PState) {
    p == ParseError || p == LexicalError
    || (p == Complete && !cfg.flags.allowMultipleValues && cfg.flags.allowTrailingGarbage)
  }

  /** With several values allowed, a complete one is followed by the next. */
  function Awake(cfg: Config, m: Machine): (r: Machine)
    requires Stacked(m)
    ensures Stacked(r)
  {
    if Top(m) == Complete && cfg.flags.allowMultipleValues then Set(m, GotValue) else m
  }

  function Parse(cfg: Config, s: bytes, p: nat, m: Machine): (r: Stop)
    requires p <= |s| && Stacked(m)
    ensures r.pos <= |s| && Stacked(r.m)
    decreases |s| - p
  {
    var a := Awake(cfg, m);
    if Deaf(cfg, Top(a)) then (if Top(a) == Complete then Stop(a, p, StatusOk) else Stop(a, 0, StatusError)) else
    match LexAt(OptionsOf(cfg.flags), s, p)
    case Eof(from) => Stop(a, from, StatusOk)
    case Error(e) =>
      if Top(a) == Complete then Stop(Fail(a, TrailingGarbage), 0, StatusError)
      else Stop(Set(a, LexicalError).(fault := Lexical(e)), 0, StatusError)
    case Token(tok, from, end) =>
      match OnToken(cfg, a, tok, TextOf(s, tok, from, end))
      case Cancelled(n) => Stop(n, 0, StatusCancelled)
      case Go(n) => Parse(cfg, s, end, n)
  }

  // ----- more text

  lemma TextGrows(s: bytes, t: bytes, tok: Tok, from: nat, end: nat)
    requires Prefix(s, t) && from <= end <= |s|
    ensures TextOf(s, tok, from, end) == TextOf(t, tok, from, end)
  {
  }

  /** Parsing stops where it can be taken up again when more text has come, as if
      all the text had been there; once it has failed, more text changes nothing. */
  lemma {:induction false} ParseGrows(cfg: Config, s: bytes, t: bytes, p: nat, m: Machine)
    requires Prefix(s, t) && p <= |s| && Stacked(m)
    ensures var r := Parse(cfg, s, p, m);
            Parse(cfg, t, p, m) == if r.status == StatusOk then Parse(cfg, t, r.pos, r.m) else r
    decreases |s| - p
  {
    hide LexAt, OnToken, TextOf;
    var a, o := Awake(cfg, m), OptionsOf(cfg.flags);
    LexGrows(o, s, t, p);
    if !Deaf(cfg, Top(a)) {
      match LexAt(o, s, p)
      case Eof(from) =>
        LexGrows(o, s, t, from);
      case Error(e) =>
      case Token(tok, from, end) =>
        TextGrows(s, t, tok, from, end);
        var st := OnToken(cfg, a, tok, TextOf(s, tok, from, end));
        if st.Go? {
          ParseGrows(cfg, s, t, end, st.m);
        }
    }
  }

  /** A failed machine stays as it is. */
  lemma {:induction false} FailedForGood(cfg: Config, s: bytes, p: nat, m: Machine)
    requires p <= |s| && Stacked(m)
    ensures var r := Parse(cfg, s, p, m); r.status != StatusOk ==>
      forall t: bytes :: Parse(cfg, t, 0, r.m) == Stop(r.m, 0, StatusError)
    decreases |s| - p
  {
    hide LexAt, OnToken, TextOf;
    var a := Awake(cfg, m);
    if !Deaf(cfg, Top(a)) {
      match LexAt(OptionsOf(cfg.flags), s, p)
      case Eof(from) =>
      case Error(e) =>
      case Token(tok, from, end) =>
        var st := OnToken(cfg, a, tok, TextOf(s, tok, from, end));
        if st.Go? {
          FailedForGood(cfg, s, end, st.m);
        }
    }
  }

  const SPACE: bytes := [0x20]

  /** `yajl_do_finish`, from where parsing stopped after one more space. */
  function Finished(cfg: Config, f: Stop): (Machine, Status)
    requires Stacked(f.m)
  {
    if f.status != StatusOk then (f.m, f.status)
    else
      match Top(f.m)
      case ParseError => (f.m, StatusError)
      case LexicalError => (f.m, StatusError)
      case GotValue => (f.m, StatusOk)
      case Complete => (f.m, StatusOk)
      case _ => if cfg.flags.allowPartialValues then (f.m, StatusOk) else (Fail(f.m, PrematureEof), StatusError)
  }

  /** The whole of a text: parse, then finish. */
  function Outcome(cfg: Config, text: bytes): (Machine, Status) {
    var r := Parse(cfg, text, 0, INIT);
    Finished(cfg, Parse(cfg, text + SPACE, r.pos, r.m))
  }
}
