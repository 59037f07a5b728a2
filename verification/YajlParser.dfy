/** The streaming parser (libs/yajl/yajl_parser.c:35-62 and 148-497). */
module YajlParser {
  import opened Bytes
  import opened Numerals
  import opened YajlLex
  import opened YajlLexer
  import opened YajlString
  import opened YajlQuoted
  import opened YajlParse

  /** `yajl_parse_integer`, on unbounded integers: the product is made before it is
      checked, and can be above LLONG_MAX. */
  method IntegerOf(number: bytes) returns (r: Parsed)
    ensures r == ParseInteger(number)
  {
    var ret: int := 0;
    var sign, pos := 1, 0;
    if pos < |number| && number[pos] == MINUS {
      pos := pos + 1;
      sign := -1;
    }
    if pos < |number| && number[pos] == PLUS { pos := pos + 1; }
    while pos < |number|
      invariant 0 <= pos && 0 <= ret
      invariant ParseDigits(number, pos, ret) == ParseDigits(number, DigitsAt(number), 0)
    {
      if ret > LLONG_MAX / 10 + LLONG_MAX % 10 { return OutOfRange; }
      ret := ret * 10;
      if LLONG_MAX - ret < number[pos] - ZERO { return OutOfRange; }
      if number[pos] < ZERO || number[pos] > 0x39 { return OutOfRange; }
      ret := ret + (number[pos] - ZERO);
      pos := pos + 1;
    }
    r := Value(sign * ret);
  }

  /** What the parser does about a token or a lexical error. */
  function Reaction(cfg: Config, m: Machine, x: Lexed, text: bytes): (r: Step)
    requires Stacked(m) && !x.Eof?
    ensures Stacked(r.m) && (x.Error? ==> r.Go? && (Top(r.m) == ParseError || Top(r.m) == LexicalError))
    ensures r.Cancelled? ==> Top(r.m) == ParseError
  {
    if Top(m) == Complete then Go(Fail(m, TrailingGarbage))
    else if x.Error? then Go(Set(m, LexicalError).(fault := Lexical(x.err)))
    else OnToken(cfg, m, x.tok, text)
  }

  function After(x: Lexed, p: nat): nat {
    if x.Token? then x.end else p
  }

  function TextIn(s: bytes, x: Lexed): bytes
    requires x.Token? ==> x.from <= x.end <= |s|
  {
    if x.Token? then TextOf(s, x.tok, x.from, x.end) else []
  }

  /** The cases of parsing from p. */
  lemma ParseHere(cfg: Config, s: bytes, p: nat, m: Machine)
    requires p <= |s| && Stacked(m)
    ensures var t := Top(m);
            if t == ParseError || t == LexicalError then Parse(cfg, s, p, m) == Stop(m, 0, StatusError)
            else if t == Complete && cfg.flags.allowMultipleValues then
              Parse(cfg, s, p, m) == Parse(cfg, s, p, Set(m, GotValue))
            else if t == Complete && cfg.flags.allowTrailingGarbage then Parse(cfg, s, p, m) == Stop(m, p, StatusOk)
            else
              var x := LexAt(OptionsOf(cfg.flags), s, p);
              if x.Eof? then Parse(cfg, s, p, m) == Stop(m, x.from, StatusOk) else
              var st := Reaction(cfg, m, x, TextIn(s, x));
              if st.Cancelled? then Parse(cfg, s, p, m) == Stop(st.m, 0, StatusCancelled)
              else Parse(cfg, s, p, m) == Parse(cfg, s, After(x, p), st.m)
  {
    hide LexAt, OnValue, OnKey, TextOf;
    FailedHere(cfg, s, p, Fail(m, TrailingGarbage));
  }

  lemma FailedHere(cfg: Config, s: bytes, p: nat, m: Machine)
    requires p <= |s| && Stacked(m) && (Top(m) == ParseError || Top(m) == LexicalError)
    ensures Parse(cfg, s, p, m) == Stop(m, 0, StatusError)
  {
  }

  /** Parsing a longer text from where a shorter one stopped. */
  lemma Resumed(cfg: Config, s: bytes, t: bytes)
    requires Prefix(s, t)
    ensures var r := Parse(cfg, s, 0, INIT);
            var g := Parse(cfg, t, r.pos, r.m);
            var w := Parse(cfg, t, 0, INIT);
            && w.m == g.m && (g.status == StatusOk ==> w == g)
            && w.status == if r.status == StatusOk then g.status else r.status
  {
    hide Parse;
    ParseGrows(cfg, s, t, 0, INIT);
    FailedForGood(cfg, s, 0, INIT);
    FailedAtZero(cfg, s, 0, INIT);
  }

  lemma {:induction false} FailedAtZero(cfg: Config, s: bytes, p: nat, m: Machine)
    requires p <= |s| && Stacked(m)
    ensures var r := Parse(cfg, s, p, m); r.status != StatusOk ==> r.pos == 0
    decreases |s| - p
  {
    hide OnToken, TextOf;
    var a := Awake(cfg, m);
    var x := LexAt(OptionsOf(cfg.flags), s, p);
    if x.Token? {
      var st := OnToken(cfg, a, x.tok, TextOf(s, x.tok, x.from, x.end));
      if st.Go? { FailedAtZero(cfg, s, x.end, st.m); }
    }
  }

  class Parser {
    const cfg: Config
    const lexer: Lexer
    var stateStack: seq<PState>
    var parseError: Fault
    /** The callbacks the client has received. */
    var events: seq<Event>
    ghost var fed: bytes

    ghost function M(): Machine
      reads this`stateStack, this`events, this`parseError
    {
      Machine(stateStack, events, parseError)
    }

    /** The state is that of a parser given in one piece all that was fed. */
    ghost predicate Valid()
      reads this, lexer
    {
      var r := Parse(cfg, fed, 0, INIT);
      && lexer.opts == OptionsOf(cfg.flags) && r.m == M()
      && (!Deaf(cfg, Top(M())) ==> lexer.Drained() && lexer.fed == fed && lexer.Rest() == r.pos)
    }

    constructor (cfg: Config)
      ensures this.cfg == cfg && Valid() && fed == [] && events == [] && fresh(lexer)
    {
      this.cfg := cfg;
      lexer := new Lexer(OptionsOf(cfg.flags));
      stateStack, parseError, events, fed := [Start], NoFault, [], [];
    }

    // ----- callbacks and states

    method SetState(p: PState)
      requires Stacked(M()) && (|stateStack| == 1 ==> Outer(p))
      modifies this`stateStack
      ensures M() == Set(old(M()), p)
    {
      stateStack := stateStack[|stateStack| - 1 := p];
    }

    /** A callback; a client that cancels puts the parser in error. */
    method Callback(on: bool, e: Event) returns (go: bool)
      requires Stacked(M())
      modifies this`stateStack, this`parseError, this`events
      ensures var r := Emit(cfg, old(M()), on, e); M() == r.m && go == r.Go?
    {
      if !on { return true; }
      events := events + [e];
      if !cfg.accepts(events) {
        SetState(ParseError);
        parseError := ClientCancelled;
        return false;
      }
      go := true;
    }

    method Fault(fault: Fault)
      requires Stacked(M())
      modifies this`stateStack, this`parseError
      ensures M() == Fail(old(M()), fault)
    {
      SetState(ParseError);
      parseError := fault;
    }

    /** The end of a value: the state moves on, and a container's own state is pushed. */
    method GotA(push: seq<PState>)
      requires Stacked(M()) && NeedsValue(Top(M()))
      modifies this`stateStack
      ensures Go(M()) == Valued(Go(old(M())), push)
    {
      var s := stateStack[|stateStack| - 1];
      if s == Start || s == GotValue {
        SetState(Complete);
      } else if s == MapNeedVal {
        SetState(MapGotVal);
      } else {
        SetState(ArrayGotVal);
      }
      stateStack := stateStack + push;
    }
  
    /** A callback for a value, and the move to the next state. */
    method ValueCallback(on: bool, e: Event, push: seq<PState>) returns (go: bool)
      requires Stacked(M()) && NeedsValue(Top(M()))
      modifies this`stateStack, this`parseError, this`events
      ensures var r := Valued(Emit(cfg, old(M()), on, e), push); M() == r.m && go == r.Go?
    {
      go := Callback(on, e);
      if go { GotA(push); }
    }

    /** A callback for the end of a container, and the return to the one around it. */
    method EndCallback(on: bool, e: Event) returns (go: bool)
      requires Stacked(M()) && |stateStack| > 1
      modifies this`stateStack, this`parseError, this`events
      ensures var r := Closed(Emit(cfg, old(M()), on, e)); M() == r.m && go == r.Go?
    {
      go := Callback(on, e);
      if go { stateStack := stateStack[..|stateStack| - 1]; }
    }

    /** A token where a value may stand. */
    method ValueToken(tok: Tok, buf: bytes) returns (go: bool)
      requires Stacked(M()) && NeedsValue(Top(M()))
      modifies this`stateStack, this`parseError, this`events
      ensures var r := OnValue(cfg, old(M()), tok, buf); M() == r.m && go == r.Go?
    {
      hide Valued, Closed, Emit, Fail, ParseInteger, Decode, M, Stacked;
      TopFacts();
      var h := cfg.handlers;
      go := true;
      match tok
      case TString => go := ValueCallback(h.onString, String(buf), []);
      case TStringWithEscapes =>
        var decoded := StringDecode(buf);
        go := ValueCallback(h.onString, String(decoded), []);
      case TBool => go := ValueCallback(h.onBoolean, Boolean(buf != [] && buf[0] == 0x74), []);
      case TNull => go := ValueCallback(h.onNull, Null, []);
      case TLeftBracket => go := ValueCallback(h.onStartMap, StartMap, [MapStart]);
      case TLeftBrace => go := ValueCallback(h.onStartArray, StartArray, [ArrayStart]);
      case TInteger =>
        if h.onNumber {
          go := ValueCallback(true, Number(buf), []);
        } else if h.onInteger {
          var i := IntegerOf(buf);
          if i.OutOfRange? {
            Fault(IntegerOverflow);
          } else {
            go := ValueCallback(true, Integer(i.n), []);
          }
        } else {
          GotA([]);
        }
      case TDouble =>
        if h.onNumber {
          go := ValueCallback(true, Number(buf), []);
        } else if h.onDouble {
          if cfg.overflows(buf) {
            Fault(FloatOverflow);
          } else {
            go := ValueCallback(true, Double(buf), []);
          }
        } else {
          GotA([]);
        }
      case TRightBrace =>
        if stateStack[|stateStack| - 1] == ArrayStart {
          go := EndCallback(h.onEndArray, EndArray);
        } else {
          Fault(UnallowedToken);
        }
      case TColon => Fault(UnallowedToken);
      case TComma => Fault(UnallowedToken);
      case TRightBracket => Fault(UnallowedToken);
    }

    lemma TopFacts()
      requires Stacked(M())
      ensures |stateStack| > 0 && Top(M()) == stateStack[|stateStack| - 1]
      ensures !Outer(Top(M())) ==> |stateStack| > 1
    {
    }

    /** A token where a key of a map may stand. */
    method KeyToken(tok: Tok, buf: bytes) returns (go: bool)
      requires Stacked(M()) && (Top(M()) == MapStart || Top(M()) == MapNeedKey)
      modifies this`stateStack, this`parseError, this`events
      ensures var r := OnKey(cfg, old(M()), tok, buf); M() == r.m && go == r.Go?
    {
      hide Closed, Emit, Fail, Decode;
      TopFacts();
      if tok == TString || tok == TStringWithEscapes {
        var text := buf;
        if tok == TStringWithEscapes { text := StringDecode(buf); }
        go := Callback(cfg.handlers.onMapKey, MapKey(text));
        if go { SetState(MapSep); }
      } else if tok == TRightBracket && stateStack[|stateStack| - 1] == MapStart {
        go := EndCallback(cfg.handlers.onEndMap, EndMap);
      } else {
        Fault(InvalidKey);
        go := true;
      }
    }

    /** A token in any state that reads one. */
    method HandleToken(tok: Tok, buf: bytes) returns (go: bool)
      requires Stacked(M())
      modifies this`stateStack, this`parseError, this`events
      ensures var r := OnToken(cfg, old(M()), tok, buf); M() == r.m && go == r.Go?
    {
      hide Closed, Emit, Fail, OnValue, OnKey, M, Stacked;
      TopFacts();
      go := true;
      match stateStack[|stateStack| - 1]
      case MapStart => go := KeyToken(tok, buf);
      case MapNeedKey => go := KeyToken(tok, buf);
      case MapSep =>
        if tok == TColon { SetState(MapNeedVal); } else { Fault(ColonExpected); }
      case MapGotVal =>
        if tok == TRightBracket {
          go := EndCallback(cfg.handlers.onEndMap, EndMap);
        } else if tok == TComma {
          SetState(MapNeedKey);
        } else {
          Fault(MapEndExpected);
        }
      case ArrayGotVal =>
        if tok == TRightBrace {
          go := EndCallback(cfg.handlers.onEndArray, EndArray);
        } else if tok == TComma {
          SetState(ArrayNeedVal);
        } else {
          Fault(ArrayEndExpected);
        }
      case Complete => Fault(TrailingGarbage);
      case ParseError =>
      case LexicalError =>
      case _ => go := ValueToken(tok, buf);
    }
  
    // ----- parsing

    /** The lexer stands at p, unless the parser is not going to read. */
    ghost predicate ReadyAt(p: int)
      reads this, lexer
    {
      && lexer.opts == OptionsOf(cfg.flags) && Stacked(M()) && 0 <= p <= |fed|
      && (!Deaf(cfg, Top(M())) ==> lexer.Ready() && lexer.fed == fed && lexer.Pos() == p)
    }

    /** Parsing has stopped as g says. */
    ghost predicate Stopped(g: Stop)
      reads this, lexer
    {
      && lexer.opts == OptionsOf(cfg.flags) && Stacked(M()) && M() == g.m
      && (!Deaf(cfg, Top(M())) ==> g.status == StatusOk && lexer.Drained() && lexer.fed == fed && lexer.Rest() == g.pos)
    }

    /** Parses a chunk from where the last one left off. */
    method DoParse(text: bytes) returns (status: Status)
      requires Valid()
      modifies this`stateStack, this`parseError, this`events, this`fed, lexer
      ensures Valid() && fed == old(fed) + text
      ensures var r := Parse(cfg, old(fed), 0, INIT); status == Parse(cfg, fed, r.pos, r.m).status
    {
      hide Parse, LexAt, OnToken, Deaf;
      TopFacts();
      ghost var r := Parse(cfg, fed, 0, INIT);
      ghost var was := fed;
      fed := fed + text;
      if !Deaf(cfg, stateStack[|stateStack| - 1]) {
        lexer.NextChunk(text);
      }
      ghost var g := Parse(cfg, fed, r.pos, r.m);
      status := Around(r.pos);
      Resumed(cfg, was, fed);
    }

    /** Acts on a token or a lexical error. */
    method React(tok: Answer, buf: bytes, ghost x: Lexed) returns (go: bool)
      requires Stacked(M()) && !x.Eof?
      requires if x.Error? then tok == TokError && lexer.error == x.err else tok == Tok(x.tok)
      modifies this`stateStack, this`parseError, this`events
      ensures var r := Reaction(cfg, old(M()), x, buf); M() == r.m && go == r.Go?
    {
      hide OnToken;
      go := true;
      if stateStack[|stateStack| - 1] == Complete {
        Fault(TrailingGarbage);
      } else if tok == TokError {
        SetState(LexicalError);
        parseError := Lexical(lexer.error);
      } else {
        go := HandleToken(tok.tok, buf);
      }
    }

    /** Lexes the next token and acts on it. */
    method Take(ghost p: nat) returns (tok: Answer, go: bool)
      requires ReadyAt(p) && !Deaf(cfg, Top(M()))
      modifies this`stateStack, this`parseError, this`events, lexer
      ensures var x := LexAt(OptionsOf(cfg.flags), fed, p);
              if x.Eof? then
                && tok == TokEof && M() == old(M())
                && lexer.Drained() && lexer.fed == fed && lexer.Rest() == x.from
              else
                var st := Reaction(cfg, old(M()), x, TextIn(fed, x));
                && tok != TokEof && M() == st.m && go == st.Go?
                && (x.Token? ==> lexer.Ready() && lexer.fed == fed && lexer.Pos() == x.end)
    {
      hide LexAt, Lexer.Ready, Lexer.Drained, Lexer.Rest, Lexer.Pos, TextOf, Reaction;
      var buf;
      go := true;
      tok, buf := lexer.Lex();
      if tok != TokEof {
        go := React(tok, if tok.Tok? then buf else [], LexAt(OptionsOf(cfg.flags), fed, p));
      }
    }

    method Around(ghost start: nat) returns (status: Status)
      requires ReadyAt(start)
      modifies this`stateStack, this`parseError, this`events, lexer
      ensures var g := Parse(cfg, fed, start, old(M())); Stopped(g) && status == g.status
    {
      hide Parse, LexAt, Lexer.Ready, Lexer.Drained, Lexer.Rest, Lexer.Pos, TextOf, Reaction, TextIn;
      ghost var g := Parse(cfg, fed, start, M());
      ghost var p := start;
      while true
        invariant ReadyAt(p) && Parse(cfg, fed, p, M()) == g
        decreases |fed| - p, if Deaf(cfg, Top(M())) then 0 else if Top(M()) == Complete then 2 else 1
      {
        ParseHere(cfg, fed, p, M());
        var s := stateStack[|stateStack| - 1];
        if s == ParseError || s == LexicalError {
          return StatusError;
        }
        if s == Complete {
          if cfg.flags.allowMultipleValues {
            SetState(GotValue);
            continue;
          }
          if cfg.flags.allowTrailingGarbage {
            return StatusOk;
          }
          if lexer.offset == |lexer.text| {
            lexer.ReadAll();
            return StatusOk;
          }
        }
        var tok, go := Take(p);
        if tok == TokEof {
          return StatusOk;
        }
        if !go { return StatusCancelled; }
        p := After(LexAt(OptionsOf(cfg.flags), fed, p), p);
      }
    }

    /** `yajl_do_finish`: one more space ends a number, then the state decides. */
    method DoFinish() returns (status: Status)
      requires Valid()
      modifies this`stateStack, this`parseError, this`events, this`fed, lexer
      ensures (M(), status) == Outcome(cfg, old(fed))
    {
      hide Parse, Deaf;
      ghost var text := fed;
      ghost var r := Parse(cfg, text, 0, INIT);
      status := DoParse(SPACE);
      Resumed(cfg, text, fed);
      if status != StatusOk { return; }
      TopFacts();
      match stateStack[|stateStack| - 1]
      case ParseError => status := StatusError;
      case LexicalError => status := StatusError;
      case GotValue => status := StatusOk;
      case Complete => status := StatusOk;
      case _ =>
        if !cfg.flags.allowPartialValues {
          Fault(PrematureEof);
          status := StatusError;
        }
    }
  }

  /** Feeding a text in chunks and finishing: the callbacks, the fault, the first
      status that is not ok and the final status depend only on the whole text. */
  method ParseChunks(cfg: Config, chunks: seq<bytes>)
    returns (events: seq<Event>, fault: Fault, fed: Status, final: Status)
    ensures var (m, status) := Outcome(cfg, Join(chunks));
            events == m.events && fault == m.fault && final == status
    ensures fed == Parse(cfg, Join(chunks), 0, INIT).status
  {
    hide Parse, Outcome;
    var p := new Parser(cfg);
    NothingParsed(cfg);
    fed := StatusOk;
    for i := 0 to |chunks|
      invariant fresh(p) && fresh(p.lexer) && p.cfg == cfg && p.Valid() && p.fed == Join(chunks[..i])
      invariant fed == Parse(cfg, p.fed, 0, INIT).status
    {
      ghost var was := p.fed;
      var status := p.DoParse(chunks[i]);
      Resumed(cfg, was, p.fed);
      if fed == StatusOk { fed := status; }
      assert chunks[..i + 1][..i] == chunks[..i];
    }
    assert chunks[..|chunks|] == chunks;
    final := p.DoFinish();
    events, fault := p.events, p.parseError;
  }

  lemma NothingParsed(cfg: Config)
    ensures Parse(cfg, [], 0, INIT).status == StatusOk
  {
  }
}
