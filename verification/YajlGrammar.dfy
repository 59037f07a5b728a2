/** Which texts the parser accepts, and with which callbacks: exactly those whose tokens
    spell one value of the grammar of section 2 of RFC 4627, which is stated here apart from
    the parser (libs/yajl/yajl_parser.c:158-497). */
module YajlGrammar {
  import opened Bytes
  import opened Numerals
  import opened YajlLex
  import opened YajlString
  import opened YajlQuoted
  import opened YajlParse
  import opened YajlParser
  import opened YajlTrailing

  // ----- the grammar

  /** A token; the six structural characters have no text. */
  datatype Token = Word(tok: Tok, text: bytes)

  /** A value as it is written: one token, or values between brackets. */
  datatype Value = Single(t: Token) | Array(items: seq<Value>) | Object(members: seq<Pair>)

  datatype Pair = Pair(key: Token, value: Value)

  function Sign(tok: Tok): Token {
    Word(tok, [])
  }

  /** value; array = [ value *( , value ) ]; object = { member *( , member ) } */
  function Spell(v: Value): (ts: seq<Token>)
    ensures ts != []
  {
    match v
    case Single(t) => [t]
    case Array(items) => [Sign(TLeftBrace)] + SpellItems(items) + [Sign(TRightBrace)]
    case Object(members) => [Sign(TLeftBracket)] + SpellPairs(members) + [Sign(TRightBracket)]
  }

  function SpellItems(items: seq<Value>): seq<Token> {
    if items == [] then [] else Spell(items[0]) + SpellMore(items[1..])
  }

  /** *( , value ) */
  function SpellMore(items: seq<Value>): seq<Token> {
    if items == [] then [] else [Sign(TComma)] + Spell(items[0]) + SpellMore(items[1..])
  }

  function SpellPairs(members: seq<Pair>): seq<Token> {
    if members == [] then [] else SpellPair(members[0]) + SpellMorePairs(members[1..])
  }

  /** member = string : value */
  function SpellPair(p: Pair): seq<Token> {
    [p.key, Sign(TColon)] + Spell(p.value)
  }

  /** *( , member ) */
  function SpellMorePairs(members: seq<Pair>): seq<Token> {
    if members == [] then [] else [Sign(TComma)] + SpellPair(members[0]) + SpellMorePairs(members[1..])
  }

  predicate IsString(t: Token) {
    t.tok == TString || t.tok == TStringWithEscapes
  }

  /** A value of one token: a string, a literal, or a number that is in range where the
      client asks for its value. */
  predicate Proper(cfg: Config, t: Token) {
    var h := cfg.handlers;
    match t.tok
    case TString => true
    case TStringWithEscapes => true
    case TNull => true
    case TBool => true
    case TInteger => h.onNumber || !h.onInteger || ParseInteger(t.text).Value?
    case TDouble => h.onNumber || !h.onDouble || !cfg.overflows(t.text)
    case _ => false
  }

  predicate WellFormed(cfg: Config, v: Value)
    decreases v
  {
    match v
    case Single(t) => Proper(cfg, t)
    case Array(items) => forall i | 0 <= i < |items| :: WellFormed(cfg, items[i])
    case Object(members) => forall i | 0 <= i < |members| :: IsString(members[i].key) && WellFormed(cfg, members[i].value)
  }

  /** One callback, if the client has set it. */
  function If(on: bool, e: Event): seq<Event> {
    if on then [e] else []
  }

  function TokenCalls(cfg: Config, t: Token): seq<Event> {
    var h := cfg.handlers;
    match t.tok
    case TString => If(h.onString, String(t.text))
    case TStringWithEscapes => If(h.onString, String(Decode(t.text)))
    case TNull => If(h.onNull, Null)
    case TBool => If(h.onBoolean, Boolean(t.text != [] && t.text[0] == 0x74))
    case TInteger =>
      if h.onNumber then [Number(t.text)]
      else if h.onInteger && ParseInteger(t.text).Value? then [Integer(ParseInteger(t.text).n)] else []
    case TDouble => if h.onNumber then [Number(t.text)] else If(h.onDouble, Double(t.text))
    case _ => []
  }

  /** The callbacks of a value, in the order of its text. */
  function Calls(cfg: Config, v: Value): seq<Event>
    decreases v
  {
    var h := cfg.handlers;
    match v
    case Single(t) => TokenCalls(cfg, t)
    case Array(items) => If(h.onStartArray, StartArray) + ItemCalls(cfg, items) + If(h.onEndArray, EndArray)
    case Object(members) => If(h.onStartMap, StartMap) + PairCalls(cfg, members) + If(h.onEndMap, EndMap)
  }

  function ItemCalls(cfg: Config, items: seq<Value>): seq<Event>
    decreases items
  {
    if items == [] then [] else Calls(cfg, items[0]) + ItemCalls(cfg, items[1..])
  }

  function KeyCalls(cfg: Config, key: Token): seq<Event> {
    If(cfg.handlers.onMapKey, MapKey(StringValue(key.tok, key.text)))
  }

  function PairCalls(cfg: Config, members: seq<Pair>): seq<Event>
    decreases members
  {
    if members == [] then []
    else OnePairCalls(cfg, members[0]) + PairCalls(cfg, members[1..])
  }

  function OnePairCalls(cfg: Config, p: Pair): seq<Event>
    decreases p
  {
    KeyCalls(cfg, p.key) + Calls(cfg, p.value)
  }

  // ----- the parser on tokens

  /** A client that accepts every callback. */
  ghost predicate Agrees(cfg: Config) {
    forall es :: cfg.accepts(es)
  }

  predicate Faulty(p: PState) {
    p == ParseError || p == LexicalError
  }

  /** The parser goes through these tokens without an error and ends complete. */
  predicate Accepts(cfg: Config, m: Machine, ts: seq<Token>)
    requires Stacked(m)
    decreases |ts|
  {
    if ts == [] then Top(m) == Complete
    else
      var r := OnToken(cfg, m, ts[0].tok, ts[0].text);
      r.Go? && !Faulty(Top(r.m)) && Accepts(cfg, r.m, ts[1..])
  }

  function Final(cfg: Config, m: Machine, ts: seq<Token>): Machine
    requires Stacked(m)
    decreases |ts|
  {
    if ts == [] then m else Final(cfg, OnToken(cfg, m, ts[0].tok, ts[0].text).m, ts[1..])
  }

  /** From m, these tokens lead on to n. */
  ghost predicate Leads(cfg: Config, m: Machine, ts: seq<Token>, n: Machine) {
    && Stacked(m) && Stacked(n)
    && forall rest: seq<Token> ::
         Accepts(cfg, m, ts + rest) == Accepts(cfg, n, rest) && (Accepts(cfg, n, rest) ==> Final(cfg, m, ts + rest) == Final(cfg, n, rest))
  }

  lemma LeadsNowhere(cfg: Config, m: Machine)
    requires Stacked(m)
    ensures Leads(cfg, m, [], m)
  {
    hide Accepts, Final;
    forall rest: seq<Token> ensures [] + rest == rest {}
  }

  lemma LeadsOne(cfg: Config, m: Machine, t: Token, n: Machine)
    requires Stacked(m) && OnToken(cfg, m, t.tok, t.text) == Go(n) && !Faulty(Top(n))
    ensures Leads(cfg, m, [t], n)
  {
    hide OnToken;
    forall rest: seq<Token> ensures ([t] + rest)[0] == t && ([t] + rest)[1..] == rest {}
  }

  lemma LeadsJoin(cfg: Config, m: Machine, a: seq<Token>, n: Machine, b: seq<Token>, k: Machine)
    requires Leads(cfg, m, a, n) && Leads(cfg, n, b, k)
    ensures Leads(cfg, m, a + b, k)
  {
    hide Accepts, Final;
    forall rest: seq<Token> ensures a + b + rest == a + (b + rest) {}
    forall rest: seq<Token>
      ensures Accepts(cfg, m, a + b + rest) == Accepts(cfg, k, rest)
      ensures Accepts(cfg, k, rest) ==> Final(cfg, m, a + b + rest) == Final(cfg, k, rest)
    {
      assert a + b + rest == a + (b + rest);
    }
  }

  // ----- single steps

  function Added(m: Machine, es: seq<Event>): Machine {
    m.(events := m.events + es)
  }

  function Retop(m: Machine, p: PState): Machine
    requires |m.stack| > 0
  {
    m.(stack := m.stack[|m.stack| - 1 := p])
  }

  predicate Wants(m: Machine) {
    Stacked(m) && NeedsValue(Top(m)) && (|m.stack| == 1 <==> Outer(Top(m)))
  }

  /** The machine once a value with these callbacks is read. */
  function Valued(m: Machine, es: seq<Event>): Machine
    requires Wants(m)
  {
    Retop(Added(m, es), AfterValue(Top(m)))
  }

  /** What a callback leaves of the machine. */
  lemma EmitAdds(cfg: Config, m: Machine, on: bool, e: Event)
    requires Agrees(cfg) && Stacked(m)
    ensures Emit(cfg, m, on, e) == Go(Added(m, If(on, e)))
  {
    assert m.events + [] == m.events;
  }

  lemma ValuedIs(m: Machine, es: seq<Event>)
    requires Wants(m)
    ensures YajlParse.Valued(Go(Added(m, es)), []) == Go(Valued(m, es)) && Stacked(Valued(m, es)) && !Faulty(Top(Valued(m, es)))
  {
    var n := Set(Added(m, es), AfterValue(Top(m)));
    assert n.stack + [] == n.stack;
  }

  lemma SingleEffect(cfg: Config, m: Machine, t: Token)
    requires Agrees(cfg) && Wants(m) && Proper(cfg, t)
    ensures OnValue(cfg, m, t.tok, t.text) == YajlParse.Valued(Go(Added(m, TokenCalls(cfg, t))), [])
  {
    hide Decode, ParseInteger, YajlParse.Valued, Emit;
    var h := cfg.handlers;
    assert Added(m, []) == m by { assert m.events + [] == m.events; }
    match t.tok
    case TString => EmitAdds(cfg, m, h.onString, String(t.text));
    case TStringWithEscapes => EmitAdds(cfg, m, h.onString, String(Decode(t.text)));
    case TNull => EmitAdds(cfg, m, h.onNull, Null);
    case TBool => EmitAdds(cfg, m, h.onBoolean, Boolean(t.text != [] && t.text[0] == 0x74));
    case TInteger =>
      EmitAdds(cfg, m, true, Number(t.text));
      if ParseInteger(t.text).Value? { EmitAdds(cfg, m, true, Integer(ParseInteger(t.text).n)); }
    case TDouble =>
      EmitAdds(cfg, m, true, Number(t.text));
      EmitAdds(cfg, m, true, Double(t.text));
    case _ =>
  }

  lemma OnWanted(cfg: Config, m: Machine, tok: Tok, text: bytes)
    requires Wants(m)
    ensures OnToken(cfg, m, tok, text) == OnValue(cfg, m, tok, text)
  {
    hide OnValue;
  }

  lemma SingleStep(cfg: Config, m: Machine, t: Token)
    requires Agrees(cfg) && Wants(m) && Proper(cfg, t)
    ensures Stacked(Valued(m, TokenCalls(cfg, t))) && Leads(cfg, m, [t], Valued(m, TokenCalls(cfg, t)))
  {
    hide Leads, OnValue, OnToken, TokenCalls, Proper;
    SingleEffect(cfg, m, t);
    ValuedIs(m, TokenCalls(cfg, t));
    OnWanted(cfg, m, t.tok, t.text);
    LeadsOne(cfg, m, t, Valued(m, TokenCalls(cfg, t)));
  }

  /** Inside a container that stands where m wants a value: the callbacks since, and what
      the parser expects. */
  function Inside(m: Machine, es: seq<Event>, p: PState): (n: Machine)
    requires Wants(m)
    ensures Stacked(n) && Top(n) == p && |n.stack| > 1
  {
    var v := Valued(m, es);
    v.(stack := v.stack + [p])
  }

  lemma InsideValued(m: Machine, es: seq<Event>, p: PState, fs: seq<Event>)
    requires Wants(m) && NeedsValue(p) && !Outer(p)
    ensures Wants(Inside(m, es, p)) && Valued(Inside(m, es, p), fs) == Inside(m, es + fs, AfterValue(p))
  {
    assert m.events + es + fs == m.events + (es + fs);
  }

  lemma OpenStep(cfg: Config, m: Machine, isMap: bool)
    requires Agrees(cfg) && Wants(m)
    ensures var h := cfg.handlers;
            Leads(cfg, m, [Sign(if isMap then TLeftBracket else TLeftBrace)],
                  Inside(m, if isMap then If(h.onStartMap, StartMap) else If(h.onStartArray, StartArray),
                         if isMap then MapStart else ArrayStart))
  {
    hide Leads, Decode, ParseInteger;
    var h := cfg.handlers;
    assert m.events + [] == m.events;
    LeadsOne(cfg, m, Sign(if isMap then TLeftBracket else TLeftBrace),
             Inside(m, if isMap then If(h.onStartMap, StartMap) else If(h.onStartArray, StartArray),
                    if isMap then MapStart else ArrayStart));
  }

  lemma CloseStep(cfg: Config, m: Machine, es: seq<Event>, p: PState, isMap: bool)
    requires Agrees(cfg) && Wants(m)
    requires if isMap then p == MapStart || p == MapGotVal else p == ArrayStart || p == ArrayGotVal
    ensures var h := cfg.handlers;
            var n := Valued(m, es + if isMap then If(h.onEndMap, EndMap) else If(h.onEndArray, EndArray));
            Leads(cfg, Inside(m, es, p), [Sign(if isMap then TRightBracket else TRightBrace)], n)
  {
    hide Leads, Decode, ParseInteger;
    var h := cfg.handlers;
    var end := if isMap then If(h.onEndMap, EndMap) else If(h.onEndArray, EndArray);
    var a, n := Inside(m, es, p), Valued(m, es + end);
    assert a.events + [] == a.events && m.events + es + end == m.events + (es + end);
    assert Pop(Added(a, end)) == n;
    LeadsOne(cfg, a, Sign(if isMap then TRightBracket else TRightBrace), n);
  }

  lemma CommaStep(cfg: Config, m: Machine, es: seq<Event>, p: PState)
    requires Wants(m) && (p == MapGotVal || p == ArrayGotVal)
    ensures Leads(cfg, Inside(m, es, p), [Sign(TComma)], Inside(m, es, if p == MapGotVal then MapNeedKey else ArrayNeedVal))
  {
    hide Leads;
    LeadsOne(cfg, Inside(m, es, p), Sign(TComma), Inside(m, es, if p == MapGotVal then MapNeedKey else ArrayNeedVal));
  }

  lemma KeyStep(cfg: Config, m: Machine, es: seq<Event>, p: PState, key: Token)
    requires Agrees(cfg) && Wants(m) && (p == MapStart || p == MapNeedKey) && IsString(key)
    ensures Leads(cfg, Inside(m, es, p), [key, Sign(TColon)], Inside(m, es + KeyCalls(cfg, key), MapNeedVal))
  {
    hide Leads, Decode;
    var a, fs := Inside(m, es, p), KeyCalls(cfg, key);
    var b, c := Inside(m, es + fs, MapSep), Inside(m, es + fs, MapNeedVal);
    assert a.events + [] == a.events && m.events + es + fs == m.events + (es + fs);
    LeadsOne(cfg, a, key, b);
    LeadsOne(cfg, b, Sign(TColon), c);
    LeadsJoin(cfg, a, [key], b, [Sign(TColon)], c);
    assert [key] + [Sign(TColon)] == [key, Sign(TColon)];
  }

  // ----- a spelled value is parsed

  predicate AllWellFormed(cfg: Config, items: seq<Value>) {
    forall i | 0 <= i < |items| :: WellFormed(cfg, items[i])
  }

  predicate PairsWellFormed(cfg: Config, members: seq<Pair>) {
    forall i | 0 <= i < |members| :: IsString(members[i].key) && WellFormed(cfg, members[i].value)
  }

  /** Reading a well-formed value takes the machine from wanting one to having it. */
  lemma {:induction false} ValueLeads(cfg: Config, m: Machine, v: Value)
    requires Agrees(cfg) && Wants(m) && WellFormed(cfg, v)
    ensures Leads(cfg, m, Spell(v), Valued(m, Calls(cfg, v)))
    decreases v, 2
  {
    hide Leads, Wants, Agrees, Inside, Valued, TokenCalls, Proper;
    var h := cfg.handlers;
    match v
    case Single(t) =>
      SingleStep(cfg, m, t);
    case Array(items) =>
      var open := If(h.onStartArray, StartArray);
      OpenStep(cfg, m, false);
      ItemsLead(cfg, m, open, items);
      LeadsJoin(cfg, m, [Sign(TLeftBrace)], Inside(m, open, ArrayStart), SpellItems(items) + [Sign(TRightBrace)],
                Valued(m, open + ItemCalls(cfg, items) + If(h.onEndArray, EndArray)));
      assert [Sign(TLeftBrace)] + (SpellItems(items) + [Sign(TRightBrace)]) == Spell(v);
    case Object(members) =>
      var open := If(h.onStartMap, StartMap);
      OpenStep(cfg, m, true);
      PairsLead(cfg, m, open, members);
      LeadsJoin(cfg, m, [Sign(TLeftBracket)], Inside(m, open, MapStart), SpellPairs(members) + [Sign(TRightBracket)],
                Valued(m, open + PairCalls(cfg, members) + If(h.onEndMap, EndMap)));
      assert [Sign(TLeftBracket)] + (SpellPairs(members) + [Sign(TRightBracket)]) == Spell(v);
  }

  /** One value inside a container. */
  lemma {:induction false} ChildLeads(cfg: Config, m: Machine, es: seq<Event>, p: PState, v: Value)
    requires Agrees(cfg) && Wants(m) && WellFormed(cfg, v) && (p == ArrayStart || p == ArrayNeedVal || p == MapNeedVal)
    ensures Leads(cfg, Inside(m, es, p), Spell(v), Inside(m, es + Calls(cfg, v), AfterValue(p)))
    decreases v, 3
  {
    hide Leads, Wants, Inside, Valued, Spell, Calls, WellFormed;
    InsideValued(m, es, p, Calls(cfg, v));
    ValueLeads(cfg, Inside(m, es, p), v);
  }

  lemma {:induction false} ItemsLead(cfg: Config, m: Machine, es: seq<Event>, items: seq<Value>)
    requires Agrees(cfg) && Wants(m) && AllWellFormed(cfg, items)
    ensures Leads(cfg, Inside(m, es, ArrayStart), SpellItems(items) + [Sign(TRightBrace)],
                  Valued(m, es + ItemCalls(cfg, items) + If(cfg.handlers.onEndArray, EndArray)))
    decreases items, 1
  {
    hide Leads, Wants, Agrees, Inside, Valued, Spell, Calls, WellFormed;
    if items == [] {
      CloseStep(cfg, m, es, ArrayStart, false);
      assert es + [] == es && [] + [Sign(TRightBrace)] == [Sign(TRightBrace)];
    } else {
      var v, rest := items[0], items[1..];
      var fs := es + Calls(cfg, v);
      ChildLeads(cfg, m, es, ArrayStart, v);
      MoreLead(cfg, m, fs, rest);
      assert fs + ItemCalls(cfg, rest) == es + ItemCalls(cfg, items);
      LeadsJoin(cfg, Inside(m, es, ArrayStart), Spell(v), Inside(m, fs, ArrayGotVal), SpellMore(rest) + [Sign(TRightBrace)],
                Valued(m, fs + ItemCalls(cfg, rest) + If(cfg.handlers.onEndArray, EndArray)));
      assert Spell(v) + (SpellMore(rest) + [Sign(TRightBrace)]) == SpellItems(items) + [Sign(TRightBrace)];
    }
  }

  lemma {:induction false} MoreLead(cfg: Config, m: Machine, es: seq<Event>, items: seq<Value>)
    requires Agrees(cfg) && Wants(m) && AllWellFormed(cfg, items)
    ensures Leads(cfg, Inside(m, es, ArrayGotVal), SpellMore(items) + [Sign(TRightBrace)],
                  Valued(m, es + ItemCalls(cfg, items) + If(cfg.handlers.onEndArray, EndArray)))
    decreases items, 1
  {
    hide Leads, Wants, Agrees, Inside, Valued, Spell, Calls, WellFormed;
    if items == [] {
      CloseStep(cfg, m, es, ArrayGotVal, false);
      assert es + [] == es && [] + [Sign(TRightBrace)] == [Sign(TRightBrace)];
    } else {
      var v, rest := items[0], items[1..];
      var fs := es + Calls(cfg, v);
      var end := Valued(m, fs + ItemCalls(cfg, rest) + If(cfg.handlers.onEndArray, EndArray));
      CommaStep(cfg, m, es, ArrayGotVal);
      ChildLeads(cfg, m, es, ArrayNeedVal, v);
      MoreLead(cfg, m, fs, rest);
      assert fs + ItemCalls(cfg, rest) == es + ItemCalls(cfg, items);
      LeadsJoin(cfg, Inside(m, es, ArrayNeedVal), Spell(v), Inside(m, fs, ArrayGotVal), SpellMore(rest) + [Sign(TRightBrace)], end);
      LeadsJoin(cfg, Inside(m, es, ArrayGotVal), [Sign(TComma)], Inside(m, es, ArrayNeedVal),
                Spell(v) + (SpellMore(rest) + [Sign(TRightBrace)]), end);
      assert [Sign(TComma)] + (Spell(v) + (SpellMore(rest) + [Sign(TRightBrace)])) == SpellMore(items) + [Sign(TRightBrace)];
    }
  }

  lemma {:induction false} PairLeads(cfg: Config, m: Machine, es: seq<Event>, p: PState, x: Pair)
    requires Agrees(cfg) && Wants(m) && IsString(x.key) && WellFormed(cfg, x.value) && (p == MapStart || p == MapNeedKey)
    ensures Leads(cfg, Inside(m, es, p), SpellPair(x), Inside(m, es + OnePairCalls(cfg, x), MapGotVal))
    decreases x, 4
  {
    hide Leads, Wants, Agrees, Inside, Valued, Spell, Calls, WellFormed;
    var fs := es + KeyCalls(cfg, x.key);
    KeyStep(cfg, m, es, p, x.key);
    ChildLeads(cfg, m, fs, MapNeedVal, x.value);
    LeadsJoin(cfg, Inside(m, es, p), [x.key, Sign(TColon)], Inside(m, fs, MapNeedVal), Spell(x.value),
              Inside(m, fs + Calls(cfg, x.value), MapGotVal));
    assert fs + Calls(cfg, x.value) == es + OnePairCalls(cfg, x);
  }

  lemma {:induction false} PairsLead(cfg: Config, m: Machine, es: seq<Event>, members: seq<Pair>)
    requires Agrees(cfg) && Wants(m) && PairsWellFormed(cfg, members)
    ensures Leads(cfg, Inside(m, es, MapStart), SpellPairs(members) + [Sign(TRightBracket)],
                  Valued(m, es + PairCalls(cfg, members) + If(cfg.handlers.onEndMap, EndMap)))
    decreases members, 1
  {
    hide Leads, Wants, Agrees, Inside, Valued, SpellPair, OnePairCalls, WellFormed;
    if members == [] {
      CloseStep(cfg, m, es, MapStart, true);
      assert es + [] == es && [] + [Sign(TRightBracket)] == [Sign(TRightBracket)];
    } else {
      var x, rest := members[0], members[1..];
      var fs := es + OnePairCalls(cfg, x);
      PairLeads(cfg, m, es, MapStart, x);
      MorePairsLead(cfg, m, fs, rest);
      assert fs + PairCalls(cfg, rest) == es + PairCalls(cfg, members);
      LeadsJoin(cfg, Inside(m, es, MapStart), SpellPair(x), Inside(m, fs, MapGotVal), SpellMorePairs(rest) + [Sign(TRightBracket)],
                Valued(m, fs + PairCalls(cfg, rest) + If(cfg.handlers.onEndMap, EndMap)));
      assert SpellPair(x) + (SpellMorePairs(rest) + [Sign(TRightBracket)]) == SpellPairs(members) + [Sign(TRightBracket)];
    }
  }

  lemma {:induction false} MorePairsLead(cfg: Config, m: Machine, es: seq<Event>, members: seq<Pair>)
    requires Agrees(cfg) && Wants(m) && PairsWellFormed(cfg, members)
    ensures Leads(cfg, Inside(m, es, MapGotVal), SpellMorePairs(members) + [Sign(TRightBracket)],
                  Valued(m, es + PairCalls(cfg, members) + If(cfg.handlers.onEndMap, EndMap)))
    decreases members, 1
  {
    hide Leads, Wants, Agrees, Inside, Valued, SpellPair, OnePairCalls, WellFormed;
    if members == [] {
      CloseStep(cfg, m, es, MapGotVal, true);
      assert es + [] == es && [] + [Sign(TRightBracket)] == [Sign(TRightBracket)];
    } else {
      var x, rest := members[0], members[1..];
      var fs := es + OnePairCalls(cfg, x);
      var end := Valued(m, fs + PairCalls(cfg, rest) + If(cfg.handlers.onEndMap, EndMap));
      CommaStep(cfg, m, es, MapGotVal);
      PairLeads(cfg, m, es, MapNeedKey, x);
      MorePairsLead(cfg, m, fs, rest);
      assert fs + PairCalls(cfg, rest) == es + PairCalls(cfg, members);
      LeadsJoin(cfg, Inside(m, es, MapNeedKey), SpellPair(x), Inside(m, fs, MapGotVal), SpellMorePairs(rest) + [Sign(TRightBracket)], end);
      LeadsJoin(cfg, Inside(m, es, MapGotVal), [Sign(TComma)], Inside(m, es, MapNeedKey),
                SpellPair(x) + (SpellMorePairs(rest) + [Sign(TRightBracket)]), end);
      assert [Sign(TComma)] + (SpellPair(x) + (SpellMorePairs(rest) + [Sign(TRightBracket)])) == SpellMorePairs(members) + [Sign(TRightBracket)];
    }
  }

  // ----- what is parsed was a spelled value

  predicate IsSign(tok: Tok) {
    tok == TLeftBrace || tok == TRightBrace || tok == TLeftBracket || tok == TRightBracket || tok == TComma || tok == TColon
  }

  predicate Tidy(ts: seq<Token>) {
    forall i | 0 <= i < |ts| :: IsSign(ts[i].tok) ==> ts[i].text == []
  }

  /** What is left after tokens that lead somewhere is accepted there. */
  lemma AcceptsOn(cfg: Config, m: Machine, a: seq<Token>, n: Machine, ts: seq<Token>)
    requires Leads(cfg, m, a, n) && a <= ts
    ensures Accepts(cfg, m, ts) == Accepts(cfg, n, ts[|a|..])
    ensures Accepts(cfg, m, ts) ==> Final(cfg, m, ts) == Final(cfg, n, ts[|a|..])
  {
    hide Accepts, Final;
    assert ts == a + ts[|a|..];
  }

  /** The first token of an accepted text where a value is wanted. */
  lemma FirstWanted(cfg: Config, m: Machine, ts: seq<Token>)
    requires Wants(m) && Accepts(cfg, m, ts)
    ensures ts != []
    ensures var t := ts[0]; Proper(cfg, t) || t.tok == TLeftBrace || t.tok == TLeftBracket || (t.tok == TRightBrace && Top(m) == ArrayStart)
  {
    hide Decode, ParseInteger;
    OnWanted(cfg, m, ts[0].tok, ts[0].text);
  }

  /** The first token of an accepted text inside a container, where no value is wanted. */
  lemma FirstInside(cfg: Config, m: Machine, es: seq<Event>, p: PState, ts: seq<Token>)
    requires Wants(m) && Accepts(cfg, Inside(m, es, p), ts)
    ensures !Outer(p) ==> ts != []
    ensures p == ArrayGotVal ==> ts[0].tok == TRightBrace || ts[0].tok == TComma
    ensures p == MapGotVal ==> ts[0].tok == TRightBracket || ts[0].tok == TComma
    ensures p == MapStart ==> ts[0].tok == TRightBracket || IsString(ts[0])
    ensures p == MapNeedKey ==> IsString(ts[0])
    ensures p == MapSep ==> ts[0].tok == TColon
  {
    hide Decode, ParseInteger, OnValue, Emit;
  }

  lemma {:induction false} ValueFound(cfg: Config, m: Machine, ts: seq<Token>) returns (v: Value)
    requires Agrees(cfg) && Wants(m) && Tidy(ts) && Accepts(cfg, m, ts)
    requires ts != [] && Top(m) == ArrayStart ==> ts[0].tok != TRightBrace
    ensures WellFormed(cfg, v) && Spell(v) <= ts
    decreases |ts|, 2
  {
    hide Leads, Wants, Agrees, Accepts, Final, Valued, TokenCalls, Inside, Proper;
    var h := cfg.handlers;
    FirstWanted(cfg, m, ts);
    var t, rest := ts[0], ts[1..];
    if t.tok == TLeftBrace {
      var open := If(h.onStartArray, StartArray);
      OpenStep(cfg, m, false);
      assert [Sign(TLeftBrace)] <= ts;
      AcceptsOn(cfg, m, [Sign(TLeftBrace)], Inside(m, open, ArrayStart), ts);
      var items := ItemsFound(cfg, m, open, rest);
      v := Array(items);
      assert Spell(v) == [Sign(TLeftBrace)] + (SpellItems(items) + [Sign(TRightBrace)]);
    } else if t.tok == TLeftBracket {
      var open := If(h.onStartMap, StartMap);
      OpenStep(cfg, m, true);
      assert [Sign(TLeftBracket)] <= ts;
      AcceptsOn(cfg, m, [Sign(TLeftBracket)], Inside(m, open, MapStart), ts);
      var members := PairsFound(cfg, m, open, rest);
      v := Object(members);
      assert Spell(v) == [Sign(TLeftBracket)] + (SpellPairs(members) + [Sign(TRightBracket)]);
    } else {
      v := Single(t);
    }
  }

  /** A value found inside a container, and what is accepted after it. */
  lemma {:induction false} ChildFound(cfg: Config, m: Machine, es: seq<Event>, p: PState, ts: seq<Token>) returns (v: Value)
    requires Agrees(cfg) && Wants(m) && Tidy(ts) && (p == ArrayStart || p == ArrayNeedVal || p == MapNeedVal)
    requires Accepts(cfg, Inside(m, es, p), ts) && (ts != [] && p == ArrayStart ==> ts[0].tok != TRightBrace)
    ensures WellFormed(cfg, v) && Spell(v) <= ts
    ensures Accepts(cfg, Inside(m, es + Calls(cfg, v), AfterValue(p)), ts[|Spell(v)|..])
    decreases |ts|, 3
  {
    hide Leads, Agrees, Accepts, Final, Valued, Inside, Spell, Calls, WellFormed;
    InsideValued(m, es, p, []);
    hide Wants;
    v := ValueFound(cfg, Inside(m, es, p), ts);
    ChildLeads(cfg, m, es, p, v);
    AcceptsOn(cfg, Inside(m, es, p), Spell(v), Inside(m, es + Calls(cfg, v), AfterValue(p)), ts);
  }

  lemma {:induction false} ItemsFound(cfg: Config, m: Machine, es: seq<Event>, ts: seq<Token>) returns (items: seq<Value>)
    requires Agrees(cfg) && Wants(m) && Tidy(ts) && Accepts(cfg, Inside(m, es, ArrayStart), ts)
    ensures AllWellFormed(cfg, items) && SpellItems(items) + [Sign(TRightBrace)] <= ts
    decreases |ts|, 4
  {
    hide Leads, Agrees, Accepts, Final, Valued, Inside, Spell, Calls, WellFormed, Wants;
    NotEnded(cfg, m, es, ArrayStart, ts);
    if ts[0].tok == TRightBrace {
      items := [];
      assert SpellItems(items) + [Sign(TRightBrace)] == [Sign(TRightBrace)];
    } else {
      var v := ChildFound(cfg, m, es, ArrayStart, ts);
      var n := |Spell(v)|;
      var more := MoreFound(cfg, m, es + Calls(cfg, v), ts[n..]);
      items := [v] + more;
      Found(v, more, ts, n);
    }
  }

  lemma NotEnded(cfg: Config, m: Machine, es: seq<Event>, p: PState, ts: seq<Token>)
    requires Wants(m) && Accepts(cfg, Inside(m, es, p), ts) && !Outer(p)
    ensures ts != []
  {
  }

  lemma Found(v: Value, more: seq<Value>, ts: seq<Token>, n: nat)
    requires Spell(v) <= ts && n == |Spell(v)| && SpellMore(more) + [Sign(TRightBrace)] <= ts[n..]
    ensures SpellItems([v] + more) + [Sign(TRightBrace)] <= ts
  {
    hide Spell;
    var all := [v] + more;
    assert all[0] == v && all[1..] == more;
    assert ts == ts[..n] + ts[n..];
    assert SpellItems(all) + [Sign(TRightBrace)] == Spell(v) + (SpellMore(more) + [Sign(TRightBrace)]);
  }

  lemma {:induction false} MoreFound(cfg: Config, m: Machine, es: seq<Event>, ts: seq<Token>) returns (items: seq<Value>)
    requires Agrees(cfg) && Wants(m) && Tidy(ts) && Accepts(cfg, Inside(m, es, ArrayGotVal), ts)
    ensures AllWellFormed(cfg, items) && SpellMore(items) + [Sign(TRightBrace)] <= ts
    decreases |ts|, 1
  {
    hide Leads, Agrees, Accepts, Final, Valued, Inside, Spell, Calls, WellFormed, Wants;
    FirstInside(cfg, m, es, ArrayGotVal, ts);
    if ts[0].tok == TRightBrace {
      items := [];
      assert SpellMore(items) + [Sign(TRightBrace)] == [Sign(TRightBrace)];
    } else {
      var rest := ts[1..];
      CommaStep(cfg, m, es, ArrayGotVal);
      assert [Sign(TComma)] <= ts;
      AcceptsOn(cfg, Inside(m, es, ArrayGotVal), [Sign(TComma)], Inside(m, es, ArrayNeedVal), ts);
      var v := ChildFound(cfg, m, es, ArrayNeedVal, rest);
      var n := |Spell(v)|;
      var more := MoreFound(cfg, m, es + Calls(cfg, v), rest[n..]);
      items := [v] + more;
      Found(v, more, rest, n);
      MoreIs(v, more, ts);
    }
  }

  lemma MoreIs(v: Value, more: seq<Value>, ts: seq<Token>)
    requires ts != [] && ts[0] == Sign(TComma) && SpellItems([v] + more) + [Sign(TRightBrace)] <= ts[1..]
    ensures SpellMore([v] + more) + [Sign(TRightBrace)] <= ts
  {
    hide Spell;
    var all := [v] + more;
    assert all[0] == v && all[1..] == more;
    assert ts == [Sign(TComma)] + ts[1..];
    assert SpellMore(all) + [Sign(TRightBrace)] == [Sign(TComma)] + (SpellItems(all) + [Sign(TRightBrace)]);
  }

  /** A key, a colon and a value. */
  lemma {:induction false} PairFound(cfg: Config, m: Machine, es: seq<Event>, p: PState, ts: seq<Token>) returns (x: Pair)
    requires Agrees(cfg) && Wants(m) && Tidy(ts) && (p == MapStart || p == MapNeedKey)
    requires Accepts(cfg, Inside(m, es, p), ts) && ts != [] && IsString(ts[0])
    ensures IsString(x.key) && WellFormed(cfg, x.value) && SpellPair(x) <= ts && SpellPair(x) != []
    ensures Accepts(cfg, Inside(m, es + OnePairCalls(cfg, x), MapGotVal), ts[|SpellPair(x)|..])
    decreases |ts|, 4
  {
    hide Leads, Agrees, Accepts, Final, Valued, Inside, Spell, Calls, WellFormed, Wants;
    var key := ts[0];
    ColonFollows(cfg, m, es, p, ts);
    var head, fs := [key, Sign(TColon)], es + KeyCalls(cfg, key);
    KeyStep(cfg, m, es, p, key);
    assert head <= ts;
    AcceptsOn(cfg, Inside(m, es, p), head, Inside(m, fs, MapNeedVal), ts);
    var v := ChildFound(cfg, m, fs, MapNeedVal, ts[2..]);
    x := Pair(key, v);
    PairLeads(cfg, m, es, p, x);
    assert SpellPair(x) <= ts by { assert ts == head + ts[2..]; }
    AcceptsOn(cfg, Inside(m, es, p), SpellPair(x), Inside(m, es + OnePairCalls(cfg, x), MapGotVal), ts);
  }

  lemma ColonFollows(cfg: Config, m: Machine, es: seq<Event>, p: PState, ts: seq<Token>)
    requires Agrees(cfg) && Wants(m) && (p == MapStart || p == MapNeedKey)
    requires Accepts(cfg, Inside(m, es, p), ts) && ts != [] && IsString(ts[0])
    ensures |ts| > 1 && ts[1].tok == TColon
  {
    hide Decode, OnValue;
    var a := OnToken(cfg, Inside(m, es, p), ts[0].tok, ts[0].text).m;
    assert Top(a) == MapSep;
    assert Accepts(cfg, a, ts[1..]);
  }

  lemma {:induction false} PairsFound(cfg: Config, m: Machine, es: seq<Event>, ts: seq<Token>) returns (members: seq<Pair>)
    requires Agrees(cfg) && Wants(m) && Tidy(ts) && Accepts(cfg, Inside(m, es, MapStart), ts)
    ensures PairsWellFormed(cfg, members) && SpellPairs(members) + [Sign(TRightBracket)] <= ts
    decreases |ts|, 5
  {
    hide Leads, Agrees, Accepts, Final, Valued, Inside, SpellPair, OnePairCalls, WellFormed, Wants;
    FirstInside(cfg, m, es, MapStart, ts);
    if ts[0].tok == TRightBracket {
      members := [];
      assert SpellPairs(members) + [Sign(TRightBracket)] == [Sign(TRightBracket)];
    } else {
      var x := PairFound(cfg, m, es, MapStart, ts);
      var n := |SpellPair(x)|;
      var more := MorePairsFound(cfg, m, es + OnePairCalls(cfg, x), ts[n..]);
      members := [x] + more;
      FoundPair(x, more, ts, n);
    }
  }

  lemma FoundPair(x: Pair, more: seq<Pair>, ts: seq<Token>, n: nat)
    requires SpellPair(x) <= ts && n == |SpellPair(x)| && SpellMorePairs(more) + [Sign(TRightBracket)] <= ts[n..]
    ensures SpellPairs([x] + more) + [Sign(TRightBracket)] <= ts
  {
    hide SpellPair;
    var all := [x] + more;
    assert all[0] == x && all[1..] == more;
    assert ts == ts[..n] + ts[n..];
    assert SpellPairs(all) + [Sign(TRightBracket)] == SpellPair(x) + (SpellMorePairs(more) + [Sign(TRightBracket)]);
  }

  lemma {:induction false} MorePairsFound(cfg: Config, m: Machine, es: seq<Event>, ts: seq<Token>) returns (members: seq<Pair>)
    requires Agrees(cfg) && Wants(m) && Tidy(ts) && Accepts(cfg, Inside(m, es, MapGotVal), ts)
    ensures PairsWellFormed(cfg, members) && SpellMorePairs(members) + [Sign(TRightBracket)] <= ts
    decreases |ts|, 1
  {
    hide Leads, Agrees, Accepts, Final, Valued, Inside, SpellPair, OnePairCalls, WellFormed, Wants;
    FirstInside(cfg, m, es, MapGotVal, ts);
    if ts[0].tok == TRightBracket {
      members := [];
      assert SpellMorePairs(members) + [Sign(TRightBracket)] == [Sign(TRightBracket)];
    } else {
      var rest := ts[1..];
      CommaStep(cfg, m, es, MapGotVal);
      assert [Sign(TComma)] <= ts;
      AcceptsOn(cfg, Inside(m, es, MapGotVal), [Sign(TComma)], Inside(m, es, MapNeedKey), ts);
      FirstInside(cfg, m, es, MapNeedKey, rest);
      var x := PairFound(cfg, m, es, MapNeedKey, rest);
      var n := |SpellPair(x)|;
      var more := MorePairsFound(cfg, m, es + OnePairCalls(cfg, x), rest[n..]);
      members := [x] + more;
      FoundPair(x, more, rest, n);
      MorePairsIs(x, more, ts);
    }
  }

  lemma MorePairsIs(x: Pair, more: seq<Pair>, ts: seq<Token>)
    requires ts != [] && ts[0] == Sign(TComma) && SpellPairs([x] + more) + [Sign(TRightBracket)] <= ts[1..]
    ensures SpellMorePairs([x] + more) + [Sign(TRightBracket)] <= ts
  {
    hide SpellPair;
    var all := [x] + more;
    assert all[0] == x && all[1..] == more;
    assert ts == [Sign(TComma)] + ts[1..];
    assert SpellMorePairs(all) + [Sign(TRightBracket)] == [Sign(TComma)] + (SpellPairs(all) + [Sign(TRightBracket)]);
  }

  /** From the start, the parser accepts exactly the tokens of one well-formed value, and
      its callbacks are those of the value. */
  lemma TokensExactly(cfg: Config, ts: seq<Token>, es: seq<Event>)
    requires Agrees(cfg) && Tidy(ts)
    ensures Accepts(cfg, INIT, ts) && Final(cfg, INIT, ts).events == es <==>
      exists v :: WellFormed(cfg, v) && ts == Spell(v) && es == Calls(cfg, v)
  {
    hide Accepts, Final, Leads, Spell, Calls, WellFormed, Agrees;
    if Accepts(cfg, INIT, ts) {
      var v := ValueFound(cfg, INIT, ts);
      Whole(cfg, v, ts);
    }
    forall v | WellFormed(cfg, v) && ts == Spell(v) ensures Accepts(cfg, INIT, ts) && Final(cfg, INIT, ts).events == Calls(cfg, v) {
      Whole(cfg, v, ts);
    }
  }

  /** Nothing may follow the value. */
  lemma Whole(cfg: Config, v: Value, ts: seq<Token>)
    requires Agrees(cfg) && WellFormed(cfg, v) && Spell(v) <= ts
    ensures Accepts(cfg, INIT, ts) <==> ts == Spell(v)
    ensures ts == Spell(v) ==> Final(cfg, INIT, ts).events == Calls(cfg, v)
  {
    hide Leads, Spell, Calls, WellFormed, Agrees;
    var n := Valued(INIT, Calls(cfg, v));
    ValueLeads(cfg, INIT, v);
    AcceptsOn(cfg, INIT, Spell(v), n, ts);
    var rest := ts[|Spell(v)|..];
    assert [] + Calls(cfg, v) == Calls(cfg, v);
    assert Top(n) == Complete;
    if rest == [] {
      assert ts == Spell(v) + rest == Spell(v);
    } else {
      assert !Accepts(cfg, n, rest);
    }
  }

  // ----- texts

  /** The tokens of a text, up to where the lexer runs out of it; none if it finds an error. */
  function Tokens(o: Options, s: bytes, p: nat): Option<seq<Token>>
    requires p <= |s|
    decreases |s| - p
  {
    match LexAt(o, s, p)
    case Eof(_) => Some([])
    case Error(_) => None
    case Token(tok, from, end) =>
      match Tokens(o, s, end)
      case None => None
      case Some(ts) => Some([Word(tok, if IsSign(tok) then [] else TextOf(s, tok, from, end))] + ts)
  }

  lemma {:induction false} TokensTidy(o: Options, s: bytes, p: nat)
    requires p <= |s|
    ensures Tokens(o, s, p).Some? ==> Tidy(Tokens(o, s, p).value)
    decreases |s| - p
  {
    hide LexAt, TextOf;
    var x := LexAt(o, s, p);
    if x.Token? { TokensTidy(o, s, x.end); }
  }

  /** One value, all of it, and nothing after it. */
  predicate Plain(f: Flags) {
    !f.allowMultipleValues && !f.allowTrailingGarbage && !f.allowPartialValues
  }

  lemma SignTextIdle(cfg: Config, m: Machine, tok: Tok, text: bytes)
    requires Stacked(m) && IsSign(tok)
    ensures OnToken(cfg, m, tok, text) == OnToken(cfg, m, tok, [])
  {
    hide Decode, ParseInteger, Emit;
  }

  /** Parsing a text is parsing its tokens. */
  lemma {:induction false} ParseAccepts(cfg: Config, s: bytes, p: nat, m: Machine)
    requires p <= |s| && Stacked(m) && !Faulty(Top(m)) && Plain(cfg.flags)
    ensures var (r, ts) := (Parse(cfg, s, p, m), Tokens(OptionsOf(cfg.flags), s, p));
            && (r.status == StatusOk && Top(r.m) == Complete <==> ts.Some? && Accepts(cfg, m, ts.value))
            && (ts.Some? && Accepts(cfg, m, ts.value) ==> r.m == Final(cfg, m, ts.value))
    decreases |s| - p
  {
    hide LexAt, OnToken, TextOf;
    var o := OptionsOf(cfg.flags);
    var x := LexAt(o, s, p);
    if x.Token? {
      var text := TextOf(s, x.tok, x.from, x.end);
      if IsSign(x.tok) { SignTextIdle(cfg, m, x.tok, text); }
      var r := OnToken(cfg, m, x.tok, text);
      var more := Tokens(o, s, x.end);
      if r.Go? && !Faulty(Top(r.m)) {
        ParseAccepts(cfg, s, x.end, r.m);
      } else if r.Go? {
        FailedHere(cfg, s, x.end, r.m);
      }
      if more.Some? {
        var t := Word(x.tok, if IsSign(x.tok) then [] else text);
        assert ([t] + more.value)[1..] == more.value;
      }
    }
  }

  lemma SetNoGotValue(m: Machine, p: PState, more: seq<PState>)
    requires |m.stack| > 0 && GotValue !in m.stack && p != GotValue && GotValue !in more
    ensures GotValue !in m.stack[|m.stack| - 1 := p] + more && GotValue !in m.stack[|m.stack| - 1 := p]
    ensures GotValue !in m.stack[..|m.stack| - 1]
  {
  }

  lemma ValueNoGotValue(cfg: Config, m: Machine, tok: Tok, text: bytes)
    requires Stacked(m) && NeedsValue(Top(m)) && GotValue !in m.stack
    ensures var r := OnValue(cfg, m, tok, text); r.Go? ==> GotValue !in r.m.stack
  {
    hide Decode, ParseInteger, Emit;
    var p := AfterValue(Top(m));
    SetNoGotValue(m, p, []);
    SetNoGotValue(m, p, [MapStart]);
    SetNoGotValue(m, p, [ArrayStart]);
    SetNoGotValue(m, ParseError, []);
  }

  lemma StepNoGotValue(cfg: Config, m: Machine, tok: Tok, text: bytes)
    requires Stacked(m) && GotValue !in m.stack
    ensures var r := OnToken(cfg, m, tok, text); r.Go? ==> GotValue !in r.m.stack
  {
    hide OnValue, Emit;
    if NeedsValue(Top(m)) { ValueNoGotValue(cfg, m, tok, text); }
    SetNoGotValue(m, ParseError, []);
    SetNoGotValue(m, MapSep, []);
    SetNoGotValue(m, MapNeedVal, []);
    SetNoGotValue(m, MapNeedKey, []);
    SetNoGotValue(m, ArrayNeedVal, []);
  }

  lemma {:induction false} NoGotValue(cfg: Config, s: bytes, p: nat, m: Machine)
    requires p <= |s| && Stacked(m) && Plain(cfg.flags) && GotValue !in m.stack
    ensures var r := Parse(cfg, s, p, m); r.status == StatusOk ==> GotValue !in r.m.stack
    decreases |s| - p
  {
    hide LexAt, OnToken, TextOf;
    var x := LexAt(OptionsOf(cfg.flags), s, p);
    if x.Token? {
      var text := TextOf(s, x.tok, x.from, x.end);
      StepNoGotValue(cfg, m, x.tok, text);
      var r := OnToken(cfg, m, x.tok, text);
      if r.Go? { NoGotValue(cfg, s, x.end, r.m); }
    }
  }

  lemma OutcomeIs(cfg: Config, text: bytes)
    requires Plain(cfg.flags)
    ensures var w := Parse(cfg, text + SPACE, 0, INIT);
            && (Outcome(cfg, text).1 == StatusOk <==> w.status == StatusOk && Top(w.m) == Complete)
            && (Outcome(cfg, text).1 == StatusOk ==> Outcome(cfg, text).0 == w.m)
  {
    hide Parse;
    Resumed(cfg, text, text + SPACE);
    NoGotValue(cfg, text + SPACE, 0, INIT);
    FailedForGood(cfg, text, 0, INIT);
    FailedAtZero(cfg, text, 0, INIT);
  }

  /** A text is parsed without an error, with these callbacks, if and only if its tokens
      spell one well-formed value and these are the value's callbacks. */
  lemma TextExactly(cfg: Config, text: bytes, es: seq<Event>)
    requires Agrees(cfg) && Plain(cfg.flags)
    ensures Outcome(cfg, text).1 == StatusOk && Outcome(cfg, text).0.events == es <==>
      exists v :: WellFormed(cfg, v) && Tokens(OptionsOf(cfg.flags), text + SPACE, 0) == Some(Spell(v)) && es == Calls(cfg, v)
  {
    hide Outcome, Parse, Tokens, Accepts, Final, WellFormed, Spell, Calls, Agrees;
    var o, s := OptionsOf(cfg.flags), text + SPACE;
    OutcomeIs(cfg, text);
    ParseAccepts(cfg, s, 0, INIT);
    TokensTidy(o, s, 0);
    var ts := Tokens(o, s, 0);
    if ts.Some? { TokensExactly(cfg, ts.value, es); }
  }

  const COMMA_TEXT: bytes := [LSQUARE, 0x31, COMMA, RSQUARE, 0x20]

  lemma CommaLexed(o: Options)
    ensures LexAt(o, COMMA_TEXT, 0) == Lexed.Token(TLeftBrace, 0, 1) && LexAt(o, COMMA_TEXT, 1) == Lexed.Token(TInteger, 1, 2)
    ensures LexAt(o, COMMA_TEXT, 2) == Lexed.Token(TComma, 2, 3) && LexAt(o, COMMA_TEXT, 3) == Lexed.Token(TRightBrace, 3, 4)
    ensures LexAt(o, COMMA_TEXT, 4) == Eof(5)
  {
    assert Digits(COMMA_TEXT, 1) == 2;
  }

  lemma CommaTokens(o: Options)
    ensures Tokens(o, COMMA_TEXT, 0) == Some([Sign(TLeftBrace), Word(TInteger, [0x31]), Sign(TComma), Sign(TRightBrace)])
  {
    hide LexAt;
    CommaLexed(o);
    var s, a, b, c, d := COMMA_TEXT, Sign(TLeftBrace), Word(TInteger, [0x31]), Sign(TComma), Sign(TRightBrace);
    assert s[1..2] == [0x31];
    assert Tokens(o, s, 4) == Some([]);
    TokenFirst(o, s, 3, []);
    assert [d] + [] == [d];
    TokenFirst(o, s, 2, [d]);
    assert [c] + [d] == [c, d];
    TokenFirst(o, s, 1, [c, d]);
    assert [b] + [c, d] == [b, c, d];
    TokenFirst(o, s, 0, [b, c, d]);
    assert [a] + [b, c, d] == [a, b, c, d];
  }

  /** The text [1,] is refused. */
  lemma TrailingComma(cfg: Config)
    requires Agrees(cfg) && Plain(cfg.flags)
    ensures Outcome(cfg, [LSQUARE, 0x31, COMMA, RSQUARE]).1 != StatusOk
  {
    hide Parse, Outcome, Tokens, Accepts, Final;
    var text: bytes := [LSQUARE, 0x31, COMMA, RSQUARE];
    assert text + SPACE == COMMA_TEXT;
    OutcomeIs(cfg, text);
    ParseAccepts(cfg, COMMA_TEXT, 0, INIT);
    CommaTokens(OptionsOf(cfg.flags));
    CommaRefused(cfg, Word(TInteger, [0x31]));
  }

  lemma TokenFirst(o: Options, s: bytes, p: nat, ts: seq<Token>)
    requires p <= |s| && LexAt(o, s, p).Token? && Tokens(o, s, LexAt(o, s, p).end) == Some(ts)
    ensures var x := LexAt(o, s, p);
            Tokens(o, s, p) == Some([Word(x.tok, if IsSign(x.tok) then [] else TextOf(s, x.tok, x.from, x.end))] + ts)
  {
    hide LexAt, TextOf;
  }

  lemma CommaRefused(cfg: Config, d: Token)
    requires Agrees(cfg) && d.tok == TInteger
    ensures !Accepts(cfg, INIT, [Sign(TLeftBrace), d, Sign(TComma), Sign(TRightBrace)])
  {
    hide Leads, Accepts, Final, Agrees, Calls, Inside;
    var ts := [Sign(TLeftBrace), d, Sign(TComma), Sign(TRightBrace)];
    if Accepts(cfg, INIT, ts) {
      var v := ValueFound(cfg, INIT, ts);
      Whole(cfg, v, ts);
      assert Spell(v)[0].tok == TLeftBrace;
      var inner := SpellItems(v.items);
      assert inner == Spell(v)[1..|Spell(v)| - 1] == [d, Sign(TComma)];
      MoreEnds(cfg, v.items);
    }
  }

  /** No value ends with a comma. */
  lemma SpellEnds(cfg: Config, v: Value)
    requires WellFormed(cfg, v)
    ensures Spell(v)[|Spell(v)| - 1].tok != TComma
  {
  }

  lemma {:induction false} MoreEnds(cfg: Config, items: seq<Value>)
    requires AllWellFormed(cfg, items)
    ensures SpellItems(items) != [] ==> SpellItems(items)[|SpellItems(items)| - 1].tok != TComma
    ensures SpellMore(items) != [] ==> SpellMore(items)[|SpellMore(items)| - 1].tok != TComma
  {
    hide Spell, WellFormed;
    if items != [] {
      SpellEnds(cfg, items[0]);
      MoreEnds(cfg, items[1..]);
    }
  }
}
