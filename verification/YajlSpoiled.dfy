/** What the generator writes and the parser cannot take back: a closing that does
    not match what is open, and a string that is not UTF-8. Runs of calls and trees
    come back if and only if there is none (libs/yajl/yajl_gen.c:245-338,
    libs/yajl/yajl_lex.c:335-355, libs/yajl/yajl_parser.c:302-459). */
module YajlSpoiled {
  import opened Bytes
  import opened YajlLex
  import opened YajlString
  import opened YajlQuoted
  import opened YajlNumber
  import opened YajlParse
  import opened YajlParser
  import opened YajlLexeme
  import opened YajlGen
  import opened YajlMirror
  import opened YajlTree
  import opened YajlRoundTrip

  /** Whatever follows, parsing fails. */
  ghost predicate Spoiled(cfg: Config, out: bytes) {
    forall t: bytes :: Parse(cfg, out + t, 0, INIT).status == StatusError
  }

  lemma SpoilStays(cfg: Config, out: bytes, longer: bytes)
    requires Spoiled(cfg, out) && out <= longer
    ensures Spoiled(cfg, longer)
  {
    hide Parse;
    forall t: bytes ensures Parse(cfg, longer + t, 0, INIT).status == StatusError {
      assert longer + t == out + (longer[|out|..] + t);
    }
  }

  lemma BadQuote(cfg: Config, s: bytes, p: nat, m: Machine, x: bytes, solidus: bool)
    requires Listens(cfg, m) && Top(m) != Complete && QuotedAt(s, p, x, solidus)
    requires !cfg.flags.dontValidateStrings && !IsUtf8(x, 0)
    ensures p <= |s| && Parse(cfg, s, p, m).status == StatusError
  {
    hide ScanToken, OnToken, TextOf, Encode, IsUtf8;
    QuotedToken(OptionsOf(cfg.flags), s, p, x, solidus);
    SitsHead(s, p, [QUOTE]);
  }

  lemma StringSpoils(cfg: Config, f: GFlags, g: Gen, es: seq<Event>, x: bytes)
    requires Strict(cfg) && Mirrors(cfg, g, es) && Now(g) != GComplete && Spaces(f.indent)
    requires !cfg.flags.dontValidateStrings && !IsUtf8(x, 0)
    ensures Spoiled(cfg, Atom(f, g, Quoted(x, f.escapeSolidus)).out)
  {
    hide Parse, Encode, IsUtf8, Listens, Sep, White;
    var m := WithTop(MachineOf(g, es), LeadState(Now(g)));
    LeadReads(cfg, f, g, es);
    LeadNotComplete(cfg, g, es);
    var a, w := Lead(f, g).out, Quoted(x, f.escapeSolidus);
    assert Spoiled(cfg, a + w) by {
      forall t: bytes ensures Parse(cfg, a + w + t, 0, INIT).status == StatusError {
        var s := a + w + t;
        assert s == a + (w + t);
        QuietApart(a, w + t);
        QuotedHere(a, x, f.escapeSolidus, t);
        BadQuote(cfg, s, |a|, m, x, f.escapeSolidus);
      }
    }
    SpoilStays(cfg, a + w, Atom(f, g, w).out);
  }

  lemma LeadNotComplete(cfg: Config, g: Gen, es: seq<Event>)
    requires Strict(cfg) && Shape(g) && Now(g) != GComplete
    ensures var m := WithTop(MachineOf(g, es), LeadState(Now(g))); Stacked(m) && Top(m) != Complete
  {
    StackFacts(cfg, g, es);
  }

  lemma QuotedHere(a: bytes, x: bytes, solidus: bool, t: bytes)
    ensures QuotedAt(a + Quoted(x, solidus) + t, |a|, x, solidus)
  {
    hide Encode;
    var s, e := a + Quoted(x, solidus) + t, Encode(x, solidus);
    assert Sits(s, |a|, Quoted(x, solidus));
    SitsSplit(s, |a|, [QUOTE] + e, [QUOTE]);
    SitsSplit(s, |a|, [QUOTE], e);
  }

  // ----- output only grows

  lemma GenerateGrows(f: GFlags, g: Gen, c: Call)
    requires Usable(g)
    ensures g.out <= Generate(f, g, c).0.out
  {
    hide Sep, White, IsUtf8, Encode, Printed;
  }

  lemma CallGrows(f: GFlags, g: Gen, c: Call)
    requires Usable(g)
    ensures g.out <= Call1(f, g, c).0.out
  {
    hide Generate;
    GenerateGrows(f, g, c);
  }

  lemma {:induction false} TreeGrows(f: GFlags, g: Gen, v: Json)
    requires Usable(g)
    ensures g.out <= WriteTree(f, g, v).0.out
    decreases v, 1
  {
    hide Call1;
    match v
    case JNull => CallGrows(f, g, CNull);
    case JBool(b) => CallGrows(f, g, CBool(b));
    case JInt(n) => CallGrows(f, g, CInteger(n));
    case JString(s) => CallGrows(f, g, CString(s));
    case JArray(items) =>
      CallGrows(f, g, CArrayOpen);
      var a := Call1(f, g, CArrayOpen);
      if a.1 {
        ItemsGrow(f, a.0, items);
        var b := WriteItems(f, a.0, items);
        if b.1 { CallGrows(f, b.0, CArrayClose); }
      }
    case JObject(members) =>
      CallGrows(f, g, CMapOpen);
      var a := Call1(f, g, CMapOpen);
      if a.1 {
        MembersGrow(f, a.0, members);
        var b := WriteMembers(f, a.0, members);
        if b.1 { CallGrows(f, b.0, CMapClose); }
      }
  }

  lemma {:induction false} ItemsGrow(f: GFlags, g: Gen, items: seq<Json>)
    requires Usable(g)
    ensures g.out <= WriteItems(f, g, items).0.out
    decreases items, 0
  {
    hide WriteTree;
    if items != [] {
      TreeGrows(f, g, items[0]);
      var a := WriteTree(f, g, items[0]);
      if a.1 { ItemsGrow(f, a.0, items[1..]); }
    }
  }

  lemma {:induction false} MembersGrow(f: GFlags, g: Gen, members: seq<Member>)
    requires Usable(g)
    ensures g.out <= WriteMembers(f, g, members).0.out
    decreases members, 0
  {
    hide WriteTree, Call1;
    if members != [] {
      CallGrows(f, g, CString(members[0].key));
      var a := Call1(f, g, CString(members[0].key));
      if a.1 {
        TreeGrows(f, a.0, members[0].value);
        var b := WriteTree(f, a.0, members[0].value);
        if b.1 { MembersGrow(f, b.0, members[1..]); }
      }
    }
  }

  // ----- the first bad string

  /** A generator that does not validate, before a validating parser. */
  ghost predicate Careless(cfg: Config, f: GFlags) {
    Strict(cfg) && Spaces(f.indent) && !f.validateUtf8 && !cfg.flags.dontValidateStrings
  }

  lemma CallSpoils(cfg: Config, f: GFlags, g: Gen, es: seq<Event>, x: bytes)
    requires Careless(cfg, f) && Mirrors(cfg, g, es) && Now(g) != GComplete && !IsUtf8(x, 0)
    ensures Usable(g) && Call1(f, g, CString(x)).1 && Spoiled(cfg, Call1(f, g, CString(x)).0.out)
  {
    hide Spoiled, Atom, IsUtf8, Encode;
    MirrorsShape(cfg, g, es);
    StringSpoils(cfg, f, g, es, x);
  }

  lemma {:induction false} TreeSpoils(cfg: Config, f: GFlags, g: Gen, es: seq<Event>, v: Json, all: seq<Event>)
    requires Careless(cfg, f) && Mirrors(cfg, g, es) && TakesValue(Now(g)) && !Utf8Tree(v)
    requires g.depth + Height(v) < MAX_DEPTH && Lets(cfg, all) && es + Events(v) <= all
    ensures Usable(g) && Spoiled(cfg, WriteTree(f, g, v).0.out)
    decreases v, 1
  {
    hide Mirrors, Generate, Lets, Shape, IsUtf8, Spaces, Spoiled, Strict;
    MirrorsShape(cfg, g, es);
    match v
    case JString(s) => CallSpoils(cfg, f, g, es, s);
    case JArray(items) =>
      var a := es + [StartArray];
      assert es + Events(v) == a + (ItemEvents(items) + [EndArray]);
      Shorter(a, ItemEvents(items) + [EndArray], all);
      assert es + Events(v) == a + ItemEvents(items) + [EndArray];
      Shorter(a + ItemEvents(items), [EndArray], all);
      OpenGoes(f, g, false);
      CallIs(f, g, CArrayOpen);
      CallMirrors(cfg, f, g, es, CArrayOpen, all);
      var h := Call1(f, g, CArrayOpen).0;
      ItemsSpoil(cfg, f, h, a, items, all);
      CloseAfter(cfg, f, g, v, h, WriteItems(f, h, items), CArrayClose);
    case JObject(members) =>
      var a := es + [StartMap];
      assert es + Events(v) == a + (MemberEvents(members) + [EndMap]);
      Shorter(a, MemberEvents(members) + [EndMap], all);
      assert es + Events(v) == a + MemberEvents(members) + [EndMap];
      Shorter(a + MemberEvents(members), [EndMap], all);
      OpenGoes(f, g, true);
      CallIs(f, g, CMapOpen);
      CallMirrors(cfg, f, g, es, CMapOpen, all);
      var h := Call1(f, g, CMapOpen).0;
      MembersSpoil(cfg, f, h, a, members, all);
      CloseAfter(cfg, f, g, v, h, WriteMembers(f, h, members), CMapClose);
  }

  /** The closing call does not repair what is spoiled. */
  lemma CloseAfter(cfg: Config, f: GFlags, g: Gen, v: Json, h: Gen, b: (Gen, bool), c: Call)
    requires Usable(g) && Usable(h) && Spoiled(cfg, b.0.out) && (b.1 ==> Usable(b.0))
    requires v.JArray? ==> c == CArrayClose && Call1(f, g, CArrayOpen) == (h, true) && b == WriteItems(f, h, v.items)
    requires v.JObject? ==> c == CMapClose && Call1(f, g, CMapOpen) == (h, true) && b == WriteMembers(f, h, v.members)
    requires v.JArray? || v.JObject?
    ensures Spoiled(cfg, WriteTree(f, g, v).0.out)
  {
    hide Spoiled, Call1, WriteItems, WriteMembers;
    if b.1 {
      CallGrows(f, b.0, c);
      SpoilStays(cfg, b.0.out, Call1(f, b.0, c).0.out);
    }
  }

  lemma {:induction false} ItemsSpoil(cfg: Config, f: GFlags, g: Gen, es: seq<Event>, items: seq<Json>, all: seq<Event>)
    requires Careless(cfg, f) && Mirrors(cfg, g, es) && (Now(g) == GArrayStart || Now(g) == GInArray)
    requires !Utf8Items(items) && g.depth + ItemsHeight(items) < MAX_DEPTH
    requires Lets(cfg, all) && es + ItemEvents(items) <= all
    ensures Usable(g) && Spoiled(cfg, WriteItems(f, g, items).0.out)
    decreases items, 0
  {
    hide Mirrors, WriteTree, Events, Lets, Shape, IsUtf8, Spaces, Height, Utf8Tree, Spoiled, Strict;
    MirrorsShape(cfg, g, es);
    var a, v := es + Events(items[0]), items[0];
    assert es + ItemEvents(items) == a + ItemEvents(items[1..]);
    Shorter(a, ItemEvents(items[1..]), all);
    var h := WriteTree(f, g, v);
    if Utf8Tree(v) {
      TreeMirrors(cfg, f, g, es, v, all);
      ItemsSpoil(cfg, f, h.0, a, items[1..], all);
    } else {
      TreeSpoils(cfg, f, g, es, v, all);
      if h.1 {
        ItemsGrow(f, h.0, items[1..]);
        SpoilStays(cfg, h.0.out, WriteItems(f, h.0, items[1..]).0.out);
      }
    }
  }

  lemma {:induction false} MembersSpoil(cfg: Config, f: GFlags, g: Gen, es: seq<Event>, members: seq<Member>, all: seq<Event>)
    requires Careless(cfg, f) && Mirrors(cfg, g, es) && IsKeyState(Now(g))
    requires !Utf8Members(members) && g.depth + MembersHeight(members) < MAX_DEPTH
    requires Lets(cfg, all) && es + MemberEvents(members) <= all
    ensures Usable(g) && Spoiled(cfg, WriteMembers(f, g, members).0.out)
    decreases members, 0
  {
    hide Mirrors, WriteTree, Events, Lets, Shape, IsUtf8, Spaces, Height, Utf8Tree, Generate, Call1, Spoiled, Strict;
    MirrorsShape(cfg, g, es);
    var key, v := members[0].key, members[0].value;
    var a, b := es + [MapKey(key)], es + [MapKey(key)] + Events(v);
    assert es + MemberEvents(members) == b + MemberEvents(members[1..]);
    Shorter(b, MemberEvents(members[1..]), all);
    Shorter(a, Events(v), all);
    var h := Call1(f, g, CString(key));
    if IsUtf8(key, 0) {
      KeyGoes(f, g, key);
      CallIs(f, g, CString(key));
      CallMirrors(cfg, f, g, es, CString(key), all);
      var k := WriteTree(f, h.0, v);
      if Utf8Tree(v) {
        TreeMirrors(cfg, f, h.0, a, v, all);
        MembersSpoil(cfg, f, k.0, b, members[1..], all);
      } else {
        TreeSpoils(cfg, f, h.0, a, v, all);
        if k.1 {
          MembersGrow(f, k.0, members[1..]);
          SpoilStays(cfg, k.0.out, WriteMembers(f, k.0, members[1..]).0.out);
        }
      }
    } else {
      CallSpoils(cfg, f, g, es, key);
      MembersAfterKey(f, g, members);
      SpoilStays(cfg, h.0.out, WriteMembers(f, g, members).0.out);
    }
  }

  lemma MembersAfterKey(f: GFlags, g: Gen, members: seq<Member>)
    requires Usable(g) && members != []
    ensures Call1(f, g, CString(members[0].key)).0.out <= WriteMembers(f, g, members).0.out
  {
    hide WriteTree, Call1;
    var h := Call1(f, g, CString(members[0].key));
    if h.1 {
      TreeGrows(f, h.0, members[0].value);
      var k := WriteTree(f, h.0, members[0].value);
      if k.1 { MembersGrow(f, k.0, members[1..]); }
    }
  }

  /** For a generator that does not validate, a tree nested less than the limit comes
      back if and only if all its strings are UTF-8; otherwise nothing does. */
  lemma RoundTripExactly(f: GFlags, v: Json)
    requires Spaces(f.indent) && !f.validateUtf8 && Height(v) < MAX_DEPTH
    ensures var r := WriteTree(f, FRESH, v);
            && r.1 && TreeOf(r.0.out) == if Utf8Tree(v) then Some(NodeOf(v)) else None
  {
    hide Mirrors, WriteTree, Events, Lets, NodeOf, Build, Height, Utf8Tree, Parse, Spoiled;
    WriteExactly(f, FRESH, v);
    if Utf8Tree(v) {
      TreeRoundTrip(f, v);
    } else {
      TreeLets(v);
      FreshMirrors(TREE);
      assert [] + Events(v) == Events(v);
      TreeSpoils(TREE, f, FRESH, [], v, Events(v));
      var out := WriteTree(f, FRESH, v).0.out;
      TreeNoNul(f, FRESH, v);
      CStrAll(out);
      SpoiledOutcome(TREE, out);
    }
  }

  lemma SpoiledOutcome(cfg: Config, out: bytes)
    requires Spoiled(cfg, out)
    ensures Outcome(cfg, out).1 != StatusOk
  {
    hide Parse;
    assert out + SPACE == out + SPACE;
    Resumed(cfg, out, out + SPACE);
    assert out + [] == out;
    FailedForGood(cfg, out, 0, INIT);
    FailedAtZero(cfg, out, 0, INIT);
  }

  // ----- closings that do not match

  predicate Closing(c: Call) {
    c.CMapClose? || c.CArrayClose?
  }

  /** The bracket of a closing that does not match is an error to the parser. */
  lemma WrongBracket(cfg: Config, g: Gen, es: seq<Event>, c: Call)
    requires Strict(cfg) && Shape(g) && g.depth > 0 && Closing(c) && !Matching(g, c)
    ensures var m := MachineOf(g, es);
            Stacked(m) && Effect(cfg, m, Punct(if c.CMapClose? then RCURLY else RSQUARE)).Go?
            && Top(Effect(cfg, m, Punct(if c.CMapClose? then RCURLY else RSQUARE)).m) == ParseError
  {
    hide Decode, ParseInteger;
    StackFacts(cfg, g, es);
  }

  /** Once the parser stands in an error, nothing that follows helps. */
  lemma ErrorSpoils(cfg: Config, out: bytes, m: Machine)
    requires Reads(cfg, out, m) && Top(m) == ParseError && Quiet(out)
    ensures Spoiled(cfg, out)
  {
    hide Parse;
    forall t: bytes ensures Parse(cfg, out + t, 0, INIT).status == StatusError {
      QuietApart(out, t);
      FailedHere(cfg, out + t, |out|, m);
    }
  }

  /** A closing that does not match is written all the same, and the output is lost. */
  lemma MismatchSpoils(cfg: Config, f: GFlags, g: Gen, es: seq<Event>, c: Call)
    requires Strict(cfg) && Mirrors(cfg, g, es) && Spaces(f.indent)
    requires Usable(g) && Closing(c) && !Matching(g, c) && Generate(f, g, c).1 == GOk
    ensures Spoiled(cfg, Generate(f, g, c).0.out)
  {
    hide Parse, Reads, Effect, Listens, Quiet, White, Apart, MachineOf, Shape, Strict, Spoiled, Matching, Spaces;
    MirrorsShape(cfg, g, es);
    var m, bracket := MachineOf(g, es), if c.CMapClose? then RCURLY else RSQUARE;
    StackFacts(cfg, g, es);
    WrongBracket(cfg, g, es, c);
    var st := AtomDone(g.states[g.depth - 1]);
    var ws := White(f, st, g.depth - 1);
    assert Spaces(Line(f)) by { LineSpaces(f); }
    SpaceStep(cfg, g.out, m, Line(f));
    WhiteSpaces(f, st, g.depth - 1);
    SpaceStep(cfg, g.out + Line(f), m, ws);
    var out := g.out + Line(f) + ws;
    PunctApart(out, bracket);
    LexemeStep(cfg, out, m, Punct(bracket));
    ErrorSpoils(cfg, out + [bracket], Effect(cfg, m, Punct(bracket)).m);
    SpoilStays(cfg, out + [bracket], Generate(f, g, c).0.out);
  }

  lemma LineSpaces(f: GFlags)
    ensures Spaces(Line(f))
  {
  }

  /** An array opened and closed as a map: both calls succeed and the generator is
      complete, but no parser takes the text. */
  lemma ArrayClosedAsMap(cfg: Config, f: GFlags)
    requires Strict(cfg) && Spaces(f.indent) && cfg.accepts([StartArray])
    ensures var a := Generate(f, FRESH, CArrayOpen);
            && a.1 == GOk && Generate(f, a.0, CMapClose).1 == GOk
            && Now(Generate(f, a.0, CMapClose).0) == GComplete
            && Outcome(cfg, Generate(f, a.0, CMapClose).0.out).1 != StatusOk
  {
    hide Mirrors, Parse, Outcome, Spoiled;
    FreshMirrors(cfg);
    assert [] + [StartArray] == [StartArray];
    GenerateMirrors(cfg, f, FRESH, [], CArrayOpen);
    var a := Generate(f, FRESH, CArrayOpen).0;
    MismatchSpoils(cfg, f, a, [StartArray], CMapClose);
    SpoiledOutcome(cfg, Generate(f, a, CMapClose).0.out);
  }

  // ----- whole runs

  lemma {:induction false} RunGrows(f: GFlags, g: Gen, calls: seq<Call>)
    requires Runs(f, g, calls)
    ensures g.out <= Ran(f, g, calls).out
    decreases |calls|
  {
    hide Generate;
    if calls != [] {
      GenerateGrows(f, g, calls[0]);
      RunGrows(f, Generate(f, g, calls[0]).0, calls[1..]);
    }
  }

  /** A call that does not fit spoils the output. */
  lemma MisfitSpoils(cfg: Config, f: GFlags, g: Gen, es: seq<Event>, c: Call)
    requires Strict(cfg) && Mirrors(cfg, g, es) && Spaces(f.indent) && Usable(g) && Generate(f, g, c).1 == GOk
    requires !Matching(g, c) || !Acceptable(cfg, c)
    ensures Spoiled(cfg, Generate(f, g, c).0.out)
  {
    hide Spoiled, Atom, IsUtf8, Encode, Mirrors;
    if Closing(c) && !Matching(g, c) {
      MismatchSpoils(cfg, f, g, es, c);
    } else {
      StringSpoils(cfg, f, g, es, c.s);
    }
  }

  lemma {:induction false} MisfitRun(cfg: Config, f: GFlags, g: Gen, es: seq<Event>, calls: seq<Call>, all: seq<Event>)
    requires Strict(cfg) && Mirrors(cfg, g, es) && Spaces(f.indent) && Runs(f, g, calls) && !Fits(cfg, f, g, calls)
    requires Lets(cfg, all) && es + Echo(f, g, calls) <= all
    ensures Spoiled(cfg, Ran(f, g, calls).out)
    decreases |calls|
  {
    hide Mirrors, Generate, EventOf, Lets, Matching, Acceptable, Spoiled;
    var h := Generate(f, g, calls[0]).0;
    if Matching(g, calls[0]) && Acceptable(cfg, calls[0]) {
      var e, rest := EventOf(g, calls[0]), Echo(f, h, calls[1..]);
      assert es + ([e] + rest) == es + [e] + rest;
      LetsOne(cfg, all, es, e);
      GenerateMirrors(cfg, f, g, es, calls[0]);
      MisfitRun(cfg, f, h, es + [e], calls[1..], all);
    } else {
      MisfitSpoils(cfg, f, g, es, calls[0]);
      RunGrows(f, h, calls[1..]);
      SpoilStays(cfg, h.out, Ran(f, h, calls[1..]).out);
    }
  }

  /** Parsing a text, with the space that ends its last token, gives these callbacks
      and no error. */
  ghost predicate Gives(cfg: Config, out: bytes, es: seq<Event>) {
    var r := Parse(cfg, out + SPACE, 0, INIT);
    r.status == StatusOk && r.m.events == es
  }

  lemma MirrorGives(cfg: Config, g: Gen, es: seq<Event>)
    requires Strict(cfg) && Mirrors(cfg, g, es)
    ensures Gives(cfg, g.out, es)
  {
    hide Parse, LexAt;
    var s, m := g.out + SPACE, MachineOf(g, es);
    StackFacts(cfg, g, es);
    assert Apart(g.out, SPACE);
    LexSpaces(OptionsOf(cfg.flags), s, |g.out|, |s|);
    LexHereEof(OptionsOf(cfg.flags), s);
    ParseHere(cfg, s, |g.out|, m);
  }

  /** Any run of calls that all succeed comes back as its own callbacks if and only if
      every closing matches what is open and every string is one the parser takes. A
      complete output parses to its end without error under the same condition. */
  lemma RunExactly(cfg: Config, f: GFlags, calls: seq<Call>)
    requires Strict(cfg) && Spaces(f.indent) && Runs(f, FRESH, calls) && Lets(cfg, Echo(f, FRESH, calls))
    ensures var g := Ran(f, FRESH, calls);
            && (Gives(cfg, g.out, Echo(f, FRESH, calls)) <==> Fits(cfg, f, FRESH, calls))
            && (Now(g) == GComplete ==> (Outcome(cfg, g.out).1 == StatusOk <==> Fits(cfg, f, FRESH, calls)))
  {
    hide Mirrors, Parse, Outcome, Echo, Ran, Fits, Runs, Lets, Strict, Spaces;
    var g, es := Ran(f, FRESH, calls), Echo(f, FRESH, calls);
    FreshMirrors(cfg);
    assert [] + es == es;
    if Fits(cfg, f, FRESH, calls) {
      RunMirrors(cfg, f, FRESH, [], calls, es);
      MirrorGives(cfg, g, es);
      if Now(g) == GComplete { CompleteOutcome(cfg, g, es); }
    } else {
      MisfitRun(cfg, f, FRESH, [], calls, es);
      SpoiledOutcome(cfg, g.out);
      assert Spoiled(cfg, g.out);
    }
  }
}
