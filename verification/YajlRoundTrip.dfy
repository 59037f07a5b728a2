/** Generating a JSON tree and parsing the output gives the tree back
    (libs/yajl/yajl_gen.c:135-338, libs/yajl/yajl_tree.c:213-453). */
module YajlRoundTrip {
  import opened Bytes
  import opened YajlLex
  import opened YajlString
  import opened YajlNumber
  import opened YajlParse
  import opened YajlLexeme
  import opened YajlGen
  import opened YajlMirror
  import opened YajlTree

  datatype Json = JNull | JBool(b: bool) | JInt(n: int) | JString(s: bytes)
    | JArray(items: seq<Json>) | JObject(members: seq<Member>)

  datatype Member = Member(key: bytes, value: Json)

  /** How deep containers are nested. */
  function Height(v: Json): nat {
    match v
    case JArray(items) => 1 + ItemsHeight(items)
    case JObject(members) => 1 + MembersHeight(members)
    case _ => 0
  }

  function ItemsHeight(items: seq<Json>): nat {
    if items == [] then 0 else
    var a, b := Height(items[0]), ItemsHeight(items[1..]);
    if a > b then a else b
  }

  function MembersHeight(members: seq<Member>): nat {
    if members == [] then 0 else
    var a, b := Height(members[0].value), MembersHeight(members[1..]);
    if a > b then a else b
  }

  /** All strings and keys are UTF-8. */
  predicate Utf8Tree(v: Json) {
    match v
    case JString(s) => IsUtf8(s, 0)
    case JArray(items) => Utf8Items(items)
    case JObject(members) => Utf8Members(members)
    case _ => true
  }

  predicate Utf8Items(items: seq<Json>) {
    items == [] || (Utf8Tree(items[0]) && Utf8Items(items[1..]))
  }

  predicate Utf8Members(members: seq<Member>) {
    members == [] || (IsUtf8(members[0].key, 0) && Utf8Tree(members[0].value) && Utf8Members(members[1..]))
  }

  // ----- writing

  /** The calls for a tree, in order; false as soon as one fails. */
  function WriteTree(f: GFlags, g: Gen, v: Json): (r: (Gen, bool))
    requires Usable(g)
    ensures r.1 ==> Usable(r.0)
    decreases v, 1
  {
    match v
    case JNull => Call1(f, g, CNull)
    case JBool(b) => Call1(f, g, CBool(b))
    case JInt(n) => Call1(f, g, CInteger(n))
    case JString(s) => Call1(f, g, CString(s))
    case JArray(items) =>
      var a := Call1(f, g, CArrayOpen);
      if !a.1 then a else
      var b := WriteItems(f, a.0, items);
      if !b.1 then b else Call1(f, b.0, CArrayClose)
    case JObject(members) =>
      var a := Call1(f, g, CMapOpen);
      if !a.1 then a else
      var b := WriteMembers(f, a.0, members);
      if !b.1 then b else Call1(f, b.0, CMapClose)
  }

  function Call1(f: GFlags, g: Gen, c: Call): (r: (Gen, bool))
    requires Usable(g)
    ensures r.1 ==> Usable(r.0)
  {
    var (h, st) := Generate(f, g, c);
    (h, st == GOk)
  }

  function WriteItems(f: GFlags, g: Gen, items: seq<Json>): (r: (Gen, bool))
    requires Usable(g)
    ensures r.1 ==> Usable(r.0)
    decreases items, 0
  {
    if items == [] then (g, true) else
    var a := WriteTree(f, g, items[0]);
    if !a.1 then a else WriteItems(f, a.0, items[1..])
  }

  function WriteMembers(f: GFlags, g: Gen, members: seq<Member>): (r: (Gen, bool))
    requires Usable(g)
    ensures r.1 ==> Usable(r.0)
    decreases members, 0
  {
    if members == [] then (g, true) else
    var a := Call1(f, g, CString(members[0].key));
    if !a.1 then a else
    var b := WriteTree(f, a.0, members[0].value);
    if !b.1 then b else WriteMembers(f, b.0, members[1..])
  }

  // ----- callbacks and nodes

  function Events(v: Json): (es: seq<Event>)
    ensures es != []
  {
    match v
    case JNull => [Null]
    case JBool(b) => [Boolean(b)]
    case JInt(n) => [Number(Printed(n))]
    case JString(s) => [String(s)]
    case JArray(items) => [StartArray] + ItemEvents(items) + [EndArray]
    case JObject(members) => [StartMap] + MemberEvents(members) + [EndMap]
  }

  function ItemEvents(items: seq<Json>): seq<Event> {
    if items == [] then [] else Events(items[0]) + ItemEvents(items[1..])
  }

  function MemberEvents(members: seq<Member>): seq<Event> {
    if members == [] then []
    else [MapKey(members[0].key)] + Events(members[0].value) + MemberEvents(members[1..])
  }

  /** The node for a tree: strings up to a first zero byte, order and duplicate keys
      kept, integers with their value unless it is out of range. */
  function NodeOf(v: Json): Node {
    match v
    case JNull => NNull
    case JBool(b) => NBool(b)
    case JInt(n) => NNumber(Printed(n), if -LLONG_MAX <= n <= LLONG_MAX then Value(n) else OutOfRange)
    case JString(s) => NString(CStr(s))
    case JArray(items) => NArray(NodesOf(items))
    case JObject(members) => NObject(KeysOf(members), ValuesOf(members))
  }

  function NodesOf(items: seq<Json>): seq<Node> {
    if items == [] then [] else [NodeOf(items[0])] + NodesOf(items[1..])
  }

  function KeysOf(members: seq<Member>): seq<bytes> {
    if members == [] then [] else [CStr(members[0].key)] + KeysOf(members[1..])
  }

  function ValuesOf(members: seq<Member>): seq<Node> {
    if members == [] then [] else [NodeOf(members[0].value)] + ValuesOf(members[1..])
  }

  // ----- the builder on the callbacks of a tree

  /** A place where a value can be added. */
  predicate Open(c: Ctx) {
    if c.stack == [] then c.root.None?
    else
      var top := c.stack[|c.stack| - 1];
      top.value.NArray? || (top.value.NObject? && top.key.Some?)
  }

  lemma AddOpen(c: Ctx, v: Node)
    requires Open(c)
    ensures AddValue(c, v).Some?
  {
  }

  /** Closing a container adds it to the one around. */
  lemma PopPush(c: Ctx, v: Node)
    ensures PopValue(PushValue(c, v)) == AddValue(c, v)
  {
    assert PushValue(c, v).stack[..|c.stack|] == c.stack;
  }

  lemma Retop(stack: seq<Elem>, a: Elem, b: Elem)
    ensures (stack + [a])[|stack| := b] == stack + [b]
  {
  }

  lemma {:induction false} BuildTree(events: seq<Event>, c: Ctx, v: Json)
    requires Build(events) == Some(c) && Open(c)
    ensures Build(events + Events(v)) == AddValue(c, NodeOf(v))
    decreases v, 1
  {
    hide Build, AddValue, PopValue, PushValue, Open, ParseInteger;
    match v
    case JNull => BuildNext(events, Null);
    case JBool(b) => BuildNext(events, Boolean(b));
    case JInt(n) => BuildNext(events, Number(Printed(n))); PrintedParses(n);
    case JString(s) => BuildNext(events, String(s));
    case JArray(items) =>
      BuildNext(events, StartArray);
      BuildItems(events + [StartArray], c, [], items);
      BuildNext(events + [StartArray] + ItemEvents(items), EndArray);
      PopPush(c, NArray([] + NodesOf(items)));
      assert events + Events(v) == events + [StartArray] + ItemEvents(items) + [EndArray];
      assert [] + NodesOf(items) == NodesOf(items);
    case JObject(members) =>
      BuildNext(events, StartMap);
      BuildMembers(events + [StartMap], c, [], [], members);
      BuildNext(events + [StartMap] + MemberEvents(members), EndMap);
      PopPush(c, NObject([] + KeysOf(members), [] + ValuesOf(members)));
      assert events + Events(v) == events + [StartMap] + MemberEvents(members) + [EndMap];
      assert [] + KeysOf(members) == KeysOf(members) && [] + ValuesOf(members) == ValuesOf(members);
  }

  lemma {:induction false} BuildItems(events: seq<Event>, c: Ctx, done: seq<Node>, items: seq<Json>)
    requires Build(events) == Some(PushValue(c, NArray(done)))
    ensures Build(events + ItemEvents(items)) == Some(PushValue(c, NArray(done + NodesOf(items))))
    decreases items, 0
  {
    hide Build, Events, NodeOf;
    if items == [] {
      assert events + [] == events && done + [] == done;
    } else {
      var x := NodeOf(items[0]);
      BuildTree(events, PushValue(c, NArray(done)), items[0]);
      Retop(c.stack, Elem(None, NArray(done)), Elem(None, NArray(done + [x])));
      assert AddValue(PushValue(c, NArray(done)), x) == Some(PushValue(c, NArray(done + [x])));
      BuildItems(events + Events(items[0]), c, done + [x], items[1..]);
      assert events + Events(items[0]) + ItemEvents(items[1..]) == events + ItemEvents(items);
      assert done + [x] + NodesOf(items[1..]) == done + NodesOf(items);
    }
  }

  lemma {:induction false} BuildMembers(events: seq<Event>, c: Ctx, keys: seq<bytes>, values: seq<Node>, members: seq<Member>)
    requires Build(events) == Some(PushValue(c, NObject(keys, values)))
    ensures Build(events + MemberEvents(members)) ==
      Some(PushValue(c, NObject(keys + KeysOf(members), values + ValuesOf(members))))
    decreases members, 0
  {
    hide Build, Events, NodeOf, CStr;
    if members == [] {
      assert events + [] == events && keys + [] == keys && values + [] == values;
    } else {
      var k, x := members[0].key, NodeOf(members[0].value);
      var o := PushValue(c, NObject(keys, values));
      var d := c.(stack := c.stack + [Elem(Some(CStr(k)), NObject(keys, values))]);
      BuildNext(events, MapKey(k));
      Retop(c.stack, Elem(None, NObject(keys, values)), Elem(Some(CStr(k)), NObject(keys, values)));
      assert AddValue(o, NString(CStr(k))) == Some(d);
      var es := events + [MapKey(k)];
      BuildTree(es, d, members[0].value);
      Retop(c.stack, Elem(Some(CStr(k)), NObject(keys, values)), Elem(None, NObject(keys + [CStr(k)], values + [x])));
      assert AddValue(d, x) == Some(PushValue(c, NObject(keys + [CStr(k)], values + [x])));
      BuildMembers(es + Events(members[0].value), c, keys + [CStr(k)], values + [x], members[1..]);
      assert es + Events(members[0].value) + MemberEvents(members[1..]) == events + MemberEvents(members);
      assert keys + [CStr(k)] + KeysOf(members[1..]) == keys + KeysOf(members);
      assert values + [x] + ValuesOf(members[1..]) == values + ValuesOf(members);
    }
  }

  // ----- the parser on the text of a tree

  /** h stands one value after g. */
  ghost predicate OneOn(g: Gen, h: Gen) {
    && Usable(g) && Usable(h) && h.depth == g.depth && Now(h) == AtomDone(Now(g))
    && h.states[..g.depth] == g.states[..g.depth]
  }

  lemma CallMirrors(cfg: Config, f: GFlags, g: Gen, es: seq<Event>, c: Call, all: seq<Event>)
    requires Strict(cfg) && Mirrors(cfg, g, es) && Spaces(f.indent) && Matching(g, c) && Acceptable(cfg, c)
    requires Lets(cfg, all) && es + [EventOf(g, c)] <= all && Generate(f, g, c).1 == GOk
    ensures Call1(f, g, c).1 && Mirrors(cfg, Call1(f, g, c).0, es + [EventOf(g, c)])
  {
    hide Mirrors, Generate, Lets;
    MirrorsShape(cfg, g, es);
    LetsOne(cfg, all, es, EventOf(g, c));
    GenerateMirrors(cfg, f, g, es, c);
  }

  /** An atom where a value may stand succeeds. */
  lemma AtomGoes(f: GFlags, g: Gen, c: Call)
    requires Shape(g) && TakesValue(Now(g)) && (c.CNull? || c.CBool? || c.CInteger? || c.CString?)
    requires c.CString? ==> IsUtf8(c.s, 0)
    ensures Generate(f, g, c).1 == GOk && OneOn(g, Generate(f, g, c).0)
  {
    hide Lead, IsUtf8, Encode, Printed;
  }

  /** A key where one may stand succeeds. */
  lemma KeyGoes(f: GFlags, g: Gen, key: bytes)
    requires Shape(g) && IsKeyState(Now(g)) && IsUtf8(key, 0)
    ensures Generate(f, g, CString(key)).1 == GOk && OneOn(g, Generate(f, g, CString(key)).0)
  {
    hide Lead, IsUtf8, Encode;
  }

  ghost predicate Opened(g: Gen, h: Gen, st: GState) {
    && Usable(g) && Usable(h) && h.depth == g.depth + 1 && Now(h) == st
    && h.states[..g.depth + 1] == g.states[..g.depth + 1]
  }

  lemma OpenGoes(f: GFlags, g: Gen, isMap: bool)
    requires Shape(g) && TakesValue(Now(g)) && g.depth + 1 < MAX_DEPTH
    ensures var r := Generate(f, g, if isMap then CMapOpen else CArrayOpen);
            r.1 == GOk && Opened(g, r.0, if isMap then GMapStart else GArrayStart)
  {
    hide Lead;
  }

  /** k is inside the container opened from g; closing it is one value after g. */
  lemma CloseGoes(f: GFlags, g: Gen, k: Gen, isMap: bool)
    requires Usable(g) && Usable(k) && k.depth == g.depth + 1 && k.states[..k.depth] == g.states[..k.depth]
    requires Now(k) != GComplete && Now(k) != GError
    ensures var r := Generate(f, k, if isMap then CMapClose else CArrayClose); r.1 == GOk && OneOn(g, r.0)
  {
    assert k.states[g.depth] == k.states[..k.depth][g.depth];
    assert g.states[g.depth] == g.states[..k.depth][g.depth];
    assert k.states[..g.depth] == k.states[..k.depth][..g.depth];
    assert g.states[..g.depth] == g.states[..k.depth][..g.depth];
  }

  lemma Shorter(a: seq<Event>, b: seq<Event>, all: seq<Event>)
    requires a + b <= all
    ensures a <= all
  {
    assert a == (a + b)[..|a|];
  }

  /** k is at the same place of the same containers as g. */
  ghost predicate Alongside(g: Gen, k: Gen) {
    Usable(g) && Usable(k) && k.depth == g.depth && k.states[..g.depth] == g.states[..g.depth]
  }

  lemma {:induction false} TreeMirrors(cfg: Config, f: GFlags, g: Gen, es: seq<Event>, v: Json, all: seq<Event>)
    requires Strict(cfg) && Spaces(f.indent) && Mirrors(cfg, g, es) && TakesValue(Now(g))
    requires Utf8Tree(v) && g.depth + Height(v) < MAX_DEPTH && Lets(cfg, all) && es + Events(v) <= all
    ensures var r := WriteTree(f, g, v); r.1 && Mirrors(cfg, r.0, es + Events(v)) && OneOn(g, r.0)
    decreases v, 1
  {
    hide Mirrors, Generate, Lets, Shape, Strict, IsUtf8, Spaces;
    MirrorsShape(cfg, g, es);
    match v
    case JNull => AtomGoes(f, g, CNull); CallMirrors(cfg, f, g, es, CNull, all);
    case JBool(b) => AtomGoes(f, g, CBool(b)); CallMirrors(cfg, f, g, es, CBool(b), all);
    case JInt(n) => AtomGoes(f, g, CInteger(n)); CallMirrors(cfg, f, g, es, CInteger(n), all);
    case JString(s) => AtomGoes(f, g, CString(s)); CallMirrors(cfg, f, g, es, CString(s), all);
    case JArray(items) => ArrayMirrors(cfg, f, g, es, items, all);
    case JObject(members) => ObjectMirrors(cfg, f, g, es, members, all);
  }

  lemma {:induction false} ArrayMirrors(cfg: Config, f: GFlags, g: Gen, es: seq<Event>, items: seq<Json>, all: seq<Event>)
    requires Strict(cfg) && Spaces(f.indent) && Mirrors(cfg, g, es) && TakesValue(Now(g))
    requires Utf8Items(items) && g.depth + 1 + ItemsHeight(items) < MAX_DEPTH
    requires Lets(cfg, all) && es + Events(JArray(items)) <= all
    ensures var r := WriteTree(f, g, JArray(items));
            r.1 && Mirrors(cfg, r.0, es + Events(JArray(items))) && OneOn(g, r.0)
    decreases items, 2
  {
    hide Mirrors, Generate, Lets, Shape, Strict, IsUtf8, Spaces, Call1;
    MirrorsShape(cfg, g, es);
    var a, b := es + [StartArray], es + [StartArray] + ItemEvents(items);
    assert es + Events(JArray(items)) == b + [EndArray];
    Shorter(b, [EndArray], all);
    Shorter(a, ItemEvents(items), all);
    OpenGoes(f, g, false);
    CallIs(f, g, CArrayOpen);
    CallMirrors(cfg, f, g, es, CArrayOpen, all);
    var h := Call1(f, g, CArrayOpen).0;
    ItemsMirrors(cfg, f, h, a, items, all);
    var k := WriteItems(f, h, items).0;
    Below(g, h, k);
    CloseGoes(f, g, k, false);
    CallIs(f, k, CArrayClose);
    CallMirrors(cfg, f, k, b, CArrayClose, all);
  }

  lemma {:induction false} ObjectMirrors(cfg: Config, f: GFlags, g: Gen, es: seq<Event>, members: seq<Member>, all: seq<Event>)
    requires Strict(cfg) && Spaces(f.indent) && Mirrors(cfg, g, es) && TakesValue(Now(g))
    requires Utf8Members(members) && g.depth + 1 + MembersHeight(members) < MAX_DEPTH
    requires Lets(cfg, all) && es + Events(JObject(members)) <= all
    ensures var r := WriteTree(f, g, JObject(members));
            r.1 && Mirrors(cfg, r.0, es + Events(JObject(members))) && OneOn(g, r.0)
    decreases members, 2
  {
    hide Mirrors, Generate, Lets, Shape, Strict, IsUtf8, Spaces, Call1;
    MirrorsShape(cfg, g, es);
    var a, b := es + [StartMap], es + [StartMap] + MemberEvents(members);
    assert es + Events(JObject(members)) == b + [EndMap];
    Shorter(b, [EndMap], all);
    Shorter(a, MemberEvents(members), all);
    OpenGoes(f, g, true);
    CallIs(f, g, CMapOpen);
    CallMirrors(cfg, f, g, es, CMapOpen, all);
    var h := Call1(f, g, CMapOpen).0;
    MembersMirrors(cfg, f, h, a, members, all);
    var k := WriteMembers(f, h, members).0;
    Below(g, h, k);
    CloseGoes(f, g, k, true);
    CallIs(f, k, CMapClose);
    CallMirrors(cfg, f, k, b, CMapClose, all);
  }

  lemma CallIs(f: GFlags, g: Gen, c: Call)
    requires Usable(g)
    ensures Call1(f, g, c) == (Generate(f, g, c).0, Generate(f, g, c).1 == GOk)
  {
    hide Generate;
  }

  lemma Below(g: Gen, h: Gen, k: Gen)
    requires Usable(g) && Usable(h) && h.depth == g.depth + 1 && h.states[..h.depth] == g.states[..h.depth]
    requires Alongside(h, k)
    ensures k.depth == g.depth + 1 && k.states[..k.depth] == g.states[..k.depth]
  {
  }

  lemma {:induction false} ItemsMirrors(cfg: Config, f: GFlags, g: Gen, es: seq<Event>, items: seq<Json>, all: seq<Event>)
    requires Strict(cfg) && Spaces(f.indent) && Mirrors(cfg, g, es) && (Now(g) == GArrayStart || Now(g) == GInArray)
    requires Utf8Items(items) && g.depth + ItemsHeight(items) < MAX_DEPTH
    requires Lets(cfg, all) && es + ItemEvents(items) <= all
    ensures var r := WriteItems(f, g, items);
            && r.1 && Mirrors(cfg, r.0, es + ItemEvents(items)) && Alongside(g, r.0)
            && (Now(r.0) == GArrayStart || Now(r.0) == GInArray)
    decreases items, 0
  {
    hide Mirrors, WriteTree, Events, Lets, Shape, Strict, IsUtf8, Spaces, Height, Utf8Tree;
    MirrorsShape(cfg, g, es);
    if items == [] {
      assert es + [] == es;
    } else {
      var a := es + Events(items[0]);
      assert es + ItemEvents(items) == a + ItemEvents(items[1..]);
      Shorter(a, ItemEvents(items[1..]), all);
      TreeMirrors(cfg, f, g, es, items[0], all);
      ItemsMirrors(cfg, f, WriteTree(f, g, items[0]).0, a, items[1..], all);
    }
  }

  lemma {:induction false} MembersMirrors(cfg: Config, f: GFlags, g: Gen, es: seq<Event>, members: seq<Member>, all: seq<Event>)
    requires Strict(cfg) && Spaces(f.indent) && Mirrors(cfg, g, es) && IsKeyState(Now(g))
    requires Utf8Members(members) && g.depth + MembersHeight(members) < MAX_DEPTH
    requires Lets(cfg, all) && es + MemberEvents(members) <= all
    ensures var r := WriteMembers(f, g, members);
            && r.1 && Mirrors(cfg, r.0, es + MemberEvents(members)) && Alongside(g, r.0) && IsKeyState(Now(r.0))
    decreases members, 0
  {
    hide Mirrors, WriteTree, Events, Lets, Shape, Strict, IsUtf8, Spaces, Height, Utf8Tree, Generate, Call1;
    MirrorsShape(cfg, g, es);
    if members == [] {
      assert es + [] == es;
    } else {
      var key, v := members[0].key, members[0].value;
      var a, b := es + [MapKey(key)], es + [MapKey(key)] + Events(v);
      assert es + MemberEvents(members) == b + MemberEvents(members[1..]);
      Shorter(b, MemberEvents(members[1..]), all);
      Shorter(a, Events(v), all);
      KeyGoes(f, g, key);
      CallIs(f, g, CString(key));
      CallMirrors(cfg, f, g, es, CString(key), all);
      var h := Call1(f, g, CString(key)).0;
      TreeMirrors(cfg, f, h, a, v, all);
      MembersMirrors(cfg, f, WriteTree(f, h, v).0, b, members[1..], all);
    }
  }

  // ----- the output is a C string

  predicate NoNul(s: bytes) {
    forall i | 0 <= i < |s| :: s[i] != 0
  }

  lemma NoNulConcat(a: bytes, b: bytes)
    requires NoNul(a) && NoNul(b)
    ensures NoNul(a + b)
  {
  }

  lemma {:induction false} EncodeNoNul(s: bytes, solidus: bool)
    ensures NoNul(Encode(s, solidus))
    decreases |s|
  {
    if s != [] {
      assert NoNul(Escape(s[0], solidus));
      EncodeNoNul(s[1..], solidus);
      NoNulConcat(Escape(s[0], solidus), Encode(s[1..], solidus));
    }
  }

  lemma SpacesNoNul(s: bytes)
    requires Spaces(s)
    ensures NoNul(s)
  {
  }

  lemma LeadNoNul(f: GFlags, g: Gen)
    requires Usable(g) && NoNul(g.out) && Spaces(f.indent)
    ensures NoNul(Lead(f, g).out)
  {
    hide White;
    WhiteSpaces(f, Now(g), g.depth);
    SpacesNoNul(White(f, Now(g), g.depth));
    NoNulConcat(g.out, Sep(f, Now(g)));
    NoNulConcat(g.out + Sep(f, Now(g)), White(f, Now(g), g.depth));
  }

  lemma AtomNoNul(f: GFlags, g: Gen, text: bytes)
    requires Usable(g) && NoNul(g.out) && Spaces(f.indent) && NoNul(text)
    ensures NoNul(Atom(f, g, text).out)
  {
    hide Lead;
    LeadNoNul(f, g);
    NoNulConcat(Lead(f, g).out, text);
    NoNulConcat(Lead(f, g).out + text, [NEWLINE]);
  }

  lemma OpenNoNul(f: GFlags, g: Gen, bracket: byte, st: GState)
    requires Usable(g) && NoNul(g.out) && Spaces(f.indent) && bracket != 0
    ensures NoNul(OpenWith(f, g, bracket, st).0.out)
  {
    hide Lead;
    LeadNoNul(f, g);
    NoNulConcat(Lead(f, g).out, [bracket]);
    NoNulConcat(Lead(f, g).out + [bracket], Line(f));
  }

  lemma CloseNoNul(f: GFlags, g: Gen, bracket: byte)
    requires Usable(g) && NoNul(g.out) && Spaces(f.indent) && bracket != 0
    ensures NoNul(CloseWith(f, g, bracket).0.out)
  {
    hide White;
    if g.depth > 0 {
      var d := g.(depth := g.depth - 1);
      var ws := White(f, AtomDone(Now(d)), d.depth);
      WhiteSpaces(f, AtomDone(Now(d)), d.depth);
      SpacesNoNul(ws);
      NoNulConcat(g.out, Line(f));
      NoNulConcat(g.out + Line(f), ws);
      NoNulConcat(g.out + Line(f) + ws, [bracket]);
      NoNulConcat(g.out + Line(f) + ws + [bracket], [NEWLINE]);
    }
  }

  lemma CallNoNul(f: GFlags, g: Gen, c: Call)
    requires Usable(g) && NoNul(g.out) && Spaces(f.indent)
    ensures NoNul(Call1(f, g, c).0.out)
  {
    hide Atom, OpenWith, CloseWith, IsUtf8, Encode, Printed;
    match c
    case CMapOpen => OpenNoNul(f, g, LCURLY, GMapStart);
    case CArrayOpen => OpenNoNul(f, g, LSQUARE, GArrayStart);
    case CMapClose => CloseNoNul(f, g, RCURLY);
    case CArrayClose => CloseNoNul(f, g, RSQUARE);
    case CString(s) =>
      EncodeNoNul(s, f.escapeSolidus);
      NoNulConcat([QUOTE], Encode(s, f.escapeSolidus));
      NoNulConcat([QUOTE] + Encode(s, f.escapeSolidus), [QUOTE]);
      AtomNoNul(f, g, Quoted(s, f.escapeSolidus));
    case CInteger(n) =>
      PrintedNoNul(n);
      AtomNoNul(f, g, Printed(n));
    case _ => AtomNoNul(f, g, WordOf(c));
  }

  lemma PrintedNoNul(n: int)
    ensures NoNul(Printed(n))
  {
  }

  lemma {:induction false} TreeNoNul(f: GFlags, g: Gen, v: Json)
    requires Usable(g) && NoNul(g.out) && Spaces(f.indent)
    ensures NoNul(WriteTree(f, g, v).0.out)
    decreases v, 1
  {
    hide Call1, NoNul, Spaces;
    match v
    case JNull => CallNoNul(f, g, CNull);
    case JBool(b) => CallNoNul(f, g, CBool(b));
    case JInt(n) => CallNoNul(f, g, CInteger(n));
    case JString(s) => CallNoNul(f, g, CString(s));
    case JArray(items) =>
      CallNoNul(f, g, CArrayOpen);
      var a := Call1(f, g, CArrayOpen);
      if a.1 {
        ItemsNoNul(f, a.0, items);
        var b := WriteItems(f, a.0, items);
        if b.1 { CallNoNul(f, b.0, CArrayClose); }
      }
    case JObject(members) =>
      CallNoNul(f, g, CMapOpen);
      var a := Call1(f, g, CMapOpen);
      if a.1 {
        MembersNoNul(f, a.0, members);
        var b := WriteMembers(f, a.0, members);
        if b.1 { CallNoNul(f, b.0, CMapClose); }
      }
  }

  lemma {:induction false} ItemsNoNul(f: GFlags, g: Gen, items: seq<Json>)
    requires Usable(g) && NoNul(g.out) && Spaces(f.indent)
    ensures NoNul(WriteItems(f, g, items).0.out)
    decreases items, 0
  {
    hide WriteTree, NoNul, Spaces;
    if items != [] {
      TreeNoNul(f, g, items[0]);
      var a := WriteTree(f, g, items[0]);
      if a.1 { ItemsNoNul(f, a.0, items[1..]); }
    }
  }

  lemma {:induction false} MembersNoNul(f: GFlags, g: Gen, members: seq<Member>)
    requires Usable(g) && NoNul(g.out) && Spaces(f.indent)
    ensures NoNul(WriteMembers(f, g, members).0.out)
    decreases members, 0
  {
    hide WriteTree, Call1, NoNul, Spaces;
    if members != [] {
      CallNoNul(f, g, CString(members[0].key));
      var a := Call1(f, g, CString(members[0].key));
      if a.1 {
        TreeNoNul(f, a.0, members[0].value);
        var b := WriteTree(f, a.0, members[0].value);
        if b.1 { MembersNoNul(f, b.0, members[1..]); }
      }
    }
  }

  // ----- the round trip

  /** The builder takes all the callbacks of a tree. */
  lemma TreeLets(v: Json)
    ensures Lets(TREE, Events(v)) && Build(Events(v)) == Some(Ctx([], Some(NodeOf(v))))
  {
    hide Events, NodeOf, Handle;
    BuildTree([], EMPTY, v);
    assert [] + Events(v) == Events(v);
    forall k | 0 <= k <= |Events(v)| ensures TREE.accepts(Events(v)[..k]) {
      BuildPrefix(Events(v), k);
    }
  }

  /** Any tree nested less than the depth limit, its strings UTF-8, is written
      without error, plain or beautified, and parsing what was written gives the
      tree: values, order and duplicate keys. */
  lemma TreeRoundTrip(f: GFlags, v: Json)
    requires Spaces(f.indent) && Utf8Tree(v) && Height(v) < MAX_DEPTH
    ensures var r := WriteTree(f, FRESH, v); r.1 && TreeOf(r.0.out) == Some(NodeOf(v))
  {
    hide Mirrors, WriteTree, Events, Lets, NodeOf, Build, Outcome, Height, Utf8Tree;
    TreeLets(v);
    FreshMirrors(TREE);
    assert [] + Events(v) == Events(v);
    TreeMirrors(TREE, f, FRESH, [], v, Events(v));
    var g := WriteTree(f, FRESH, v).0;
    CompleteOutcome(TREE, g, Events(v));
    TreeNoNul(f, FRESH, v);
    CStrAll(g.out);
  }

  // ----- which trees can be written

  /** What the generator demands of a tree at some depth. */
  predicate Writable(f: GFlags, depth: int, height: nat, utf8: bool) {
    depth + height < MAX_DEPTH && (f.validateUtf8 ==> utf8)
  }

  lemma AtomExactly(f: GFlags, g: Gen, c: Call)
    requires Usable(g) && TakesValue(Now(g)) && (c.CNull? || c.CBool? || c.CInteger? || c.CString?)
    ensures Generate(f, g, c).1 == GOk <==> (c.CString? && f.validateUtf8 ==> IsUtf8(c.s, 0))
    ensures Generate(f, g, c).1 == GOk ==> OneOn(g, Generate(f, g, c).0)
  {
    hide Lead, IsUtf8, Encode, Printed;
  }

  lemma KeyExactly(f: GFlags, g: Gen, key: bytes)
    requires Usable(g) && IsKeyState(Now(g))
    ensures var r := Generate(f, g, CString(key));
            && (r.1 == GOk <==> (f.validateUtf8 ==> IsUtf8(key, 0)))
            && (r.1 == GOk ==> OneOn(g, r.0))
  {
    hide Lead, IsUtf8, Encode;
  }

  lemma OpenExactly(f: GFlags, g: Gen, isMap: bool)
    requires Usable(g) && TakesValue(Now(g))
    ensures var r := Generate(f, g, if isMap then CMapOpen else CArrayOpen);
            && (r.1 == GOk <==> g.depth + 1 < MAX_DEPTH)
            && (r.1 == GOk ==> Opened(g, r.0, if isMap then GMapStart else GArrayStart))
  {
    hide Lead;
  }

  /** Writing a tree succeeds exactly when it is not nested too deeply and, if the
      generator validates, its strings are UTF-8. */
  lemma {:induction false} WriteExactly(f: GFlags, g: Gen, v: Json)
    requires Usable(g) && TakesValue(Now(g))
    ensures var r := WriteTree(f, g, v);
            (r.1 <==> Writable(f, g.depth, Height(v), Utf8Tree(v))) && (r.1 ==> OneOn(g, r.0))
    decreases v, 1
  {
    hide Generate, IsUtf8;
    match v
    case JNull => AtomExactly(f, g, CNull);
    case JBool(b) => AtomExactly(f, g, CBool(b));
    case JInt(n) => AtomExactly(f, g, CInteger(n));
    case JString(s) => AtomExactly(f, g, CString(s));
    case JArray(items) =>
      OpenExactly(f, g, false);
      var a := Call1(f, g, CArrayOpen);
      if a.1 {
        ItemsExactly(f, a.0, items);
        var b := WriteItems(f, a.0, items);
        if b.1 {
          Below(g, a.0, b.0);
          CloseGoes(f, g, b.0, false);
        }
      }
    case JObject(members) =>
      OpenExactly(f, g, true);
      var a := Call1(f, g, CMapOpen);
      if a.1 {
        MembersExactly(f, a.0, members);
        var b := WriteMembers(f, a.0, members);
        if b.1 {
          Below(g, a.0, b.0);
          CloseGoes(f, g, b.0, true);
        }
      }
  }

  lemma {:induction false} ItemsExactly(f: GFlags, g: Gen, items: seq<Json>)
    requires Usable(g) && (Now(g) == GArrayStart || Now(g) == GInArray)
    ensures var r := WriteItems(f, g, items);
            && (r.1 <==> Writable(f, g.depth, ItemsHeight(items), Utf8Items(items)))
            && (r.1 ==> Alongside(g, r.0) && (Now(r.0) == GArrayStart || Now(r.0) == GInArray))
    decreases items, 0
  {
    hide WriteTree, Height, Utf8Tree;
    if items != [] {
      WriteExactly(f, g, items[0]);
      var a := WriteTree(f, g, items[0]);
      if a.1 { ItemsExactly(f, a.0, items[1..]); }
    }
  }

  lemma {:induction false} MembersExactly(f: GFlags, g: Gen, members: seq<Member>)
    requires Usable(g) && IsKeyState(Now(g))
    ensures var r := WriteMembers(f, g, members);
            && (r.1 <==> Writable(f, g.depth, MembersHeight(members), Utf8Members(members)))
            && (r.1 ==> Alongside(g, r.0) && IsKeyState(Now(r.0)))
    decreases members, 0
  {
    hide WriteTree, Height, Utf8Tree, Generate, IsUtf8;
    if members != [] {
      KeyExactly(f, g, members[0].key);
      var a := Call1(f, g, CString(members[0].key));
      if a.1 {
        WriteExactly(f, a.0, members[0].value);
        var b := WriteTree(f, a.0, members[0].value);
        if b.1 { MembersExactly(f, b.0, members[1..]); }
      }
    }
  }
}
