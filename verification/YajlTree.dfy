/** Building a tree from callbacks (libs/yajl/yajl_tree.c:106-453). */
module YajlTree {
  import opened Bytes
  import opened YajlLex
  import opened YajlParse
  import opened YajlParser

  /** A tree. Strings are C strings; a number keeps its text and, when in range,
      its integer value. */
  datatype Node = NNull | NBool(b: bool) | NNumber(text: bytes, i: Parsed) | NString(s: bytes)
    | NArray(values: seq<Node>) | NObject(keys: seq<bytes>, members: seq<Node>)

  /** What a C string holds of some bytes. */
  function CStr(s: bytes): bytes {
    if s == [] || s[0] == 0 then [] else [s[0]] + CStr(s[1..])
  }

  lemma {:induction false} CStrAll(s: bytes)
    requires 0 !in s
    ensures CStr(s) == s
  {
    if s != [] { CStrAll(s[1..]); }
  }

  /** An open container, and the key read for its next value. */
  datatype Elem = Elem(key: Option<bytes>, value: Node)

  /** The open containers, innermost last, and the finished tree. */
  datatype Ctx = Ctx(stack: seq<Elem>, root: Option<Node>)

  const EMPTY := Ctx([], None)

  function SetTop(c: Ctx, e: Elem): Ctx
    requires c.stack != []
  {
    c.(stack := c.stack[|c.stack| - 1 := e])
  }

  /** `context_add_value`; None is an error. */
  function AddValue(c: Ctx, v: Node): Option<Ctx> {
    if c.stack == [] then
      if c.root.Some? then None else Some(c.(root := Some(v)))
    else
      var top := c.stack[|c.stack| - 1];
      match top.value
      case NObject(keys, members) =>
        if top.key.None? then
          if v.NString? then Some(SetTop(c, Elem(Some(v.s), top.value))) else None
        else Some(SetTop(c, Elem(None, NObject(keys + [top.key.value], members + [v]))))
      case NArray(values) => Some(SetTop(c, Elem(top.key, NArray(values + [v]))))
      case _ => None
  }

  function PushValue(c: Ctx, v: Node): Ctx {
    c.(stack := c.stack + [Elem(None, v)])
  }

  function PopValue(c: Ctx): Option<Ctx> {
    if c.stack == [] then None
    else AddValue(c.(stack := c.stack[..|c.stack| - 1]), c.stack[|c.stack| - 1].value)
  }

  /** The callback handlers. */
  function Handle(c: Ctx, e: Event): Option<Ctx> {
    match e
    case Null => AddValue(c, NNull)
    case Boolean(b) => AddValue(c, NBool(b))
    case Number(text) => AddValue(c, NNumber(text, ParseInteger(text)))
    case String(s) => AddValue(c, NString(CStr(s)))
    case MapKey(s) => AddValue(c, NString(CStr(s)))
    case StartMap => Some(PushValue(c, NObject([], [])))
    case StartArray => Some(PushValue(c, NArray([])))
    case EndMap => PopValue(c)
    case EndArray => PopValue(c)
    case _ => Some(c)
  }

  function Build(events: seq<Event>): Option<Ctx> {
    if events == [] then Some(EMPTY) else
    match Build(events[..|events| - 1])
    case None => None
    case Some(c) => Handle(c, events[|events| - 1])
  }

  lemma BuildNext(events: seq<Event>, e: Event)
    ensures Build(events + [e]) == match Build(events) case None => None case Some(c) => Handle(c, e)
  {
    assert (events + [e])[..|events + [e]| - 1] == events;
  }

  lemma {:induction false} BuildPrefix(all: seq<Event>, k: nat)
    requires k <= |all| && Build(all).Some?
    ensures Build(all[..k]).Some?
    decreases |all| - k
  {
    if k == |all| {
      assert all[..k] == all;
    } else {
      BuildPrefix(all, k + 1);
      assert all[..k + 1] == all[..k] + [all[k]];
      BuildNext(all[..k], all[k]);
    }
  }

  // ----- the builder

  class Context {
    var stack: seq<Elem>
    var root: Option<Node>

    ghost function C(): Ctx
      reads this
    {
      Ctx(stack, root)
    }

    constructor ()
      ensures C() == EMPTY
    {
      stack, root := [], None;
    }

    method Add(v: Node) returns (ok: bool)
      modifies this
      ensures ok <==> AddValue(old(C()), v).Some?
      ensures ok ==> C() == AddValue(old(C()), v).value
    {
      if |stack| == 0 {
        if root.Some? { return false; }
        root := Some(v);
        return true;
      }
      var top := stack[|stack| - 1];
      if top.value.NObject? {
        if top.key.None? {
          if !v.NString? { return false; }
          stack := stack[|stack| - 1 := Elem(Some(v.s), top.value)];
        } else {
          var obj := NObject(top.value.keys + [top.key.value], top.value.members + [v]);
          stack := stack[|stack| - 1 := Elem(None, obj)];
        }
      } else if top.value.NArray? {
        stack := stack[|stack| - 1 := Elem(top.key, NArray(top.value.values + [v]))];
      } else {
        return false;
      }
      ok := true;
    }

    method Pop() returns (ok: bool)
      modifies this
      ensures ok <==> PopValue(old(C())).Some?
      ensures ok ==> C() == PopValue(old(C())).value
    {
      if |stack| == 0 { return false; }
      var v := stack[|stack| - 1].value;
      stack := stack[..|stack| - 1];
      ok := Add(v);
    }

    /** One callback; false asks the parser to stop. */
    method On(e: Event) returns (ok: bool)
      modifies this
      ensures ok <==> Handle(old(C()), e).Some?
      ensures ok ==> C() == Handle(old(C()), e).value
    {
      hide AddValue, ParseInteger;
      ok := true;
      match e
      case Null => ok := Add(NNull);
      case Boolean(b) => ok := Add(NBool(b));
      case Number(text) =>
        var i := IntegerOf(text);
        ok := Add(NNumber(text, i));
      case String(s) => ok := Add(NString(CStr(s)));
      case MapKey(s) => ok := Add(NString(CStr(s)));
      case StartMap => stack := stack + [Elem(None, NObject([], []))];
      case StartArray => stack := stack + [Elem(None, NArray([]))];
      case EndMap => ok := Pop();
      case EndArray => ok := Pop();
      case _ =>
    }
  }

  /** The parser as `yajl_tree_parse` sets it up. */
  const TREE: Config := Config(Flags(true, false, false, false, false),
    Handlers(true, true, false, false, true, true, true, true, true, true, true),
    (events: seq<Event>) => Build(events).Some?, (text: bytes) => false)

  /** The tree of a text; None when it does not parse. */
  function TreeOf(input: bytes): Option<Node> {
    var (m, status) := Outcome(TREE, CStr(input));
    if status != StatusOk then None else
    match Build(m.events)
    case None => None
    case Some(c) => c.root
  }

  /** `yajl_tree_parse`. */
  method TreeParse(input: bytes) returns (root: Option<Node>)
    ensures root == TreeOf(input)
  {
    hide Outcome, Parse, Handle;
    var text := CStr(input);
    var events, fault, fed, final := ParseChunks(TREE, [text]);
    JoinOne(text);
    if final != StatusOk { return None; }
    var ctx := new Context();
    for i := 0 to |events|
      invariant Build(events[..i]) == Some(ctx.C())
    {
      assert events[..i + 1] == events[..i] + [events[i]];
      BuildNext(events[..i], events[i]);
      var ok := ctx.On(events[i]);
      if !ok {
        NotBuilt(events, i + 1);
        return None;
      }
    }
    assert events[..|events|] == events;
    root := ctx.root;
  }

  lemma JoinOne(text: bytes)
    ensures Join([text]) == text
  {
    var none: seq<bytes> := [];
    assert [text][..0] == none && Join(none) == [];
  }

  lemma NotBuilt(all: seq<Event>, k: nat)
    requires k <= |all| && Build(all[..k]).None?
    ensures Build(all).None?
  {
    if Build(all).Some? { BuildPrefix(all, k); }
  }
}
