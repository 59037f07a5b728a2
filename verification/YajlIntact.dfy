/** Exactly which trees come back from the generator, the parser and the tree builder
    as they were (libs/yajl/yajl_gen.c:135-338, libs/yajl/yajl_tree.c:213-453). */
module YajlIntact {
  import opened Bytes
  import opened YajlParse
  import opened YajlNumber
  import opened YajlLexeme
  import opened YajlGen
  import opened YajlTree
  import opened YajlRoundTrip
  import opened YajlSpoiled

  /** The node that holds all of a tree. */
  function Whole(v: Json): Node {
    match v
    case JNull => NNull
    case JBool(b) => NBool(b)
    case JInt(n) => NNumber(Printed(n), Value(n))
    case JString(s) => NString(s)
    case JArray(items) => NArray(WholeItems(items))
    case JObject(members) => NObject(WholeKeys(members), WholeValues(members))
  }

  function WholeItems(items: seq<Json>): (r: seq<Node>)
    ensures |r| == |items|
  {
    if items == [] then [] else [Whole(items[0])] + WholeItems(items[1..])
  }

  function WholeKeys(members: seq<Member>): (r: seq<bytes>)
    ensures |r| == |members|
  {
    if members == [] then [] else [members[0].key] + WholeKeys(members[1..])
  }

  function WholeValues(members: seq<Member>): (r: seq<Node>)
    ensures |r| == |members|
  {
    if members == [] then [] else [Whole(members[0].value)] + WholeValues(members[1..])
  }

  lemma HeadTail<T>(x: T, y: T, a: seq<T>, b: seq<T>)
    ensures [x] + a == [y] + b <==> x == y && a == b
  {
    if [x] + a == [y] + b {
      assert ([x] + a)[0] == ([y] + b)[0] && ([x] + a)[1..] == ([y] + b)[1..];
    }
  }

  /** Different trees have different nodes. */
  lemma {:induction false} WholeInjective(v: Json, w: Json)
    requires Whole(v) == Whole(w)
    ensures v == w
    decreases v, 1
  {
    hide Printed;
    match v
    case JArray(items) => ItemsInjective(items, w.items);
    case JObject(members) => MembersInjective(members, w.members);
    case _ =>
  }

  lemma {:induction false} ItemsInjective(a: seq<Json>, b: seq<Json>)
    requires WholeItems(a) == WholeItems(b)
    ensures a == b
    decreases a, 0
  {
    hide Whole;
    if a != [] {
      HeadTail(Whole(a[0]), Whole(b[0]), WholeItems(a[1..]), WholeItems(b[1..]));
      WholeInjective(a[0], b[0]);
      ItemsInjective(a[1..], b[1..]);
      assert a == [a[0]] + a[1..] && b == [b[0]] + b[1..];
    }
  }

  lemma {:induction false} MembersInjective(a: seq<Member>, b: seq<Member>)
    requires WholeKeys(a) == WholeKeys(b) && WholeValues(a) == WholeValues(b)
    ensures a == b
    decreases a, 0
  {
    hide Whole;
    if a != [] {
      HeadTail(a[0].key, b[0].key, WholeKeys(a[1..]), WholeKeys(b[1..]));
      HeadTail(Whole(a[0].value), Whole(b[0].value), WholeValues(a[1..]), WholeValues(b[1..]));
      WholeInjective(a[0].value, b[0].value);
      MembersInjective(a[1..], b[1..]);
      assert a == [a[0]] + a[1..] && b == [b[0]] + b[1..];
    }
  }

  /** No string and no key has a zero byte, and every integer is in range. */
  predicate Intact(v: Json) {
    match v
    case JInt(n) => -LLONG_MAX <= n <= LLONG_MAX
    case JString(s) => 0 !in s
    case JArray(items) => IntactItems(items)
    case JObject(members) => IntactMembers(members)
    case _ => true
  }

  predicate IntactItems(items: seq<Json>) {
    items == [] || (Intact(items[0]) && IntactItems(items[1..]))
  }

  predicate IntactMembers(members: seq<Member>) {
    members == [] || (0 !in members[0].key && Intact(members[0].value) && IntactMembers(members[1..]))
  }

  lemma {:induction false} CStrExactly(s: bytes)
    ensures CStr(s) == s <==> 0 !in s
  {
    if s != [] {
      CStrExactly(s[1..]);
      assert s == [s[0]] + s[1..];
      if s[0] != 0 { HeadTail(s[0], s[0], CStr(s[1..]), s[1..]); }
    }
  }

  lemma {:induction false} NodeExactly(v: Json)
    ensures NodeOf(v) == Whole(v) <==> Intact(v)
    decreases v, 1
  {
    hide Printed, CStr;
    match v
    case JString(s) => CStrExactly(s);
    case JArray(items) => ItemsExactly(items);
    case JObject(members) => MembersExactly(members);
    case _ =>
  }

  lemma {:induction false} ItemsExactly(items: seq<Json>)
    ensures NodesOf(items) == WholeItems(items) <==> IntactItems(items)
    decreases items, 0
  {
    hide Whole, NodeOf, Intact;
    if items != [] {
      NodeExactly(items[0]);
      ItemsExactly(items[1..]);
      HeadTail(NodeOf(items[0]), Whole(items[0]), NodesOf(items[1..]), WholeItems(items[1..]));
    }
  }

  lemma {:induction false} MembersExactly(members: seq<Member>)
    ensures KeysOf(members) == WholeKeys(members) && ValuesOf(members) == WholeValues(members) <==> IntactMembers(members)
    decreases members, 0
  {
    hide Whole, NodeOf, Intact, CStr;
    if members != [] {
      var key, v := members[0].key, members[0].value;
      CStrExactly(key);
      NodeExactly(v);
      MembersExactly(members[1..]);
      HeadTail(CStr(key), key, KeysOf(members[1..]), WholeKeys(members[1..]));
      HeadTail(NodeOf(v), Whole(v), ValuesOf(members[1..]), WholeValues(members[1..]));
    }
  }

  /** A tree is written without error and comes back as it was if and only if it is
      nested less than the limit, its strings and keys are UTF-8 without a zero byte,
      and its integers are at most LLONG_MAX in magnitude. */
  lemma TreeExactly(f: GFlags, v: Json)
    requires Spaces(f.indent)
    ensures var r := WriteTree(f, FRESH, v);
            r.1 && TreeOf(r.0.out) == Some(Whole(v)) <==> Height(v) < MAX_DEPTH && Utf8Tree(v) && Intact(v)
  {
    hide WriteTree, Height, Utf8Tree, Intact, Whole, NodeOf, TreeOf;
    WriteExactly(f, FRESH, v);
    NodeExactly(v);
    if Height(v) < MAX_DEPTH {
      if Utf8Tree(v) {
        TreeRoundTrip(f, v);
      } else if !f.validateUtf8 {
        RoundTripExactly(f, v);
      }
    }
  }

  /** A string that is cut: the letter after its zero byte does not come back. */
  lemma StringCut(f: GFlags)
    requires Spaces(f.indent)
    ensures var r := WriteTree(f, FRESH, JString([0x61, 0, 0x62]));
            r.1 && TreeOf(r.0.out) == Some(NString([0x61]))
  {
    hide WriteTree, TreeOf;
    var s := [0x61, 0, 0x62];
    assert CStr(s) == [0x61] by { assert CStr(s[1..]) == []; }
    TreeRoundTrip(f, JString(s));
  }
}
