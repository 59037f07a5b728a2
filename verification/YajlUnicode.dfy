/** What an escaped string means (section 2.5 of RFC 4627), and when the decoder of
    libs/yajl/yajl_encode.c:78-180 gives that meaning. */
module YajlUnicode {
  import opened Bytes
  import opened Numerals
  import opened YajlLex
  import opened YajlString
  import opened YajlQuoted

  // ----- the meaning of a string body

  const SMALL_U: byte := 0x75

  /** Every backslash begins a complete escape. */
  predicate Escaped(s: bytes)
    decreases |s|
  {
    s == []
    || (s[0] != BACKSLASH && Escaped(s[1..]))
    || (Named(s) && Escaped(s[2..]))
    || (Numbered(s) && Escaped(s[6..]))
  }

  predicate Named(s: bytes) {
    |s| >= 2 && s[0] == BACKSLASH && IsEscape(s[1])
  }

  predicate Numbered(s: bytes) {
    |s| >= 6 && s[0] == BACKSLASH && s[1] == SMALL_U && IsHex(s[2]) && IsHex(s[3]) && IsHex(s[4]) && IsHex(s[5])
  }

  /** A byte that stands for itself, or a code unit or code point that was escaped. */
  datatype Unit = Raw(b: byte) | Code(n: nat)

  /** The character a two-character escape names. */
  function NameOf(c: byte): nat {
    if c == 0x62 then 0x08
    else if c == 0x66 then 0x0c
    else if c == 0x6e then 0x0a
    else if c == 0x72 then 0x0d
    else if c == 0x74 then 0x09
    else c
  }

  /** The code units of a body. */
  function Units(s: bytes): seq<Unit>
    requires Escaped(s)
    decreases |s|
  {
    if s == [] then []
    else if s[0] != BACKSLASH then [Raw(s[0])] + Units(s[1..])
    else if Named(s) then [Code(NameOf(s[1]))] + Units(s[2..])
    else [Code(Hex4(s, 2))] + Units(s[6..])
  }

  predicate High(u: Unit) {
    u.Code? && 0xd800 <= u.n < 0xdc00
  }

  predicate Low(u: Unit) {
    u.Code? && 0xdc00 <= u.n < 0xe000
  }

  predicate PairAt(us: seq<Unit>, i: nat) {
    i + 1 < |us| && High(us[i]) && Low(us[i + 1])
  }

  /** The code points: pairs of surrogates are combined. */
  function Points(us: seq<Unit>): seq<Unit>
    decreases |us|
  {
    if us == [] then []
    else if PairAt(us, 0) then [Code(0x1_0000 + (us[0].n - 0xd800) * 0x400 + (us[1].n - 0xdc00))] + Points(us[2..])
    else [us[0]] + Points(us[1..])
  }

  function PointText(u: Unit): (t: bytes)
    ensures t != []
  {
    if u.Raw? then [u.b] else Utf32ToUtf8(u.n)
  }

  /** The UTF-8 text of code points; a surrogate is written like any other. */
  function LaxText(ps: seq<Unit>): bytes {
    if ps == [] then [] else PointText(ps[0]) + LaxText(ps[1..])
  }

  predicate Surrogates(ps: seq<Unit>) {
    exists i :: 0 <= i < |ps| && (High(ps[i]) || Low(ps[i]))
  }

  /** The UTF-8 text of code points; a surrogate has none. */
  function Text(ps: seq<Unit>): Option<bytes> {
    if Surrogates(ps) then None else Some(LaxText(ps))
  }

  function Meaning(s: bytes): Option<bytes>
    requires Escaped(s)
  {
    Text(Points(Units(s)))
  }

  /** Every high surrogate is followed directly by a low one. */
  predicate HighsPaired(us: seq<Unit>) {
    forall i :: 0 <= i < |us| && High(us[i]) ==> i + 1 < |us| && Low(us[i + 1])
  }

  /** No low surrogate stands alone. */
  predicate LowsPaired(us: seq<Unit>) {
    forall i :: 0 <= i < |us| && Low(us[i]) ==> i > 0 && High(us[i - 1])
  }

  // ----- UTF-8

  /** The low bits of a byte. */
  function Bits(b: byte, m: nat): nat
    requires m > 0
  {
    b as int % m
  }

  /** The number a UTF-8 character carries (section 3 of RFC 3629). */
  function Carried(t: bytes): nat {
    if |t| == 1 then t[0]
    else if |t| == 2 then Bits(t[0], 0x20) * 0x40 + Bits(t[1], 0x40)
    else if |t| == 3 then Bits(t[0], 0x10) * 0x1000 + Bits(t[1], 0x40) * 0x40 + Bits(t[2], 0x40)
    else if |t| == 4 then
      Bits(t[0], 8) * 0x4_0000 + Bits(t[1], 0x40) * 0x1000 + Bits(t[2], 0x40) * 0x40 + Bits(t[3], 0x40)
    else 0
  }

  /** `Utf32toUtf8` writes the shortest UTF-8 character that carries the number. */
  lemma Utf32Right(cp: nat)
    requires cp < 0x11_0000
    ensures var t := Utf32ToUtf8(cp);
            && |t| == (if cp < 0x80 then 1 else if cp < 0x800 then 2 else if cp < 0x1_0000 then 3 else 4)
            && Follow(t[0]) == |t| - 1 && (forall i :: 1 <= i < |t| ==> IsContinuation(t[i]))
            && Carried(t) == cp
  {
    if cp < 0x80 {
    } else if cp < 0x800 {
      Utf32Two(cp);
    } else if cp < 0x1_0000 {
      Utf32Three(cp);
    } else {
      Utf32Four(cp);
    }
  }

  lemma SixBits(x: nat)
    requires x < 0x40
    ensures Bits(0x80 + x, 0x40) == x && IsContinuation(0x80 + x)
  {
  }

  lemma Utf32Two(cp: nat)
    requires 0x80 <= cp < 0x800
    ensures var t := Utf32ToUtf8(cp);
            |t| == 2 && Follow(t[0]) == 1 && IsContinuation(t[1]) && Carried(t) == cp
  {
    SixBits(cp % 0x40);
  }

  lemma Utf32Three(cp: nat)
    requires 0x800 <= cp < 0x1_0000
    ensures var t := Utf32ToUtf8(cp);
            |t| == 3 && Follow(t[0]) == 2 && IsContinuation(t[1]) && IsContinuation(t[2]) && Carried(t) == cp
  {
    SixBits(cp % 0x40);
    SixBits(cp / 0x40 % 0x40);
    assert Bits(0xe0 + cp / 0x1000, 0x10) == cp / 0x1000;
    hide Bits, IsContinuation;
  }

  lemma Utf32Four(cp: nat)
    requires 0x1_0000 <= cp < 0x11_0000
    ensures var t := Utf32ToUtf8(cp);
            && |t| == 4 && Follow(t[0]) == 3 && IsContinuation(t[1]) && IsContinuation(t[2]) && IsContinuation(t[3])
            && Carried(t) == cp
  {
    SixBits(cp % 0x40);
    SixBits(cp / 0x40 % 0x40);
    SixBits(cp / 0x1000 % 0x40);
    assert Bits(0xf0 + cp / 0x4_0000, 8) == cp / 0x4_0000;
    hide Bits, IsContinuation;
  }

  // ----- the decoder on one escape

  lemma NamedUnescape(s: bytes)
    requires Named(s)
    ensures Unescape(s) == Piece(Utf32ToUtf8(NameOf(s[1])), 2)
  {
  }

  /** What the decoder makes of a high surrogate. */
  lemma HighUnescape(s: bytes)
    requires Numbered(s) && 0xd800 <= Hex4(s, 2) < 0xdc00
    ensures var p := Unescape(s);
            if |s| >= 8 && s[6] == BACKSLASH && s[7] == SMALL_U
            then p == Piece(Utf32ToUtf8(Pair(Hex4(s, 2), Hex4(s, 8))), 12) else p == Piece([0x3f], 7)
  {
    hide Hex4, Pair, Utf32ToUtf8;
  }

  lemma OtherUnescape(s: bytes)
    requires Numbered(s) && !(0xd800 <= Hex4(s, 2) < 0xdc00)
    ensures Unescape(s) == Piece(Utf32ToUtf8(Hex4(s, 2)), 6)
  {
    hide Hex4, Utf32ToUtf8;
  }

  lemma PairRight(high: nat, low: nat)
    requires 0xd800 <= high < 0xdc00 && low < 0x1_0000
    ensures 0x1_0000 <= Pair(high, low) < 0x11_0000
    ensures 0xdc00 <= low < 0xe000 ==> Pair(high, low) == 0x1_0000 + (high - 0xd800) * 0x400 + (low - 0xdc00)
  {
  }

  /** The first byte tells a pair, a question mark and a lone surrogate apart. */
  lemma FirstBytes(high: nat, low: nat)
    requires 0xd800 <= high < 0xdc00 && low < 0x1_0000
    ensures Utf32ToUtf8(high)[0] == 0xed && Utf32ToUtf8(Pair(high, low))[0] >= 0xf0
  {
    PairRight(high, low);
  }

  lemma HeadsDiffer(a: bytes, b: bytes, x: bytes, y: bytes)
    requires a != [] && b != [] && a[0] != b[0]
    ensures a + x != b + y
  {
    assert (a + x)[0] == a[0] && (b + y)[0] == b[0];
  }

  lemma SameHead(a: bytes, x: bytes, y: bytes)
    ensures a + x == a + y <==> x == y
  {
    if a + x == a + y {
      assert x == (a + x)[|a|..] && y == (a + y)[|a|..];
    }
  }

  // ----- conditions on the rest

  lemma HighsAfterOne(us: seq<Unit>)
    requires us != [] && !High(us[0])
    ensures HighsPaired(us) <==> HighsPaired(us[1..])
  {
    var t := us[1..];
    if HighsPaired(t) {
      forall i | 0 <= i < |us| && High(us[i]) ensures i + 1 < |us| && Low(us[i + 1]) {
        assert us[i] == t[i - 1];
      }
    }
    if HighsPaired(us) {
      forall i | 0 <= i < |t| && High(t[i]) ensures i + 1 < |t| && Low(t[i + 1]) {
        assert High(us[i + 1]);
      }
    }
  }

  lemma HighsAfterPair(us: seq<Unit>)
    requires PairAt(us, 0)
    ensures HighsPaired(us) <==> HighsPaired(us[2..])
  {
    var t := us[2..];
    if HighsPaired(t) {
      forall i | 0 <= i < |us| && High(us[i]) ensures i + 1 < |us| && Low(us[i + 1]) {
        if i >= 2 { assert us[i] == t[i - 2]; }
      }
    }
    if HighsPaired(us) {
      forall i | 0 <= i < |t| && High(t[i]) ensures i + 1 < |t| && Low(t[i + 1]) {
        assert High(us[i + 2]);
      }
    }
  }

  lemma LowsAfter(us: seq<Unit>, k: nat)
    requires k <= |us|
    requires if k == 1 then !High(us[0]) && !Low(us[0]) else k == 2 && PairAt(us, 0)
    ensures LowsPaired(us) <==> LowsPaired(us[k..])
  {
    var t := us[k..];
    if LowsPaired(t) {
      forall i | 0 <= i < |us| && Low(us[i]) ensures i > 0 && High(us[i - 1]) {
        if i >= k {
          assert us[i] == t[i - k];
          assert us[i - 1] == t[i - k - 1];
        }
      }
    }
    if LowsPaired(us) {
      forall i | 0 <= i < |t| && Low(t[i]) ensures i > 0 && High(t[i - 1]) {
        assert Low(us[i + k]);
        assert High(us[i + k - 1]);
      }
    }
  }

  lemma SurrogatesHead(p: Unit, ps: seq<Unit>)
    ensures Surrogates([p] + ps) <==> High(p) || Low(p) || Surrogates(ps)
  {
    var all := [p] + ps;
    if Surrogates(ps) {
      var i :| 0 <= i < |ps| && (High(ps[i]) || Low(ps[i]));
      assert all[i + 1] == ps[i];
    }
    assert all[0] == p;
  }

  /** No surrogate is left exactly when they all come in pairs. */
  lemma {:induction false} PointsPaired(us: seq<Unit>)
    ensures !Surrogates(Points(us)) <==> HighsPaired(us) && LowsPaired(us)
    decreases |us|
  {
    hide HighsPaired, LowsPaired, Surrogates;
    if us == [] {
      assert HighsPaired(us) && LowsPaired(us) && !Surrogates([]) by { NonePaired(us); }
    } else if PairAt(us, 0) {
      var p := Code(0x1_0000 + (us[0].n - 0xd800) * 0x400 + (us[1].n - 0xdc00));
      PointsPaired(us[2..]);
      SurrogatesHead(p, Points(us[2..]));
      HighsAfterPair(us);
      LowsAfter(us, 2);
    } else {
      SurrogatesHead(us[0], Points(us[1..]));
      if High(us[0]) || Low(us[0]) {
        LoneFirst(us);
      } else {
        PointsPaired(us[1..]);
        HighsAfterOne(us);
        LowsAfter(us, 1);
      }
    }
  }

  lemma NonePaired(us: seq<Unit>)
    requires us == []
    ensures HighsPaired(us) && LowsPaired(us) && !Surrogates([])
  {
  }

  lemma LoneFirst(us: seq<Unit>)
    requires us != [] && !PairAt(us, 0) && (High(us[0]) || Low(us[0]))
    ensures !(HighsPaired(us) && LowsPaired(us))
    ensures High(us[0]) ==> !HighsPaired(us)
  {
  }

  // ----- the decoder on a whole body

  lemma NumberedUnits(s: bytes)
    requires Escaped(s) && Numbered(s)
    ensures Escaped(s[6..]) && Units(s) == [Code(Hex4(s, 2))] + Units(s[6..])
  {
    hide Hex4;
  }

  /** A body that does not begin with a numbered escape does not begin with a surrogate. */
  lemma OtherUnits(t: bytes)
    requires Escaped(t) && !Numbered(t)
    ensures Units(t) == [] || !Low(Units(t)[0])
    ensures t != [] && t[0] == BACKSLASH ==> Named(t)
  {
    hide Hex4;
  }

  /** The second unit of a body that begins with a numbered escape. */
  lemma SecondUnit(s: bytes)
    requires Escaped(s) && Numbered(s)
    ensures Escaped(s[6..])
    ensures var us, t := Units(s), s[6..];
            |us| >= 1 && us[0] == Code(Hex4(s, 2)) && us[1..] == Units(t)
    ensures |s| >= 8 && s[6] == BACKSLASH && s[7] == SMALL_U ==>
      Numbered(s[6..]) && |Units(s)| >= 2 && Units(s)[1] == Code(Hex4(s, 8)) && Escaped(s[12..]) && Units(s)[2..] == Units(s[12..])
    ensures !(|s| >= 8 && s[6] == BACKSLASH && s[7] == SMALL_U) ==> |Units(s)| == 1 || !Low(Units(s)[1])
  {
    hide Hex4, Escaped, Units;
    var t := s[6..];
    NumberedUnits(s);
    if Numbered(t) {
      NumberedUnits(t);
      Hex4From(s, 6, 2);
      assert t[0] == s[6] && t[1] == s[7] && t[6..] == s[12..];
      assert Units(s)[2..] == Units(t)[1..];
    } else {
      OtherUnits(t);
      if |s| >= 8 { assert t[0] == s[6] && t[1] == s[7]; }
    }
  }

  /** On the bodies the lexer accepts, decoding gives the code points, lone surrogates
      included, exactly when every high surrogate has its low one. */
  lemma {:induction false} DecodeLax(s: bytes)
    requires Escaped(s)
    ensures Decode(s) == LaxText(Points(Units(s))) <==> HighsPaired(Units(s))
    decreases |s|
  {
    hide Unescape, Hex4, Utf32ToUtf8, Pair, HighsPaired;
    var us := Units(s);
    if s == [] {
      NonePaired(us);
    } else if s[0] != BACKSLASH {
      DecodeLax(s[1..]);
      OneUnit(us);
      SameHead([s[0]], Decode(s[1..]), LaxText(Points(us[1..])));
    } else if Named(s) {
      NamedUnescape(s);
      DecodeLax(s[2..]);
      OneUnit(us);
      SameHead(Utf32ToUtf8(NameOf(s[1])), Decode(s[2..]), LaxText(Points(us[1..])));
    } else {
      SecondUnit(s);
      if High(us[0]) {
        DecodeHigh(s);
      } else {
        OtherUnescape(s);
        DecodeLax(s[6..]);
        OneUnit(us);
        SameHead(Utf32ToUtf8(us[0].n), Decode(s[6..]), LaxText(Points(us[1..])));
      }
    }
  }

  lemma OneUnit(us: seq<Unit>)
    requires us != [] && !High(us[0])
    ensures LaxText(Points(us)) == PointText(us[0]) + LaxText(Points(us[1..]))
    ensures HighsPaired(us) <==> HighsPaired(us[1..])
  {
    hide PointText, HighsPaired;
    HighsAfterOne(us);
  }

  lemma PairUnits(us: seq<Unit>)
    requires PairAt(us, 0)
    ensures LaxText(Points(us)) ==
      Utf32ToUtf8(0x1_0000 + (us[0].n - 0xd800) * 0x400 + (us[1].n - 0xdc00)) + LaxText(Points(us[2..]))
  {
    hide Utf32ToUtf8;
  }

  lemma LoneUnit(us: seq<Unit>)
    requires us != [] && us[0].Code? && !PairAt(us, 0)
    ensures LaxText(Points(us)) == Utf32ToUtf8(us[0].n) + LaxText(Points(us[1..]))
  {
    hide Utf32ToUtf8;
  }

  lemma DecodeEscape(s: bytes)
    requires s != [] && s[0] == BACKSLASH
    ensures Decode(s) == Unescape(s).text + Decode(Drop(s, Unescape(s).size))
  {
    hide Unescape;
  }

  lemma DecodeHigh(s: bytes)
    requires Escaped(s) && Numbered(s) && 0xd800 <= Hex4(s, 2) < 0xdc00
    ensures Decode(s) == LaxText(Points(Units(s))) <==> HighsPaired(Units(s))
    decreases |s|, 0
  {
    hide Unescape, Hex4, Utf32ToUtf8, Pair, HighsPaired, Escaped, Decode, LaxText, Points, Units;
    var us, u := Units(s), Hex4(s, 2);
    SecondUnit(s);
    HighUnescape(s);
    DecodeEscape(s);
    var v := Hex4(s, 8);
    FirstBytes(u, v);
    if PairAt(us, 0) {
      PairRight(u, v);
      DecodeLax(s[12..]);
      HighsAfterPair(us);
      PairUnits(us);
      SameHead(Utf32ToUtf8(Pair(u, v)), Decode(s[12..]), LaxText(Points(us[2..])));
    } else {
      LoneFirst(us);
      LoneUnit(us);
      var p := Unescape(s);
      HeadsDiffer(p.text, Utf32ToUtf8(u), Decode(Drop(s, p.size)), LaxText(Points(us[1..])));
    }
  }

  /** Decoding gives the meaning of a body exactly when every escaped high surrogate is
      followed directly by an escaped low one and no low one stands alone; no other
      body has a meaning. */
  lemma DecodeExactly(s: bytes)
    requires Escaped(s)
    ensures Meaning(s) == Some(Decode(s)) <==> HighsPaired(Units(s)) && LowsPaired(Units(s))
    ensures Meaning(s).None? <==> !(HighsPaired(Units(s)) && LowsPaired(Units(s)))
  {
    hide HighsPaired, LowsPaired, Decode, LaxText;
    DecodeLax(s);
    PointsPaired(Units(s));
  }

  // ----- string tokens

  /** Bytes before an escaped body that are no backslashes. */
  lemma {:induction false} EscapedRun(t: bytes, p: nat, q: nat, end: nat)
    requires p <= q <= end <= |t| && Escaped(t[q..end]) && forall i | p <= i < q :: t[i] != BACKSLASH
    ensures Escaped(t[p..end])
    decreases q - p
  {
    if p < q {
      EscapedRun(t, p + 1, q, end);
      assert t[p..end][1..] == t[p + 1..end];
    }
  }

  lemma {:induction false} Utf8RunPlain(t: bytes, p: nat, n: nat)
    requires ScanUtf8(t, p, n).Run?
    ensures (n > 0 ==> p + n <= |t|) && forall i | p <= i < p + n :: t[i] != BACKSLASH
    decreases n
  {
    if n > 0 { Utf8RunPlain(t, p + 1, n - 1); }
  }

  lemma HexRunIs(t: bytes, p: nat)
    requires ScanHex(t, p, 4).Run?
    ensures p + 4 <= |t| && IsHex(t[p]) && IsHex(t[p + 1]) && IsHex(t[p + 2]) && IsHex(t[p + 3])
  {
    assert ScanHex(t, p + 1, 3).Run?;
    assert ScanHex(t, p + 2, 2).Run?;
    assert ScanHex(t, p + 3, 1).Run?;
  }

  /** One step of the lexer in a string: bytes without a backslash, or one escape. */
  lemma CharEscaped(t: bytes, p: nat, validate: bool, end: nat)
    requires ScanChar(t, p, validate).Next? && ScanChar(t, p, validate).end <= end <= |t|
    requires Escaped(t[ScanChar(t, p, validate).end..end])
    ensures Escaped(t[p..end])
    ensures !ScanChar(t, p, validate).escape ==> forall i | p <= i < ScanChar(t, p, validate).end :: t[i] != BACKSLASH
  {
    hide ScanUtf8, ScanHex;
    var q := ScanChar(t, p, validate).end;
    var s := t[p..end];
    if t[p] == BACKSLASH {
      if t[p + 1] == SMALL_U {
        HexRunIs(t, p + 2);
        assert Numbered(s) && s[6..] == t[q..end];
      } else {
        assert Named(s) && s[2..] == t[q..end];
      }
    } else {
      if validate { Utf8RunPlain(t, p + 1, Follow(t[p])); }
      EscapedRun(t, p, q, end);
    }
  }

  /** The body of a string token is properly escaped, and without escapes if its token
      says so. */
  lemma {:induction false} BodyEscaped(t: bytes, p: nat, validate: bool, escapes: bool)
    requires ScanString(t, p, validate, escapes).Done?
    ensures var r := ScanString(t, p, validate, escapes);
            && Escaped(t[p..r.end - 1]) && (escapes ==> r.tok == TStringWithEscapes)
            && (r.tok == TString || r.tok == TStringWithEscapes)
            && (r.tok == TString ==> forall i | p <= i < r.end - 1 :: t[i] != BACKSLASH)
    decreases |t| - p
  {
    hide ScanChar, Escaped;
    var c, r := ScanChar(t, p, validate), ScanString(t, p, validate, escapes);
    if c.Close? {
      assert Escaped(t[p..p]) by { NothingEscapedThere(t, p); }
    } else {
      BodyEscaped(t, c.end, validate, escapes || c.escape);
      CharEscaped(t, p, validate, r.end - 1);
    }
  }

  lemma NothingEscapedThere(t: bytes, p: nat)
    requires p <= |t|
    ensures Escaped(t[p..p])
  {
  }

  /** The string the parser hands out for a token is what the token means exactly when
      its escaped surrogates come in pairs. */
  lemma TokenMeaning(o: Options, t: bytes, p: nat)
    requires p < |t| && t[p] == QUOTE && ScanToken(o, t, p).Done?
    ensures var r := ScanToken(o, t, p);
            var text := TextOf(t, r.tok, p, r.end);
            && Escaped(text)
            && (Meaning(text) == Some(StringValue(r.tok, text)) <==> HighsPaired(Units(text)) && LowsPaired(Units(text)))
  {
    hide ScanString, Escaped, Decode, Meaning, HighsPaired, LowsPaired;
    BodyEscaped(t, p + 1, o.validateUTF8, false);
    var r := ScanToken(o, t, p);
    var text := TextOf(t, r.tok, p, r.end);
    DecodeExactly(text);
    if r.tok == TString {
      DecodePlain(text, 0, |text|);
      DecodeNone(text[|text|..]);
      assert text[0..] == text && text[0..|text|] + [] == text;
    }
  }

  // ----- three texts that are not decoded to what they mean

  const D800: bytes := [BACKSLASH, SMALL_U, 0x64, 0x38, 0x30, 0x30]
  const DC00: bytes := [BACKSLASH, SMALL_U, 0x64, 0x63, 0x30, 0x30]
  const U0041: bytes := [BACKSLASH, SMALL_U, 0x30, 0x30, 0x34, 0x31]

  /** A high surrogate takes the x after it away. */
  lemma CharacterLost()
    ensures Decode(D800 + [0x78]) == [0x3f]
    ensures ScanString(D800 + [0x78, QUOTE], 0, true, false) == Done(TStringWithEscapes, 8)
  {
    var s, t := D800 + [0x78], D800 + [0x78, QUOTE];
    assert Hex4(s, 2) == 0xd800;
    HighUnescape(s);
    assert Drop(s, 7) == [];
    HexRun(t, 2);
    assert ScanChar(t, 0, true) == Next(6, true) && ScanChar(t, 6, true) == Next(7, false);
    assert ScanString(t, 7, true, true) == Done(TStringWithEscapes, 8);
    assert ScanString(t, 6, true, true) == Done(TStringWithEscapes, 8);
  }

  /** A high surrogate before the escape of an A gives one character U+10041. */
  lemma EscapeMerged()
    ensures Decode(D800 + U0041) == [0xf0, 0x90, 0x81, 0x81]
  {
    var s := D800 + U0041;
    assert Hex4(s, 2) == 0xd800 && Hex4(s, 8) == 0x41;
    HighUnescape(s);
    assert Drop(s, 12) == [];
  }

  /** A low surrogate alone gives three bytes that no Unicode character has. */
  lemma SurrogateWritten()
    ensures Decode(DC00) == [0xed, 0xb0, 0x80] && Carried(Decode(DC00)) == 0xdc00
  {
    assert Hex4(DC00, 2) == 0xdc00;
    OtherUnescape(DC00);
    assert Drop(DC00, 6) == [];
  }
}
