/** How the generator lays a text out and escapes a string, by rule
    (libs/yajl/yajl_gen.c:135-338, libs/yajl/yajl_encode.c:31-76). */
module YajlFormat {
  import opened Bytes
  import opened Numerals
  import opened YajlLex
  import opened YajlString
  import opened YajlGen

  /** A byte is escaped as two characters where there is such an escape, else as six with
      hexadecimal digits in capitals if it is a control character, else not at all; the
      slash only on demand. */
  lemma EscapeRule(c: byte, solidus: bool)
    ensures var e := Escape(c, solidus);
            var named := c == QUOTE || c == BACKSLASH || c == 0x08 || c == 0x09 || c == 0x0a || c == 0x0c || c == 0x0d || (c == SLASH && solidus);
            && |e| == (if named then 2 else if c < 0x20 then 6 else 1)
            && (|e| > 1 ==> e[0] == BACKSLASH)
            && (|e| == 6 ==> e[1..4] == [0x75, 0x30, 0x30] && HexVal(e[4]) * 16 + HexVal(e[5]) == c && e[4] < 0x61 && e[5] < 0x61)
            && (|e| == 1 ==> e[0] == c)
  {
  }

  /** The letters of the two-character escapes. */
  lemma EscapeLetters(solidus: bool)
    ensures Escape(0x08, solidus) == [BACKSLASH, 0x62] && Escape(0x09, solidus) == [BACKSLASH, 0x74]
    ensures Escape(0x0a, solidus) == [BACKSLASH, 0x6e] && Escape(0x0c, solidus) == [BACKSLASH, 0x66]
    ensures Escape(0x0d, solidus) == [BACKSLASH, 0x72] && Escape(QUOTE, solidus) == [BACKSLASH, QUOTE]
    ensures Escape(BACKSLASH, solidus) == [BACKSLASH, BACKSLASH] && Escape(SLASH, true) == [BACKSLASH, SLASH]
  {
  }

  // ----- layout

  /** What stands before a value, a key or an opening bracket. Plain: the separator alone.
      Beautified: a value follows its key after a colon and a space; anything else begins a
      line of its own, with one indent for every container that is open. */
  function Gap(f: GFlags, st: GState, depth: nat): bytes {
    if st == GMapVal then (if f.beautify then [COLON, 0x20] else [COLON])
    else
      var comma: bytes := if st == GMapKey || st == GInArray then [COMMA] else [];
      if !f.beautify then comma
      else (if comma == [] then [] else [COMMA, NEWLINE]) + Repeat(f.indent, depth)
  }

  lemma AtomLayout(f: GFlags, g: Gen, text: bytes)
    requires Usable(g)
    ensures Atom(f, g, text).out ==
      g.out + Gap(f, Now(g), g.depth) + text + if f.beautify && (Now(g) == GStart || Now(g) == GComplete) then [NEWLINE] else []
  {
    hide Repeat;
    LeadLayout(f, g);
  }

  lemma LeadLayout(f: GFlags, g: Gen)
    requires Usable(g)
    ensures Lead(f, g).out == g.out + Gap(f, Now(g), g.depth)
  {
    hide Repeat;
    assert g.out + Sep(f, Now(g)) + White(f, Now(g), g.depth) == g.out + (Sep(f, Now(g)) + White(f, Now(g), g.depth));
    assert [] + Repeat(f.indent, g.depth) == Repeat(f.indent, g.depth);
    assert [COMMA] + [NEWLINE] == [COMMA, NEWLINE] && [COLON] + [0x20] + [] == [COLON, 0x20];
    assert Sep(f, Now(g)) + White(f, Now(g), g.depth) == Gap(f, Now(g), g.depth);
  }

  /** A bracket that opens ends its line. */
  lemma OpenLayout(f: GFlags, g: Gen, bracket: byte, st: GState)
    requires Usable(g) && g.depth + 1 < MAX_DEPTH
    ensures OpenWith(f, g, bracket, st).0.out ==
      g.out + Gap(f, Now(g), g.depth) + if f.beautify then [bracket, NEWLINE] else [bracket]
  {
    hide Gap, Lead;
    LeadLayout(f, g);
    var a := g.out + Gap(f, Now(g), g.depth);
    assert a + [bracket] + [NEWLINE] == a + [bracket, NEWLINE] && a + [bracket] + [] == a + [bracket];
  }

  /** A bracket that closes stands on a line of its own, under the line that opened it; the
      end of a text is the end of a line. */
  lemma CloseLayout(f: GFlags, g: Gen, bracket: byte)
    requires Usable(g) && g.depth > 0 && g.states[g.depth - 1] != GMapKey && g.states[g.depth - 1] != GMapStart
    ensures var outer := g.states[g.depth - 1];
            CloseWith(f, g, bracket).0.out ==
              if !f.beautify then g.out + [bracket]
              else g.out + [NEWLINE] + Repeat(f.indent, g.depth - 1) + [bracket]
                   + (if outer == GStart || outer == GComplete then [NEWLINE] else [])
  {
    hide Repeat;
    assert g.out + [] == g.out;
  }

  /** n copies of s, one after the other. */
  lemma {:induction false} RepeatIs(s: bytes, n: nat)
    ensures Repeat(s, 0) == [] && Repeat(s, n + 1) == s + Repeat(s, n)
  {
    if n == 0 {
      assert [] + s == s + [];
    } else {
      RepeatIs(s, n - 1);
      assert s + Repeat(s, n - 1) + s == s + (Repeat(s, n - 1) + s);
    }
  }
}
