/** What may follow a complete value: the check that `yajl_complete_parse` is
    documented to make (libs/yajl/api/yajl_parse.h:133-141) against the one it makes
    (libs/yajl/yajl_parser.c:158-214). */
module YajlTrailing {
  import opened Bytes
  import opened Numerals
  import opened YajlLex
  import opened YajlLexer
  import opened YajlParse
  import opened YajlParser

  /** The place after spaces and complete comments. */
  function Skipped(o: Options, s: bytes, p: nat): (q: nat)
    requires p <= |s|
    ensures p <= q <= |s|
    decreases |s| - p
  {
    if p == |s| then p
    else if IsSpace(s[p]) then Skipped(o, s, p + 1)
    else if s[p] == SLASH && o.allowComments && ScanComment(s, p + 1).Run? then Skipped(o, s, ScanComment(s, p + 1).end)
    else p
  }

  /** At q begins a string or a comment without an end. */
  predicate Endless(o: Options, s: bytes, q: nat) {
    && q < |s|
    && (if s[q] == SLASH && o.allowComments then ScanComment(s, q + 1) == Cut
        else s[q] == QUOTE && ScanString(s, q + 1, o.validateUTF8, false) == More)
  }

  /** Numbers and literals do not run on past a space at the end of a text. */
  lemma TokenEnds(o: Options, s: bytes, p: nat)
    requires p < |s| && s[|s| - 1] == 0x20 && !IsSpace(s[p]) && s[p] != QUOTE
    ensures ScanToken(o, s, p) != More
  {
    hide ScanString;
    WordEnds(s, p + 1, RUE);
    WordEnds(s, p + 1, ALSE);
    WordEnds(s, p + 1, ULL);
    NumberEnds(s, p);
  }

  lemma {:induction false} WordEnds(s: bytes, p: nat, want: bytes)
    requires p < |s| && s[|s| - 1] == 0x20 && 0x20 !in want && want != []
    ensures ScanWord(s, p, want) != Cut
    decreases |want|
  {
    if s[p] == want[0] && |want| > 1 { WordEnds(s, p + 1, want[1..]); }
  }

  lemma DigitsEndBefore(s: bytes, p: nat)
    requires p < |s| && s[|s| - 1] == 0x20
    ensures Digits(s, p) < |s|
  {
    var last := s[|s| - 1];
    assert !IsDigit(last);
  }

  lemma ExponentEnds(s: bytes, p: nat, tok: Tok)
    requires p < |s| && s[|s| - 1] == 0x20
    ensures ScanExponent(s, p, tok) != More
  {
    hide Digits;
    if p + 1 < |s| { DigitsEndBefore(s, p + 1); }
    if p + 2 < |s| { DigitsEndBefore(s, p + 2); }
  }

  lemma FractionEnds(s: bytes, p: nat)
    requires p < |s| && s[|s| - 1] == 0x20
    ensures ScanFraction(s, p) != More
  {
    hide Digits, ScanExponent;
    ExponentEnds(s, p, TInteger);
    if p + 1 < |s| {
      DigitsEndBefore(s, p + 1);
      ExponentEnds(s, Digits(s, p + 1), TDouble);
    }
  }

  lemma NumberEnds(s: bytes, p: nat)
    requires p < |s| && s[|s| - 1] == 0x20
    ensures ScanNumber(s, p) != More
  {
    hide Digits, ScanFraction;
    var d := if s[p] == MINUS then p + 1 else p;
    if d < |s| {
      DigitsEndBefore(s, d);
      FractionEnds(s, Digits(s, d));
      if d + 1 < |s| { FractionEnds(s, d + 1); }
    }
  }

  /** In a text that ends with a space the lexer runs out of text exactly when only
      spaces and comments are left, or a string or a comment without an end. */
  lemma {:induction false} LexRunsOut(o: Options, s: bytes, p: nat)
    requires p <= |s| && (p < |s| ==> s[|s| - 1] == 0x20)
    ensures var q := Skipped(o, s, p); LexAt(o, s, p).Eof? <==> q == |s| || Endless(o, s, q)
    decreases |s| - p
  {
    hide ScanToken, ScanString, ScanComment;
    if p < |s| {
      if IsSpace(s[p]) {
        LexRunsOut(o, s, p + 1);
      } else if s[p] == SLASH && o.allowComments {
        if ScanComment(s, p + 1).Run? { LexRunsOut(o, s, ScanComment(s, p + 1).end); }
      } else if s[p] == QUOTE {
        QuoteScans(o, s, p);
      } else {
        TokenEnds(o, s, p);
      }
    }
  }

  lemma QuoteScans(o: Options, s: bytes, p: nat)
    requires p < |s| && s[p] == QUOTE
    ensures ScanToken(o, s, p) == ScanString(s, p + 1, o.validateUTF8, false)
  {
    hide ScanString;
  }

  /** After a complete value, with neither trailing garbage nor several values
      allowed, finishing succeeds exactly when spaces and comments follow, or also a
      string or a comment without an end: that much garbage is not reported. */
  lemma TrailingExactly(cfg: Config, text: bytes)
    requires !cfg.flags.allowMultipleValues && !cfg.flags.allowTrailingGarbage
    requires Parse(cfg, text, 0, INIT).status == StatusOk && Top(Parse(cfg, text, 0, INIT).m) == Complete
    ensures var s := text + SPACE;
            var o := OptionsOf(cfg.flags);
            var q := Skipped(o, s, Parse(cfg, text, 0, INIT).pos);
            Outcome(cfg, text).1 == StatusOk <==> q == |s| || Endless(o, s, q)
  {
    hide Parse, LexAt, Skipped, Endless, Reaction;
    var r, s := Parse(cfg, text, 0, INIT), text + SPACE;
    LexRunsOut(OptionsOf(cfg.flags), s, r.pos);
    ParseHere(cfg, s, r.pos, r.m);
    var x := LexAt(OptionsOf(cfg.flags), s, r.pos);
    if !x.Eof? {
      GarbageStops(cfg, r.m, x, TextIn(s, x));
      FailedHere(cfg, s, After(x, r.pos), Fail(r.m, TrailingGarbage));
    }
  }

  lemma GarbageStops(cfg: Config, m: Machine, x: Lexed, text: bytes)
    requires Stacked(m) && Top(m) == Complete && !x.Eof?
    ensures Reaction(cfg, m, x, text) == Go(Fail(m, TrailingGarbage)) && Top(Fail(m, TrailingGarbage)) == ParseError
  {
  }

  /** `null"` finishes without error, although its last byte was not consumed. */
  lemma UnreportedGarbage(cfg: Config)
    requires cfg.flags == Flags(false, false, false, false, false)
    requires cfg.handlers == Handlers(false, false, false, false, false, false, false, false, false, false, false)
    ensures Outcome(cfg, [0x6e, 0x75, 0x6c, 0x6c, QUOTE]).1 == StatusOk
  {
    var text: bytes := [0x6e, 0x75, 0x6c, 0x6c, QUOTE];
    var o := OptionsOf(cfg.flags);
    var done := Machine([Complete], [], NoFault);
    NullFirst(o, text);
    NullFirst(o, text + SPACE);
    OpenQuote(o, text);
    OpenQuote(o, text + SPACE);
    assert OnToken(cfg, INIT, TNull, text[0..4]) == Go(done);
    assert (text + SPACE)[0..4] == text[0..4];
    assert Parse(cfg, text, 4, done) == Stop(done, 4, StatusOk);
    assert Parse(cfg, text, 0, INIT) == Stop(done, 4, StatusOk);
    assert Parse(cfg, text + SPACE, 4, done) == Stop(done, 4, StatusOk);
  }

  lemma NullFirst(o: Options, s: bytes)
    requires |s| >= 4 && s[0] == 0x6e && s[1] == 0x75 && s[2] == 0x6c && s[3] == 0x6c
    ensures LexAt(o, s, 0) == Token(TNull, 0, 4)
  {
    assert ScanWord(s, 4, []) == Run(4);
    assert ULL[1..] == [0x6c, 0x6c] && ULL[1..][1..] == [0x6c] && ULL[1..][1..][1..] == [];
    assert ScanWord(s, 3, [0x6c]) == Run(4);
    assert ScanWord(s, 2, [0x6c, 0x6c]) == Run(4);
  }

  lemma OpenQuote(o: Options, s: bytes)
    requires 5 <= |s| <= 6 && s[4] == QUOTE && (|s| == 6 ==> s[5] == 0x20)
    ensures LexAt(o, s, 4) == Eof(4)
  {
    assert ScanString(s, |s|, o.validateUTF8, false) == More;
    if |s| == 6 {
      assert ScanUtf8(s, 6, 0) == Run(6);
      assert ScanChar(s, 5, o.validateUTF8) == Next(6, false);
    }
  }
}
