/** The tokens of a text by the grammar of sections 2.1 to 2.5 of RFC 4627, stated apart
    from the lexer, and the lexer against it (libs/yajl/yajl_lex.c:194-643). */
module YajlTokens {
  import opened Bytes
  import opened Numerals
  import opened YajlLex
  import opened YajlString
  import opened YajlQuoted
  import opened YajlParse
  import opened YajlNumber

  // ----- numbers

  /** number = [ minus ] int [ frac ] [ exp ] */
  datatype Number = Written(minus: bytes, whole: bytes, frac: bytes, exp: bytes)

  function Text(n: Number): bytes {
    n.minus + n.whole + n.frac + n.exp
  }

  /** 1*DIGIT */
  predicate Numeral(s: bytes) {
    s != [] && AllDigits(s, 0)
  }

  /** int = zero / ( digit1-9 *DIGIT ) */
  predicate IsInt(s: bytes) {
    Numeral(s) && (s[0] == ZERO ==> |s| == 1)
  }

  /** frac = decimal-point 1*DIGIT */
  predicate IsFrac(s: bytes) {
    s != [] && s[0] == DOT && Numeral(s[1..])
  }

  predicate IsE(c: byte) {
    c == 0x65 || c == 0x45
  }

  /** exp = e [ minus / plus ] 1*DIGIT */
  predicate IsExp(s: bytes) {
    s != [] && IsE(s[0]) && (Numeral(s[1..]) || (|s| > 1 && (s[1] == PLUS || s[1] == MINUS) && Numeral(s[2..])))
  }

  predicate IsNumber(n: Number) {
    && (n.minus == [] || n.minus == [MINUS]) && IsInt(n.whole) && (n.frac == [] || IsFrac(n.frac)) && (n.exp == [] || IsExp(n.exp))
  }

  /** c cannot belong to the number it follows. */
  predicate Ends(n: Number, c: byte) {
    if n.exp != [] then !IsDigit(c)
    else if n.frac != [] then !IsDigit(c) && !IsE(c)
    else (n.whole == [ZERO] || !IsDigit(c)) && c != DOT && !IsE(c)
  }

  function NumberTok(n: Number): Tok {
    if n.frac == [] && n.exp == [] then TInteger else TDouble
  }

  /** The number stands in s at p, and ends there. */
  ghost predicate NumberAt(s: bytes, p: nat, n: Number) {
    IsNumber(n) && Sits(s, p, Text(n)) && p + |Text(n)| < |s| && Ends(n, s[p + |Text(n)|])
  }

  /** The end of a run of digits that begins at p. */
  lemma DigitsAre(s: bytes, p: nat, d: bytes)
    requires Sits(s, p, d) && Numeral(d) && p + |d| < |s| && !IsDigit(s[p + |d|])
    ensures Digits(s, p) == p + |d| && IsDigit(s[p])
  {
    forall i | p <= i < p + |d| ensures IsDigit(s[i]) { assert s[p + (i - p)] == d[i - p]; }
    DigitsEnd(s, p, p + |d|);
  }

  lemma PowerScanned(s: bytes, p: nat, d: bytes)
    requires Sits(s, p, d) && Numeral(d) && p + |d| < |s| && !IsDigit(s[p + |d|])
    ensures ScanPower(s, p) == Done(TDouble, p + |d|)
  {
    DigitsAre(s, p, d);
  }

  lemma ExpScanned(s: bytes, p: nat, exp: bytes, tok: Tok)
    requires IsExp(exp) && Sits(s, p, exp) && p + |exp| < |s| && !IsDigit(s[p + |exp|])
    ensures ScanExponent(s, p, tok) == Done(TDouble, p + |exp|)
  {
    hide ScanPower;
    assert s[p + 0] == exp[0] && s[p + 1] == exp[1];
    var k := if exp[1] == PLUS || exp[1] == MINUS then 2 else 1;
    SitsFrom(s, p, exp, k);
    PowerScanned(s, p + k, exp[k..]);
  }

  lemma SitsFrom(s: bytes, p: nat, t: bytes, k: nat)
    requires Sits(s, p, t) && k <= |t|
    ensures Sits(s, p + k, t[k..])
  {
    forall i | 0 <= i < |t[k..]| ensures s[p + k + i] == t[k..][i] { assert s[p + (k + i)] == t[k + i]; }
  }

  lemma FracScanned(s: bytes, p: nat, frac: bytes, exp: bytes)
    requires (frac == [] || IsFrac(frac)) && (exp == [] || IsExp(exp))
    requires Sits(s, p, frac) && Sits(s, p + |frac|, exp) && p + |frac| + |exp| < |s|
    requires var c := s[p + |frac| + |exp|]; if exp != [] then !IsDigit(c) else !IsE(c) && (if frac != [] then !IsDigit(c) else c != DOT)
    ensures ScanFraction(s, p) == Done(if frac == [] && exp == [] then TInteger else TDouble, p + |frac| + |exp|)
  {
    hide ScanExponent;
    var q := p + |frac|;
    if exp != [] { SitsHead(s, q, exp); }
    if frac != [] {
      SitsHead(s, p, frac);
      SitsFrom(s, p, frac, 1);
      DigitsAre(s, p + 1, frac[1..]);
    }
    ExponentHere(s, q, exp, if frac == [] then TInteger else TDouble);
  }

  lemma ExponentHere(s: bytes, q: nat, exp: bytes, tok: Tok)
    requires (exp == [] || IsExp(exp)) && Sits(s, q, exp) && q + |exp| < |s|
    requires var c := s[q + |exp|]; if exp != [] then !IsDigit(c) else !IsE(c)
    ensures ScanExponent(s, q, tok) == Done(if exp == [] then tok else TDouble, q + |exp|)
  {
    hide ScanPower;
    if exp != [] { ExpScanned(s, q, exp, tok); }
  }

  /** A number that stands in a text and ends there is scanned. */
  lemma NumberScanned(s: bytes, p: nat, n: Number)
    requires NumberAt(s, p, n)
    ensures p < |s| && (s[p] == MINUS || IsDigit(s[p])) && ScanNumber(s, p) == Done(NumberTok(n), p + |Text(n)|)
  {
    hide ScanFraction, Sits;
    SitsSplit(s, p, n.minus + n.whole + n.frac, n.exp);
    SitsSplit(s, p, n.minus + n.whole, n.frac);
    SitsSplit(s, p, n.minus, n.whole);
    var a := p + |n.minus|;
    var b := a + |n.whole|;
    SitsHead(s, a, n.whole);
    if n.minus != [] { SitsHead(s, p, n.minus); }
    if n.frac != [] { SitsHead(s, b, n.frac); }
    if n.frac == [] && n.exp != [] { SitsHead(s, b, n.exp); }
    if n.whole != [ZERO] { DigitsAre(s, a, n.whole); }
    FracScanned(s, b, n.frac, n.exp);
  }

  lemma NumeralHere(s: bytes, p: nat)
    requires p < |s| && IsDigit(s[p]) && Digits(s, p) <= |s|
    ensures p < Digits(s, p) && Numeral(s[p..Digits(s, p)])
  {
    assert s[p..Digits(s, p)][0] == s[p];
  }

  /** The exponent that was scanned, if any. */
  lemma ExponentFound(s: bytes, p: nat, tok: Tok) returns (exp: bytes)
    requires ScanExponent(s, p, tok).Done?
    ensures var q := ScanExponent(s, p, tok).end;
            && p <= q < |s| && exp == s[p..q] && ScanExponent(s, p, tok).tok == (if exp == [] then tok else TDouble)
            && (exp == [] || IsExp(exp)) && (if exp != [] then !IsDigit(s[q]) else !IsE(s[q]))
  {
    var q := ScanExponent(s, p, tok).end;
    exp := s[p..q];
    if IsE(s[p]) {
      var k := if s[p + 1] == PLUS || s[p + 1] == MINUS then p + 2 else p + 1;
      NumeralHere(s, k);
      assert exp[k - p..] == s[k..q];
    }
  }

  lemma FractionFound(s: bytes, p: nat) returns (frac: bytes, exp: bytes)
    requires ScanFraction(s, p).Done?
    ensures var q := ScanFraction(s, p).end;
            && p + |frac| + |exp| == q < |s| && frac == s[p..p + |frac|] && exp == s[p + |frac|..q]
            && (frac == [] || IsFrac(frac)) && (exp == [] || IsExp(exp))
            && ScanFraction(s, p).tok == (if frac == [] && exp == [] then TInteger else TDouble)
            && (if exp != [] then !IsDigit(s[q]) else !IsE(s[q]) && (if frac != [] then !IsDigit(s[q]) else s[q] != DOT))
  {
    hide ScanExponent;
    if s[p] == DOT {
      var k := Digits(s, p + 1);
      NumeralHere(s, p + 1);
      frac := s[p..k];
      assert frac[1..] == s[p + 1..k];
      exp := ExponentFound(s, k, TDouble);
    } else {
      frac := [];
      exp := ExponentFound(s, p, TInteger);
    }
  }

  /** The sign and the integer part that were scanned. */
  lemma WholeFound(s: bytes, p: nat) returns (a: nat, b: nat)
    requires ScanNumber(s, p).Done?
    ensures p <= a < b < |s| && (a == p || (a == p + 1 && s[p] == MINUS)) && IsInt(s[a..b])
    ensures ScanNumber(s, p) == ScanFraction(s, b) && (s[a..b] == [ZERO] || !IsDigit(s[b]))
  {
    hide ScanFraction;
    a := if s[p] == MINUS then p + 1 else p;
    b := if s[a] == ZERO then a + 1 else Digits(s, a);
    if s[a] == ZERO {
      assert s[a..b] == [ZERO];
    } else {
      NumeralHere(s, a);
    }
  }

  /** A number that is scanned stands there. */
  lemma NumberFound(s: bytes, p: nat) returns (n: Number)
    requires ScanNumber(s, p).Done?
    ensures NumberAt(s, p, n) && ScanNumber(s, p) == Done(NumberTok(n), p + |Text(n)|)
  {
    hide ScanFraction, ScanNumber, IsInt, IsFrac, IsExp;
    var a, b := WholeFound(s, p);
    var frac, exp := FractionFound(s, b);
    n := Written(s[p..a], s[a..b], frac, exp);
    NumberJoined(s, p, a, b, b + |frac|, ScanFraction(s, b).end, n);
    assert n.minus == [] || n.minus == [MINUS];
  }

  lemma NumberJoined(s: bytes, p: nat, a: nat, b: nat, c: nat, q: nat, n: Number)
    requires p <= a <= b <= c <= q <= |s| && n == Written(s[p..a], s[a..b], s[b..c], s[c..q])
    ensures |Text(n)| == q - p && Sits(s, p, Text(n)) && Text(n) == s[p..q]
  {
    Slices(s, p, a, b);
    Slices(s, p, b, c);
    Slices(s, p, c, q);
  }

  lemma Slices(s: bytes, a: nat, b: nat, c: nat)
    requires a <= b <= c <= |s|
    ensures s[a..b] + s[b..c] == s[a..c]
  {
  }

  // ----- strings

  /** char = unescaped / escape: a byte that may stand for itself, a UTF-8 character, or an
      escape. */
  predicate IsChar(c: bytes, validate: bool) {
    || (|c| == 1 && 0x20 <= c[0] && c[0] != QUOTE && c[0] != BACKSLASH && (c[0] < 0x80 || !validate))
    || (validate && |c| > 1 && c[0] >= 0x80 && Follow(c[0]) == |c| - 1 && forall i | 1 <= i < |c| :: IsContinuation(c[i]))
    || (|c| == 2 && c[0] == BACKSLASH && IsEscape(c[1]))
    || (|c| == 6 && c[0] == BACKSLASH && c[1] == 0x75 && IsHex(c[2]) && IsHex(c[3]) && IsHex(c[4]) && IsHex(c[5]))
  }

  /** *char */
  ghost predicate Chars(s: bytes, validate: bool)
    decreases |s|
  {
    s == [] || exists n | 0 < n <= |s| :: IsChar(s[..n], validate) && Chars(s[n..], validate)
  }

  lemma {:induction false} Utf8Run(t: bytes, p: nat, n: nat)
    ensures ScanUtf8(t, p, n).Run? <==> n == 0 || (p + n <= |t| && forall i | p <= i < p + n :: IsContinuation(t[i]))
    decreases n
  {
    if n > 0 { Utf8Run(t, p + 1, n - 1); }
  }

  lemma HexRunExactly(t: bytes, p: nat)
    ensures ScanHex(t, p, 4).Run? <==> p + 4 <= |t| && IsHex(t[p]) && IsHex(t[p + 1]) && IsHex(t[p + 2]) && IsHex(t[p + 3])
  {
    assert ScanHex(t, p, 4).Run? ==> ScanHex(t, p + 1, 3).Run?;
    assert ScanHex(t, p + 1, 3).Run? ==> ScanHex(t, p + 2, 2).Run?;
    assert ScanHex(t, p + 2, 2).Run? ==> ScanHex(t, p + 3, 1).Run?;
    if p + 4 <= |t| && IsHex(t[p]) && IsHex(t[p + 1]) && IsHex(t[p + 2]) && IsHex(t[p + 3]) { HexRun(t, p); }
  }

  /** The lexer steps over exactly one character of the grammar. */
  lemma CharExactly(t: bytes, p: nat, n: nat, validate: bool)
    requires 0 < n && p + n <= |t|
    ensures (ScanChar(t, p, validate).Next? && ScanChar(t, p, validate).end == p + n) <==> IsChar(t[p..p + n], validate)
    ensures ScanChar(t, p, validate).Next? ==> (ScanChar(t, p, validate).escape <==> t[p] == BACKSLASH)
  {
    hide ScanHex, ScanUtf8, IsHex, IsContinuation;
    var c := t[p..p + n];
    assert c[0] == t[p];
    HexRunExactly(t, p + 2);
    if Follow(t[p]) >= 0 { Utf8Run(t, p + 1, Follow(t[p])); }
    if n == 6 { assert c[2] == t[p + 2] && c[3] == t[p + 3] && c[4] == t[p + 4] && c[5] == t[p + 5]; }
    if Follow(t[p]) == n - 1 {
      assert (forall i | 1 <= i < |c| :: IsContinuation(c[i])) <==> (forall i | p + 1 <= i < p + n :: IsContinuation(t[i])) by {
        SameRun(t, p, n);
      }
    }
  }

  lemma SameRun(t: bytes, p: nat, n: nat)
    requires 0 < n && p + n <= |t|
    ensures var c := t[p..p + n];
            (forall i | 1 <= i < |c| :: IsContinuation(c[i])) <==> (forall i | p + 1 <= i < p + n :: IsContinuation(t[i]))
  {
    hide IsContinuation;
    var c := t[p..p + n];
    if forall i | 1 <= i < |c| :: IsContinuation(c[i]) {
      forall i | p + 1 <= i < p + n ensures IsContinuation(t[i]) { assert t[i] == c[i - p]; }
    }
  }

  /** What the lexer finds after an opening quote is characters up to a closing one. */
  lemma {:induction false} StringFound(t: bytes, p: nat, validate: bool, escapes: bool)
    requires ScanString(t, p, validate, escapes).Done?
    ensures var r := ScanString(t, p, validate, escapes);
            && p < r.end <= |t| && t[r.end - 1] == QUOTE && Chars(t[p..r.end - 1], validate)
            && r.tok == StringTok(escapes || BACKSLASH in t[p..r.end - 1])
    decreases |t| - p
  {
    hide ScanChar, IsChar;
    var c, r := ScanChar(t, p, validate), ScanString(t, p, validate, escapes);
    if c.Close? {
      CloseIs(t, p, validate);
      assert t[p..p] == [];
    } else {
      StringFound(t, c.end, validate, escapes || c.escape);
      var n, body := c.end - p, t[p..r.end - 1];
      CharExactly(t, p, n, validate);
      assert body[..n] == t[p..c.end] && body[n..] == t[c.end..r.end - 1];
      CharBackslash(body[..n], validate);
      assert body == body[..n] + body[n..];
    }
  }

  lemma CloseIs(t: bytes, p: nat, validate: bool)
    ensures ScanChar(t, p, validate).Close? <==> p < |t| && t[p] == QUOTE
  {
  }

  /** A backslash only begins a character, except in the escape of a backslash. */
  lemma CharBackslash(c: bytes, validate: bool)
    requires IsChar(c, validate)
    ensures c != [] && c[0] != QUOTE && (BACKSLASH in c <==> c[0] == BACKSLASH)
  {
  }

  /** Characters up to a quote are scanned. */
  lemma {:induction false} StringScanned(t: bytes, p: nat, body: bytes, validate: bool, escapes: bool)
    requires Chars(body, validate) && Sits(t, p, body) && Sits(t, p + |body|, [QUOTE])
    ensures ScanString(t, p, validate, escapes) == Done(StringTok(escapes || BACKSLASH in body), p + |body| + 1)
    decreases |body|
  {
    hide ScanChar, IsChar;
    if body == [] {
      SitsHead(t, p, [QUOTE]);
      CloseIs(t, p, validate);
    } else {
      var n :| 0 < n <= |body| && IsChar(body[..n], validate) && Chars(body[n..], validate);
      assert body == body[..n] + body[n..];
      SitsSplit(t, p, body[..n], body[n..]);
      SitsText(t, p, body[..n]);
      CharExactly(t, p, n, validate);
      CharBackslash(body[..n], validate);
      assert t[p] == t[p..p + n][0];
      StringScanned(t, p + n, body[n..], validate, escapes || t[p] == BACKSLASH);
    }
  }

  // ----- tokens

  const NULL_TEXT: bytes := [0x6e, 0x75, 0x6c, 0x6c]
  const TRUE_TEXT: bytes := [0x74, 0x72, 0x75, 0x65]
  const FALSE_TEXT: bytes := [0x66, 0x61, 0x6c, 0x73, 0x65]

  /** The text w is a token of this kind. */
  ghost predicate IsToken(o: Options, tok: Tok, w: bytes) {
    match tok
    case TLeftBrace => w == [LSQUARE]
    case TRightBrace => w == [RSQUARE]
    case TLeftBracket => w == [LCURLY]
    case TRightBracket => w == [RCURLY]
    case TComma => w == [COMMA]
    case TColon => w == [COLON]
    case TNull => w == NULL_TEXT
    case TBool => w == TRUE_TEXT || w == FALSE_TEXT
    case TString => Quoted(w, o.validateUTF8) && BACKSLASH !in w
    case TStringWithEscapes => Quoted(w, o.validateUTF8) && BACKSLASH in w
    case TInteger => exists n :: IsNumber(n) && w == Text(n) && NumberTok(n) == TInteger
    case TDouble => exists n :: IsNumber(n) && w == Text(n) && NumberTok(n) == TDouble
  }

  /** string = quotation-mark *char quotation-mark */
  ghost predicate Quoted(w: bytes, validate: bool) {
    |w| >= 2 && w[0] == QUOTE && w[|w| - 1] == QUOTE && Chars(w[1..|w| - 1], validate)
  }

  /** A token stands in s from p to q; a number only if what follows does not belong to it. */
  ghost predicate TokenAt(o: Options, s: bytes, p: nat, tok: Tok, q: nat) {
    && p < q <= |s| && IsToken(o, tok, s[p..q])
    && (tok == TInteger || tok == TDouble ==> exists n :: NumberAt(s, p, n) && q == p + |Text(n)| && tok == NumberTok(n))
  }

  lemma WordFound(s: bytes, p: nat, c: byte, want: bytes)
    requires p < |s| && s[p] == c
    ensures ScanWord(s, p + 1, want).Run? <==> p + 1 + |want| <= |s| && s[p..p + 1 + |want|] == [c] + want
  {
    WordExactly(s, p + 1, want);
    if p + 1 + |want| <= |s| {
      assert s[p..p + 1 + |want|] == [s[p]] + s[p + 1..p + 1 + |want|];
      var a, b := s[p + 1..p + 1 + |want|], want;
      if [c] + a == [c] + b { assert ([c] + a)[1..] == ([c] + b)[1..]; }
    }
  }

  lemma {:induction false} WordExactly(s: bytes, p: nat, want: bytes)
    requires p <= |s|
    ensures ScanWord(s, p, want).Run? <==> p + |want| <= |s| && s[p..p + |want|] == want
    decreases |want|
  {
    if want != [] && p < |s| && s[p] == want[0] {
      WordExactly(s, p + 1, want[1..]);
      if p + |want| <= |s| { assert s[p..p + |want|] == [s[p]] + s[p + 1..p + |want|]; }
      assert want == [want[0]] + want[1..];
    } else if want != [] && p + |want| <= |s| {
      assert s[p..p + |want|][0] == s[p];
    }
  }

  lemma QuotedFound(o: Options, s: bytes, p: nat)
    requires p < |s| && s[p] == QUOTE && ScanToken(o, s, p).Done?
    ensures var r := ScanToken(o, s, p); p < r.end <= |s| && TokenAt(o, s, p, r.tok, r.end)
  {
    hide ScanString, Chars;
    StringFound(s, p + 1, o.validateUTF8, false);
    var r := ScanToken(o, s, p);
    var w, body := s[p..r.end], s[p + 1..r.end - 1];
    assert w[1..|w| - 1] == body && w[|w| - 1] == s[r.end - 1];
    assert w == [QUOTE] + body + [QUOTE];
  }

  lemma QuotedScanned(o: Options, s: bytes, p: nat, tok: Tok, q: nat)
    requires TokenAt(o, s, p, tok, q) && (tok == TString || tok == TStringWithEscapes)
    ensures ScanToken(o, s, p) == Done(tok, q)
  {
    hide ScanString, Chars;
    var w := s[p..q];
    var body := w[1..|w| - 1];
    assert w == [QUOTE] + body + [QUOTE] && w[0] == s[p];
    assert Sits(s, p, w);
    SitsSplit(s, p, [QUOTE] + body, [QUOTE]);
    SitsSplit(s, p, [QUOTE], body);
    StringScanned(s, p + 1, body, o.validateUTF8, false);
  }

  lemma NumericFound(o: Options, s: bytes, p: nat)
    requires p < |s| && (s[p] == MINUS || IsDigit(s[p])) && ScanToken(o, s, p).Done?
    ensures var r := ScanToken(o, s, p); p < r.end <= |s| && TokenAt(o, s, p, r.tok, r.end)
  {
    hide ScanNumber;
    var n := NumberFound(s, p);
    SitsText(s, p, Text(n));
  }

  lemma NumericScanned(o: Options, s: bytes, p: nat, tok: Tok, q: nat)
    requires TokenAt(o, s, p, tok, q) && (tok == TInteger || tok == TDouble)
    ensures ScanToken(o, s, p) == Done(tok, q)
  {
    hide ScanNumber;
    var n :| NumberAt(s, p, n) && q == p + |Text(n)| && tok == NumberTok(n);
    NumberScanned(s, p, n);
  }

  lemma WordTokens(o: Options, s: bytes, p: nat)
    requires p < |s|
    ensures s[p] == 0x6e ==> (ScanToken(o, s, p).Done? <==> p + 4 <= |s| && s[p..p + 4] == NULL_TEXT)
    ensures s[p] == 0x74 ==> (ScanToken(o, s, p).Done? <==> p + 4 <= |s| && s[p..p + 4] == TRUE_TEXT)
    ensures s[p] == 0x66 ==> (ScanToken(o, s, p).Done? <==> p + 5 <= |s| && s[p..p + 5] == FALSE_TEXT)
    ensures s[p] == 0x6e && ScanToken(o, s, p).Done? ==> ScanToken(o, s, p) == Done(TNull, p + 4)
    ensures s[p] == 0x74 && ScanToken(o, s, p).Done? ==> ScanToken(o, s, p) == Done(TBool, p + 4)
    ensures s[p] == 0x66 && ScanToken(o, s, p).Done? ==> ScanToken(o, s, p) == Done(TBool, p + 5)
  {
    hide ScanWord;
    assert [0x6e] + ULL == NULL_TEXT && [0x74] + RUE == TRUE_TEXT && [0x66] + ALSE == FALSE_TEXT;
    if s[p] == 0x6e { WordFound(s, p, 0x6e, ULL); }
    if s[p] == 0x74 { WordFound(s, p, 0x74, RUE); }
    if s[p] == 0x66 { WordFound(s, p, 0x66, ALSE); }
  }

  /** The lexer finds a token if and only if the grammar has it there. */
  lemma TokenExactly(o: Options, s: bytes, p: nat, tok: Tok, q: nat)
    requires p < |s|
    ensures ScanToken(o, s, p) == Done(tok, q) <==> TokenAt(o, s, p, tok, q)
  {
    if ScanToken(o, s, p) == Done(tok, q) { TokenFound(o, s, p); }
    if TokenAt(o, s, p, tok, q) { TokenScanned(o, s, p, tok, q); }
  }

  lemma TokenFound(o: Options, s: bytes, p: nat)
    requires p < |s| && ScanToken(o, s, p).Done?
    ensures var r := ScanToken(o, s, p); p < r.end <= |s| && TokenAt(o, s, p, r.tok, r.end)
  {
    hide ScanString, ScanNumber, ScanWord, Quoted, NumberAt;
    var c, r := s[p], ScanToken(o, s, p);
    if c == QUOTE {
      QuotedFound(o, s, p);
    } else if c == MINUS || IsDigit(c) {
      NumericFound(o, s, p);
    } else if c == 0x6e || c == 0x74 || c == 0x66 {
      WordTokens(o, s, p);
    } else {
      assert s[p..r.end] == [c];
    }
  }

  lemma TokenScanned(o: Options, s: bytes, p: nat, tok: Tok, q: nat)
    requires p < |s| && TokenAt(o, s, p, tok, q)
    ensures ScanToken(o, s, p) == Done(tok, q)
  {
    hide ScanString, ScanNumber, ScanWord, Quoted, NumberAt;
    var w := s[p..q];
    assert w[0] == s[p];
    match tok
    case TString => QuotedScanned(o, s, p, tok, q);
    case TStringWithEscapes => QuotedScanned(o, s, p, tok, q);
    case TInteger => NumericScanned(o, s, p, tok, q);
    case TDouble => NumericScanned(o, s, p, tok, q);
    case TNull => assert |w| == |NULL_TEXT|; WordTokens(o, s, p);
    case TBool => assert |w| == |TRUE_TEXT| || |w| == |FALSE_TEXT|; WordTokens(o, s, p);
    case _ => assert |w| == 1;
  }

  // ----- what stands between tokens

  /** Space, tabs and ends of lines; the vertical tab and the form feed too, which section 2
      of RFC 4627 does not have. */
  lemma SpacesAre(c: byte)
    ensures IsSpace(c) <==> c in {0x20, 0x09, 0x0a, 0x0d} || c in {0x0b, 0x0c}
  {
  }

  /** A comment: two slashes up to the first end of line, or a slash and a star up to the
      first star and slash after them. */
  ghost predicate CommentAt(s: bytes, p: nat, q: nat) {
    && p + 2 < q <= |s| && s[p] == SLASH
    && (|| (s[p + 1] == SLASH && s[q - 1] == NEWLINE && forall i | p + 2 <= i < q - 1 :: s[i] != NEWLINE)
        || (s[p + 1] == STAR && p + 4 <= q && s[q - 2] == STAR && s[q - 1] == SLASH
            && forall i | p + 2 <= i < q - 2 :: !(s[i] == STAR && s[i + 1] == SLASH)))
  }

  lemma {:induction false} LineExactly(s: bytes, p: nat, q: nat)
    ensures ScanLine(s, p) == Run(q) <==> p < q <= |s| && s[q - 1] == NEWLINE && forall i | p <= i < q - 1 :: s[i] != NEWLINE
    decreases |s| - p
  {
    if p < |s| && s[p] != NEWLINE { LineExactly(s, p + 1, q); }
  }

  lemma {:induction false} BlockExactly(s: bytes, p: nat, q: nat)
    ensures ScanBlock(s, p) == Run(q) <==>
      && p + 2 <= q <= |s| && s[q - 2] == STAR && s[q - 1] == SLASH
      && forall i | p <= i < q - 2 :: !(s[i] == STAR && s[i + 1] == SLASH)
    decreases |s| - p
  {
    if p < |s| { BlockExactly(s, p + 1, q); }
  }

  lemma CommentExactly(s: bytes, p: nat, q: nat)
    requires p < |s| && s[p] == SLASH
    ensures ScanComment(s, p + 1) == Run(q) <==> CommentAt(s, p, q)
  {
    hide ScanLine, ScanBlock;
    if p + 1 < |s| {
      LineExactly(s, p + 2, q);
      BlockExactly(s, p + 2, q);
    }
  }

  /** Spaces, and comments where they are allowed, from p to q. */
  ghost predicate Blank(o: Options, s: bytes, p: nat, q: nat)
    decreases q - p
  {
    && p <= q <= |s|
    && (|| p == q
        || (IsSpace(s[p]) && Blank(o, s, p + 1, q))
        || (o.allowComments && exists k | p < k <= q :: CommentAt(s, p, k) && Blank(o, s, k, q)))
  }

  /** The next token of a text is what the grammar has after spaces and comments. */
  lemma {:induction false} LexFound(o: Options, s: bytes, p: nat)
    requires p <= |s| && LexAt(o, s, p).Token?
    ensures var x := LexAt(o, s, p); Blank(o, s, p, x.from) && TokenAt(o, s, x.from, x.tok, x.end)
    decreases |s| - p
  {
    hide ScanToken, ScanComment, TokenAt, CommentAt;
    if IsSpace(s[p]) {
      LexFound(o, s, p + 1);
    } else if s[p] == SLASH && o.allowComments {
      var q := ScanComment(s, p + 1).end;
      CommentExactly(s, p, q);
      LexFound(o, s, q);
    } else {
      var r := ScanToken(o, s, p);
      TokenExactly(o, s, p, r.tok, r.end);
    }
  }

  /** Spaces and comments, then a token: that is the next one. */
  lemma {:induction false} LexGiven(o: Options, s: bytes, p: nat, from: nat, tok: Tok, end: nat)
    requires Blank(o, s, p, from) && TokenAt(o, s, from, tok, end)
    ensures p <= |s| && LexAt(o, s, p) == Token(tok, from, end)
    decreases from - p
  {
    hide ScanToken, ScanComment, TokenAt, CommentAt;
    assert from < end <= |s| by { TokenBounds(o, s, from, tok, end); }
    if p == from {
      TokenExactly(o, s, p, tok, end);
      TokenHead(o, s, p, tok, end);
    } else if IsSpace(s[p]) && Blank(o, s, p + 1, from) {
      LexGiven(o, s, p + 1, from, tok, end);
    } else {
      var k :| p < k <= from && CommentAt(s, p, k) && Blank(o, s, k, from);
      CommentHead(s, p, k);
      CommentExactly(s, p, k);
      LexGiven(o, s, k, from, tok, end);
    }
  }

  lemma TokenBounds(o: Options, s: bytes, from: nat, tok: Tok, end: nat)
    requires TokenAt(o, s, from, tok, end)
    ensures from < end <= |s|
  {
  }

  lemma CommentHead(s: bytes, p: nat, k: nat)
    requires CommentAt(s, p, k)
    ensures p < |s| && s[p] == SLASH && !IsSpace(s[p])
  {
  }

  /** No token begins with a space or a slash. */
  lemma TokenHead(o: Options, s: bytes, p: nat, tok: Tok, q: nat)
    requires TokenAt(o, s, p, tok, q)
    ensures p < |s| && !IsSpace(s[p]) && s[p] != SLASH
  {
    hide IsToken, NumberAt, ScanString, ScanNumber, ScanWord;
    TokenScanned(o, s, p, tok, q);
  }
}
