/** The tokens of a JSON text held in one piece: what the streaming lexer
    (libs/yajl/yajl_lex.c:138-643) must find whatever the chunks. */
module YajlLex {
  import opened Bytes
  import opened Numerals

  const QUOTE: byte := 0x22
  const STAR: byte := 0x2a
  const PLUS: byte := 0x2b
  const COMMA: byte := 0x2c
  const MINUS: byte := 0x2d
  const DOT: byte := 0x2e
  const SLASH: byte := 0x2f
  const COLON: byte := 0x3a
  const LSQUARE: byte := 0x5b
  const BACKSLASH: byte := 0x5c
  const RSQUARE: byte := 0x5d
  const LCURLY: byte := 0x7b
  const RCURLY: byte := 0x7d
  const NEWLINE: byte := 0x0a

  datatype Tok = TBool | TColon | TComma | TLeftBrace | TLeftBracket | TNull | TRightBrace | TRightBracket
    | TInteger | TDouble | TString | TStringWithEscapes

  datatype LexError = LexOk | InvalidUtf8 | InvalidEscapedChar | InvalidJsonChar | InvalidHexChar | InvalidChar
    | InvalidString | MissingIntegerAfterDecimal | MissingIntegerAfterExponent | MissingIntegerAfterMinus
    | UnallowedComment

  // ----- the character table

  predicate IsSpace(c: byte) {
    c == 0x20 || 0x09 <= c <= 0x0d
  }

  /** VHC */
  predicate IsHex(c: byte) {
    IsDigit(c) || 0x41 <= c <= 0x46 || 0x61 <= c <= 0x66
  }

  /** VEC */
  predicate IsEscape(c: byte) {
    c == QUOTE || c == SLASH || c == BACKSLASH || c == 0x62 || c == 0x66 || c == 0x6e || c == 0x72 || c == 0x74
  }

  /** IJC */
  predicate IsInvalid(c: byte) {
    c < 0x20 || c == QUOTE || c == BACKSLASH
  }

  /** A character the fast scan of a string passes over. */
  predicate IsPlain(c: byte, validate: bool) {
    !IsInvalid(c) && (validate ==> c < 0x80)
  }

  /** How many bytes continue a UTF-8 sequence that starts with c; -1 for none that can. */
  function Follow(c: byte): (n: int)
    ensures -1 <= n <= 3
  {
    if c <= 0x7f then 0
    else if c / 32 == 0x6 then 1
    else if c / 16 == 0xe then 2
    else if c / 8 == 0x1e then 3
    else -1
  }

  predicate IsContinuation(c: byte) {
    c / 64 == 2
  }

  // ----- scanning; s[p..] is what is left of the text

  /** A scan ends at an index, needs more text, or is wrong. */
  datatype Scan = Done(tok: Tok, end: nat) | More | Bad(err: LexError)

  datatype Run = Run(end: nat) | Cut | Off

  /** n continuation bytes. */
  function ScanUtf8(s: bytes, p: nat, n: nat): (r: Run)
    ensures r.Run? ==> r.end == p + n
    decreases n
  {
    if n == 0 then Run(p)
    else if p >= |s| then Cut
    else if IsContinuation(s[p]) then ScanUtf8(s, p + 1, n - 1)
    else Off
  }

  /** n hexadecimal digits. */
  function ScanHex(s: bytes, p: nat, n: nat): (r: Run)
    ensures r.Run? ==> r.end == p + n
    decreases n
  {
    if n == 0 then Run(p)
    else if p >= |s| then Cut
    else if IsHex(s[p]) then ScanHex(s, p + 1, n - 1)
    else Off
  }

  /** What stands at one place of a string: its end, a character or an escape. */
  datatype Char = Close | Next(end: nat, escape: bool) | Short | Wrong(err: LexError)

  function RunChar(r: Run, escape: bool, err: LexError): Char {
    match r
    case Run(q) => Next(q, escape)
    case Cut => Short
    case Off => Wrong(err)
  }

  function ScanChar(s: bytes, p: nat, validate: bool): (r: Char)
    ensures r.Close? ==> p < |s|
    ensures r.Next? ==> p < |s| && p < r.end
  {
    if p >= |s| then Short
    else if s[p] == QUOTE then Close
    else if s[p] == BACKSLASH then
      if p + 1 >= |s| then Short
      else if s[p + 1] == 0x75 then RunChar(ScanHex(s, p + 2, 4), true, InvalidHexChar)
      else if IsEscape(s[p + 1]) then Next(p + 2, true)
      else Wrong(InvalidEscapedChar)
    else if IsInvalid(s[p]) then Wrong(InvalidJsonChar)
    else if !validate then Next(p + 1, false)
    else if Follow(s[p]) < 0 then Wrong(InvalidUtf8)
    else RunChar(ScanUtf8(s, p + 1, Follow(s[p])), false, InvalidUtf8)
  }

  function StringTok(escapes: bool): Tok {
    if escapes then TStringWithEscapes else TString
  }

  /** The rest of a string token, after its opening quote. */
  function ScanString(s: bytes, p: nat, validate: bool, escapes: bool): (r: Scan)
    ensures r.Done? ==> p < r.end <= |s|
    decreases |s| - p
  {
    match ScanChar(s, p, validate)
    case Close => Done(StringTok(escapes), p + 1)
    case Next(q, escape) => ScanString(s, q, validate, escapes || escape)
    case Short => More
    case Wrong(e) => Bad(e)
  }

  /** The end of a run of digits. */
  function Digits(s: bytes, p: nat): (q: nat)
    ensures p <= q && (p <= |s| ==> q <= |s|)
    ensures q < |s| ==> !IsDigit(s[q])
    ensures forall i | p <= i < q :: i < |s| && IsDigit(s[i])
    decreases |s| - p
  {
    if p < |s| && IsDigit(s[p]) then Digits(s, p + 1) else p
  }

  /** The digits of an exponent. */
  function ScanPower(s: bytes, p: nat): (r: Scan)
    ensures r.Done? ==> p <= r.end < |s| && r.tok == TDouble
  {
    if p >= |s| then More
    else if !IsDigit(s[p]) then Bad(MissingIntegerAfterExponent)
    else if Digits(s, p) >= |s| then More
    else Done(TDouble, Digits(s, p))
  }

  /** The exponent of a number, if there is one; a number is complete only when
      the character after it has been seen. */
  function ScanExponent(s: bytes, p: nat, tok: Tok): (r: Scan)
    ensures r.Done? ==> p <= r.end < |s| && (r.tok == tok || r.tok == TDouble)
  {
    if p >= |s| then More
    else if s[p] != 0x65 && s[p] != 0x45 then Done(tok, p)
    else if p + 1 >= |s| then More else
    ScanPower(s, if s[p + 1] == PLUS || s[p + 1] == MINUS then p + 2 else p + 1)
  }

  function ScanFraction(s: bytes, p: nat): (r: Scan)
    ensures r.Done? ==> p <= r.end < |s| && (r.tok == TInteger || r.tok == TDouble)
  {
    if p >= |s| then More
    else if s[p] != DOT then ScanExponent(s, p, TInteger)
    else
      var q := Digits(s, p + 1);
      if q >= |s| then More
      else if q == p + 1 then Bad(MissingIntegerAfterDecimal)
      else ScanExponent(s, q, TDouble)
  }

  /** A single zero or a run of digits, and what follows. */
  function ScanUnsigned(s: bytes, p: nat): (r: Scan)
    ensures r.Done? ==> p < r.end < |s| && (r.tok == TInteger || r.tok == TDouble)
  {
    if p >= |s| then More
    else if s[p] == ZERO then ScanFraction(s, p + 1)
    else if IsDigit(s[p]) then ScanFraction(s, Digits(s, p))
    else Bad(MissingIntegerAfterMinus)
  }

  function ScanNumber(s: bytes, p: nat): (r: Scan)
    ensures r.Done? ==> p < r.end < |s| && (r.tok == TInteger || r.tok == TDouble)
  {
    if p >= |s| then More else
    ScanUnsigned(s, if s[p] == MINUS then p + 1 else p)
  }

  /** Up to and including the end of the line. */
  function ScanLine(s: bytes, p: nat): (r: Run)
    ensures r.Run? ==> p < r.end <= |s|
    decreases |s| - p
  {
    if p >= |s| then Cut else if s[p] == NEWLINE then Run(p + 1) else ScanLine(s, p + 1)
  }

  function ScanBlock(s: bytes, p: nat): (r: Run)
    ensures r.Run? ==> p < r.end <= |s|
    decreases |s| - p
  {
    if p >= |s| then Cut
    else if s[p] != STAR then ScanBlock(s, p + 1)
    else if p + 1 >= |s| then Cut
    else if s[p + 1] == SLASH then Run(p + 2)
    else ScanBlock(s, p + 1)
  }

  /** The rest of a comment, after its slash. */
  function ScanComment(s: bytes, p: nat): (r: Run)
    ensures r.Run? ==> p < r.end <= |s|
  {
    if p >= |s| then Cut
    else if s[p] == SLASH then ScanLine(s, p + 1)
    else if s[p] == STAR then ScanBlock(s, p + 1)
    else Off
  }

  const RUE: bytes := [0x72, 0x75, 0x65]
  const ALSE: bytes := [0x61, 0x6c, 0x73, 0x65]
  const ULL: bytes := [0x75, 0x6c, 0x6c]

  /** The rest of a literal. */
  function ScanWord(s: bytes, p: nat, want: bytes): (r: Run)
    ensures r.Run? ==> r.end == p + |want| && (p <= |s| ==> r.end <= |s|)
    decreases |want|
  {
    if want == [] then Run(p)
    else if p >= |s| then Cut
    else if s[p] != want[0] then Off
    else ScanWord(s, p + 1, want[1..])
  }

  function WordScan(r: Run, tok: Tok): Scan {
    match r
    case Run(q) => Done(tok, q)
    case Cut => More
    case Off => Bad(InvalidString)
  }

  datatype Options = Options(allowComments: bool, validateUTF8: bool)

  /** The token that starts with the character c at p. */
  function ScanToken(o: Options, s: bytes, p: nat): (r: Scan)
    requires p < |s|
    ensures r.Done? ==>
      p < r.end <= |s| && (r.tok == TString || r.tok == TStringWithEscapes ==> p + 2 <= r.end)
  {
    var c := s[p];
    if c == LCURLY then Done(TLeftBracket, p + 1)
    else if c == RCURLY then Done(TRightBracket, p + 1)
    else if c == LSQUARE then Done(TLeftBrace, p + 1)
    else if c == RSQUARE then Done(TRightBrace, p + 1)
    else if c == COMMA then Done(TComma, p + 1)
    else if c == COLON then Done(TColon, p + 1)
    else if c == 0x74 then WordScan(ScanWord(s, p + 1, RUE), TBool)
    else if c == 0x66 then WordScan(ScanWord(s, p + 1, ALSE), TBool)
    else if c == 0x6e then WordScan(ScanWord(s, p + 1, ULL), TNull)
    else if c == QUOTE then ScanString(s, p + 1, o.validateUTF8, false)
    else if c == MINUS || IsDigit(c) then ScanNumber(s, p)
    else if c == SLASH then Bad(UnallowedComment)
    else Bad(InvalidChar)
  }

  /** What a lexer call gives: a token s[from..end], the beginning of one, or an error. */
  datatype Lexed = Token(tok: Tok, from: nat, end: nat) | Eof(from: nat) | Error(err: LexError)

  function LexAt(o: Options, s: bytes, p: nat): (r: Lexed)
    requires p <= |s|
    ensures r.Eof? ==> p <= r.from <= |s|
    ensures r.Token? ==> p <= r.from < r.end <= |s|
    decreases |s| - p
  {
    if p == |s| then Eof(p)
    else if IsSpace(s[p]) then LexAt(o, s, p + 1)
    else if s[p] == SLASH && o.allowComments then
      match ScanComment(s, p + 1)
      case Run(q) => LexAt(o, s, q)
      case Cut => Eof(p)
      case Off => Error(InvalidChar)
    else
      match ScanToken(o, s, p)
      case Done(tok, q) => Token(tok, p, q)
      case More => Eof(p)
      case Bad(e) => Error(e)
  }

  /** The text of a token as the parser gets it: strings without their quotes. */
  function TextOf(s: bytes, tok: Tok, from: nat, end: nat): bytes
    requires from <= end <= |s|
  {
    if (tok == TString || tok == TStringWithEscapes) && from + 2 <= end then s[from + 1..end - 1]
    else s[from..end]
  }

  // ----- more text never changes what has been found

  ghost predicate Prefix(s: bytes, t: bytes) {
    |s| <= |t| && forall i | 0 <= i < |s| :: s[i] == t[i]
  }

  /** What a scan of s says about a scan of a longer t: the same, and if s was too
      short, the scan of t ends no earlier than s. */
  ghost predicate ScanGrows(s: bytes, r: Scan, t: bytes, u: Scan) {
    if r.More? then u.Done? ==> u.end >= |s| else u == r
  }

  ghost predicate RunGrows(s: bytes, r: Run, t: bytes, u: Run) {
    if r.Cut? then u.Run? ==> u.end >= |s| else u == r
  }

  lemma {:induction false} Utf8Grows(s: bytes, t: bytes, p: nat, n: nat)
    requires Prefix(s, t)
    ensures RunGrows(s, ScanUtf8(s, p, n), t, ScanUtf8(t, p, n))
    decreases n
  {
    if n > 0 { Utf8Grows(s, t, p + 1, n - 1); }
  }

  lemma {:induction false} HexGrows(s: bytes, t: bytes, p: nat, n: nat)
    requires Prefix(s, t)
    ensures RunGrows(s, ScanHex(s, p, n), t, ScanHex(t, p, n))
    decreases n
  {
    if n > 0 { HexGrows(s, t, p + 1, n - 1); }
  }

  lemma {:induction false} WordGrows(s: bytes, t: bytes, p: nat, want: bytes)
    requires Prefix(s, t)
    ensures RunGrows(s, ScanWord(s, p, want), t, ScanWord(t, p, want))
    decreases |want|
  {
    if want != [] { WordGrows(s, t, p + 1, want[1..]); }
  }

  lemma {:induction false} LineGrows(s: bytes, t: bytes, p: nat)
    requires Prefix(s, t)
    ensures RunGrows(s, ScanLine(s, p), t, ScanLine(t, p))
    decreases |s| - p
  {
    if p < |s| { LineGrows(s, t, p + 1); }
  }

  lemma {:induction false} BlockGrows(s: bytes, t: bytes, p: nat)
    requires Prefix(s, t)
    ensures RunGrows(s, ScanBlock(s, p), t, ScanBlock(t, p))
    decreases |s| - p
  {
    if p < |s| { BlockGrows(s, t, p + 1); }
  }

  lemma CharGrows(s: bytes, t: bytes, p: nat, validate: bool)
    requires Prefix(s, t)
    ensures var (r, u) := (ScanChar(s, p, validate), ScanChar(t, p, validate));
            if r.Short? then (u.Close? ==> p >= |s|) && (u.Next? ==> u.end >= |s|) else u == r
  {
    if p < |s| {
      HexGrows(s, t, p + 2, 4);
      if Follow(s[p]) >= 0 { Utf8Grows(s, t, p + 1, Follow(s[p])); }
    }
  }

  lemma {:induction false} StringGrows(s: bytes, t: bytes, p: nat, validate: bool, escapes: bool)
    requires Prefix(s, t)
    ensures ScanGrows(s, ScanString(s, p, validate, escapes), t, ScanString(t, p, validate, escapes))
    decreases |s| - p
  {
    hide ScanChar;
    CharGrows(s, t, p, validate);
    var r := ScanChar(s, p, validate);
    if r.Next? {
      StringGrows(s, t, r.end, validate, escapes || r.escape);
    }
  }

  lemma {:induction false} DigitsGrow(s: bytes, t: bytes, p: nat)
    requires Prefix(s, t)
    ensures if Digits(s, p) < |s| then Digits(t, p) == Digits(s, p) else Digits(t, p) >= |s|
    decreases |s| - p
  {
    if p < |s| && IsDigit(s[p]) { DigitsGrow(s, t, p + 1); }
  }

  lemma ExponentGrows(s: bytes, t: bytes, p: nat, tok: Tok)
    requires Prefix(s, t)
    ensures ScanGrows(s, ScanExponent(s, p, tok), t, ScanExponent(t, p, tok))
  {
    hide Digits;
    DigitsGrow(s, t, p + 1);
    DigitsGrow(s, t, p + 2);
  }

  lemma FractionGrows(s: bytes, t: bytes, p: nat)
    requires Prefix(s, t)
    ensures ScanGrows(s, ScanFraction(s, p), t, ScanFraction(t, p))
  {
    hide Digits, ScanExponent;
    DigitsGrow(s, t, p + 1);
    ExponentGrows(s, t, p, TInteger);
    ExponentGrows(s, t, Digits(s, p + 1), TDouble);
  }

  lemma NumberGrows(s: bytes, t: bytes, p: nat)
    requires Prefix(s, t)
    ensures ScanGrows(s, ScanNumber(s, p), t, ScanNumber(t, p))
  {
    hide Digits, ScanExponent;
    if p < |s| {
      var d := if s[p] == MINUS then p + 1 else p;
      DigitsGrow(s, t, d);
      FractionGrows(s, t, d + 1);
      FractionGrows(s, t, Digits(s, d));
    }
  }

  lemma CommentGrows(s: bytes, t: bytes, p: nat)
    requires Prefix(s, t)
    ensures RunGrows(s, ScanComment(s, p), t, ScanComment(t, p))
  {
    LineGrows(s, t, p + 1);
    BlockGrows(s, t, p + 1);
  }

  lemma TokenGrows(o: Options, s: bytes, t: bytes, p: nat)
    requires Prefix(s, t) && p < |s|
    ensures ScanGrows(s, ScanToken(o, s, p), t, ScanToken(o, t, p))
  {
    hide ScanString, ScanNumber, ScanWord;
    WordGrows(s, t, p + 1, RUE);
    WordGrows(s, t, p + 1, ALSE);
    WordGrows(s, t, p + 1, ULL);
    StringGrows(s, t, p + 1, o.validateUTF8, false);
    NumberGrows(s, t, p);
  }

  /** A token or an error found in the text so far is there in any longer text. A
      lexer that ran out of text resumes from the beginning of the unfinished token
      as if it had seen the longer text at once. */
  lemma {:induction false} LexGrows(o: Options, s: bytes, t: bytes, p: nat)
    requires Prefix(s, t) && p <= |s|
    ensures var r := LexAt(o, s, p);
            if r.Eof? then LexAt(o, t, p) == LexAt(o, t, r.from) && LexAt(o, s, r.from) == r
            else LexAt(o, t, p) == r
    decreases |s| - p
  {
    hide ScanToken, ScanComment;
    if p < |s| {
      CommentGrows(s, t, p + 1);
      TokenGrows(o, s, t, p);
      if IsSpace(s[p]) {
        LexGrows(o, s, t, p + 1);
      } else if s[p] == SLASH && o.allowComments && ScanComment(s, p + 1).Run? {
        LexGrows(o, s, t, ScanComment(s, p + 1).end);
      }
    }
  }

  /** Where a lexer has run out of text, a comment or a token is unfinished. */
  lemma Stalled(o: Options, s: bytes, p: nat)
    requires p < |s| && LexAt(o, s, p) == Eof(p)
    ensures !IsSpace(s[p])
    ensures s[p] == SLASH && o.allowComments ==> ScanComment(s, p + 1) == Cut
    ensures !(s[p] == SLASH && o.allowComments) ==> ScanToken(o, s, p) == More
  {
    hide ScanToken, ScanComment;
  }
}
