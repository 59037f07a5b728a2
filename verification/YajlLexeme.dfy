/** Written tokens: what the lexer and the parser make of text that grows at its
    end, for any text that may still follow. */
module YajlLexeme {
  import opened Bytes
  import opened Numerals
  import opened YajlLex
  import opened YajlString
  import opened YajlQuoted
  import opened YajlNumber
  import opened YajlParse

  datatype Lexeme = Punct(c: byte) | NullWord | TrueWord | FalseWord | Int(n: int) | Str(s: bytes, solidus: bool)

  predicate IsPunct(c: byte) {
    c == LCURLY || c == RCURLY || c == LSQUARE || c == RSQUARE || c == COMMA || c == COLON
  }

  function PunctTok(c: byte): Tok {
    if c == LCURLY then TLeftBracket
    else if c == RCURLY then TRightBracket
    else if c == LSQUARE then TLeftBrace
    else if c == RSQUARE then TRightBrace
    else if c == COMMA then TComma
    else TColon
  }

  function Written(l: Lexeme): (s: bytes)
    ensures s != []
  {
    match l
    case Punct(c) => [c]
    case NullWord => [0x6e] + ULL
    case TrueWord => [0x74] + RUE
    case FalseWord => [0x66] + ALSE
    case Int(n) => Printed(n)
    case Str(s, solidus) => [QUOTE] + Encode(s, solidus) + [QUOTE]
  }

  function TokOf(l: Lexeme): Tok {
    match l
    case Punct(c) => PunctTok(c)
    case NullWord => TNull
    case TrueWord => TBool
    case FalseWord => TBool
    case Int(n) => TInteger
    case Str(s, solidus) => StringTok(HasEscape(s, 0, solidus))
  }

  /** The text the parser gets for it. */
  function BodyOf(l: Lexeme): bytes {
    if l.Str? then Encode(l.s, l.solidus) else Written(l)
  }

  /** A lexeme the lexer accepts. */
  predicate Fine(o: Options, l: Lexeme) {
    && (l.Punct? ==> IsPunct(l.c))
    && (l.Str? && o.validateUTF8 ==> IsUtf8(l.s, 0))
  }

  /** t can follow s without joining its last number or word. */
  predicate Apart(s: bytes, t: bytes) {
    s == [] || !InWord(s[|s| - 1]) || (t != [] && !InWord(t[0]))
  }

  lemma {:induction false} WordHere(t: bytes, p: nat, want: bytes)
    requires Sits(t, p, want)
    ensures ScanWord(t, p, want) == Run(p + |want|)
    decreases |want|
  {
    if want != [] {
      assert t[p + 0] == want[0];
      forall i | 0 <= i < |want[1..]| ensures t[p + 1 + i] == want[1..][i] {
        assert t[p + (1 + i)] == want[1 + i];
      }
      WordHere(t, p + 1, want[1..]);
    }
  }

  /** The last character written. */
  lemma WrittenLast(l: Lexeme)
    requires l.Int?
    ensures var s := Written(l); InWord(s[|s| - 1])
  {
  }

  lemma NumberApart(t: bytes, p: nat, l: Lexeme)
    requires l.Int? && Sits(t, p, Written(l))
    requires Apart(Written(l), t[p + |Written(l)|..])
    ensures p + |Written(l)| < |t| && !InWord(t[p + |Written(l)|])
  {
    WrittenLast(l);
  }

  lemma LexemeScans(o: Options, t: bytes, p: nat, l: Lexeme)
    requires Fine(o, l) && Sits(t, p, Written(l)) && Apart(Written(l), t[p + |Written(l)|..])
    ensures p < |t| && t[p] == Written(l)[0] && ScanToken(o, t, p) == Done(TokOf(l), p + |Written(l)|)
    ensures p + |Written(l)| <= |t| && TextOf(t, TokOf(l), p, p + |Written(l)|) == BodyOf(l)
    ensures l.Str? ==> StringValue(TokOf(l), BodyOf(l)) == l.s
  {
    hide ScanString, ScanNumber, ScanWord, Printed, Encode, Sits, InWord, IsUtf8;
    var w := Written(l);
    SitsHead(t, p, w);
    match l
    case Punct(c) => SitsText(t, p, w);
    case NullWord => SitsSplit(t, p, [0x6e], ULL); WordHere(t, p + 1, ULL); SitsText(t, p, w);
    case TrueWord => SitsSplit(t, p, [0x74], RUE); WordHere(t, p + 1, RUE); SitsText(t, p, w);
    case FalseWord => SitsSplit(t, p, [0x66], ALSE); WordHere(t, p + 1, ALSE); SitsText(t, p, w);
    case Int(n) => NumberApart(t, p, l); ScanPrinted(t, p, n); SitsText(t, p, w);
    case Str(s, solidus) =>
      SitsSplit(t, p, [QUOTE] + Encode(s, solidus), [QUOTE]);
      SitsSplit(t, p, [QUOTE], Encode(s, solidus));
      QuotedToken(o, t, p, s, solidus);
  }

  /** A written lexeme is the next token. */
  lemma LexemeLexes(o: Options, t: bytes, p: nat, l: Lexeme)
    requires Fine(o, l) && Sits(t, p, Written(l)) && Apart(Written(l), t[p + |Written(l)|..])
    ensures p < |t| && LexAt(o, t, p) == Token(TokOf(l), p, p + |Written(l)|)
    ensures p + |Written(l)| <= |t| && TextOf(t, TokOf(l), p, p + |Written(l)|) == BodyOf(l)
  {
    hide ScanToken, Written, Apart, Sits;
    LexemeScans(o, t, p, l);
    HeadOf(l, o);
  }

  /** No lexeme begins with a space or a slash. */
  lemma HeadOf(l: Lexeme, o: Options)
    requires Fine(o, l)
    ensures !IsSpace(Written(l)[0]) && Written(l)[0] != SLASH
  {
  }

  // ----- the parser on text written so far

  /** Whatever may follow out, the parser comes to its end in machine m. */
  ghost predicate Reads(cfg: Config, out: bytes, m: Machine) {
    && Stacked(m)
    && forall t | Apart(out, t) :: Parse(cfg, out + t, 0, INIT) == Parse(cfg, out + t, |out|, m)
  }

  /** A machine that takes a token next. */
  predicate Listens(cfg: Config, m: Machine) {
    Stacked(m) && Awake(cfg, m) == m && !Deaf(cfg, Top(m))
  }

  lemma {:induction false} LexSpaces(o: Options, s: bytes, p: nat, q: nat)
    requires p <= q <= |s| && forall i | p <= i < q :: IsSpace(s[i])
    ensures LexAt(o, s, p) == LexAt(o, s, q)
    decreases q - p
  {
    hide ScanToken, ScanComment;
    if p < q { LexSpaces(o, s, p + 1, q); }
  }

  lemma ParseSame(cfg: Config, s: bytes, p: nat, q: nat, m: Machine)
    requires p <= |s| && q <= |s| && Listens(cfg, m)
    requires LexAt(OptionsOf(cfg.flags), s, p) == LexAt(OptionsOf(cfg.flags), s, q)
    ensures Parse(cfg, s, p, m) == Parse(cfg, s, q, m)
  {
    hide LexAt, OnToken, TextOf;
  }

  predicate Spaces(ws: bytes) {
    forall i | 0 <= i < |ws| :: IsSpace(ws[i])
  }

  lemma SpaceStep(cfg: Config, out: bytes, m: Machine, ws: bytes)
    requires Reads(cfg, out, m) && Listens(cfg, m) && Spaces(ws)
    ensures Reads(cfg, out + ws, m)
  {
    hide Parse, LexAt;
    if ws == [] {
      assert out + ws == out;
    } else {
      forall t | Apart(out + ws, t) ensures Parse(cfg, out + ws + t, 0, INIT) == Parse(cfg, out + ws + t, |out + ws|, m) {
        var s := out + ws + t;
        assert s == out + (ws + t) && Apart(out, ws + t);
        LexSpaces(OptionsOf(cfg.flags), s, |out|, |out + ws|);
        ParseSame(cfg, s, |out|, |out + ws|, m);
      }
    }
  }

  /** What the parser does about a lexeme. */
  function Effect(cfg: Config, m: Machine, l: Lexeme): Step
    requires Stacked(m)
  {
    OnToken(cfg, m, TokOf(l), BodyOf(l))
  }

  lemma ParseToken(cfg: Config, s: bytes, p: nat, m: Machine, l: Lexeme)
    requires p <= |s| && Listens(cfg, m) && Effect(cfg, m, l).Go?
    requires LexAt(OptionsOf(cfg.flags), s, p) == Token(TokOf(l), p, p + |Written(l)|)
    requires p + |Written(l)| <= |s| && TextOf(s, TokOf(l), p, p + |Written(l)|) == BodyOf(l)
    ensures Parse(cfg, s, p, m) == Parse(cfg, s, p + |Written(l)|, Effect(cfg, m, l).m)
  {
    hide LexAt, OnToken, TextOf, Written, BodyOf, TokOf;
  }

  lemma LexemeStep(cfg: Config, out: bytes, m: Machine, l: Lexeme)
    requires Reads(cfg, out, m) && Listens(cfg, m) && Fine(OptionsOf(cfg.flags), l)
    requires Apart(out, Written(l)) && Effect(cfg, m, l).Go?
    ensures Reads(cfg, out + Written(l), Effect(cfg, m, l).m)
  {
    hide Parse, LexAt, Written, BodyOf, OnToken, TextOf, Fine, TokOf, InWord;
    var w, n := Written(l), Effect(cfg, m, l).m;
    forall t | Apart(out + w, t) ensures Parse(cfg, out + w + t, 0, INIT) == Parse(cfg, out + w + t, |out + w|, n) {
      var s := out + w + t;
      assert s == out + (w + t) && Apart(out, w + t);
      assert Sits(s, |out|, w) && s[|out| + |w|..] == t && Apart(w, t);
      LexemeLexes(OptionsOf(cfg.flags), s, |out|, l);
      ParseToken(cfg, s, |out|, m, l);
    }
  }
}
