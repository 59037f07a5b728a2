/** The streaming lexer: chunks, its buffer, and reading ahead
    (libs/yajl/yajl_lex.c:68-101 and 181-688). */
module YajlLexer {
  import opened Bytes
  import opened Numerals
  import opened YajlLex

  datatype Answer = Tok(tok: Tok) | TokEof | TokError | TokComment

  class Lexer {
    const opts: Options
    var error: LexError
    /** The beginning of a token spread over several chunks. */
    var buf: bytes
    var bufOff: nat
    var bufInUse: bool
    /** The current chunk and the place in it. */
    var text: bytes
    var offset: nat
    /** Everything fed so far, the current chunk included. */
    ghost var fed: bytes

    constructor (opts: Options)
      ensures this.opts == opts && fed == [] && text == [] && offset == 0 && !bufInUse
    {
      this.opts := opts;
      error, buf, bufOff, bufInUse, text, offset, fed := LexOk, [], 0, false, [], 0, [];
    }

    ghost function Held(): nat
      reads this`bufInUse, this`buf
    {
      if bufInUse then |buf| else 0
    }

    /** Where the chunk, and before it the buffered bytes, begin in what was fed. */
    ghost function ChunkAt(): int
      reads this`fed, this`text
    {
      |fed| - |text|
    }

    ghost function Base(): int
      reads this`fed, this`text, this`bufInUse, this`buf
    {
      ChunkAt() - Held()
    }

    /** The buffer and the chunk are the end of what was fed; the chunk is read only
        after the buffer. */
    ghost predicate Reading()
      reads this`fed, this`text, this`offset, this`bufInUse, this`buf, this`bufOff
    {
      && offset <= |text| && Base() >= 0
      && (bufInUse ==> bufOff <= |buf| && (bufOff < |buf| ==> offset == 0))
      && (forall i | 0 <= i < |text| :: text[i] == fed[ChunkAt() + i])
      && (bufInUse ==> forall i | 0 <= i < |buf| :: buf[i] == fed[Base() + i])
    }

    /** The place of the next character in what was fed. */
    ghost function Pos(): int
      reads this`fed, this`text, this`offset, this`bufInUse, this`buf, this`bufOff
    {
      ChunkAt() + offset - if bufInUse then |buf| - bufOff else 0
    }

    /** Reading with a chunk that was not empty: the chunk is used up exactly when
        there is nothing left to read. */
    ghost predicate Active()
      reads this`fed, this`text, this`offset, this`bufInUse, this`buf, this`bufOff
    {
      Reading() && |text| > 0
    }

    lemma ActiveFacts()
      requires Active()
      ensures 0 <= Base() <= Pos() <= |fed| && (offset >= |text| <==> Pos() == |fed|)
    {
    }

    // ----- characters

    method ReadChar() returns (c: byte)
      requires Active() && offset < |text|
      modifies this`bufOff, this`offset
      ensures Base() <= old(Pos()) < |fed| && c == fed[old(Pos())]
      ensures Active() && Pos() == old(Pos()) + 1 && (offset >= |text| <==> Pos() == |fed|)
    {
      if bufInUse && |buf| > 0 && bufOff < |buf| {
        c := buf[bufOff];
        bufOff := bufOff + 1;
      } else {
        c := text[offset];
        offset := offset + 1;
      }
    }

    method UnreadChar()
      requires Active() && Pos() > Base()
      modifies this`bufOff, this`offset
      ensures Active() && Pos() == old(Pos()) - 1 && (offset >= |text| <==> Pos() == |fed|)
    {
      if offset > 0 {
        offset := offset - 1;
      } else {
        bufOff := bufOff - 1;
      }
    }

    // ----- tokens

    /** The result and the place after a scan. */
    ghost predicate Ends(scan: Scan, r: Answer)
      reads this
    {
      Active() &&
      match scan
      case Done(tok, end) => r == Tok(tok) && Pos() == end
      case More => r == TokEof && offset >= |text|
      case Bad(e) => r == TokError && error == e
    }

    ghost predicate EndsRun(run: Run, r: Answer, yes: Answer)
      reads this
    {
      Active() &&
      match run
      case Run(end) => r == yes && Pos() == end
      case Cut => r == TokEof && offset >= |text|
      case Off => r == TokError
    }

    /** The bytes after the first byte c of a character. */
    method Utf8Char(c: byte) returns (r: Answer)
      requires Active()
      modifies this`bufOff, this`offset
      ensures if Follow(c) < 0 then r == TokError && Active()
              else EndsRun(ScanUtf8(fed, old(Pos()), Follow(c)), r, Tok(TString))
      ensures old(Pos()) <= Pos()
    {
      hide Active, Reading, Pos, Base;
      ActiveFacts();
      var d: byte;
      if c <= 0x7f { return Tok(TString); }
      if c / 32 == 0x6 {
        if offset >= |text| { return TokEof; }
        d := ReadChar();
        if d / 64 == 0x2 { return Tok(TString); }
      } else if c / 16 == 0x0e {
        if offset >= |text| { return TokEof; }
        d := ReadChar();
        if d / 64 == 0x2 {
          if offset >= |text| { return TokEof; }
          d := ReadChar();
          if d / 64 == 0x2 { return Tok(TString); }
        }
      } else if c / 8 == 0x1e {
        if offset >= |text| { return TokEof; }
        d := ReadChar();
        if d / 64 == 0x2 {
          if offset >= |text| { return TokEof; }
          d := ReadChar();
          if d / 64 == 0x2 {
            if offset >= |text| { return TokEof; }
            d := ReadChar();
            if d / 64 == 0x2 { return Tok(TString); }
          }
        }
      }
      r := TokError;
    }
  
    /** `yajl_string_scan`: how many characters of b from k on can be passed over. */
    method Skip(b: bytes, k: nat) returns (n: nat)
      requires k <= |b|
      ensures k + n <= |b| && forall i | k <= i < k + n :: IsPlain(b[i], opts.validateUTF8)
    {
      n := 0;
      while k + n < |b| && IsPlain(b[k + n], opts.validateUTF8)
        invariant k + n <= |b| && forall i | k <= i < k + n :: IsPlain(b[i], opts.validateUTF8)
      {
        n := n + 1;
      }
    }

    /** What is plain in the buffer, or in the chunk, is plain in what was fed. */
    lemma PlainInBuffer(n: nat)
      requires Reading() && bufInUse && bufOff + n <= |buf| && bufOff < |buf|
      requires forall k | bufOff <= k < bufOff + n :: IsPlain(buf[k], opts.validateUTF8)
      ensures 0 <= Pos() && Pos() + n <= |fed|
      ensures forall i | Pos() <= i < Pos() + n :: IsPlain(fed[i], opts.validateUTF8)
    {
      forall i | Pos() <= i < Pos() + n ensures IsPlain(fed[i], opts.validateUTF8) {
        assert buf[i - Base()] == fed[i];
      }
    }

    lemma PlainInChunk(n: nat)
      requires Reading() && (bufInUse ==> bufOff == |buf|) && offset + n <= |text|
      requires forall k | offset <= k < offset + n :: IsPlain(text[k], opts.validateUTF8)
      ensures 0 <= Pos() && Pos() + n <= |fed|
      ensures forall i | Pos() <= i < Pos() + n :: IsPlain(fed[i], opts.validateUTF8)
    {
      forall i | Pos() <= i < Pos() + n ensures IsPlain(fed[i], opts.validateUTF8) {
        assert text[i - ChunkAt()] == fed[i];
      }
    }

    /** Moves over plain characters, in the buffer or in the chunk. */
    method SkipPlain()
      requires Active()
      modifies this`bufOff, this`offset
      ensures Active() && old(Pos()) <= Pos() <= |fed| && (offset >= |text| <==> Pos() == |fed|)
      ensures forall i | old(Pos()) <= i < Pos() :: IsPlain(fed[i], opts.validateUTF8)
    {
      hide IsPlain;
      if bufInUse && |buf| > 0 && bufOff < |buf| {
        var n := Skip(buf, bufOff);
        PlainInBuffer(n);
        bufOff := bufOff + n;
      } else if offset < |text| {
        var n := Skip(text, offset);
        PlainInChunk(n);
        offset := offset + n;
      }
    }

    /** The digits after a backslash and u. */
    method HexDigits() returns (r: Answer)
      requires Active()
      modifies this`bufOff, this`offset, this`error
      ensures EndsRun(ScanHex(fed, old(Pos()), 4), r, Tok(TString))
      ensures r == TokError ==> error == InvalidHexChar
      ensures old(Pos()) <= Pos()
    {
      hide Active, Reading, Pos, Base;
      ActiveFacts();
      for i := 0 to 4
        invariant Active() && (offset >= |text| <==> Pos() == |fed|) && 0 <= old(Pos()) <= Pos() <= |fed|
        invariant ScanHex(fed, Pos(), 4 - i) == ScanHex(fed, old(Pos()), 4)
      {
        if offset >= |text| { return TokEof; }
        var c := ReadChar();
        if !IsHex(c) {
          UnreadChar();
          error := InvalidHexChar;
          return TokError;
        }
      }
      r := Tok(TString);
    }

    /** One character or escape of a string; closed on its closing quote. */
    method StringChar() returns (r: Answer, escape: bool, closed: bool)
      requires Active()
      modifies this`bufOff, this`offset, this`error
      ensures Active() && 0 <= old(Pos())
      ensures match ScanChar(fed, old(Pos()), opts.validateUTF8)
              case Close => r.Tok? && closed && Pos() == old(Pos()) + 1
              case Next(end, x) => r.Tok? && !closed && escape == x && Pos() == end
              case Short => r == TokEof && offset >= |text|
              case Wrong(e) => r == TokError && error == e
      ensures old(Pos()) <= Pos()
    {
      hide Active, Reading, Pos, Base, ScanHex, ScanUtf8;
      ActiveFacts();
      r, escape, closed := Tok(TString), false, false;
      if offset >= |text| { return TokEof, false, false; }
      var c := ReadChar();
      if c == QUOTE {
        closed := true;
      } else if c == BACKSLASH {
        escape := true;
        if offset >= |text| { return TokEof, true, false; }
        c := ReadChar();
        if c == 0x75 {
          r := HexDigits();
        } else if !IsEscape(c) {
          UnreadChar();
          error := InvalidEscapedChar;
          r := TokError;
        }
      } else if IsInvalid(c) {
        UnreadChar();
        error := InvalidJsonChar;
        r := TokError;
      } else if opts.validateUTF8 {
        r := Utf8Char(c);
        if r == TokError { error := InvalidUtf8; }
      }
    }

    /** The rest of a string, after its opening quote. */
    method LexString() returns (r: Answer)
      requires Active()
      modifies this`bufOff, this`offset, this`error
      ensures 0 <= old(Pos()) && Ends(ScanString(fed, old(Pos()), opts.validateUTF8, false), r)
      ensures old(Pos()) <= Pos()
    {
      hide Active, Reading, Pos, Base, ScanChar;
      ActiveFacts();
      var hasEscapes := false;
      while true
        invariant Active() && 0 <= old(Pos()) <= Pos() <= |fed|
        invariant ScanString(fed, Pos(), opts.validateUTF8, hasEscapes)
               == ScanString(fed, old(Pos()), opts.validateUTF8, false)
        decreases |fed| - Pos()
      {
        ghost var q := Pos();
        SkipPlain();
        PlainSkipped(fed, q, Pos(), opts.validateUTF8, hasEscapes);
        var escape, closed;
        r, escape, closed := StringChar();
        if !r.Tok? { return; }
        if closed { return Tok(StringTok(hasEscapes)); }
        hasEscapes := hasEscapes || escape;
        ActiveFacts();
      }
    }
  
    /** Reads on while the character in hand is a digit. */
    method ReadDigits(first: byte) returns (ok: bool, c: byte, n: nat)
      requires Active() && Base() < Pos() <= |fed| && 0 <= Base() && first == fed[Pos() - 1]
      modifies this`bufOff, this`offset
      ensures Active() && Base() <= old(Pos()) - 1 && old(Pos()) <= Pos() <= |fed|
      ensures ok ==> Pos() - 1 == Digits(fed, old(Pos()) - 1) == old(Pos()) - 1 + n && c == fed[Pos() - 1]
      ensures !ok ==> Digits(fed, old(Pos()) - 1) >= |fed| && offset >= |text|
    {
      hide Active, Reading, Pos, Base;
      ActiveFacts();
      c, n := first, 0;
      while IsDigit(c)
        invariant Active() && Base() < old(Pos()) <= Pos() <= |fed| && (offset >= |text| <==> Pos() == |fed|)
        invariant 0 <= Base() && c == fed[Pos() - 1] && Pos() == old(Pos()) + n
        invariant Digits(fed, Pos() - 1) == Digits(fed, old(Pos()) - 1)
        decreases |fed| - Pos()
      {
        n := n + 1;
        if offset >= |text| { return false, c, n; }
        c := ReadChar();
      }
      ok := true;
    }

    /** The digits of an exponent, the first character in hand. */
    method LexPower(first: byte) returns (r: Answer)
      requires Active() && 0 <= Base() < Pos() <= |fed| && first == fed[Pos() - 1]
      modifies this`bufOff, this`offset, this`error
      ensures Ends(ScanPower(fed, old(Pos()) - 1), r)
      ensures old(Pos()) - 1 <= Pos()
    {
      hide Active, Reading, Pos, Base, Digits;
      if IsDigit(first) {
        var ok, c, n := ReadDigits(first);
        if !ok { return TokEof; }
        UnreadChar();
        return Tok(TDouble);
      }
      UnreadChar();
      error := MissingIntegerAfterExponent;
      r := TokError;
    }

    /** The exponent, with the character after the digits in hand. */
    method LexExponent(first: byte, tok: Tok) returns (r: Answer)
      requires Active() && 0 <= Base() < Pos() <= |fed| && first == fed[Pos() - 1]
      modifies this`bufOff, this`offset, this`error
      ensures Ends(ScanExponent(fed, old(Pos()) - 1, tok), r)
      ensures old(Pos()) - 1 <= Pos()
    {
      hide Active, Reading, Pos, Base, ScanPower;
      ActiveFacts();
      PowerOver(fed);
      if first == 0x65 || first == 0x45 {
        if offset >= |text| { return TokEof; }
        var c := ReadChar();
        if c == PLUS || c == MINUS {
          if offset >= |text| { return TokEof; }
          c := ReadChar();
        }
        r := LexPower(c);
      } else {
        UnreadChar();
        r := Tok(tok);
      }
    }

    /** The fraction and the exponent. */
    method LexFraction(first: byte) returns (r: Answer)
      requires Active() && 0 <= Base() < Pos() <= |fed| && first == fed[Pos() - 1]
      modifies this`bufOff, this`offset, this`error
      ensures Ends(ScanFraction(fed, old(Pos()) - 1), r)
      ensures old(Pos()) - 1 <= Pos()
    {
      hide Active, Reading, Pos, Base, Digits, ScanExponent;
      ActiveFacts();
      var c, tok := first, TInteger;
      if c == DOT {
        if offset >= |text| { DigitsOver(fed, Pos()); return TokEof; }
        c := ReadChar();
        var ok, numRd;
        ok, c, numRd := ReadDigits(c);
        if !ok { return TokEof; }
        if numRd == 0 {
          UnreadChar();
          error := MissingIntegerAfterDecimal;
          return TokError;
        }
        tok := TDouble;
      }
      r := LexExponent(c, tok);
    }

    /** A number after its sign, the first character in hand. */
    method LexUnsigned(first: byte) returns (r: Answer)
      requires Active() && 0 <= Base() < Pos() <= |fed| && first == fed[Pos() - 1]
      modifies this`bufOff, this`offset, this`error
      ensures Ends(ScanUnsigned(fed, old(Pos()) - 1), r)
      ensures old(Pos()) - 1 <= Pos()
    {
      hide Active, Reading, Pos, Base, Digits, ScanFraction;
      ActiveFacts();
      FractionOver(fed);
      var c := first;
      if c == ZERO {
        if offset >= |text| { return TokEof; }
        c := ReadChar();
      } else if IsDigit(c) {
        var ok, n;
        ok, c, n := ReadDigits(c);
        if !ok { return TokEof; }
      } else {
        UnreadChar();
        error := MissingIntegerAfterMinus;
        return TokError;
      }
      r := LexFraction(c);
    }

    method LexNumber() returns (r: Answer)
      requires Active()
      modifies this`bufOff, this`offset, this`error
      ensures 0 <= old(Pos()) && Ends(ScanNumber(fed, old(Pos())), r)
      ensures old(Pos()) <= Pos()
    {
      hide Active, Reading, Pos, Base, ScanUnsigned;
      ActiveFacts();
      UnsignedOver(fed);
      if offset >= |text| { return TokEof; }
      var c := ReadChar();
      if c == MINUS {
        if offset >= |text| { return TokEof; }
        c := ReadChar();
      }
      r := LexUnsigned(c);
    }

    /** The rest of a comment, after its slash. */
    method LexComment() returns (r: Answer)
      requires Active()
      modifies this`bufOff, this`offset, this`error
      ensures 0 <= old(Pos()) && EndsRun(ScanComment(fed, old(Pos())), r, TokComment)
      ensures r == TokError ==> error == InvalidChar
      ensures old(Pos()) <= Pos()
    {
      hide Active, Reading, Pos, Base;
      ActiveFacts();
      if offset >= |text| { return TokEof; }
      var c := ReadChar();
      if c == SLASH {
        ghost var p := Pos();
        c := 0;
        while c != NEWLINE
          invariant Active() && p <= Pos() <= |fed| && (offset >= |text| <==> Pos() == |fed|)
          invariant ScanLine(fed, p) == if c == NEWLINE then Run(Pos()) else ScanLine(fed, Pos())
          decreases |fed| - Pos()
        {
          if offset >= |text| { return TokEof; }
          c := ReadChar();
        }
      } else if c == STAR {
        ghost var p := Pos();
        var open := true;
        while open
          invariant Active() && Base() <= p <= Pos() <= |fed| && (offset >= |text| <==> Pos() == |fed|)
          invariant ScanBlock(fed, p) == if open then ScanBlock(fed, Pos()) else Run(Pos())
          decreases |fed| - Pos(), open
        {
          if offset >= |text| { return TokEof; }
          c := ReadChar();
          if c == STAR {
            if offset >= |text| { return TokEof; }
            c := ReadChar();
            if c == SLASH {
              open := false;
            } else {
              UnreadChar();
            }
          }
        }
      } else {
        error := InvalidChar;
        return TokError;
      }
      r := TokComment;
    }

    /** The rest of a literal. */
    method LexWord(want: bytes, tok: Tok) returns (r: Answer)
      requires Active()
      modifies this`bufOff, this`offset, this`error
      ensures 0 <= old(Pos()) && Ends(WordScan(ScanWord(fed, old(Pos()), want), tok), r)
      ensures old(Pos()) <= Pos()
    {
      hide Active, Reading, Pos, Base;
      ActiveFacts();
      var k := 0;
      while k < |want|
        invariant Active() && 0 <= Base() <= old(Pos()) <= Pos() <= |fed| && (offset >= |text| <==> Pos() == |fed|)
        invariant k <= |want| && ScanWord(fed, Pos(), want[k..]) == ScanWord(fed, old(Pos()), want)
      {
        if offset >= |text| { return TokEof; }
        var c := ReadChar();
        if c != want[k] {
          UnreadChar();
          error := InvalidString;
          return TokError;
        }
        assert want[k..][1..] == want[k + 1..];
        k := k + 1;
      }
      r := Tok(tok);
    }
  
    /** The token whose first character c has been read. */
    method LexToken(c: byte) returns (r: Answer)
      requires Active() && 0 <= Base() < Pos() <= |fed| && c == fed[Pos() - 1]
      modifies this`bufOff, this`offset, this`error
      ensures Ends(ScanToken(opts, fed, old(Pos()) - 1), r)
      ensures old(Pos()) - 1 <= Pos()
    {
      hide Active, Reading, Pos, Base, ScanString, ScanNumber, ScanWord, WordScan;
      ActiveFacts();
      if c == LCURLY { return Tok(TLeftBracket); }
      if c == RCURLY { return Tok(TRightBracket); }
      if c == LSQUARE { return Tok(TLeftBrace); }
      if c == RSQUARE { return Tok(TRightBrace); }
      if c == COMMA { return Tok(TComma); }
      if c == COLON { return Tok(TColon); }
      if c == 0x74 {
        r := LexWord(RUE, TBool);
      } else if c == 0x66 {
        r := LexWord(ALSE, TBool);
      } else if c == 0x6e {
        r := LexWord(ULL, TNull);
      } else if c == QUOTE {
        r := LexString();
      } else if c == MINUS || IsDigit(c) {
        UnreadChar();
        r := LexNumber();
      } else if c == SLASH {
        UnreadChar();
        error := UnallowedComment;
        r := TokError;
      } else {
        error := InvalidChar;
        r := TokError;
      }
    }

    // ----- calls

    /** Ready for a call: buffered bytes come before a chunk not yet read, and are
        the beginning of a token. */
    ghost predicate Ready()
      reads this`fed, this`text, this`offset, this`bufInUse, this`buf, this`bufOff
    {
      && Reading()
      && (bufInUse && buf != [] ==>
           offset == 0 && bufOff == 0 && LexAt(opts, fed[..ChunkAt()], Base()) == Eof(Base()))
    }

    /** The chunk is used up, and the buffer holds what must be read again. */
    ghost predicate Drained()
      reads this`fed, this`text, this`offset, this`bufInUse, this`buf, this`bufOff
    {
      && offset == |text| <= |fed|
      && (bufInUse ==> bufOff == 0 && |buf| <= |fed| && buf == fed[|fed| - |buf|..])
      && (bufInUse && buf != [] ==> LexAt(opts, fed, |fed| - |buf|) == Eof(|fed| - |buf|))
    }

    /** Where reading goes on. */
    ghost function Rest(): int
      reads this`fed, this`bufInUse, this`buf
    {
      |fed| - Held()
    }

    /** When the chunk is used up, there is nothing to call for. */
    lemma ReadAll()
      requires Ready() && offset == |text|
      ensures Drained() && Rest() == Pos() && 0 <= Pos() <= |fed| && LexAt(opts, fed, Pos()) == Eof(Pos())
    {
      assert fed[..|fed|] == fed;
    }

    method NextChunk(chunk: bytes)
      requires Drained()
      modifies this`fed, this`text, this`offset
      ensures Ready() && fed == old(fed) + chunk && text == chunk && Pos() == old(Rest()) && offset == 0
    {
      fed := fed + chunk;
      text := chunk;
      offset := 0;
      assert fed[..ChunkAt()] == old(fed);
    }

    /** The end of a call: the bytes read are handed out, or kept for the next chunk. */
    method Collect(r: Answer, startOffset: nat) returns (out: bytes)
      requires Reading() && startOffset <= offset
      requires bufInUse && buf != [] ==> startOffset == 0
      requires r.Tok? ==> ChunkAt() <= Pos()
      requires r == TokEof ==> offset == |text|
      modifies this`buf, this`bufOff, this`bufInUse
      ensures var from := old(ChunkAt() + startOffset - Held());
              && 0 <= from <= ChunkAt() + offset
              && (r.Tok? ==> !bufInUse && out == fed[from..ChunkAt() + offset])
              && (r == TokEof ==> bufInUse && bufOff == 0 && buf == fed[from..])
    {
      ghost var from := ChunkAt() + startOffset - Held();
      ghost var kept := if bufInUse then buf else [];
      assert kept + text[startOffset..offset] == fed[from..ChunkAt() + offset];
      out := [];
      if r == TokEof || bufInUse {
        if !bufInUse { buf := []; }
        bufInUse := true;
        buf := buf + text[startOffset..offset];
        bufOff := 0;
        if r != TokEof {
          out := buf;
          bufInUse := false;
        }
      } else if r != TokError {
        out := text[startOffset..offset];
      }
    }
  
    /** A call gives what the text in one piece has there. */
    ghost predicate Gives(x: Lexed, r: Answer, out: bytes)
      reads this
    {
      match x
      case Token(tok, from, end) =>
        && r == Tok(tok) && from <= end <= |fed| && out == TextOf(fed, tok, from, end)
        && Ready() && Pos() == end && !bufInUse
      case Eof(from) => r == TokEof && Drained() && Rest() == from
      case Error(e) => r == TokError && error == e
    }

    /** What is read first, when bytes are buffered, is the token they begin. */
    lemma ReadyFacts()
      requires Ready() && offset < |text|
      ensures Active() && 0 <= Base() <= Pos() < |fed| && (bufInUse && buf != [] ==> Pos() == Base())
      ensures var p := Pos(); bufInUse && buf != [] ==>
        && !IsSpace(fed[p])
        && (fed[p] == SLASH && opts.allowComments ==>
             var r := ScanComment(fed, p + 1); r.Run? ==> r.end >= ChunkAt())
        && (!(fed[p] == SLASH && opts.allowComments) ==>
             var r := ScanToken(opts, fed, p); r.Done? ==> r.end >= ChunkAt())
    {
      hide ScanComment, ScanToken;
      if bufInUse && buf != [] {
        var s, p := fed[..ChunkAt()], Base();
        Stalled(opts, s, p);
        CommentGrows(s, fed, p + 1);
        TokenGrows(opts, s, fed, p);
      }
    }

    /** After a call that ran out of text. */
    lemma Stops(from: nat)
      requires offset == |text| <= |fed| && bufInUse && bufOff == 0 && from <= |fed| && buf == fed[from..]
      requires LexAt(opts, fed, from) == Eof(from)
      ensures Drained() && Rest() == from
    {
    }

    /** The end of a call that has read the first character c of a token at p. */
    method LexRest(c: byte, startOffset: nat, ghost p: nat) returns (r: Answer, out: bytes)
      requires Active() && p == Pos() - 1 && 0 <= Base() <= p < |fed| && c == fed[p]
      requires !IsSpace(c) && !(c == SLASH && opts.allowComments)
      requires p == ChunkAt() + startOffset - Held() && (bufInUse && buf != [] ==> startOffset == 0)
      requires bufInUse && buf != [] ==> var x := ScanToken(opts, fed, p); x.Done? ==> x.end >= ChunkAt()
      modifies this`error, this`buf, this`bufOff, this`bufInUse, this`offset
      ensures Gives(LexAt(opts, fed, p), r, out)
    {
      hide ScanToken, LexAt;
      LexHere(opts, fed, p);
      r := LexToken(c);
      ghost var end := Pos();
      out := Collect(r, startOffset);
      if r == TokEof { Stops(p); }
      if r == Tok(TString) || r == Tok(TStringWithEscapes) {
        Unquoted(fed, p, end);
        out := out[1..|out| - 1];
      }
    }

    /** A call that finds the chunk used up. */
    method LexNothing(startOffset: nat) returns (out: bytes)
      requires Ready() && offset >= |text| && startOffset == offset
      modifies this`buf, this`bufOff, this`bufInUse
      ensures 0 <= old(Pos()) <= |fed| && Gives(LexAt(opts, fed, old(Pos())), TokEof, out)
    {
      hide LexAt;
      ghost var p := Pos();
      LexHere(opts, fed, p);
      assert fed[..|fed|] == fed;
      out := Collect(TokEof, startOffset);
      Stops(p);
    }

    /** After the slash of a comment at p: past the comment, or the end of the call. */
    method LexPastComment(startOffset: nat, ghost p: nat) returns (r: Answer, out: bytes)
      requires Active() && p == Pos() - 1 && 0 <= Base() <= p < |fed| && fed[p] == SLASH && opts.allowComments
      requires p == ChunkAt() + startOffset - Held() && (bufInUse && buf != [] ==> startOffset == 0)
      requires bufInUse && buf != [] ==> var x := ScanComment(fed, p + 1); x.Run? ==> x.end >= ChunkAt()
      modifies this`error, this`buf, this`bufOff, this`bufInUse, this`offset
      ensures r == TokComment ==>
        Ready() && p < Pos() <= |fed| && LexAt(opts, fed, Pos()) == LexAt(opts, fed, p)
      ensures r != TokComment ==> Gives(LexAt(opts, fed, p), r, out)
    {
      hide ScanComment, LexAt;
      LexHere(opts, fed, p);
      r := LexComment();
      if r == TokComment {
        buf := [];
        bufInUse := false;
        out := [];
      } else {
        out := Collect(r, startOffset);
        if r == TokEof { Stops(p); }
      }
    }

    method Lex() returns (r: Answer, out: bytes)
      requires Ready()
      modifies this`error, this`buf, this`bufOff, this`bufInUse, this`offset
      ensures 0 <= old(Pos()) <= |fed| && Gives(LexAt(opts, fed, old(Pos())), r, out)
    {
      hide ScanComment, ScanToken, LexAt, Gives;
      var startOffset := offset;
      ghost var x := LexAt(opts, fed, Pos());
      while true
        invariant Ready() && startOffset == offset && 0 <= Pos() <= |fed|
        invariant LexAt(opts, fed, Pos()) == x
        decreases |fed| - Pos()
      {
        ghost var p := Pos();
        if offset >= |text| {
          r := TokEof;
          out := LexNothing(startOffset);
          return;
        }
        ReadyFacts();
        var c := ReadChar();
        if IsSpace(c) {
          LexHere(opts, fed, p);
          startOffset := startOffset + 1;
        } else if c == SLASH && opts.allowComments {
          r, out := LexPastComment(startOffset, p);
          if r != TokComment { return; }
          startOffset := offset;
        } else {
          r, out := LexRest(c, startOffset, p);
          return;
        }
      }
    }
  }

  lemma Unquoted(s: bytes, from: nat, end: nat)
    requires from + 2 <= end <= |s|
    ensures s[from..end][1..end - from - 1] == s[from + 1..end - 1]
  {
    var a, b := s[from..end][1..end - from - 1], s[from + 1..end - 1];
    assert |a| == |b|;
    forall i | 0 <= i < |a| ensures a[i] == b[i] {
    }
  }

  /** The cases of a lexer call. */
  lemma LexHere(o: Options, s: bytes, p: nat)
    requires p <= |s|
    ensures p == |s| ==> LexAt(o, s, p) == Eof(p)
    ensures p < |s| && IsSpace(s[p]) ==> LexAt(o, s, p) == LexAt(o, s, p + 1)
    ensures p < |s| && !IsSpace(s[p]) && s[p] == SLASH && o.allowComments ==>
      var r := ScanComment(s, p + 1);
      && (r.Cut? ==> LexAt(o, s, p) == Eof(p))
      && (r.Off? ==> LexAt(o, s, p) == Error(InvalidChar))
      && (r.Run? ==> LexAt(o, s, p) == LexAt(o, s, r.end))
    ensures p < |s| && !IsSpace(s[p]) && !(s[p] == SLASH && o.allowComments) ==>
      var r := ScanToken(o, s, p);
      && (r.More? ==> LexAt(o, s, p) == Eof(p))
      && (r.Bad? ==> LexAt(o, s, p) == Error(r.err))
      && (r.Done? ==> LexAt(o, s, p) == Token(r.tok, p, r.end))
  {
    hide ScanComment, ScanToken;
  }

  lemma PowerOver(s: bytes)
    ensures forall p | p >= |s| :: ScanPower(s, p) == More
  {
  }

  lemma UnsignedOver(s: bytes)
    ensures forall p | p >= |s| :: ScanUnsigned(s, p) == More
  {
  }

  lemma FractionOver(s: bytes)
    ensures forall p | p >= |s| :: ScanFraction(s, p) == More
  {
  }

  lemma DigitsOver(s: bytes, p: nat)
    requires p >= |s|
    ensures Digits(s, p) >= |s|
  {
  }

  lemma {:induction false} PlainSkipped(s: bytes, p: nat, q: nat, validate: bool, escapes: bool)
    requires p <= q <= |s| && forall i | p <= i < q :: IsPlain(s[i], validate)
    ensures ScanString(s, p, validate, escapes) == ScanString(s, q, validate, escapes)
    decreases q - p
  {
    if p < q { PlainSkipped(s, p + 1, q, validate, escapes); }
  }
}
