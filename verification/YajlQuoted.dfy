/** The lexer on quoted strings: what was escaped is one string token. */
module YajlQuoted {
  import opened Bytes
  import opened YajlLex
  import opened YajlString

  lemma SitsSplit(t: bytes, p: nat, a: bytes, b: bytes)
    ensures Sits(t, p, a + b) <==> Sits(t, p, a) && Sits(t, p + |a|, b)
  {
    if Sits(t, p, a + b) {
      forall i | 0 <= i < |a| ensures t[p + i] == a[i] {
        assert (a + b)[i] == a[i];
      }
      forall i | 0 <= i < |b| ensures t[p + |a| + i] == b[i] {
        assert t[p + (|a| + i)] == (a + b)[|a| + i];
      }
    }
    if Sits(t, p, a) && Sits(t, p + |a|, b) {
      forall i | 0 <= i < |a + b| ensures t[p + i] == (a + b)[i] {
        if i >= |a| { assert t[p + |a| + (i - |a|)] == b[i - |a|]; }
      }
    }
  }

  lemma SitsHead(t: bytes, p: nat, s: bytes)
    requires Sits(t, p, s) && s != []
    ensures p < |t| && t[p] == s[0]
  {
    assert t[p + 0] == s[0];
  }

  /** The escaped form of x[k..] and the closing quote. */
  ghost predicate Follows(t: bytes, p: nat, x: bytes, k: nat, solidus: bool)
    requires k <= |x|
  {
    Sits(t, p, Encode(x[k..], solidus)) && Sits(t, p + |Encode(x[k..], solidus)|, [QUOTE])
  }

  lemma FollowsStep(t: bytes, p: nat, x: bytes, k: nat, solidus: bool)
    requires k < |x| && Follows(t, p, x, k, solidus)
    ensures var e := Escape(x[k], solidus);
            && Sits(t, p, e) && p < |t| && t[p] == e[0] && Follows(t, p + |e|, x, k + 1, solidus)
            && |Encode(x[k..], solidus)| == |e| + |Encode(x[k + 1..], solidus)|
  {
    hide Escape, Encode, Sits;
    EncodeStep(x, k, solidus);
    SitsSplit(t, p, Escape(x[k], solidus), Encode(x[k + 1..], solidus));
    SitsHead(t, p, Escape(x[k], solidus));
  }

  /** Some byte from k on is escaped. */
  predicate HasEscape(x: bytes, k: nat, solidus: bool)
    decreases |x| - k
  {
    k < |x| && (Escape(x[k], solidus) != [x[k]] || HasEscape(x, k + 1, solidus))
  }

  /** The first byte of an escaped byte. */
  lemma EscapeHead(c: byte, solidus: bool)
    ensures var e := Escape(c, solidus);
            if c >= 0x80 then e == [c] else e[0] < 0x80
  {
  }

  /** The continuation bytes of a character are the same escaped. */
  lemma {:induction false} ContinueEncoded(t: bytes, p: nat, x: bytes, k: nat, n: nat, solidus: bool)
    requires k <= |x| && Follows(t, p, x, k, solidus)
    ensures ScanUtf8(x, k, n).Run? ==>
      && ScanUtf8(t, p, n) == Run(p + n) && k + n <= |x|
      && Follows(t, p + n, x, k + n, solidus)
      && |Encode(x[k..], solidus)| == n + |Encode(x[k + n..], solidus)|
      && HasEscape(x, k, solidus) == HasEscape(x, k + n, solidus)
    ensures !ScanUtf8(x, k, n).Run? ==> ScanUtf8(t, p, n) == Off
    decreases n
  {
    hide Escape, Encode, Follows;
    if n > 0 {
      if k < |x| {
        FollowsStep(t, p, x, k, solidus);
        EscapeHead(x[k], solidus);
        if IsContinuation(x[k]) {
          ContinueEncoded(t, p + 1, x, k + 1, n - 1, solidus);
        }
      } else {
        FollowsEnd(t, p, x, solidus);
      }
    }
  }

  lemma FollowsEnd(t: bytes, p: nat, x: bytes, solidus: bool)
    requires Follows(t, p, x, |x|, solidus)
    ensures p < |t| && t[p] == QUOTE && Encode(x[|x|..], solidus) == []
  {
    EncodeNone(x[|x|..], solidus);
    SitsHead(t, p, [QUOTE]);
  }

  /** An escaped byte below 0x80 is one step of the lexer. */
  lemma CharEncoded(t: bytes, p: nat, c: byte, solidus: bool, validate: bool)
    requires Sits(t, p, Escape(c, solidus)) && (c < 0x80 || !validate)
    ensures var e := Escape(c, solidus); ScanChar(t, p, validate) == Next(p + |e|, e != [c])
  {
    var e := Escape(c, solidus);
    assert t[p] == e[0];
    if |e| > 1 {
      assert t[p + 1] == e[1];
      if |e| == 6 {
        assert t[p + 2] == e[2] && t[p + 3] == e[3] && t[p + 4] == e[4] && t[p + 5] == e[5];
        HexRun(t, p + 2);
      }
    }
  }

  lemma HexRun(t: bytes, p: nat)
    requires p + 4 <= |t| && IsHex(t[p]) && IsHex(t[p + 1]) && IsHex(t[p + 2]) && IsHex(t[p + 3])
    ensures ScanHex(t, p, 4) == Run(p + 4)
  {
    assert ScanHex(t, p + 3, 1) == Run(p + 4);
    assert ScanHex(t, p + 2, 2) == Run(p + 4);
    assert ScanHex(t, p + 1, 3) == Run(p + 4);
  }

  /** The lexer accepts the escaped form of x, up to its closing quote, exactly when
      it does not validate or x is UTF-8. */
  lemma {:induction false} ScanEncoded(t: bytes, p: nat, x: bytes, k: nat, solidus: bool, validate: bool, escapes: bool)
    requires k <= |x| && Follows(t, p, x, k, solidus)
    ensures ScanString(t, p, validate, escapes) ==
      if !validate || IsUtf8(x, k)
      then Done(StringTok(escapes || HasEscape(x, k, solidus)), p + |Encode(x[k..], solidus)| + 1)
      else Bad(InvalidUtf8)
    decreases |x| - k
  {
    hide Escape, Encode, Follows, ScanChar, ScanUtf8;
    if k == |x| {
      FollowsEnd(t, p, x, solidus);
      CloseHere(t, p, validate);
    } else {
      FollowsStep(t, p, x, k, solidus);
      var e := Escape(x[k], solidus);
      EscapeHead(x[k], solidus);
      if x[k] < 0x80 || !validate {
        CharEncoded(t, p, x[k], solidus, validate);
        ScanEncoded(t, p + |e|, x, k + 1, solidus, validate, escapes || e != [x[k]]);
        if validate { AsciiUtf8(x, k); }
      } else {
        WideChar(t, p, x[k]);
        var n := Follow(x[k]);
        if n >= 0 {
          ContinueEncoded(t, p + 1, x, k + 1, n, solidus);
          if ScanUtf8(x, k + 1, n).Run? {
            ScanEncoded(t, p + 1 + n, x, k + 1 + n, solidus, validate, escapes);
          }
        }
      }
    }
  }

  lemma CloseHere(t: bytes, p: nat, validate: bool)
    requires p < |t| && t[p] == QUOTE
    ensures ScanChar(t, p, validate) == Close
  {
  }

  lemma AsciiUtf8(x: bytes, k: nat)
    requires k < |x| && x[k] < 0x80
    ensures IsUtf8(x, k) == IsUtf8(x, k + 1)
  {
  }

  lemma WideChar(t: bytes, p: nat, c: byte)
    requires p < |t| && t[p] == c >= 0x80
    ensures ScanChar(t, p, true) == if Follow(c) < 0 then Wrong(InvalidUtf8)
                                    else RunChar(ScanUtf8(t, p + 1, Follow(c)), false, InvalidUtf8)
  {
    hide ScanUtf8;
  }

  lemma {:induction false} NothingEscaped(x: bytes, k: nat, solidus: bool)
    requires k <= |x| && !HasEscape(x, k, solidus)
    ensures Encode(x[k..], solidus) == x[k..]
    decreases |x| - k
  {
    hide Escape, Encode;
    if k < |x| {
      NothingEscaped(x, k + 1, solidus);
      EncodeStep(x, k, solidus);
    } else {
      EncodeNone(x[k..], solidus);
    }
  }

  /** The string a token stands for. */
  function StringValue(tok: Tok, text: bytes): bytes {
    if tok == TStringWithEscapes then Decode(text) else text
  }

  ghost predicate QuotedAt(t: bytes, p: nat, x: bytes, solidus: bool) {
    Sits(t, p, [QUOTE]) && Sits(t, p + 1, Encode(x, solidus)) && Sits(t, p + 1 + |Encode(x, solidus)|, [QUOTE])
  }

  lemma SitsText(t: bytes, p: nat, s: bytes)
    requires Sits(t, p, s)
    ensures p + |s| <= |t| && t[p..p + |s|] == s
  {
  }

  /** The quoted escaped form of x is one string token, ending at its closing quote
      and standing for x, exactly when x is UTF-8 or nothing is validated. */
  lemma QuotedToken(o: Options, t: bytes, p: nat, x: bytes, solidus: bool)
    requires QuotedAt(t, p, x, solidus)
    ensures var n := |Encode(x, solidus)|;
            if o.validateUTF8 && !IsUtf8(x, 0) then ScanToken(o, t, p) == Bad(InvalidUtf8)
            else
              var tok := StringTok(HasEscape(x, 0, solidus));
              && ScanToken(o, t, p) == Done(tok, p + n + 2)
              && TextOf(t, tok, p, p + n + 2) == Encode(x, solidus) && StringValue(tok, Encode(x, solidus)) == x
  {
    hide Escape, Encode, ScanString, IsUtf8, HasEscape, Decode;
    SitsHead(t, p, [QUOTE]);
    assert x[0..] == x;
    ScanEncoded(t, p + 1, x, 0, solidus, o.validateUTF8, false);
    var n, tok := |Encode(x, solidus)|, StringTok(HasEscape(x, 0, solidus));
    SitsText(t, p + 1, Encode(x, solidus));
    if tok == TString {
      NothingEscaped(x, 0, solidus);
    } else {
      DecodeEncode(x, solidus);
    }
  }
}
