/** Escaping and unescaping of strings (libs/yajl/yajl_encode.c). */
module YajlString {
  import opened Bytes
  import opened Numerals
  import opened YajlLex

  // ----- escaping

  function HexDigit(n: nat): (c: byte)
    requires n < 16
    ensures IsHex(c)
  {
    if n < 10 then ZERO + n else 0x41 + n - 10
  }

  /** The bytes that stand for c in a string. */
  function Escape(c: byte, solidus: bool): (e: bytes)
    ensures e != []
  {
    if c == 0x0d then [BACKSLASH, 0x72]
    else if c == 0x0a then [BACKSLASH, 0x6e]
    else if c == BACKSLASH then [BACKSLASH, BACKSLASH]
    else if c == SLASH && solidus then [BACKSLASH, SLASH]
    else if c == QUOTE then [BACKSLASH, QUOTE]
    else if c == 0x0c then [BACKSLASH, 0x66]
    else if c == 0x08 then [BACKSLASH, 0x62]
    else if c == 0x09 then [BACKSLASH, 0x74]
    else if c < 32 then [BACKSLASH, 0x75, ZERO, ZERO, HexDigit(c / 16), HexDigit(c % 16)]
    else [c]
  }

  function Encode(s: bytes, solidus: bool): bytes
    decreases |s|
  {
    if s == [] then [] else Escape(s[0], solidus) + Encode(s[1..], solidus)
  }

  lemma EncodeStep(s: bytes, k: nat, solidus: bool)
    requires k < |s|
    ensures Encode(s[k..], solidus) == Escape(s[k], solidus) + Encode(s[k + 1..], solidus)
  {
    assert s[k..][1..] == s[k + 1..];
  }

  lemma {:induction false} EncodePlain(s: bytes, beg: nat, end: nat, solidus: bool)
    requires beg <= end <= |s| && forall i | beg <= i < end :: Escape(s[i], solidus) == [s[i]]
    ensures Encode(s[beg..], solidus) == s[beg..end] + Encode(s[end..], solidus)
    decreases end - beg
  {
    hide Escape, Encode;
    if beg < end {
      EncodeStep(s, beg, solidus);
      EncodePlain(s, beg + 1, end, solidus);
      assert [s[beg]] + (s[beg + 1..end] + Encode(s[end..], solidus)) == s[beg..end] + Encode(s[end..], solidus);
    } else {
      assert s[beg..end] == [];
    }
  }

  /** `yajl_string_encode`: runs of plain characters are printed at once. */
  method StringEncode(str: bytes, solidus: bool) returns (out: bytes)
    ensures out == Encode(str, solidus)
  {
    hide Encode, Escape;
    out := [];
    var beg, end := 0, 0;
    assert str[0..] == str;
    while end < |str|
      invariant 0 <= beg <= end <= |str|
      invariant out + Encode(str[beg..], solidus) == Encode(str, solidus)
      invariant forall i | beg <= i < end :: Escape(str[i], solidus) == [str[i]]
    {
      var e := Escape(str[end], solidus);
      if e != [str[end]] {
        EncodePlain(str, beg, end, solidus);
        EncodeStep(str, end, solidus);
        Associate(out, str[beg..end], e, Encode(str[end + 1..], solidus));
        out := out + str[beg..end];
        out := out + e;
        end := end + 1;
        beg := end;
      } else {
        end := end + 1;
      }
    }
    EncodePlain(str, beg, end, solidus);
    EncodeNone(str[end..], solidus);
    assert str[beg..end] + [] == str[beg..end];
    out := out + str[beg..end];
  }

  lemma Associate(a: bytes, b: bytes, c: bytes, d: bytes)
    ensures a + (b + (c + d)) == a + b + c + d
  {
  }

  lemma EncodeNone(s: bytes, solidus: bool)
    requires |s| == 0
    ensures Encode(s, solidus) == []
  {
  }

  // ----- unescaping

  function HexVal(c: byte): (v: nat)
    ensures v < 16
  {
    if IsDigit(c) then c - ZERO
    else if 0x41 <= c <= 0x46 then c - 0x41 + 10
    else if 0x61 <= c <= 0x66 then c - 0x61 + 10
    else 0
  }

  /** The character at i; a string is followed by its closing quote. */
  function Ch(s: bytes, i: nat): byte {
    if i < |s| then s[i] else QUOTE
  }

  function Hex4(s: bytes, i: nat): (v: nat)
    ensures v < 0x1_0000
  {
    ((HexVal(Ch(s, i)) * 16 + HexVal(Ch(s, i + 1))) * 16 + HexVal(Ch(s, i + 2))) * 16 + HexVal(Ch(s, i + 3))
  }

  function Utf32ToUtf8(cp: nat): (r: bytes)
    ensures r != []
  {
    if cp < 0x80 then [cp]
    else if cp < 0x800 then [0xc0 + cp / 0x40, 0x80 + cp % 0x40]
    else if cp < 0x1_0000 then [0xe0 + cp / 0x1000, 0x80 + cp / 0x40 % 0x40, 0x80 + cp % 0x40]
    else if cp < 0x20_0000 then
      [0xf0 + cp / 0x4_0000, 0x80 + cp / 0x1000 % 0x40, 0x80 + cp / 0x40 % 0x40, 0x80 + cp % 0x40]
    else [0x3f]
  }

  /** The code point of a surrogate pair. */
  function Pair(high: nat, low: nat): nat {
    high % 0x40 * 0x400 + (high / 0x40 % 0x10 + 1) * 0x1_0000 + low % 0x400
  }

  datatype Piece = Piece(text: bytes, size: nat)

  /** The escape at the beginning of s: the text it stands for and its size. A high
      surrogate without a second escape gives a question mark and takes the
      character after it. */
  function Unescape(s: bytes): (p: Piece)
    requires |s| > 0 && s[0] == BACKSLASH
    ensures p.size > 0
  {
    var c := Ch(s, 1);
    if c == 0x72 then Piece([0x0d], 2)
    else if c == 0x6e then Piece([0x0a], 2)
    else if c == BACKSLASH then Piece([BACKSLASH], 2)
    else if c == SLASH then Piece([SLASH], 2)
    else if c == QUOTE then Piece([QUOTE], 2)
    else if c == 0x66 then Piece([0x0c], 2)
    else if c == 0x62 then Piece([0x08], 2)
    else if c == 0x74 then Piece([0x09], 2)
    else if c == 0x75 then
      var cp := Hex4(s, 2);
      if cp / 0x400 != 0x36 then Piece(Utf32ToUtf8(cp), 6)
      else if Ch(s, 6) == BACKSLASH && Ch(s, 7) == 0x75 then Piece(Utf32ToUtf8(Pair(cp, Hex4(s, 8))), 12)
      else Piece([0x3f], 7)
    else Piece([0x3f], 2)
  }

  function Drop(s: bytes, n: nat): bytes {
    if n <= |s| then s[n..] else []
  }

  function Decode(s: bytes): bytes
    decreases |s|
  {
    if s == [] then []
    else if s[0] != BACKSLASH then [s[0]] + Decode(s[1..])
    else Unescape(s).text + Decode(Drop(s, Unescape(s).size))
  }

  lemma EscapeUndone(c: byte, solidus: bool, rest: bytes)
    ensures var e := Escape(c, solidus);
            if e == [c] then c != BACKSLASH else e[0] == BACKSLASH && Unescape(e + rest) == Piece([c], |e|)
  {
    var e := Escape(c, solidus);
    if c < 32 && |e| == 6 {
      assert Hex4(e + rest, 2) == c;
    }
  }

  /** Unescaping undoes escaping, on every byte string. */
  lemma {:induction false} DecodeEncode(s: bytes, solidus: bool)
    ensures Decode(Encode(s, solidus)) == s
    decreases |s|
  {
    if s != [] {
      hide Escape, Unescape;
      var e, rest := Escape(s[0], solidus), Encode(s[1..], solidus);
      DecodeEncode(s[1..], solidus);
      EscapeUndone(s[0], solidus, rest);
      assert e + rest == Encode(s, solidus) && (e + rest)[|e|..] == rest;
    }
  }

  // ----- the unescaping loop

  method HexToDigit(str: bytes, at: nat) returns (v: nat)
    ensures v == Hex4(str, at)
  {
    v := 0;
    for i := 0 to 4
      invariant i == 0 ==> v == 0
      invariant i == 1 ==> v == HexVal(Ch(str, at))
      invariant i == 2 ==> v == HexVal(Ch(str, at)) * 16 + HexVal(Ch(str, at + 1))
      invariant i == 3 ==> v == (HexVal(Ch(str, at)) * 16 + HexVal(Ch(str, at + 1))) * 16 + HexVal(Ch(str, at + 2))
      invariant i == 4 ==> v == Hex4(str, at)
    {
      v := v * 16 + HexVal(Ch(str, at + i));
    }
  }

  lemma ChFrom(s: bytes, k: nat, i: nat)
    requires k <= |s|
    ensures Ch(s[k..], i) == Ch(s, k + i)
  {
  }

  lemma Hex4From(s: bytes, k: nat, i: nat)
    requires k <= |s|
    ensures Hex4(s[k..], i) == Hex4(s, k + i)
  {
    hide HexVal, Ch;
    ChFrom(s, k, i);
    ChFrom(s, k, i + 1);
    ChFrom(s, k, i + 2);
    ChFrom(s, k, i + 3);
  }

  /** The escape at the backslash at end; gives the text and the next place. */
  method UnescapeAt(str: bytes, at: nat) returns (text: bytes, end: nat)
    requires at < |str| && str[at] == BACKSLASH
    ensures end > at && Piece(text, end - at) == Unescape(str[at..])
  {
    hide Hex4, Utf32ToUtf8, Pair;
    text, end := [0x3f], at + 1;
    ChFrom(str, at, 1);
    var c := Ch(str, end);
    if c == 0x72 { text := [0x0d]; }
    else if c == 0x6e { text := [0x0a]; }
    else if c == BACKSLASH { text := [BACKSLASH]; }
    else if c == SLASH { text := [SLASH]; }
    else if c == QUOTE { text := [QUOTE]; }
    else if c == 0x66 { text := [0x0c]; }
    else if c == 0x62 { text := [0x08]; }
    else if c == 0x74 { text := [0x09]; }
    else if c == 0x75 {
      end := end + 1;
      var cp := HexToDigit(str, end);
      Hex4From(str, at, 2);
      Hex4From(str, at, 8);
      ChFrom(str, at, 6);
      ChFrom(str, at, 7);
      end := end + 3;
      if cp / 0x400 == 0x36 {
        end := end + 1;
        if Ch(str, end) == BACKSLASH && Ch(str, end + 1) == 0x75 {
          var low := HexToDigit(str, end + 2);
          cp := Pair(cp, low);
          end := end + 5;
          text := Utf32ToUtf8(cp);
        }
      } else {
        text := Utf32ToUtf8(cp);
      }
    }
    end := end + 1;
  }

  lemma DecodeStep(s: bytes, k: nat)
    requires k < |s|
    ensures s[k] != BACKSLASH ==> Decode(s[k..]) == [s[k]] + Decode(s[k + 1..])
    ensures s[k] == BACKSLASH ==>
      var p := Unescape(s[k..]); Decode(s[k..]) == p.text + Decode(Drop(s, k + p.size))
  {
    hide Unescape;
    assert s[k..][1..] == s[k + 1..];
    if s[k] == BACKSLASH {
      var n := Unescape(s[k..]).size;
      assert Drop(s[k..], n) == Drop(s, k + n);
    }
  }

  lemma {:induction false} DecodePlain(s: bytes, beg: nat, end: nat)
    requires beg <= end <= |s| && forall i | beg <= i < end :: s[i] != BACKSLASH
    ensures Decode(s[beg..]) == s[beg..end] + Decode(s[end..])
    decreases end - beg
  {
    hide Decode;
    if beg < end {
      DecodeStep(s, beg);
      DecodePlain(s, beg + 1, end);
      assert [s[beg]] + (s[beg + 1..end] + Decode(s[end..])) == s[beg..end] + Decode(s[end..]);
    } else {
      assert s[beg..end] == [];
    }
  }

  lemma DecodeNone(s: bytes)
    requires |s| == 0
    ensures Decode(s) == []
  {
  }

  /** `yajl_string_decode`: runs without escapes are copied at once. */
  method StringDecode(str: bytes) returns (out: bytes)
    ensures out == Decode(str)
  {
    hide Decode, Unescape;
    out := [];
    var beg, end := 0, 0;
    assert str[0..] == str;
    while end < |str|
      invariant 0 <= beg <= end && (beg < end ==> end <= |str|)
      invariant out + Decode(Drop(str, beg)) == Decode(str)
      invariant forall i | beg <= i < end :: str[i] != BACKSLASH
      decreases |str| - end
    {
      if str[end] == BACKSLASH {
        DecodePlain(str, beg, end);
        DecodeStep(str, end);
        var text, next := UnescapeAt(str, end);
        Associate(out, str[beg..end], text, Decode(Drop(str, next)));
        out := out + str[beg..end];
        out := out + text;
        end := next;
        beg := next;
      } else {
        end := end + 1;
      }
    }
    if beg < end {
      DecodePlain(str, beg, end);
      out := out + str[beg..end];
    }
    DecodeNone(Drop(str, end));
  }

  // ----- validation

  /** s[p..] is a sequence of UTF-8 characters. */
  predicate IsUtf8(s: bytes, p: nat)
    decreases |s| - p
  {
    p >= |s| ||
    (Follow(s[p]) >= 0 && ScanUtf8(s, p + 1, Follow(s[p])).Run? && IsUtf8(s, p + 1 + Follow(s[p])))
  }

  /** `yajl_string_validate_utf8`. */
  method ValidateUtf8(s: bytes) returns (ok: bool)
    ensures ok <==> IsUtf8(s, 0)
  {
    hide IsContinuation;
    var p := 0;
    while p < |s|
      invariant IsUtf8(s, p) == IsUtf8(s, 0)
      decreases |s| - p
    {
      if s[p] <= 0x7f {
      } else if s[p] / 32 == 0x6 {
        p := p + 1;
        if p >= |s| || !IsContinuation(s[p]) { return false; }
      } else if s[p] / 16 == 0xe {
        p := p + 1;
        if p >= |s| || !IsContinuation(s[p]) { return false; }
        p := p + 1;
        if p >= |s| || !IsContinuation(s[p]) { return false; }
      } else if s[p] / 8 == 0x1e {
        p := p + 1;
        if p >= |s| || !IsContinuation(s[p]) { return false; }
        p := p + 1;
        if p >= |s| || !IsContinuation(s[p]) { return false; }
        p := p + 1;
        if p >= |s| || !IsContinuation(s[p]) { return false; }
      } else {
        return false;
      }
      p := p + 1;
    }
    ok := true;
  }
}
