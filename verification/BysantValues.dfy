/** Decoding undoes encoding, value by value: integers, strings, collection
    headers. Each lemma also fixes the exact number of bytes read, and, on a
    truncated buffer, the number of bytes asked for. */
module BysantValues {
  import opened Bytes
  import opened Arithmetic
  import opened BysantCommon
  import opened BysantEncoding
  import D = BysantDecoding

  lemma UnsignedStep(buffer: bytes, from: nat, n: nat)
    ensures D.Unsigned(buffer, from, n + 1) == D.Unsigned(buffer, from, n) * 256 + D.At(buffer, from + n)
  {
  }

  lemma Mod16(x: int)
    ensures x % 0x1_0000 == (x / 0x100 % 0x100) * 0x100 + x % 0x100
    ensures x / 0x1_0000 == x / 0x100 / 0x100
  {
    DivMod(x, 0x1_0000, x / 0x100 / 0x100, (x / 0x100 % 0x100) * 0x100 + x % 0x100);
  }

  lemma Mod24(x: int)
    ensures x % 0x100_0000 == (x / 0x100 % 0x1_0000) * 0x100 + x % 0x100
    ensures x / 0x100_0000 == x / 0x100 / 0x1_0000
  {
    DivMod(x, 0x100_0000, x / 0x100 / 0x1_0000, (x / 0x100 % 0x1_0000) * 0x100 + x % 0x100);
  }

  lemma Mod32(x: int)
    ensures x % 0x1_0000_0000 == (x / 0x100 % 0x100_0000) * 0x100 + x % 0x100
    ensures x / 0x1_0000_0000 == x / 0x100 / 0x100_0000
  {
    DivMod(x, 0x1_0000_0000, x / 0x100 / 0x100_0000, (x / 0x100 % 0x100_0000) * 0x100 + x % 0x100);
  }

  lemma Mod64(x: int)
    ensures x % 0x1_0000_0000_0000_0000 == (x / 0x1_0000_0000 % 0x1_0000_0000) * 0x1_0000_0000 + x % 0x1_0000_0000
  {
    DivMod(x, 0x1_0000_0000_0000_0000, x / 0x1_0000_0000 / 0x1_0000_0000,
           (x / 0x1_0000_0000 % 0x1_0000_0000) * 0x1_0000_0000 + x % 0x1_0000_0000);
  }

  /** Reassembling the bytes of a word, most significant first. */
  lemma Word32(x: int)
    ensures ((Low(x / 0x100 / 0x100 / 0x100) * 256 + Low(x / 0x100 / 0x100)) * 256 + Low(x / 0x100)) * 256 + Low(x)
         == x % 0x1_0000_0000
  {
    Mod32(x);
    Mod24(x / 0x100);
    Mod16(x / 0x100 / 0x100);
  }

  lemma BigEndian4(x: int)
    ensures BigEndian(x, 4) == [Low(x / 0x100 / 0x100 / 0x100), Low(x / 0x100 / 0x100), Low(x / 0x100), Low(x)]
  {
    assert Shr8(x, 1) == x / 0x100 && Shr8(x, 2) == x / 0x100 / 0x100;
    assert BigEndian(x, 2) == [Low(Shr8(x, 1))] + BigEndian(x, 1);
    assert BigEndian(x, 3) == [Low(Shr8(x, 2))] + BigEndian(x, 2);
  }

  lemma Unsigned4(x: int, buffer: bytes, from: nat)
    requires from + 4 <= |buffer| && buffer[from..from + 4] == BigEndian(x, 4)
    ensures D.Unsigned(buffer, from, 4) == x % 0x1_0000_0000
  {
    BigEndian4(x);
    var b := BigEndian(x, 4);
    assert b[0] == buffer[from] && b[1] == buffer[from + 1] && b[2] == buffer[from + 2] && b[3] == buffer[from + 3];
    UnsignedStep(buffer, from, 0); UnsignedStep(buffer, from, 1);
    UnsignedStep(buffer, from, 2); UnsignedStep(buffer, from, 3);
    Word32(x);
  }

  lemma UnsignedSplit(buffer: bytes, from: nat)
    ensures D.Unsigned(buffer, from, 8) == D.Unsigned(buffer, from, 4) * 0x1_0000_0000 + D.Unsigned(buffer, from + 4, 4)
  {
    UnsignedStep(buffer, from, 4); UnsignedStep(buffer, from, 5);
    UnsignedStep(buffer, from, 6); UnsignedStep(buffer, from, 7);
    UnsignedStep(buffer, from + 4, 0); UnsignedStep(buffer, from + 4, 1);
    UnsignedStep(buffer, from + 4, 2); UnsignedStep(buffer, from + 4, 3);
  }

  lemma {:induction false} ShrSplit(x: int, k: nat)
    ensures Shr8(Shr8(x, 4), k) == Shr8(x, k + 4)
  {
    if k > 0 { ShrSplit(x, k - 1); }
  }

  lemma {:induction false} BigEndianSplit(x: int, n: nat)
    ensures BigEndian(x, n + 4) == BigEndian(Shr8(x, 4), n) + BigEndian(x, 4)
  {
    if n > 0 {
      BigEndianSplit(x, n - 1);
      ShrSplit(x, n - 1);
    }
  }

  lemma Unsigned8(x: int, buffer: bytes, from: nat)
    requires from + 8 <= |buffer| && buffer[from..from + 8] == BigEndian(x, 8)
    ensures D.Unsigned(buffer, from, 8) == x % 0x1_0000_0000_0000_0000
  {
    BigEndianSplit(x, 4);
    var hi := Shr8(x, 4);
    assert buffer[from..from + 4] == buffer[from..from + 8][..4];
    assert buffer[from + 4..from + 8] == buffer[from..from + 8][4..];
    Unsigned4(hi, buffer, from);
    Unsigned4(x, buffer, from + 4);
    UnsignedSplit(buffer, from);
    Mod64(x);
    Mod32(x); Mod24(x / 0x100); Mod16(x / 0x100 / 0x100);
    assert hi == x / 256 / 256 / 256 / 256 by {
      assert Shr8(x, 1) == x / 256;
      assert Shr8(x, 2) == x / 256 / 256;
      assert Shr8(x, 3) == x / 256 / 256 / 256;
    }
  }

  /** A buffer of which the first `length` bytes may be looked at; `e` is there
      in full. */
  ghost predicate Holds(buffer: bytes, length: int, e: bytes) {
    e <= buffer && (length < 0 || |e| <= length)
  }

  lemma Digits(o: nat)
    ensures o == o / 0x100 * 0x100 + Low(o)
    ensures o == o / 0x1_0000 * 0x1_0000 + Low(o / 0x100) * 0x100 + Low(o)
    ensures o == o / 0x100_0000 * 0x100_0000 + Low(o / 0x1_0000) * 0x1_0000 + Low(o / 0x100) * 0x100 + Low(o)
  {
    Mod16(o);
    Mod24(o);
    Mod16(o / 0x100);
  }

  lemma ShortInteger2(x: int64, enc: IntEncoding, buffer: bytes, length: int)
    requires enc == GLOBAL_INTEGER || enc == NUMBER_INTEGER
    requires enc.smallMin <= x <= enc.smallMax && !(enc.tinyMin <= x <= enc.tinyMax)
    requires Holds(buffer, length, IntegerBytes(x, enc))
    ensures D.DecodeInteger(buffer, length, enc) == D.Item(2, D.TInt(x), D.Stay)
  {
    var e := IntegerBytes(x, enc);
    var o := Offset(x, enc.tinyMin, enc.tinyMax);
    Digits(o);
    assert D.At(buffer, 0) == e[0] && D.At(buffer, 1) == e[1];
    assert e[0] == (if x < 0 then enc.smallNeg else enc.smallPos) + o / 0x100;
  }

  lemma ShortInteger3(x: int64, enc: IntEncoding, buffer: bytes, length: int)
    requires enc == GLOBAL_INTEGER || enc == NUMBER_INTEGER
    requires enc.mediumMin <= x <= enc.mediumMax && !(enc.smallMin <= x <= enc.smallMax)
    requires Holds(buffer, length, IntegerBytes(x, enc))
    ensures D.DecodeInteger(buffer, length, enc) == D.Item(3, D.TInt(x), D.Stay)
  {
    var e := IntegerBytes(x, enc);
    var o := Offset(x, enc.smallMin, enc.smallMax);
    Digits(o);
    assert D.At(buffer, 0) == e[0] && D.At(buffer, 1) == e[1] && D.At(buffer, 2) == e[2];
    assert e[0] == (if x < 0 then enc.mediumNeg else enc.mediumPos) + o / 0x1_0000;
  }

  lemma ShortInteger4(x: int64, enc: IntEncoding, buffer: bytes, length: int)
    requires enc == GLOBAL_INTEGER || enc == NUMBER_INTEGER
    requires enc.largeMin <= x <= enc.largeMax && !(enc.mediumMin <= x <= enc.mediumMax)
    requires Holds(buffer, length, IntegerBytes(x, enc))
    ensures D.DecodeInteger(buffer, length, enc) == D.Item(4, D.TInt(x), D.Stay)
  {
    var e := IntegerBytes(x, enc);
    var o := Offset(x, enc.mediumMin, enc.mediumMax);
    Digits(o);
    assert D.At(buffer, 0) == e[0] && D.At(buffer, 1) == e[1] && D.At(buffer, 2) == e[2] && D.At(buffer, 3) == e[3];
    assert e[0] == (if x < 0 then enc.largeNeg else enc.largePos) + o / 0x100_0000;
  }

  /** Every 64-bit integer, in the global and the number contexts. */
  lemma IntegerRoundTrip(x: int64, enc: IntEncoding, buffer: bytes, length: int)
    requires enc == GLOBAL_INTEGER || enc == NUMBER_INTEGER
    requires Holds(buffer, length, IntegerBytes(x, enc))
    ensures D.DecodeInteger(buffer, length, enc) == D.Item(|IntegerBytes(x, enc)|, D.TInt(x), D.Stay)
  {
    var e := IntegerBytes(x, enc);
    if enc.tinyMin <= x <= enc.tinyMax {
      assert D.At(buffer, 0) == e[0];
    } else if enc.smallMin <= x <= enc.smallMax {
      ShortInteger2(x, enc, buffer, length);
    } else if enc.mediumMin <= x <= enc.mediumMax {
      ShortInteger3(x, enc, buffer, length);
    } else if enc.largeMin <= x <= enc.largeMax {
      ShortInteger4(x, enc, buffer, length);
    } else if -0x8000_0000 <= x < 0x8000_0000 {
      assert buffer[1..5] == e[1..5] == BigEndian(x, 4);
      assert D.At(buffer, 0) == e[0];
      Unsigned4(x, buffer, 1);
    } else {
      assert buffer[1..9] == e[1..9] == BigEndian(x, 8);
      assert D.At(buffer, 0) == e[0];
      Unsigned8(x, buffer, 1);
    }
  }

  /** The first byte alone fixes how many bytes an integer takes. */
  lemma SizeFromOpcode(b1: bytes, b2: bytes, length: nat, enc: IntEncoding)
    requires D.At(b1, 0) == D.At(b2, 0)
    requires 1 <= length < D.DecodeInteger(b1, -1, enc).n
    ensures D.DecodeInteger(b2, length, enc).n == -D.DecodeInteger(b1, -1, enc).n
  {
  }

  /** A truncated integer, of one byte or more, tells how many bytes it needs. */
  lemma IntegerPrefix(x: int64, enc: IntEncoding, length: nat)
    requires enc == GLOBAL_INTEGER || enc == NUMBER_INTEGER
    requires 1 <= length < |IntegerBytes(x, enc)|
    ensures D.DecodeInteger(IntegerBytes(x, enc)[..length], length, enc).n == -|IntegerBytes(x, enc)|
  {
    var e := IntegerBytes(x, enc);
    IntegerRoundTrip(x, enc, e, -1);
    SizeFromOpcode(e, e[..length], length, enc);
  }

  lemma ShortUnsigned2(x: uint32, buffer: bytes, length: int, f: Frame, atLimit: bool)
    requires UTI_MAX < x <= USI_MAX
    requires Holds(buffer, length, UnsignedBytes(x))
    ensures D.DecodeUis(buffer, length, f, atLimit) == D.Item(2, D.TInt(x), D.Stay)
  {
    var e := UnsignedBytes(x);
    var o := x - (UTI_MAX + 1);
    Digits(o);
    assert D.At(buffer, 0) == e[0] && D.At(buffer, 1) == e[1];
    assert e[0] == 0xc7 + o / 0x100;
  }

  lemma ShortUnsigned3(x: uint32, buffer: bytes, length: int, f: Frame, atLimit: bool)
    requires USI_MAX < x <= UMI_MAX
    requires Holds(buffer, length, UnsignedBytes(x))
    ensures D.DecodeUis(buffer, length, f, atLimit) == D.Item(3, D.TInt(x), D.Stay)
  {
    var e := UnsignedBytes(x);
    var o := x - (USI_MAX + 1);
    Digits(o);
    assert D.At(buffer, 0) == e[0] && D.At(buffer, 1) == e[1] && D.At(buffer, 2) == e[2];
    assert e[0] == 0xe7 + o / 0x1_0000;
  }

  lemma ShortUnsigned4(x: uint32, buffer: bytes, length: int, f: Frame, atLimit: bool)
    requires UMI_MAX < x <= ULI_MAX
    requires Holds(buffer, length, UnsignedBytes(x))
    ensures D.DecodeUis(buffer, length, f, atLimit) == D.Item(4, D.TInt(x), D.Stay)
  {
    var e := UnsignedBytes(x);
    var o := x - (UMI_MAX + 1);
    Digits(o);
    assert D.At(buffer, 0) == e[0] && D.At(buffer, 1) == e[1] && D.At(buffer, 2) == e[2] && D.At(buffer, 3) == e[3];
    assert e[0] == 0xf7 + o / 0x100_0000;
  }

  /** Every 32-bit unsigned integer, in the unsigned-or-string context. */
  lemma UnsignedRoundTrip(x: uint32, buffer: bytes, length: int, f: Frame, atLimit: bool)
    requires Holds(buffer, length, UnsignedBytes(x))
    ensures D.DecodeUis(buffer, length, f, atLimit) == D.Item(|UnsignedBytes(x)|, D.TInt(x), D.Stay)
  {
    var e := UnsignedBytes(x);
    assert D.At(buffer, 0) == e[0];
    if x <= UTI_MAX {
    } else if x <= USI_MAX {
      ShortUnsigned2(x, buffer, length, f, atLimit);
    } else if x <= UMI_MAX {
      ShortUnsigned3(x, buffer, length, f, atLimit);
    } else if x <= ULI_MAX {
      ShortUnsigned4(x, buffer, length, f, atLimit);
    } else {
      assert buffer[1..5] == e[1..5] == BigEndian(x, 4);
      Unsigned4(x, buffer, 1);
    }
  }

  lemma UisSizeFromOpcode(b1: bytes, b2: bytes, length: nat, f: Frame, atLimit: bool)
    requires D.At(b1, 0) == D.At(b2, 0)
    requires D.DecodeUis(b1, -1, f, atLimit).tok.TInt?
    requires 1 <= length < D.DecodeUis(b1, -1, f, atLimit).n
    ensures D.DecodeUis(b2, length, f, atLimit).n == -D.DecodeUis(b1, -1, f, atLimit).n
  {
  }

  lemma UnsignedPrefix(x: uint32, length: nat, f: Frame, atLimit: bool)
    requires 1 <= length < |UnsignedBytes(x)|
    ensures D.DecodeUis(UnsignedBytes(x)[..length], length, f, atLimit).n == -|UnsignedBytes(x)|
  {
    var e := UnsignedBytes(x);
    UnsignedRoundTrip(x, e, -1, f, atLimit);
    UisSizeFromOpcode(e, e[..length], length, f, atLimit);
  }

  /** Every 32-bit integer in the INT32 context, the escaped one included. */
  lemma Int32RoundTrip(x: int32, buffer: bytes, length: int, f: Frame)
    requires Holds(buffer, length, Int32Bytes(x))
    ensures D.DecodeInt32(buffer, length, f) == D.Item(|Int32Bytes(x)|, D.TInt(x), D.Stay)
  {
    var e := Int32Bytes(x);
    assert buffer[0..4] == e[..4] == BigEndian(x, 4);
    Unsigned4(x, buffer, 0);
    if x == -0x8000_0000 {
      assert D.At(buffer, 4) == e[4];
    }
  }

  lemma SmallString(data: bytes, buffer: bytes, length: int, atLimit: bool, enc: StringEncoding)
    requires enc == GLOBAL_STRING || enc == UIS_STRING
    requires |data| <= enc.smallLimit
    requires Holds(buffer, length, StringBytes(data, enc))
    ensures D.DecodeString(buffer, length, atLimit, enc) == D.Item(|data| + 1, D.TString(data), D.Stay)
  {
    var e := StringBytes(data, enc);
    assert D.At(buffer, 0) == e[0] == enc.smallOp + |data|;
    assert buffer[1..1 + |data|] == e[1..1 + |data|] == data;
  }

  lemma MediumString(data: bytes, buffer: bytes, length: int, atLimit: bool, enc: StringEncoding)
    requires enc == GLOBAL_STRING || enc == UIS_STRING
    requires enc.smallLimit < |data| <= enc.mediumLimit
    requires Holds(buffer, length, StringBytes(data, enc))
    ensures D.DecodeString(buffer, length, atLimit, enc) == D.Item(|data| + 2, D.TString(data), D.Stay)
  {
    var e := StringBytes(data, enc);
    var o := |data| - (enc.smallLimit + 1);
    Digits(o);
    assert D.At(buffer, 0) == e[0] == enc.mediumOp + o / 0x100;
    assert D.At(buffer, 1) == e[1] == Low(o);
    assert buffer[2..2 + |data|] == e[2..2 + |data|] == data;
  }

  lemma LargeString(data: bytes, buffer: bytes, length: int, atLimit: bool, enc: StringEncoding)
    requires enc == GLOBAL_STRING || enc == UIS_STRING
    requires enc.mediumLimit < |data| <= enc.largeLimit
    requires Holds(buffer, length, StringBytes(data, enc))
    ensures D.DecodeString(buffer, length, atLimit, enc) == D.Item(|data| + 3, D.TString(data), D.Stay)
  {
    var e := StringBytes(data, enc);
    var o := |data| - (enc.mediumLimit + 1);
    Digits(o);
    assert D.At(buffer, 0) == e[0];
    assert D.At(buffer, 1) == e[1] == o / 0x100;
    assert D.At(buffer, 2) == e[2] == Low(o);
    assert buffer[3..3 + |data|] == e[3..3 + |data|] == data;
  }

  /** Every string up to the large limit of its context comes back whole. */
  lemma StringRoundTrip(data: bytes, buffer: bytes, length: int, atLimit: bool, enc: StringEncoding)
    requires enc == GLOBAL_STRING || enc == UIS_STRING
    requires |data| <= enc.largeLimit
    requires Holds(buffer, length, StringBytes(data, enc))
    ensures D.DecodeString(buffer, length, atLimit, enc) == D.Item(|StringBytes(data, enc)|, D.TString(data), D.Stay)
  {
    if |data| <= enc.smallLimit {
      SmallString(data, buffer, length, atLimit, enc);
    } else if |data| <= enc.mediumLimit {
      MediumString(data, buffer, length, atLimit, enc);
    } else {
      LargeString(data, buffer, length, atLimit, enc);
    }
  }

  lemma StringSizeFromHeader(b1: bytes, b2: bytes, length: nat, atLimit: bool, enc: StringEncoding)
    requires forall i | 0 <= i < 3 :: D.At(b1, i) == D.At(b2, i)
    requires D.DecodeString(b1, -1, atLimit, enc).tok.TString?
    requires 3 <= length < D.DecodeString(b1, -1, atLimit, enc).n
    ensures D.DecodeString(b2, length, atLimit, enc).n == -D.DecodeString(b1, -1, atLimit, enc).n
  {
    assert D.At(b1, 0) == D.At(b2, 0) && D.At(b1, 1) == D.At(b2, 1) && D.At(b1, 2) == D.At(b2, 2);
  }

  /** A truncated string of which three bytes are there (BSD_MINBUFFSIZE) tells
      how many bytes it needs. */
  lemma StringPrefix(data: bytes, length: nat, atLimit: bool, enc: StringEncoding)
    requires enc == GLOBAL_STRING || enc == UIS_STRING
    requires |data| <= enc.largeLimit
    requires 3 <= length < |StringBytes(data, enc)|
    ensures D.DecodeString(StringBytes(data, enc)[..length], length, atLimit, enc).n == -|StringBytes(data, enc)|
  {
    var e := StringBytes(data, enc);
    StringRoundTrip(data, e, -1, atLimit, enc);
    StringSizeFromHeader(e, e[..length], length, atLimit, enc);
  }
}
