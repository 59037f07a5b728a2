/** Known encodings, one at each end of every opcode family, in every context
    (libs/bysant/bysants.c:153-213 and 289-456, libs/bysant/bysant_common.c:19-73). */
module BysantOpcodes {
  import opened Bytes
  import opened BysantCommon
  import opened BysantEncoding

  /** Integers of one byte. */
  lemma GlobalTiny()
    ensures IntegerBytes(-31, GLOBAL_INTEGER) == [0x80]
    ensures IntegerBytes(64, GLOBAL_INTEGER) == [0xdf]
    ensures IntegerBytes(0, GLOBAL_INTEGER) == [0x9f]
  {
  }

  /** Integers of two bytes. */
  lemma GlobalSmall()
    ensures IntegerBytes(-2079, GLOBAL_INTEGER) == [0xef, 0xff]
    ensures IntegerBytes(2112, GLOBAL_INTEGER) == [0xe7, 0xff]
    ensures IntegerBytes(-32, GLOBAL_INTEGER) == [0xe8, 0x00]
    ensures IntegerBytes(65, GLOBAL_INTEGER) == [0xe0, 0x00]
  {
  }

  /** Integers of three bytes. */
  lemma GlobalMedium()
    ensures IntegerBytes(-264223, GLOBAL_INTEGER) == [0xf7, 0xff, 0xff]
    ensures IntegerBytes(264256, GLOBAL_INTEGER) == [0xf3, 0xff, 0xff]
    ensures IntegerBytes(-2080, GLOBAL_INTEGER) == [0xf4, 0x00, 0x00]
    ensures IntegerBytes(2113, GLOBAL_INTEGER) == [0xf0, 0x00, 0x00]
  {
  }

  /** Integers of four bytes. */
  lemma GlobalLarge()
    ensures IntegerBytes(-33818655, GLOBAL_INTEGER) == [0xfb, 0xff, 0xff, 0xff]
    ensures IntegerBytes(33818688, GLOBAL_INTEGER) == [0xf9, 0xff, 0xff, 0xff]
    ensures IntegerBytes(-264224, GLOBAL_INTEGER) == [0xfa, 0x00, 0x00, 0x00]
    ensures IntegerBytes(264257, GLOBAL_INTEGER) == [0xf8, 0x00, 0x00, 0x00]
  {
  }

  /** Wider integers, with the highest byte first. */
  lemma GlobalWide(x: int)
    requires x < -33818655 || x > 33818688
    ensures -0x8000_0000 <= x < 0x8000_0000 ==> IntegerBytes(x, GLOBAL_INTEGER) == [0xfc] + BigEndian(x, 4)
    ensures x < -0x8000_0000 || x >= 0x8000_0000 ==> IntegerBytes(x, GLOBAL_INTEGER) == [0xfd] + BigEndian(x, 8)
  {
  }

  /** Integers of one byte. */
  lemma NumberTiny()
    ensures IntegerBytes(-97, NUMBER_INTEGER) == [0x01]
    ensures IntegerBytes(97, NUMBER_INTEGER) == [0xc3]
    ensures IntegerBytes(0, NUMBER_INTEGER) == [0x62]
  {
  }

  /** Integers of two bytes. */
  lemma NumberSmall()
    ensures IntegerBytes(-4193, NUMBER_INTEGER) == [0xe3, 0xff]
    ensures IntegerBytes(4193, NUMBER_INTEGER) == [0xd3, 0xff]
    ensures IntegerBytes(-98, NUMBER_INTEGER) == [0xd4, 0x00]
    ensures IntegerBytes(98, NUMBER_INTEGER) == [0xc4, 0x00]
  {
  }

  /** Integers of three bytes. */
  lemma NumberMedium()
    ensures IntegerBytes(-528481, NUMBER_INTEGER) == [0xf3, 0xff, 0xff]
    ensures IntegerBytes(528481, NUMBER_INTEGER) == [0xeb, 0xff, 0xff]
    ensures IntegerBytes(-4194, NUMBER_INTEGER) == [0xec, 0x00, 0x00]
    ensures IntegerBytes(4194, NUMBER_INTEGER) == [0xe4, 0x00, 0x00]
  {
  }

  /** Integers of four bytes. */
  lemma NumberLarge()
    ensures IntegerBytes(-67637345, NUMBER_INTEGER) == [0xfb, 0xff, 0xff, 0xff]
    ensures IntegerBytes(67637345, NUMBER_INTEGER) == [0xf7, 0xff, 0xff, 0xff]
    ensures IntegerBytes(-528482, NUMBER_INTEGER) == [0xf8, 0x00, 0x00, 0x00]
    ensures IntegerBytes(528482, NUMBER_INTEGER) == [0xf4, 0x00, 0x00, 0x00]
  {
  }

  /** Wider integers, with the highest byte first. */
  lemma NumberWide(x: int)
    requires x < -67637345 || x > 67637345
    ensures -0x8000_0000 <= x < 0x8000_0000 ==> IntegerBytes(x, NUMBER_INTEGER) == [0xfc] + BigEndian(x, 4)
    ensures x < -0x8000_0000 || x >= 0x8000_0000 ==> IntegerBytes(x, NUMBER_INTEGER) == [0xfd] + BigEndian(x, 8)
  {
  }

  /** Unsigned integers of one to five bytes. */
  lemma Unsigned()
    ensures UnsignedBytes(0) == [0x3b]
    ensures UnsignedBytes(139) == [0xc6]
    ensures UnsignedBytes(140) == [0xc7, 0x00]
    ensures UnsignedBytes(8331) == [0xe6, 0xff]
    ensures UnsignedBytes(8332) == [0xe7, 0x00, 0x00]
    ensures UnsignedBytes(1056907) == [0xf6, 0xff, 0xff]
    ensures UnsignedBytes(1056908) == [0xf7, 0x00, 0x00, 0x00]
    ensures UnsignedBytes(135274635) == [0xfe, 0xff, 0xff, 0xff]
    ensures UnsignedBytes(135274636) == [0xff] + BigEndian(135274636, 4)
  {
  }

  /** The highest byte comes first, and a negative number is its complement. */
  lemma Highest()
    ensures BigEndian(0x0102_0304, 4) == [1, 2, 3, 4]
    ensures BigEndian(-2, 4) == [0xff, 0xff, 0xff, 0xfe]
  {
    BigEndian4(0x0102_0304);
    BigEndian4(-2);
  }

  lemma BigEndian4(x: int)
    ensures BigEndian(x, 4) == [Low(x / 256 / 256 / 256), Low(x / 256 / 256), Low(x / 256), Low(x)]
  {
    assert BigEndian(x, 0) == [] && Shr8(x, 0) == x && Shr8(x, 1) == x / 256 && Shr8(x, 2) == x / 256 / 256;
    assert BigEndian(x, 1) == [Low(x)];
    assert BigEndian(x, 2) == [Low(x / 256), Low(x)];
    assert BigEndian(x, 3) == [Low(x / 256 / 256), Low(x / 256), Low(x)];
  }

  /** The fixed-width context: null has a pattern of its own, and the integer that has it too is told apart. */
  lemma FixedWidth()
    ensures Int32Bytes(1) == BigEndian(1, 4)
    ensures Int32Bytes(-0x8000_0000) == BigEndian(-0x8000_0000, 4) + [1]
    ensures NullBytes(CTX_INT32) == [0x80, 0, 0, 0, 0]
    ensures NullBytes(CTX_GLOBAL) == [0] && NullBytes(CTX_UIS) == [0] && NullBytes(CTX_NUMBER) == [0] && NullBytes(CTX_LISTMAP) == [0]
    ensures NullBytes(CTX_FLOAT) == [0xff, 0xff, 0xff, 0xff, 0]
    ensures NullBytes(CTX_DOUBLE) == [0xff, 0xff, 0xff, 0xff, 0xff, 0xff, 0xff, 0xff, 0]
  {
  }

  /** Strings with the length in the opcode or on one more byte. */
  lemma GlobalStrings(data: bytes)
    ensures |data| == 0 ==> StringBytes(data, GLOBAL_STRING) == [0x03] + data
    ensures |data| == 32 ==> StringBytes(data, GLOBAL_STRING) == [0x23] + data
    ensures |data| == 33 ==> StringBytes(data, GLOBAL_STRING) == [0x24, 0] + data
    ensures |data| == 1056 ==> StringBytes(data, GLOBAL_STRING) == [0x27, 0xff] + data
  {
    hide ChunksBytes;
  }

  /** Strings with the length on two more bytes. */
  lemma GlobalLongStrings(data: bytes)
    ensures |data| == 1057 ==> StringBytes(data, GLOBAL_STRING) == [0x28, 0, 0] + data
    ensures |data| == 66592 ==> StringBytes(data, GLOBAL_STRING) == [0x28, 0xff, 0xff] + data
  {
    hide ChunksBytes;
  }

  /** Longer strings, in pieces between an opcode and an empty piece. */
  lemma GlobalPiecedStrings(data: bytes)
    requires |data| > 66592
    ensures StringBytes(data, GLOBAL_STRING) == [0x29] + ChunksBytes(data) + [0, 0]
  {
    hide ChunksBytes;
  }

  /** Strings with the length in the opcode or on one more byte. */
  lemma KeyStrings(data: bytes)
    ensures |data| == 0 ==> StringBytes(data, UIS_STRING) == [0x01] + data
    ensures |data| == 47 ==> StringBytes(data, UIS_STRING) == [0x30] + data
    ensures |data| == 48 ==> StringBytes(data, UIS_STRING) == [0x31, 0] + data
    ensures |data| == 2095 ==> StringBytes(data, UIS_STRING) == [0x38, 0xff] + data
  {
    hide ChunksBytes;
  }

  /** Strings with the length on two more bytes. */
  lemma KeyLongStrings(data: bytes)
    ensures |data| == 2096 ==> StringBytes(data, UIS_STRING) == [0x39, 0, 0] + data
    ensures |data| == 67631 ==> StringBytes(data, UIS_STRING) == [0x39, 0xff, 0xff] + data
  {
    hide ChunksBytes;
  }

  /** Longer strings, in pieces between an opcode and an empty piece. */
  lemma KeyPiecedStrings(data: bytes)
    requires |data| > 67631
    ensures StringBytes(data, UIS_STRING) == [0x3a] + ChunksBytes(data) + [0, 0]
  {
    hide ChunksBytes;
  }

  /** Pieces of a chunked string: the length on two bytes, the highest first. */
  lemma ChunkHeaders(data: bytes)
    ensures |data| == 1 ==> ChunksBytes(data) == [0, 1] + data
    ensures |data| == 0x1234 ==> ChunksBytes(data) == [0x12, 0x34] + data
    ensures |data| == 0x1_0000 ==> ChunksBytes(data) == [0xff, 0xff] + data[..0xffff] + [0, 1] + data[0xffff..]
  {
    if |data| == 0x1_0000 {
      var rest := data[0xffff..];
      assert ChunksBytes(rest) == [0, 1] + rest;
    }
  }

  /** Empty, small, long and variable, each with and without a context for the children. */
  lemma GlobalList()
    ensures CollectionBytes(0, 0, GLOBAL_LIST) == [0x2a]
    ensures CollectionBytes(0, 2, GLOBAL_LIST) == [0x2a]
    ensures CollectionBytes(1, 0, GLOBAL_LIST) == [0x2b]
    ensures CollectionBytes(9, 0, GLOBAL_LIST) == [0x33]
    ensures CollectionBytes(1, 2, GLOBAL_LIST) == [0x36, 0x02]
    ensures CollectionBytes(9, 2, GLOBAL_LIST) == [0x3e, 0x02]
    ensures CollectionBytes(10, 0, GLOBAL_LIST) == [0x34, 0x3b]
    ensures CollectionBytes(10, 2, GLOBAL_LIST) == [0x3f, 0x3b, 0x02]
    ensures CollectionBytes(-1, 0, GLOBAL_LIST) == [0x35]
    ensures CollectionBytes(-1, 2, GLOBAL_LIST) == [0x40, 0x02]
  {
  }

  /** Empty, small, long and variable, each with and without a context for the children. */
  lemma GlobalMap()
    ensures CollectionBytes(0, 0, GLOBAL_MAP) == [0x41]
    ensures CollectionBytes(0, 2, GLOBAL_MAP) == [0x41]
    ensures CollectionBytes(1, 0, GLOBAL_MAP) == [0x42]
    ensures CollectionBytes(9, 0, GLOBAL_MAP) == [0x4a]
    ensures CollectionBytes(1, 2, GLOBAL_MAP) == [0x4d, 0x02]
    ensures CollectionBytes(9, 2, GLOBAL_MAP) == [0x55, 0x02]
    ensures CollectionBytes(10, 0, GLOBAL_MAP) == [0x4b, 0x3b]
    ensures CollectionBytes(10, 2, GLOBAL_MAP) == [0x56, 0x3b, 0x02]
    ensures CollectionBytes(-1, 0, GLOBAL_MAP) == [0x4c]
    ensures CollectionBytes(-1, 2, GLOBAL_MAP) == [0x57, 0x02]
  {
  }

  /** Empty, small, long and variable, each with and without a context for the children. */
  lemma ListmapList()
    ensures CollectionBytes(0, 0, LISTMAP_LIST) == [0x01]
    ensures CollectionBytes(0, 2, LISTMAP_LIST) == [0x01]
    ensures CollectionBytes(1, 0, LISTMAP_LIST) == [0x02]
    ensures CollectionBytes(60, 0, LISTMAP_LIST) == [0x3d]
    ensures CollectionBytes(1, 2, LISTMAP_LIST) == [0x40, 0x02]
    ensures CollectionBytes(60, 2, LISTMAP_LIST) == [0x7b, 0x02]
    ensures CollectionBytes(61, 0, LISTMAP_LIST) == [0x3e, 0x3b]
    ensures CollectionBytes(61, 2, LISTMAP_LIST) == [0x7c, 0x3b, 0x02]
    ensures CollectionBytes(-1, 0, LISTMAP_LIST) == [0x3f]
    ensures CollectionBytes(-1, 2, LISTMAP_LIST) == [0x7d, 0x02]
  {
  }

  /** Empty, small, long and variable, each with and without a context for the children. */
  lemma ListmapMap()
    ensures CollectionBytes(0, 0, LISTMAP_MAP) == [0x83]
    ensures CollectionBytes(0, 2, LISTMAP_MAP) == [0x83]
    ensures CollectionBytes(1, 0, LISTMAP_MAP) == [0x84]
    ensures CollectionBytes(60, 0, LISTMAP_MAP) == [0xbf]
    ensures CollectionBytes(1, 2, LISTMAP_MAP) == [0xc2, 0x02]
    ensures CollectionBytes(60, 2, LISTMAP_MAP) == [0xfd, 0x02]
    ensures CollectionBytes(61, 0, LISTMAP_MAP) == [0xc0, 0x3b]
    ensures CollectionBytes(61, 2, LISTMAP_MAP) == [0xfe, 0x3b, 0x02]
    ensures CollectionBytes(-1, 0, LISTMAP_MAP) == [0xc1]
    ensures CollectionBytes(-1, 2, LISTMAP_MAP) == [0xff, 0x02]
  {
  }

  /** Objects: sixteen classes in the opcode, the others after it. */
  lemma Objects()
    ensures ObjectBytes(0) == [0x60]
    ensures ObjectBytes(15) == [0x6f]
    ensures ObjectBytes(16) == [0x70, 0x3b]
    ensures ObjectBytes(17) == [0x70, 0x3c]
  {
  }
}
