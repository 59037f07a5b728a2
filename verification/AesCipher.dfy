/** The block cipher of openaes and its inverse, over any expanded key
    (libs/openaes/oaes_lib.c:255-444 and 1000-1231; sections 5.1 to 5.3 of
    FIPS 197). */
module AesCipher {
  import opened Bytes
  import opened AesBox
  import opened AesField

  const BLOCK: nat := 16

  type Block = b: seq<byte> | |b| == 16 witness [0, 0, 0, 0, 0, 0, 0, 0, 0, 0, 0, 0, 0, 0, 0, 0]

  function XorByte(x: byte, y: byte): byte {
    ToByte(Xor(ToBits(x), ToBits(y)))
  }

  lemma {:induction false} XorByteBack(x: byte, k: byte)
    ensures XorByte(XorByte(x, k), k) == x
  {
    hide ToByte, ToBits, Xor;
    BitsBack(Xor(ToBits(x), ToBits(k)));
    XorBack(ToBits(x), ToBits(k));
    ByteBack(x);
  }

  // ----- the steps of a round

  function AddKey(b: Block, k: Block): Block {
    seq(16, i requires 0 <= i < 16 => XorByte(b[i], k[i]))
  }

  function SubBytes(b: Block): Block {
    seq(16, i requires 0 <= i < 16 => Box(b[i]))
  }

  function InvSubBytes(b: Block): Block {
    seq(16, i requires 0 <= i < 16 => InvBox(b[i]))
  }

  /** Row i, the bytes at i modulo 4, turns left by i columns. */
  function ShiftRows(b: Block): Block {
    seq(16, i requires 0 <= i < 16 => b[5 * i % 16])
  }

  function InvShiftRows(b: Block): Block {
    seq(16, i requires 0 <= i < 16 => b[13 * i % 16])
  }

  function MixWord(w: seq<byte>): (r: seq<byte>)
    requires |w| == 4
    ensures |r| == 4
  {
    var c := MixColumn(Column(ToBits(w[0]), ToBits(w[1]), ToBits(w[2]), ToBits(w[3])));
    [ToByte(c.a), ToByte(c.b), ToByte(c.c), ToByte(c.d)]
  }

  function InvMixWord(w: seq<byte>): (r: seq<byte>)
    requires |w| == 4
    ensures |r| == 4
  {
    var c := InvMixColumn(Column(ToBits(w[0]), ToBits(w[1]), ToBits(w[2]), ToBits(w[3])));
    [ToByte(c.a), ToByte(c.b), ToByte(c.c), ToByte(c.d)]
  }

  function MixColumns(b: Block): Block {
    hide MixWord;
    MixWord(b[0..4]) + MixWord(b[4..8]) + MixWord(b[8..12]) + MixWord(b[12..16])
  }

  function InvMixColumns(b: Block): Block {
    hide InvMixWord;
    InvMixWord(b[0..4]) + InvMixWord(b[4..8]) + InvMixWord(b[8..12]) + InvMixWord(b[12..16])
  }

  lemma {:induction false} AddKeyBack(b: Block, k: Block)
    ensures AddKey(AddKey(b, k), k) == b
  {
    hide XorByte;
    forall i | 0 <= i < 16 ensures AddKey(AddKey(b, k), k)[i] == b[i] {
      XorByteBack(b[i], k[i]);
    }
  }

  lemma {:induction false} SubBytesBack(b: Block)
    ensures InvSubBytes(SubBytes(b)) == b
  {
    hide Box, InvBox;
    forall i | 0 <= i < 16 ensures InvSubBytes(SubBytes(b))[i] == b[i] {
      BoxUndone(b[i]);
    }
  }

  lemma {:induction false} ShiftRowsBack(b: Block)
    ensures InvShiftRows(ShiftRows(b)) == b
  {
    forall i | 0 <= i < 16 ensures InvShiftRows(ShiftRows(b))[i] == b[i] {
      TurnedIndex(i);
    }
  }

  lemma {:induction false} TurnedIndex(i: nat)
    requires i < 16
    ensures 5 * (13 * i % 16) % 16 == i
  {
    var q := 13 * i / 16;
    assert 5 * (13 * i % 16) == i + 16 * (4 * i - 5 * q);
  }

  lemma {:induction false} MixWordBack(w: seq<byte>)
    requires |w| == 4
    ensures InvMixWord(MixWord(w)) == w
  {
    hide MixColumn, InvMixColumn, ToBits, ToByte;
    var x := Column(ToBits(w[0]), ToBits(w[1]), ToBits(w[2]), ToBits(w[3]));
    var c := MixColumn(x);
    BitsBack(c.a);
    BitsBack(c.b);
    BitsBack(c.c);
    BitsBack(c.d);
    MixUndone(x);
    ByteBack(w[0]);
    ByteBack(w[1]);
    ByteBack(w[2]);
    ByteBack(w[3]);
  }

  lemma {:induction false} MixColumnsBack(b: Block)
    ensures InvMixColumns(MixColumns(b)) == b
  {
    hide MixWord, InvMixWord;
    var m := MixColumns(b);
    assert m[0..4] == MixWord(b[0..4]) && m[4..8] == MixWord(b[4..8]);
    assert m[8..12] == MixWord(b[8..12]) && m[12..16] == MixWord(b[12..16]);
    MixWordBack(b[0..4]);
    MixWordBack(b[4..8]);
    MixWordBack(b[8..12]);
    MixWordBack(b[12..16]);
  }

  // ----- the cipher

  /** Round keys, one after the other: at least the first and the last. */
  predicate Keys(w: bytes) {
    |w| % 16 == 0 && |w| >= 32
  }

  function RoundKey(w: bytes, i: nat): Block
    requires 16 * i + 16 <= |w|
  {
    w[16 * i..16 * i + 16]
  }

  function Half(b: Block): Block {
    ShiftRows(SubBytes(b))
  }

  function InvHalf(b: Block): Block {
    InvSubBytes(InvShiftRows(b))
  }

  lemma {:induction false} HalfBack(b: Block)
    ensures InvHalf(Half(b)) == b
  {
    hide SubBytes, InvSubBytes, ShiftRows, InvShiftRows;
    ShiftRowsBack(SubBytes(b));
    SubBytesBack(b);
  }

  /** The block after round i. */
  function Rounds(w: bytes, b: Block, i: nat): Block
    requires 16 * i + 16 <= |w|
  {
    if i == 0 then AddKey(b, RoundKey(w, 0))
    else AddKey(MixColumns(Half(Rounds(w, b, i - 1))), RoundKey(w, i))
  }

  function Cipher(w: bytes, b: Block): Block
    requires Keys(w)
  {
    var n := |w| / 16;
    AddKey(Half(Rounds(w, b, n - 2)), RoundKey(w, n - 1))
  }

  /** The block when the inverse cipher is about to undo round i - 1. */
  function Undone(w: bytes, c: Block, i: nat): Block
    requires Keys(w) && 0 < i < |w| / 16
    decreases |w| / 16 - i
  {
    var n := |w| / 16;
    if i == n - 1 then AddKey(c, RoundKey(w, n - 1))
    else InvMixColumns(AddKey(InvHalf(Undone(w, c, i + 1)), RoundKey(w, i)))
  }

  function Decipher(w: bytes, c: Block): Block
    requires Keys(w)
  {
    AddKey(InvHalf(Undone(w, c, 1)), RoundKey(w, 0))
  }

  /** The two ciphers meet between any two rounds. */
  lemma {:induction false} MeetInTheMiddle(w: bytes, b: Block, i: nat)
    requires Keys(w) && 0 < i < |w| / 16
    ensures Undone(w, Cipher(w, b), i) == Half(Rounds(w, b, i - 1))
    decreases |w| / 16 - i
  {
    hide Half, InvHalf, AddKey, MixColumns, InvMixColumns, RoundKey;
    var n := |w| / 16;
    if i == n - 1 {
      AddKeyBack(Half(Rounds(w, b, n - 2)), RoundKey(w, n - 1));
    } else {
      MeetInTheMiddle(w, b, i + 1);
      HalfBack(Rounds(w, b, i));
      var x := Half(Rounds(w, b, i - 1));
      AddKeyBack(MixColumns(x), RoundKey(w, i));
      MixColumnsBack(x);
    }
  }

  /** The inverse cipher undoes the cipher, for every block and every sequence
      of round keys. */
  lemma {:induction false} BlockBack(w: bytes, b: Block)
    requires Keys(w)
    ensures Decipher(w, Cipher(w, b)) == b
  {
    hide Half, InvHalf, AddKey, Cipher, Undone, RoundKey;
    MeetInTheMiddle(w, b, 1);
    HalfBack(Rounds(w, b, 0));
    AddKeyBack(b, RoundKey(w, 0));
  }
}
