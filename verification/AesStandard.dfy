/** The parts of the cipher by their places, as FIPS 197 and NIST SP 800-38A write them:
    rows, columns, the key schedule, the sequence of rounds, and the chaining
    (libs/openaes/oaes_lib.c:301-444, 547-604, 1000-1231 and 1277-1299). */
module AesStandard {
  import opened Bytes
  import opened AesBox
  import opened AesField
  import opened AesCipher
  import opened AesKey
  import opened AesMessage

  // ----- the steps of a round

  /** Digit by digit, a byte of a block differs from the one before exactly where the key
      has a digit; so block and sum give the key back. */
  lemma AddKeyIs(b: Block, k: Block, i: nat)
    requires i < 16
    ensures var (x, y, z) := (ToBits(b[i]), ToBits(k[i]), ToBits(AddKey(b, k)[i]));
            && z.b7 == (x.b7 != y.b7) && z.b6 == (x.b6 != y.b6) && z.b5 == (x.b5 != y.b5) && z.b4 == (x.b4 != y.b4)
            && z.b3 == (x.b3 != y.b3) && z.b2 == (x.b2 != y.b2) && z.b1 == (x.b1 != y.b1) && z.b0 == (x.b0 != y.b0)
  {
    hide ToBits, ToByte;
    BitsBack(Xor(ToBits(b[i]), ToBits(k[i])));
  }

  /** Row r turns left by r columns; the block holds one column after the other. */
  lemma ShiftRowsIs(b: Block, r: nat, c: nat)
    requires r < 4 && c < 4
    ensures ShiftRows(b)[r + 4 * c] == b[r + 4 * ((c + r) % 4)]
  {
    var i := r + 4 * c;
    assert 5 * i % 16 == r + 4 * ((c + r) % 4);
  }

  lemma SubBytesIs(b: Block, i: nat)
    requires i < 16
    ensures SubBytes(b)[i] == Box(b[i])
  {
  }

  function Part(w: Column, i: nat): Bits {
    if i % 4 == 0 then w.a else if i % 4 == 1 then w.b else if i % 4 == 2 then w.c else w.d
  }

  /** Every row of a mixed column: twice its own byte, three times the next, and the other two. */
  lemma MixColumnIs(w: Column, i: nat)
    requires i < 4
    ensures Part(MixColumn(w), i) ==
      Xor4(Times2(Part(w, i)), Xor(Times2(Part(w, i + 1)), Part(w, i + 1)), Part(w, i + 2), Part(w, i + 3))
  {
    hide Xor, Xor4, Times2;
    XorTurn(Mul(w.b, 2), Mul(w.c, 3), w.d, w.a);
    XorTurn(w.a, Mul(w.b, 2), Mul(w.c, 3), w.d);
    XorTurn(Mul(w.c, 2), Mul(w.d, 3), w.a, w.b);
    XorTurn(Mul(w.d, 3), w.a, w.b, Mul(w.c, 2));
    XorTurn(w.a, w.b, Mul(w.c, 2), Mul(w.d, 3));
    XorTurn(w.b, Mul(w.c, 2), Mul(w.d, 3), w.a);
    XorTurn(Mul(w.a, 3), w.b, w.c, Mul(w.d, 2));
    XorTurn(w.b, w.c, Mul(w.d, 2), Mul(w.a, 3));
    XorTurn(w.c, Mul(w.d, 2), Mul(w.a, 3), w.b);
  }

  // ----- the key schedule

  function ColumnAt(b: Block, c: nat): Column
    requires c < 4
  {
    Column(ToBits(b[4 * c]), ToBits(b[4 * c + 1]), ToBits(b[4 * c + 2]), ToBits(b[4 * c + 3]))
  }

  /** Every column is mixed in its place. */
  lemma MixColumnsIs(b: Block, c: nat)
    requires c < 4
    ensures ColumnAt(MixColumns(b), c) == MixColumn(ColumnAt(b, c))
  {
    hide MixColumn, ToBits, ToByte;
    var m := MixColumn(ColumnAt(b, c));
    BitsBack(m.a);
    BitsBack(m.b);
    BitsBack(m.c);
    BitsBack(m.d);
  }

  /** What byte j of word i is added to: the byte before, which is turned, substituted and
      given a power of x at the start of a key length, and substituted in the middle of one
      for the longest keys. */
  function Fed(nk: nat, i: nat, w: Word, j: nat): byte
    requires 0 < nk <= i && j < 4
  {
    hide Box, XorByte, ToByte, Power;
    if i % nk == 0 then XorByte(Box(w[(j + 1) % 4]), if j == 0 then ToByte(Power(i / nk - 1)) else 0)
    else if nk == 8 && i % 8 == 4 then Box(w[j])
    else w[j]
  }

  lemma StirredIs(nk: nat, i: nat, w: Word, j: nat)
    requires (nk == 4 || nk == 6 || nk == 8) && nk <= i && j < 4
    ensures Stirred(nk, i, w)[j] == Fed(nk, i, w, j)
  {
    hide Box, XorByte, ToByte, Power;
  }

  /** Byte j of word i of the schedule, from the words one and one key length before. */
  lemma KeyWordIs(key: bytes, i: nat, j: nat)
    requires KeySize(|key|) && i >= |key| / 4 && j < 4
    ensures KeyWord(key, i)[j] == XorByte(KeyWord(key, i - |key| / 4)[j], Fed(|key| / 4, i, KeyWord(key, i - 1), j))
  {
    hide Box, XorByte, ToByte, Power, Stirred, Fed;
    StirredIs(|key| / 4, i, KeyWord(key, i - 1), j);
  }

  /** The round keys lie one after the other, four words each: ten, twelve or fourteen of
      them and one more. */
  lemma RoundKeyIs(key: bytes, i: nat, j: nat)
    requires KeySize(|key|) && i < |key| / 4 + 7 && j < 4
    ensures var w := Expanded(key);
            && |w| == 16 * (|key| / 4 + 7) && RoundKey(w, i)[4 * j..4 * j + 4] == KeyWord(key, 4 * i + j)
  {
    hide KeyWord, Schedule;
    ExpandedKeys(key);
    ScheduleAt(key, 4 * (|key| / 4 + 7), 4 * i + j);
    Nested(Expanded(key), 16 * i, 4 * j);
  }

  lemma Nested(w: bytes, a: nat, b: nat)
    requires a + 16 <= |w| && b + 4 <= 16
    ensures w[a..a + 16][b..b + 4] == w[a + b..a + b + 4]
  {
    var x, y := w[a..a + 16][b..b + 4], w[a + b..a + b + 4];
    assert |x| == |y| && forall k | 0 <= k < 4 :: x[k] == y[k];
  }

  // ----- the cipher

  /** The blocks of a run of the cipher: the first key added, then for every round the four
      steps, then the last without the third. */
  ghost predicate IsRun(w: bytes, b: Block, st: seq<Block>, out: Block)
    requires Keys(w)
  {
    var n := |w| / 16;
    && |st| == n - 1
    && st[0] == AddKey(b, RoundKey(w, 0))
    && (forall i | 1 <= i < n - 1 :: st[i] == AddKey(MixColumns(ShiftRows(SubBytes(st[i - 1]))), RoundKey(w, i)))
    && out == AddKey(ShiftRows(SubBytes(st[n - 2])), RoundKey(w, n - 1))
  }

  lemma CipherRuns(w: bytes, b: Block) returns (st: seq<Block>)
    requires Keys(w)
    ensures IsRun(w, b, st, Cipher(w, b))
  {
    hide AddKey, MixColumns, ShiftRows, SubBytes, RoundKey;
    var n := |w| / 16;
    st := seq(n - 1, i requires 0 <= i < n - 1 => Rounds(w, b, i));
  }

  // ----- chaining

  lemma ChainStep(w: bytes, cbc: bool, iv: Block, s: bytes, n: nat)
    requires Keys(w) && 16 * n <= |s| && n > 0
    ensures var (c, d) := (Chain(w, cbc, iv, s, n), Chain(w, cbc, iv, s, n - 1));
            c == d + Cipher(w, Mask(cbc, iv, d, n - 1, Piece(s, n - 1)))
  {
    hide Cipher, Mask, Keys;
  }

  /** What is enciphered for block j of a text c. */
  function Combined(cbc: bool, iv: Block, s: bytes, c: bytes, j: nat): Block
    requires 16 * j + 16 <= |s| && 16 * j <= |c|
  {
    hide AddKey;
    if !cbc then Piece(s, j) else AddKey(Piece(s, j), if j == 0 then iv else Piece(c, j - 1))
  }

  lemma SamePieces(c: bytes, d: bytes, j: nat)
    requires d <= c && 16 * j + 16 <= |d|
    ensures Piece(c, j) == Piece(d, j)
  {
  }

  lemma CombinedSame(cbc: bool, iv: Block, s: bytes, c: bytes, d: bytes, j: nat)
    requires d <= c && 16 * j + 16 <= |s| && 16 * j <= |d|
    ensures Combined(cbc, iv, s, c, j) == Combined(cbc, iv, s, d, j) == Mask(cbc, iv, d, j, Piece(s, j))
  {
    hide AddKey, Piece;
    if j > 0 { SamePieces(c, d, j - 1); }
  }

  /** Every block of a text: the enciphered sum of the message block and the text block
      before it, the first with the IV; without chaining, the enciphered message block. */
  lemma {:induction false} ChainIs(w: bytes, cbc: bool, iv: Block, s: bytes, n: nat, j: nat)
    requires Keys(w) && 16 * n <= |s| && j < n
    ensures var c := Chain(w, cbc, iv, s, n); Piece(c, j) == Cipher(w, Combined(cbc, iv, s, c, j))
    decreases n
  {
    hide *;
    var c, d := Chain(w, cbc, iv, s, n), Chain(w, cbc, iv, s, n - 1);
    ChainStep(w, cbc, iv, s, n);
    assert d <= c;
    CombinedSame(cbc, iv, s, c, d, j);
    if j < n - 1 {
      ChainIs(w, cbc, iv, s, n - 1, j);
      SamePieces(c, d, j);
    } else {
      LastPiece(d, Cipher(w, Mask(cbc, iv, d, j, Piece(s, j))), j);
    }
  }

  lemma LastPiece(d: bytes, b: Block, j: nat)
    requires |d| == 16 * j
    ensures Piece(d + b, j) == b
  {
  }

  /** A message is filled up to whole blocks with 1, 2, 3 and so on. */
  lemma PaddedIs(m: bytes)
    ensures var s := Padded(m);
            && |s| % 16 == 0 && |m| <= |s| < |m| + 16 && s[..|m|] == m && forall i | |m| <= i < |s| :: s[i] == i - |m| + 1
  {
  }

  /** After the header and the IV stands the chain of the padded message. */
  lemma SealedText(w: bytes, options: nat, iv: Block, m: bytes)
    requires Keys(w) && options < 0x1_0000
    ensures var (c, s) := (Sealed(w, options, iv, m), Padded(m));
            |c| == 32 + |s| && c[32..] == Chain(w, options / 2 % 2 == 1, iv, s, |s| / 16)
  {
    hide Keys, Chain;
    SealedShape(w, options, iv, m);
  }

  /** A sealed message starts with a header and the IV; the next IV is its last block. */
  lemma SealedIs(w: bytes, options: nat, iv: Block, m: bytes)
    requires Keys(w) && options < 0x1_0000
    ensures var c := Sealed(w, options, iv, m);
            && |c| >= 32 && c[..6] == [0x4f, 0x41, 0x45, 0x53, 1, 2] && c[16..32] == iv
            && c[6..16] == [options % 256, options / 256, if |m| % 16 == 0 then 0 else 1, 0, 0, 0, 0, 0, 0, 0]
            && NextIv(w, options, iv, m) == if options / 2 % 2 == 1 && |m| > 0 then c[|c| - 16..] else iv
  {
    hide Keys, Chain;
    SealedShape(w, options, iv, m);
    SizesOf(m);
    var c := Sealed(w, options, iv, m);
    var h := c[..16];
    assert c[..6] == h[..6] && c[6..16] == h[6..16];
    if |m| > 0 { assert c[32..][|c| - 48..] == c[|c| - 16..]; }
  }
}
