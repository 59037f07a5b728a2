/** What the parts of the compression function are, apart from how they are computed:
    the words, functions, constants and starting values of FIPS 180-1
    (libs/sha1/sha1.c:59-85 and 232-317). */
module Sha1Standard {
  import opened Bytes
  import opened Words
  import opened Arithmetic
  import opened Sha1

  // ----- functions and constants of the rounds

  lemma ChoiceBit(b: uint32, c: uint32, d: uint32, i: nat)
    requires i < 32
    ensures BitAt(Word(Or, Word(And, b, c), Word(And, NotWord(b), d)), i) == if BitAt(b, i) == 1 then BitAt(c, i) else BitAt(d, i)
  {
    hide BitAt, Word, NotWord;
    NotWordBit(b, i);
    WordBit(And, b, c, i);
    WordBit(And, NotWord(b), d, i);
    WordBit(Or, Word(And, b, c), Word(And, NotWord(b), d), i);
  }

  lemma ParityBit(b: uint32, c: uint32, d: uint32, i: nat)
    requires i < 32
    ensures BitAt(Word(Xor, Word(Xor, b, c), d), i) == (BitAt(b, i) + BitAt(c, i) + BitAt(d, i)) % 2
  {
    hide BitAt, Word;
    WordBit(Xor, b, c, i);
    WordBit(Xor, Word(Xor, b, c), d, i);
  }

  lemma MajorityBit(b: uint32, c: uint32, d: uint32, i: nat)
    requires i < 32
    ensures BitAt(Word(Or, Word(Or, Word(And, b, c), Word(And, b, d)), Word(And, c, d)), i) == (BitAt(b, i) + BitAt(c, i) + BitAt(d, i)) / 2
  {
    hide BitAt, Word;
    WordBit(And, b, c, i);
    WordBit(And, b, d, i);
    WordBit(And, c, d, i);
    WordBit(Or, Word(And, b, c), Word(And, b, d), i);
    WordBit(Or, Word(Or, Word(And, b, c), Word(And, b, d)), Word(And, c, d), i);
  }

  lemma MixIs(t: nat, b: uint32, c: uint32, d: uint32)
    ensures t <= 19 ==> Mix(t, b, c, d) == Word(Or, Word(And, b, c), Word(And, NotWord(b), d))
    ensures 40 <= t <= 59 ==> Mix(t, b, c, d) == Word(Or, Word(Or, Word(And, b, c), Word(And, b, d)), Word(And, c, d))
    ensures 20 <= t <= 39 || t >= 60 ==> Mix(t, b, c, d) == Word(Xor, Word(Xor, b, c), d)
  {
    hide Word, NotWord;
  }

  /** Rounds 0 to 19 choose, 40 to 59 take the majority, the others the parity of the
      digits of the three words. */
  lemma MixBit(t: nat, b: uint32, c: uint32, d: uint32, i: nat)
    requires t < 80 && i < 32
    ensures var (x, y, z) := (BitAt(b, i), BitAt(c, i), BitAt(d, i));
            BitAt(Mix(t, b, c, d), i) ==
              if t <= 19 then (if x == 1 then y else z)
              else if 40 <= t <= 59 then (x + y + z) / 2
              else (x + y + z) % 2
  {
    hide *;
    MixIs(t, b, c, d);
    if t <= 19 {
      ChoiceBit(b, c, d, i);
    } else if 40 <= t <= 59 {
      MajorityBit(b, c, d, i);
    } else {
      ParityBit(b, c, d, i);
    }
  }

  lemma WordBit(g: Gate, a: uint32, b: uint32, i: nat)
    requires i < 32
    ensures BitAt(Word(g, a, b), i) == Output(g, BitAt(a, i), BitAt(b, i))
  {
    hide BitAt, Bitwise, Output;
    BitwiseBit(g, a, b, 32, i);
  }

  lemma NotWordBit(a: uint32, i: nat)
    requires i < 32
    ensures BitAt(NotWord(a), i) == 1 - BitAt(a, i)
  {
    hide BitAt, Pow2;
    Powers();
    NotBit(a, 32, i);
  }

  /** The constants are the integer parts of 2^30 times the square roots of 2, 3, 5, 10. */
  lemma ConstantRoot(t: nat)
    requires t < 80
    ensures var n := if t <= 19 then 2 else if t <= 39 then 3 else if t <= 59 then 5 else 10;
            Constant(t) * Constant(t) <= n * 0x1000_0000_0000_0000 < (Constant(t) + 1) * (Constant(t) + 1)
  {
  }

  /** A round: the first word is the sum of the rotated first, the mixed middle words, the
      last, the word of the schedule and the constant; the others move on by one, the
      second rotated right by two. */
  lemma RoundMoves(h: Hash, t: nat, w: uint32, i: nat)
    requires t < 80 && i < 32
    ensures var r := Round(h, t, w);
            && (r.b, r.d, r.e) == (h.a, h.c, h.d)
            && BitAt(r.c, i) == BitAt(h.b, if i < 30 then i + 2 else i - 30)
            && (exists carry: nat ::
                  r.a + carry * 0x1_0000_0000 == Rotate(5, h.a) + Mix(t, h.b, h.c, h.d) + h.e + w + Constant(t))
  {
    hide BitAt, Mix, Constant, Rotate;
    RotateBit(30, h.b, i);
    var sum: int := Rotate(5, h.a) + Mix(t, h.b, h.c, h.d) + h.e + w + Constant(t);
    assert Round(h, t, w).a + sum / 0x1_0000_0000 * 0x1_0000_0000 == sum;
  }

  // ----- words and bytes

  lemma FourBytes(a: byte, b: byte, c: byte, d: byte)
    ensures WordBytes(((a as int * 256 + b) * 256 + c) * 256 + d) == [a, b, c, d]
  {
    var x := a as int * 256 + b;
    var y := x * 256 + c;
    var w := y * 256 + d;
    DivMod(x, 256, a, b);
    DivMod(y, 256, x, c);
    DivMod(w, 256, y, d);
    DivMod(w, 0x1_0000, x, 256 * c + d);
    DivMod(w, 0x100_0000, a, 0x1_0000 * b + 256 * c + d);
  }

  /** A word of the block is four bytes, the first the highest. */
  lemma WordAtBytes(block: bytes, t: nat)
    requires |block| == 64 && t < 16
    ensures WordBytes(WordAt(block, t)) == block[4 * t..4 * t + 4]
  {
    FourBytes(block[4 * t], block[4 * t + 1], block[4 * t + 2], block[4 * t + 3]);
  }

  /** The number four bytes write, the first the highest. */
  function BigEndian(s: bytes): nat {
    if s == [] then 0 else BigEndian(s[..|s| - 1]) * 256 + s[|s| - 1]
  }

  lemma BigEndian4(a: byte, b: byte, c: byte, d: byte)
    ensures BigEndian([a, b, c, d]) == ((a as int * 256 + b) * 256 + c) * 256 + d
  {
    assert [a, b, c, d][..3] == [a, b, c] && [a, b, c][..2] == [a, b] && [a, b][..1] == [a] && [a][..0] == [];
    assert BigEndian([a]) == a;
    assert BigEndian([a, b]) == a as int * 256 + b;
  }

  lemma {:induction false} BigEndianJoin(s: bytes, t: bytes, n: nat)
    requires n == Power256(|t|)
    ensures BigEndian(s + t) == BigEndian(s) * n + BigEndian(t)
    decreases |t|
  {
    if t == [] {
      assert s + t == s;
    } else {
      var u, c := t[..|t| - 1], t[|t| - 1];
      assert (s + t)[..|s + t| - 1] == s + u;
      var p := Power256(|u|);
      BigEndianJoin(s, u, p);
      Regroup(BigEndian(s), p);
    }
  }

  lemma Regroup(a: nat, p: nat)
    ensures a * (256 * p) == 256 * (a * p)
  {
  }

  function Power256(n: nat): nat {
    if n == 0 then 1 else 256 * Power256(n - 1)
  }

  lemma WordBytesValue(w: uint32)
    ensures BigEndian(WordBytes(w)) == w
  {
    hide BigEndian;
    BigEndian4(w / 0x100_0000 % 256, w / 0x1_0000 % 256, w / 0x100 % 256, w % 256);
    var x, y := w / 0x1_0000, w / 0x100;
    assert x == x / 256 * 256 + x % 256 && x / 256 == w / 0x100_0000 && x / 256 < 256;
    assert y == x * 256 + y % 256;
    assert w == y * 256 + w % 256;
  }

  /** The length stands in the last eight bytes of the padding as one number. */
  lemma LengthValue(bits: nat)
    requires bits < LIMIT
    ensures BigEndian(LengthBytes(bits)) == bits
  {
    hide BigEndian, Power256;
    var high, low := bits / 0x1_0000_0000, bits % 0x1_0000_0000;
    assert LengthBytes(bits) == WordBytes(high) + WordBytes(low);
    WordBytesValue(high);
    WordBytesValue(low);
    assert Power256(4) == 0x1_0000_0000 by { Power256Four(); }
    BigEndianJoin(WordBytes(high), WordBytes(low), 0x1_0000_0000);
  }

  lemma Power256Four()
    ensures Power256(4) == 0x1_0000_0000
  {
  }

  /** The words of the schedule after the first sixteen, digit by digit: the parity of the
      digits one lower of the words 3, 8, 14 and 16 before. */
  lemma ScheduleBit(block: bytes, t: nat, i: nat)
    requires |block| == 64 && 16 <= t && i < 32
    ensures var j := if i == 0 then 31 else i - 1;
            BitAt(Schedule(block, t), i) ==
              (BitAt(Schedule(block, t - 3), j) + BitAt(Schedule(block, t - 8), j) + BitAt(Schedule(block, t - 14), j)
               + BitAt(Schedule(block, t - 16), j)) % 2
  {
    hide *;
    var a, b, c, d := Schedule(block, t - 3), Schedule(block, t - 8), Schedule(block, t - 14), Schedule(block, t - 16);
    ScheduleStep(block, t);
    RotateBit(1, Xor4(a, b, c, d), i);
    Xor4Bit(a, b, c, d, if i == 0 then 31 else i - 1);
  }

  lemma ScheduleStep(block: bytes, t: nat)
    requires |block| == 64 && 16 <= t
    ensures Schedule(block, t) ==
      Rotate(1, Xor4(Schedule(block, t - 3), Schedule(block, t - 8), Schedule(block, t - 14), Schedule(block, t - 16)))
  {
    hide Rotate, Xor4;
  }

  lemma Xor4Bit(a: uint32, b: uint32, c: uint32, d: uint32, i: nat)
    requires i < 32
    ensures BitAt(Xor4(a, b, c, d), i) == (BitAt(a, i) + BitAt(b, i) + BitAt(c, i) + BitAt(d, i)) % 2
  {
    hide BitAt, Word;
    WordBit(Xor, a, b, i);
    WordBit(Xor, Word(Xor, a, b), c, i);
    WordBit(Xor, Word(Xor, Word(Xor, a, b), c), d, i);
  }

  /** The bytes of a word, the lowest first. */
  function LowFirst(w: uint32): bytes {
    [w % 256, w / 256 % 256, w / 0x1_0000 % 256, w / 0x100_0000]
  }

  /** The starting words, lowest byte first, count up and down in hexadecimal. */
  lemma InitBytes()
    ensures LowFirst(INIT.a) + LowFirst(INIT.b) == [0x01, 0x23, 0x45, 0x67, 0x89, 0xab, 0xcd, 0xef]
    ensures LowFirst(INIT.c) + LowFirst(INIT.d) == [0xfe, 0xdc, 0xba, 0x98, 0x76, 0x54, 0x32, 0x10]
    ensures LowFirst(INIT.e) == [0xf0, 0xe1, 0xd2, 0xc3]
  {
  }

  /** The digest is the five words, the highest byte of each first. */
  lemma DigestBytes(h: Hash)
    ensures var s := HashBytes(h);
            && |s| == 20 && BigEndian(s[0..4]) == h.a && BigEndian(s[4..8]) == h.b && BigEndian(s[8..12]) == h.c
            && BigEndian(s[12..16]) == h.d && BigEndian(s[16..20]) == h.e
  {
    hide BigEndian, WordBytes;
    var s := HashBytes(h);
    WordBytesValue(h.a);
    WordBytesValue(h.b);
    WordBytesValue(h.c);
    WordBytesValue(h.d);
    WordBytesValue(h.e);
    assert s[0..4] == WordBytes(h.a) && s[4..8] == WordBytes(h.b) && s[8..12] == WordBytes(h.c);
    assert s[12..16] == WordBytes(h.d) && s[16..20] == WordBytes(h.e);
  }

  /** The sum of two hashes, word by word modulo 2^32. */
  lemma AddWords(x: Hash, y: Hash)
    ensures var r := Add(x, y);
            && (r.a - x.a - y.a) % 0x1_0000_0000 == 0 && (r.b - x.b - y.b) % 0x1_0000_0000 == 0
            && (r.c - x.c - y.c) % 0x1_0000_0000 == 0 && (r.d - x.d - y.d) % 0x1_0000_0000 == 0
            && (r.e - x.e - y.e) % 0x1_0000_0000 == 0
  {
  }

  // ----- rounds, padding and blocks

  /** The first sixteen words of the schedule are those of the block. */
  lemma ScheduleFirst(block: bytes, t: nat)
    requires |block| == 64 && t < 16
    ensures WordBytes(Schedule(block, t)) == block[4 * t..4 * t + 4]
  {
    WordAtBytes(block, t);
  }

  /** The eighty rounds of a block, and the sum with the hash before it. */
  lemma CompressRuns(h: Hash, block: bytes) returns (st: seq<Hash>)
    requires |block| == 64
    ensures |st| == 81 && st[0] == h && Compress(h, block) == Add(h, st[80])
    ensures forall t | 0 <= t < 80 :: st[t + 1] == Round(st[t], t, Schedule(block, t))
  {
    hide Round, Add, Schedule;
    st := seq(81, t requires 0 <= t < 81 => Rounds(block, h, t));
  }

  /** A message is padded to whole blocks: a one digit, the fewest zeros, and its length in
      digits as the last eight bytes. */
  lemma PaddedIs(m: bytes)
    requires 8 * |m| < LIMIT
    ensures var s := Padded(m);
            && |s| % 64 == 0 && |m| + 9 <= |s| < |m| + 73 && s[..|m|] == m && s[|m|] == 0x80
            && (forall i | |m| < i < |s| - 8 :: s[i] == 0)
            && BigEndian(s[|s| - 8..]) == 8 * |m|
  {
    hide BigEndian, LengthBytes;
    LengthValue(8 * |m|);
    var s := Padded(m);
    assert s[|s| - 8..] == LengthBytes(8 * |m|);
  }

  lemma DigestIs(m: bytes)
    ensures var s := Padded(m); Digest(m) == HashBytes(Fold(INIT, s, |s| / 64)) && Fold(INIT, s, 0) == INIT
  {
    hide Compress, Padded, HashBytes;
  }

  /** The hash goes through the blocks of the padded message one after the other. */
  lemma DigestRuns(m: bytes) returns (st: seq<Hash>)
    ensures var s := Padded(m);
            && |st| == |s| / 64 + 1 && st[0] == INIT && Digest(m) == HashBytes(st[|st| - 1])
            && forall i | 0 <= i < |st| - 1 :: st[i + 1] == Compress(st[i], s[64 * i..64 * i + 64])
  {
    hide *;
    var s := Padded(m);
    DigestIs(m);
    st := seq(|s| / 64 + 1, i requires 0 <= i <= |s| / 64 => Fold(INIT, s, i));
    forall i | 0 <= i < |st| - 1 ensures st[i + 1] == Compress(st[i], s[64 * i..64 * i + 64]) {
      FoldStep(INIT, s, i);
    }
  }
}
