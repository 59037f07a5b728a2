/** Streaming SHA-1 (libs/sha1/sha1.c:59-389) against the digest of the whole
    message, padded as in section 4 of FIPS 180-1. */
module Sha1 {
  import opened Bytes
  import opened Words

  datatype Hash = Hash(a: uint32, b: uint32, c: uint32, d: uint32, e: uint32)

  const INIT := Hash(0x67452301, 0xEFCDAB89, 0x98BADCFE, 0x10325476, 0xC3D2E1F0)

  // ----- the compression function

  function Xor4(a: uint32, b: uint32, c: uint32, d: uint32): uint32 {
    Word(Xor, Word(Xor, Word(Xor, a, b), c), d)
  }

  function Plus(a: int, b: int): uint32 {
    (a + b) % 0x1_0000_0000
  }

  function WordAt(block: bytes, t: nat): uint32
    requires |block| == 64 && t < 16
  {
    ((block[4 * t] as int * 256 + block[4 * t + 1]) * 256 + block[4 * t + 2]) * 256 + block[4 * t + 3]
  }

  /** Word t of the message schedule. */
  function Schedule(block: bytes, t: nat): uint32
    requires |block| == 64
  {
    if t < 16 then WordAt(block, t)
    else Rotate(1, Xor4(Schedule(block, t - 3), Schedule(block, t - 8), Schedule(block, t - 14), Schedule(block, t - 16)))
  }

  function Mix(t: nat, b: uint32, c: uint32, d: uint32): uint32 {
    if t < 20 then Word(Or, Word(And, b, c), Word(And, NotWord(b), d))
    else if t < 40 then Word(Xor, Word(Xor, b, c), d)
    else if t < 60 then Word(Or, Word(Or, Word(And, b, c), Word(And, b, d)), Word(And, c, d))
    else Word(Xor, Word(Xor, b, c), d)
  }

  function Constant(t: nat): uint32 {
    if t < 20 then 0x5A827999 else if t < 40 then 0x6ED9EBA1 else if t < 60 then 0x8F1BBCDC else 0xCA62C1D6
  }

  /** One round with word w of the schedule. */
  function Round(h: Hash, t: nat, w: uint32): Hash {
    Hash(Plus(Rotate(5, h.a) + Mix(t, h.b, h.c, h.d), h.e + w + Constant(t)), h.a, Rotate(30, h.b), h.c, h.d)
  }

  function Rounds(block: bytes, h: Hash, t: nat): Hash
    requires |block| == 64
  {
    if t == 0 then h else Round(Rounds(block, h, t - 1), t - 1, Schedule(block, t - 1))
  }

  function Add(x: Hash, y: Hash): Hash {
    Hash(Plus(x.a, y.a), Plus(x.b, y.b), Plus(x.c, y.c), Plus(x.d, y.d), Plus(x.e, y.e))
  }

  function Compress(h: Hash, block: bytes): Hash
    requires |block| == 64
  {
    Add(h, Rounds(block, h, 80))
  }

  // ----- the digest of a message

  /** The first n blocks of a message. */
  function Fold(h: Hash, s: bytes, n: nat): Hash
    requires 64 * n <= |s|
  {
    if n == 0 then h else Compress(Fold(h, s, n - 1), s[64 * (n - 1)..64 * n])
  }

  function Zeros(n: nat): bytes {
    seq(n, _ => 0)
  }

  /** The number of bits, in eight bytes. */
  function LengthBytes(bits: nat): (s: bytes)
    ensures |s| == 8
  {
    var high, low := bits / 0x1_0000_0000, bits % 0x1_0000_0000;
    [high / 0x100_0000 % 256, high / 0x1_0000 % 256, high / 0x100 % 256, high % 256,
     low / 0x100_0000 % 256, low / 0x1_0000 % 256, low / 0x100 % 256, low % 256]
  }

  /** The zero bytes between the mark and the length. */
  function Gap(size: nat): (n: nat)
    ensures (size + 1 + n + 8) % 64 == 0 && n < 64
  {
    (119 - size % 64) % 64
  }

  function Padded(m: bytes): (s: bytes)
    ensures |s| % 64 == 0
  {
    m + [0x80] + Zeros(Gap(|m|)) + LengthBytes(8 * |m|)
  }

  function Sum(m: bytes): Hash {
    Fold(INIT, Padded(m), |Padded(m)| / 64)
  }

  function WordBytes(w: uint32): (s: bytes)
    ensures |s| == 4
  {
    [w / 0x100_0000 % 256, w / 0x1_0000 % 256, w / 0x100 % 256, w % 256]
  }

  function HashBytes(h: Hash): bytes {
    WordBytes(h.a) + WordBytes(h.b) + WordBytes(h.c) + WordBytes(h.d) + WordBytes(h.e)
  }

  function Digest(m: bytes): bytes {
    HashBytes(Sum(m))
  }

  lemma {:induction false} FoldPrefix(h: Hash, s: bytes, t: bytes, n: nat)
    requires 64 * n <= |s| && s <= t
    ensures Fold(h, s, n) == Fold(h, t, n)
    decreases n
  {
    hide Compress;
    if n > 0 {
      FoldPrefix(h, s, t, n - 1);
      assert s[64 * (n - 1)..64 * n] == t[64 * (n - 1)..64 * n];
    }
  }

  // ----- the context

  const SHA_SUCCESS := 0
  const LIMIT := 0x1_0000_0000_0000_0000
  const SHA_STATE_ERROR := 3

  class Context {
    var hash: Hash
    var low: nat
    var high: nat
    const block: array<byte>
    var index: nat
    var computed: bool
    var corrupted: int
    ghost var message: bytes

    /** What has been put in so far: whole blocks in the hash, the rest in the block. */
    ghost predicate Stored()
      reads this`hash, this`index, this`message, block
    {
      && block.Length == 64 && index < 64 && index == |message| % 64
      && hash == Fold(INIT, message, |message| / 64)
      && block[..index] == message[|message| - index..]
    }

    /** The two words count the bits of the message. */
    ghost predicate Timed(n: nat)
      reads this`low, this`high
    {
      low < 0x1_0000_0000 && high < 0x1_0000_0000 && high * 0x1_0000_0000 + low == 8 * n
    }

    ghost predicate Feeding()
      reads this, block
    {
      Stored() && Timed(|message|) && !computed && corrupted == 0
    }

    /** Feeding, finished, or corrupted. */
    ghost predicate Valid()
      reads this, block
    {
      && block.Length == 64
      && (!computed && corrupted == 0 ==> Feeding())
      && (computed && corrupted == 0 ==> hash == Sum(message))
    }

    constructor ()
      ensures Valid() && message == [] && !computed && corrupted == 0 && fresh(block)
    {
      hash, low, high, index, computed, corrupted, message := INIT, 0, 0, 0, false, 0, [];
      block := new byte[64](_ => 0);
    }

    /** The words of the schedule, in place. */
    method Words() returns (w: array<uint32>)
      requires block.Length == 64
      ensures fresh(w) && w.Length == 80 && forall t | 0 <= t < 80 :: w[t] == Schedule(block[..], t)
    {
      hide Rotate, WordAt, Xor4;
      w := new uint32[80](_ => 0);
      for t := 0 to 16
        invariant fresh(w) && forall k | 0 <= k < t :: w[k] == Schedule(block[..], k)
      {
        w[t] := WordAt(block[..], t);
      }
      for t := 16 to 80
        invariant fresh(w) && forall k | 0 <= k < t :: w[k] == Schedule(block[..], k)
      {
        w[t] := Rotate(1, Xor4(w[t - 3], w[t - 8], w[t - 14], w[t - 16]));
      }
    }

    method ProcessBlock()
      requires block.Length == 64
      modifies this`hash, this`index
      ensures hash == Compress(old(hash), block[..]) && index == 0
    {
      hide Rotate, Schedule, Mix, Constant, Plus;
      var w := Words();
      var h := hash;
      for t := 0 to 80
        invariant h == Rounds(block[..], hash, t)
      {
        var temp := Plus(Rotate(5, h.a) + Mix(t, h.b, h.c, h.d), h.e + w[t] + Constant(t));
        h := Hash(temp, h.a, Rotate(30, h.b), h.c, h.d);
      }
      hash := Add(hash, h);
      index := 0;
    }
  
    /** Eight bits more. */
    method CountByte(ghost n: nat)
      requires Timed(n) && corrupted == 0
      modifies this`low, this`high, this`corrupted
      ensures if 8 * (n + 1) < LIMIT then Timed(n + 1) && corrupted == 0 else corrupted == 1
    {
      Counted(n, high, low);
      low := (low + 8) % 0x1_0000_0000;
      if low == 0 {
        high := (high + 1) % 0x1_0000_0000;
        if high == 0 { corrupted := 1; }
      }
    }

    /** A byte into the block, and the block into the hash when it is full. */
    method StoreByte(b: byte)
      requires Stored()
      modifies this`hash, this`index, this`message, block
      ensures Stored() && message == old(message) + [b]
    {
      hide Compress, Fold;
      ghost var m := message;
      block[index] := b;
      index := index + 1;
      message := m + [b];
      TailGrows(m, b, index - 1, old(block[..index]));
      assert block[..index] == old(block[..index]) + [b];
      FoldPrefix(INIT, m, message, |m| / 64);
      if index == 64 {
        FoldNext(INIT, message);
        assert block[..] == block[..index];
        ProcessBlock();
        assert message[|message|..] == [];
      }
    }

    /** One byte; the message may not reach 2^64 bits. */
    method PutByte(b: byte)
      requires Feeding()
      modifies this`hash, this`index, this`low, this`high, this`message, this`corrupted, block
      ensures message == old(message) + [b] && !computed
      ensures if 8 * |message| < LIMIT then Feeding() else corrupted == 1
    {
      hide Stored, Timed;
      CountByte(|message|);
      StoreByte(b);
    }

    /** `SHA1Input`: nothing more is taken once the digest was given. */
    method Input(data: bytes) returns (r: int)
      requires Valid()
      modifies this`hash, this`index, this`low, this`high, this`message, this`corrupted, block
      ensures Valid()
      ensures data == [] ==> r == SHA_SUCCESS && message == old(message) && corrupted == old(corrupted)
      ensures data != [] && old(computed) ==> r == corrupted == SHA_STATE_ERROR
      ensures data != [] && !old(computed) && old(corrupted) != 0 ==> r == corrupted == old(corrupted)
      ensures data != [] && !old(computed) && old(corrupted) == 0 ==>
        && r == SHA_SUCCESS
        && if 8 * (|old(message)| + |data|) < LIMIT then corrupted == 0 && message == old(message) + data else corrupted == 1
    {
      hide Compress, Fold, Sum;
      if |data| == 0 { return SHA_SUCCESS; }
      if computed {
        corrupted := SHA_STATE_ERROR;
        return SHA_STATE_ERROR;
      }
      if corrupted != 0 { return corrupted; }
      var i := 0;
      while i < |data| && corrupted == 0
        invariant 0 <= i <= |data| && !computed && message == old(message) + data[..i]
        invariant if corrupted == 0 then Feeding() else corrupted == 1 && 8 * |message| >= LIMIT
      {
        PutByte(data[i]);
        i := i + 1;
      }
      assert data[..|data|] == data;
      r := SHA_SUCCESS;
    }

    /** `SHA1Result`: the digest of all that was put in, as often as it is asked for. */
    method Result() returns (r: int, digest: bytes)
      requires Valid()
      modifies this`hash, this`index, this`low, this`high, this`computed, block
      ensures Valid() && corrupted == old(corrupted)
      ensures corrupted != 0 ==> r == corrupted
      ensures corrupted == 0 ==> r == SHA_SUCCESS && computed && digest == Digest(message)
    {
      hide Sum, Stored, Timed, HashBytes;
      digest := [];
      if corrupted != 0 { return corrupted, digest; }
      if !computed {
        PadMessage();
        for i := 0 to 64
          modifies block
        {
          block[i] := 0;
        }
        low, high, computed := 0, 0, true;
      }
      digest := HashBytes(hash);
      r := SHA_SUCCESS;
    }

    method ZeroTo(end: nat)
      requires index <= end <= 64 == block.Length
      modifies this`index, block
      ensures index == end && block[..] == old(block[..index]) + Zeros(end - old(index)) + old(block[end..])
    {
      while index < end
        invariant old(index) <= index <= end
        invariant forall k | 0 <= k < 64 :: block[k] == if old(index) <= k < index then 0 else old(block[k])
      {
        block[index] := 0;
        index := index + 1;
      }
    }

    /** The length of the message as the last eight bytes. */
    method StoreLength()
      requires block.Length == 64 && low < 0x1_0000_0000 && high < 0x1_0000_0000
      modifies block
      ensures block[..] == old(block[..56]) + LengthBytes(high * 0x1_0000_0000 + low)
    {
      ghost var bits := high * 0x1_0000_0000 + low;
      assert bits / 0x1_0000_0000 == high && bits % 0x1_0000_0000 == low;
      block[56] := high / 0x100_0000 % 256;
      block[57] := high / 0x1_0000 % 256;
      block[58] := high / 0x100 % 256;
      block[59] := high % 256;
      block[60] := low / 0x100_0000 % 256;
      block[61] := low / 0x1_0000 % 256;
      block[62] := low / 0x100 % 256;
      block[63] := low % 256;
    }

    /** A block of the padded message p into the hash. */
    method FinishBlock(ghost p: bytes, ghost n: nat)
      requires block.Length == 64 && 64 * (n + 1) <= |p| && block[..] == p[64 * n..64 * n + 64] && hash == Fold(INIT, p, n)
      modifies this`hash, this`index
      ensures hash == Fold(INIT, p, n + 1) && index == 0
    {
      hide Compress, Fold;
      FoldStep(INIT, p, n);
      ProcessBlock();
    }

    /** The mark after the last byte. */
    method PutMark(ghost rest: bytes)
      requires index < 64 == block.Length && block[..index] == rest
      modifies this`index, block
      ensures index == old(index) + 1 && block[..index] == rest + [0x80]
    {
      block[index] := 0x80;
      index := index + 1;
    }

    /** The mark left no room for the length: the block is closed and another begun. */
    method Spill(ghost m: bytes, ghost n: nat)
      requires n == |m| / 64 && |m| % 64 > 55 && index == |m| % 64 + 1 && block.Length == 64
      requires block[..index] == m[64 * n..] + [0x80] && hash == Fold(INIT, Padded(m), n)
      modifies this`hash, this`index, block
      ensures |Padded(m)| == 64 * (n + 2) && hash == Fold(INIT, Padded(m), n + 1) && block[..56] == Zeros(56)
    {
      hide Compress, Fold, LengthBytes, Padded;
      ghost var front := block[..index];
      ZeroTo(64);
      TwoBlocks(m);
      assert block[..] == front + Zeros(63 - |m| % 64);
      FinishBlock(Padded(m), n);
      ZeroTo(56);
      assert block[..56] == Zeros(56);
    }

    /** Pads the last block, or the last two, and finishes the hash. */
    method PadMessage()
      requires Stored() && Timed(|message|)
      modifies this`hash, this`index, block
      ensures hash == Sum(message)
    {
      hide Compress, Fold, LengthBytes, Padded, Zeros;
      ghost var m, p, n := message, Padded(message), |message| / 64;
      StartsWith(m);
      FoldPrefix(INIT, m, p, n);
      var mark := index;
      assert m[64 * n..] == m[|m| - index..];
      PutMark(m[64 * n..]);
      if mark > 55 {
        Spill(m, n);
        TwoBlocks(m);
        n := n + 1;
      } else {
        ghost var front := block[..index];
        ZeroTo(56);
        OneBlock(m);
        assert block[..56] == front + Zeros(55 - mark);
      }
      StoreLength();
      FinishBlock(p, n);
    }
  }

  lemma StartsWith(m: bytes)
    ensures m <= Padded(m)
  {
  }

  lemma TailGrows(m: bytes, b: byte, i: nat, tail: bytes)
    requires i <= |m| && tail == m[|m| - i..]
    ensures (m + [b])[|m| - i..] == tail + [b]
  {
  }

  /** Eight bits more, in two words. */
  lemma Counted(n: nat, high: nat, low: nat)
    requires low < 0x1_0000_0000 && high < 0x1_0000_0000 && high * 0x1_0000_0000 + low == 8 * n
    ensures low + 8 <= 0x1_0000_0000
    ensures low + 8 == 0x1_0000_0000 ==> 8 * (n + 1) == (high + 1) * 0x1_0000_0000
    ensures 8 * (n + 1) >= LIMIT <==> low + 8 == 0x1_0000_0000 && high + 1 == 0x1_0000_0000
  {
  }

  lemma FoldStep(h: Hash, s: bytes, n: nat)
    requires 64 * (n + 1) <= |s|
    ensures Fold(h, s, n + 1) == Compress(Fold(h, s, n), s[64 * n..64 * n + 64])
  {
    hide Compress;
  }

  /** The padding fits in the block of the last bytes. */
  lemma OneBlock(m: bytes)
    requires |m| % 64 <= 55
    ensures var n := |m| / 64;
            && |Padded(m)| == 64 * (n + 1)
            && Padded(m)[64 * n..64 * n + 64] == m[64 * n..] + [0x80] + Zeros(55 - |m| % 64) + LengthBytes(8 * |m|)
  {
    hide LengthBytes;
    var n := |m| / 64;
    assert |m| == 64 * n + |m| % 64 && Gap(|m|) == 55 - |m| % 64;
  }

  /** It takes one block more. */
  lemma TwoBlocks(m: bytes)
    requires |m| % 64 > 55
    ensures var n := |m| / 64;
            && |Padded(m)| == 64 * (n + 2)
            && Padded(m)[64 * n..64 * n + 64] == m[64 * n..] + [0x80] + Zeros(63 - |m| % 64)
            && Padded(m)[64 * n + 64..64 * n + 128] == Zeros(56) + LengthBytes(8 * |m|)
  {
    hide LengthBytes;
    var n := |m| / 64;
    assert |m| == 64 * n + |m| % 64 && Gap(|m|) == 119 - |m| % 64;
  }

  lemma FoldNext(h: Hash, s: bytes)
    requires |s| % 64 == 0 && |s| > 0
    ensures Fold(h, s, |s| / 64) == Compress(Fold(h, s, |s| / 64 - 1), s[|s| - 64..])
  {
    hide Compress;
    var n := |s| / 64;
    assert 64 * n == |s|;
    assert s[64 * (n - 1)..64 * n] == s[|s| - 64..];
  }

  lemma {:induction false} JoinGrows(parts: seq<bytes>, i: nat)
    requires i <= |parts|
    ensures |Join(parts[..i])| <= |Join(parts)|
    decreases |parts|
  {
    if i < |parts| {
      JoinGrows(parts[..|parts| - 1], i);
      assert parts[..|parts| - 1][..i] == parts[..i];
    } else {
      assert parts[..i] == parts;
    }
  }

  lemma JoinNone()
    ensures Join([]) == []
  {
  }

  lemma JoinNext(parts: seq<bytes>, i: nat)
    requires i < |parts|
    ensures Join(parts[..i + 1]) == Join(parts[..i]) + parts[i]
  {
    assert parts[..i + 1][..i] == parts[..i];
  }

  /** For every split of a message of fewer than 2^64 bits the digest is that of the
      whole message. */
  method DigestParts(parts: seq<bytes>) returns (digest: bytes)
    requires 8 * |Join(parts)| < LIMIT
    ensures digest == Digest(Join(parts))
  {
    hide *;
    var c := new Context();
    assert parts[..0] == [] && Join([]) == [] by { JoinNone(); }
    for i := 0 to |parts|
      invariant fresh(c) && fresh(c.block) && c.Valid() && !c.computed && c.corrupted == 0
      invariant c.message == Join(parts[..i])
    {
      JoinNext(parts, i);
      JoinGrows(parts, i + 1);
      var r := c.Input(parts[i]);
      assert c.message + [] == c.message;
    }
    assert parts[..|parts|] == parts;
    var r;
    r, digest := c.Result();
  }
}
