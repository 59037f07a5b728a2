/** The openaes context: its key, its options and the IV chained from message to
    message (libs/openaes/oaes_lib.c:817-998 and 1233-1429). */
module AesContext {
  import opened Bytes
  import opened AesCipher
  import opened AesMessage
  import opened AesBlock
  import opened AesKey

  /** Sizes are 64-bit words. */
  const SIZES: nat := 0x1_0000_0000_0000_0000

  /** The option bits a context can hold. */
  datatype Options = Options(ecb: bool, cbc: bool, stepOn: bool, stepOff: bool)

  function OptionWord(o: Options): (n: nat)
    ensures n < 16
  {
    (if o.ecb then ECB else 0) + (if o.cbc then CBC else 0) + (if o.stepOn then STEP_ON else 0)
    + (if o.stepOff then STEP_OFF else 0)
  }

  /** The word has the bits; with one mode, decryption takes it. */
  lemma {:induction false} WordBits(o: Options)
    ensures Has(OptionWord(o), ECB) == o.ecb && Has(OptionWord(o), CBC) == o.cbc == Chained(OptionWord(o))
    ensures o.ecb != o.cbc ==> OptionsOk(OptionWord(o))
  {
    var n := OptionWord(o);
    assert n % 4 == (if o.ecb then 1 else 0) + (if o.cbc then 2 else 0);
    assert n / 2 % 2 == n % 4 / 2;
    assert n % 2 == n % 4 % 2;
  }

  /** The bytes of message block i, short at the end. */
  function Part(m: bytes, i: nat): bytes
    requires 16 * i < |m|
  {
    m[16 * i..if 16 * i + 16 <= |m| then 16 * i + 16 else |m|]
  }

  lemma {:induction false} PaddedPart(m: bytes, i: nat)
    requires 16 * i < |m|
    ensures 16 * i + 16 <= |Padded(m)| && 0 < |Part(m, i)| <= 16
    ensures Piece(Padded(m), i) == Part(m, i) + Pad(16 - |Part(m, i)|)
  {
    var s, p := Padded(m), Part(m, i);
    if 16 * i + 16 <= |m| {
      assert s[16 * i..16 * i + 16] == p;
    } else {
      assert PadSize(|m|) == 16 - |p|;
      assert s[16 * i..16 * i + 16] == p + Pad(16 - |p|);
    }
  }

  lemma {:induction false} BlockCount(m: bytes, i: nat)
    ensures 16 * i < |Padded(m)| <==> 16 * i < |m|
  {
  }

  lemma {:induction false} WholeBlock(b: Block)
    ensures b[0..0 + 16] == b
  {
  }

  lemma {:induction false} WholePatch(s: Block, b: Block)
    ensures Patch(s, 0, b) == b
  {
  }

  /** A block with its padding. */
  method PadBlock(part: bytes) returns (block: array<byte>)
    requires 0 < |part| <= 16
    ensures fresh(block) && block.Length == 16 && block[..] == part + Pad(16 - |part|)
  {
    hide Patch;
    block := new byte[16](_ => 0);
    var n := |part|;
    Copy(block, 0, part);
    assert block[..n] == block[..][0..0 + n];
    for j := n to 16
      invariant block[..n] == part
      invariant forall k :: n <= k < j ==> block[k] == k - n + 1
    {
      block[j] := j - n + 1;
    }
    assert block[n..] == Pad(16 - n);
    assert block[..] == block[..n] + block[n..];
  }

  const HEADER_START: Block := [0x4f, 0x41, 0x45, 0x53, 1, 2, 0, 0, 0, 0, 0, 0, 0, 0, 0, 0]

  lemma {:induction false} PatchEnds(s: bytes, at: nat, b: bytes)
    requires at + |b| <= |s|
    ensures Patch(s, at, b)[..at + |b|] == s[..at] + b && Patch(s, at, b)[at + |b|..] == s[at + |b|..]
  {
  }

  lemma {:induction false} PatchRest(s: bytes, t: bytes, at: nat, b: bytes)
    requires at + |b| <= |s| == |t| && t[..at + |b|] == s[..at] + b && t[at + |b|..] == s[at + |b|..]
    ensures t == Patch(s, at, b)
  {
    assert t == t[..at + |b|] + t[at + |b|..];
  }

  /** The IV after i blocks. */
  function IvAfter(w: bytes, cbc: bool, iv: Block, s: bytes, i: nat): Block
    requires Keys(w) && 16 * i <= |s|
  {
    if cbc && i > 0 then Piece(Chain(w, cbc, iv, s, i), i - 1) else iv
  }

  /** Block i enciphered, given the IV the blocks before it left. */
  function NextBlock(w: bytes, cbc: bool, iv: Block, s: bytes, i: nat): Block
    requires Keys(w) && 16 * i + 16 <= |s|
  {
    hide Cipher, AddKey, Keys;
    Cipher(w, if cbc then AddKey(Piece(s, i), IvAfter(w, cbc, iv, s, i)) else Piece(s, i))
  }

  lemma {:induction false} ChainNext(w: bytes, cbc: bool, iv: Block, s: bytes, i: nat)
    requires Keys(w) && 16 * i + 16 <= |s|
    ensures var x := NextBlock(w, cbc, iv, s, i);
      Chain(w, cbc, iv, s, i + 1) == Chain(w, cbc, iv, s, i) + x && IvAfter(w, cbc, iv, s, i + 1) == if cbc then x else IvAfter(w, cbc, iv, s, i)
  {
    hide Cipher, AddKey, Keys;
  }

  /** i blocks are done: the buffer, once s, holds the head, the blocks, and the
      message from there on. */
  ghost predicate Sealing(w: bytes, cbc: bool, iv: Block, m: bytes, head: bytes, s: bytes, t: bytes, i: nat)
    requires Keys(w)
  {
    var size := 32 + |Padded(m)|;
    |head| == 32 && size <= |s| == |t| && 32 + 16 * i <= size
    && t[..32 + 16 * i] == head + Chain(w, cbc, iv, Padded(m), i)
    && (forall k :: 16 * i <= k < |m| ==> t[32 + k] == m[k])
    && t[size..] == s[size..]
  }

  lemma {:induction false} SealStart(w: bytes, cbc: bool, iv: Block, m: bytes, head: bytes, s: bytes, t: bytes)
    requires Keys(w) && |head| == 32 && 32 + |Padded(m)| <= |s| && t == Patch(Patch(s, 0, head), 32, m)
    ensures Sealing(w, cbc, iv, m, head, s, t, 0) && IvAfter(w, cbc, iv, Padded(m), 0) == iv
  {
    hide Patch, Keys, Padded, PadSize;
    SizesOf(m);
    PatchBeside(s, 0, head, m);
    PatchEnds(s, 0, head + m);
    HeadAndMessage(t, head, m);
    RestAfter(s, t, 32 + |m|, 32 + |Padded(m)|);
  }

  lemma {:induction false} SealPart(w: bytes, cbc: bool, iv: Block, m: bytes, head: bytes, s: bytes, t: bytes, i: nat)
    requires Keys(w) && 16 * i < |m| && Sealing(w, cbc, iv, m, head, s, t, i)
    ensures 48 + 16 * i <= |t| && t[32 + 16 * i..32 + 16 * i + |Part(m, i)|] == Part(m, i)
  {
    hide Keys, Chain, Padded;
    PaddedPart(m, i);
    var part := Part(m, i);
    var u := t[32 + 16 * i..32 + 16 * i + |part|];
    forall k | 0 <= k < |part| ensures u[k] == part[k] {
      assert t[32 + (16 * i + k)] == m[16 * i + k];
    }
    assert u == part;
  }

  lemma {:induction false} SealStep(w: bytes, cbc: bool, iv: Block, m: bytes, head: bytes, s: bytes, t: bytes, i: nat, t': bytes)
    requires Keys(w) && 16 * i < |m| && Sealing(w, cbc, iv, m, head, s, t, i)
    requires 16 * i + 16 <= |Padded(m)| && t' == Patch(t, 32 + 16 * i, NextBlock(w, cbc, iv, Padded(m), i))
    ensures Sealing(w, cbc, iv, m, head, s, t', i + 1)
  {
    hide Keys, Chain, Patch, NextBlock, Padded, IvAfter;
    SizesOf(m);
    var p, at := Padded(m), 32 + 16 * i;
    var x := NextBlock(w, cbc, iv, p, i);
    PatchEnds(t, at, x);
    ChainNext(w, cbc, iv, p, i);
    assert head + Chain(w, cbc, iv, p, i) + x == head + (Chain(w, cbc, iv, p, i) + x);
    RestAfter(t, t', at + 16, 32 + |p|);
    forall k | 16 * i + 16 <= k < |m| ensures t'[32 + k] == m[k] {
      assert t'[32 + k] == t'[at + 16..][k - 16 * i - 16];
      assert t[32 + k] == t[at + 16..][k - 16 * i - 16];
    }
  }

  lemma {:induction false} SealEnd(w: bytes, o: Options, iv: Block, m: bytes, s: bytes, t: bytes, i: nat)
    requires Keys(w) && |m| <= 16 * i <= |Padded(m)| && |s| >= 32 + |Padded(m)|
    requires Sealing(w, o.cbc, iv, m, Header(OptionWord(o), Flags(m)) + iv, s, t, i)
    ensures t == Patch(s, 0, Sealed(w, OptionWord(o), iv, m))
    ensures IvAfter(w, o.cbc, iv, Padded(m), i) == NextIv(w, OptionWord(o), iv, m)
  {
    hide Keys, Chain, Patch, Header, OptionWord, Chained, Has, OptionsOk;
    WordBits(o);
    assert 16 * i == |Padded(m)|;
    var c := Sealed(w, OptionWord(o), iv, m);
    assert t[..0 + |c|] == s[..0] + c;
    PatchRest(s, t, 0, c);
  }

  lemma {:induction false} HeadAndMessage(c: bytes, head: bytes, m: bytes)
    requires |head| == 32 && 32 + |m| <= |c| && c[..32 + |m|] == head + m
    ensures c[..32] == head && forall k :: 0 <= k < |m| ==> c[32 + k] == m[k]
  {
    assert c[..32] == c[..32 + |m|][..32];
    forall k | 0 <= k < |m| ensures c[32 + k] == m[k] {
      assert c[32 + k] == c[..32 + |m|][32 + k];
    }
  }

  lemma {:induction false} RestAfter(s: bytes, t: bytes, x: nat, y: nat)
    requires |s| == |t| && x <= y <= |s| && t[x..] == s[x..]
    ensures t[y..] == s[y..]
  {
    assert t[y..] == t[x..][y - x..];
    assert s[y..] == s[x..][y - x..];
  }

  /** i blocks are done in a buffer that was s. */
  ghost function Unsealing(w: bytes, cbc: bool, iv: Block, c: bytes, s: bytes, i: nat): bytes
    requires Keys(w) && 16 * i <= |c| <= |s|
  {
    hide Keys;
    Patch(s, 0, Unchain(w, cbc, iv, c, i) + c[16 * i..])
  }

  lemma {:induction false} UnsealStart(w: bytes, cbc: bool, iv: Block, c: bytes, s: bytes)
    requires Keys(w) && |c| <= |s|
    ensures Unsealing(w, cbc, iv, c, s, 0) == Patch(s, 0, c)
  {
    hide Keys, Patch;
    assert [] + c[0..] == c;
  }

  lemma {:induction false} UnsealStep(w: bytes, cbc: bool, iv: Block, c: bytes, s: bytes, i: nat)
    requires Keys(w) && 16 * i + 16 <= |c| <= |s|
    ensures |Unsealing(w, cbc, iv, c, s, i)| == |s| && Unsealing(w, cbc, iv, c, s, i)[16 * i..16 * i + 16] == Piece(c, i)
    ensures Patch(Unsealing(w, cbc, iv, c, s, i), 16 * i, Mask(cbc, iv, c, i, Decipher(w, Piece(c, i))))
         == Unsealing(w, cbc, iv, c, s, i + 1)
  {
    hide Keys, Patch, Mask, Decipher;
    var u, rest := Unchain(w, cbc, iv, c, i), c[16 * i + 16..];
    var x := Mask(cbc, iv, c, i, Decipher(w, Piece(c, i)));
    assert c[16 * i..] == Piece(c, i) + rest;
    PatchInside(s, u, Piece(c, i), rest, x);
    assert u + (Piece(c, i) + rest) == u + Piece(c, i) + rest;
  }

  lemma {:induction false} PatchInside(s: bytes, u: bytes, b: bytes, v: bytes, x: bytes)
    requires |u| + |b| + |v| <= |s| && |b| == |x|
    ensures Patch(s, 0, u + b + v)[|u|..|u| + |b|] == b
    ensures Patch(Patch(s, 0, u + b + v), |u|, x) == Patch(s, 0, u + x + v)
  {
  }

  lemma {:induction false} UnsealEnd(w: bytes, cbc: bool, iv: Block, c: bytes, s: bytes, i: nat)
    requires Keys(w) && 16 * i == |c| <= |s|
    ensures var t := Unsealing(w, cbc, iv, c, s, i);
      |t| == |s| && t[..|c|] == Unchain(w, cbc, iv, c, i) && t[|c|..] == s[|c|..]
  {
    hide Keys, Patch;
    var u := Unchain(w, cbc, iv, c, i);
    assert u + c[16 * i..] == u;
    PatchEnds(s, 0, u);
  }

  /** Whether the bytes before size are 1, 2, ..., k. */
  method IsPad(m: array<byte>, size: nat, k: nat) returns (isPad: bool)
    requires 0 < k < 16 && k <= size <= m.Length
    ensures isPad <==> m[..][size - k..size] == Pad(k)
  {
    isPad := true;
    for i := 0 to k
      invariant isPad <==> forall j :: size - i <= j < size ==> m[j] == j - size + k + 1
    {
      if m[size - 1 - i] != k - i {
        isPad := false;
      }
    }
    ghost var t := m[..][size - k..size];
    if isPad {
      assert t == Pad(k);
    } else {
      ghost var j :| size - k <= j < size && m[j] != j - size + k + 1;
      assert t[j - size + k] != Pad(k)[j - size + k];
    }
  }

  /** The padding is checked from its end, then cleared. */
  method Unpad(m: array<byte>, size: nat) returns (rc: Ret, left: nat)
    requires 16 <= size <= m.Length
    modifies m
    ensures m[size..] == old(m[..])[size..] && rc in {SUCCESS, HEADER}
    ensures match Unpadded(old(m[..])[..size])
      case Message(x) => rc == SUCCESS && left == |x| <= m.Length && m[..left] == x
      case Rejected(why) => rc == why && left == size
  {
    hide Patch;
    ghost var s := m[..][..size];
    var k := m[size - 1];
    if k == 0 || k > 15 {
      return HEADER, size;
    }
    var isPad := IsPad(m, size, k);
    assert s[size - k..] == m[..][size - k..size];
    if !isPad {
      return HEADER, size;
    }
    ghost var t := m[..];
    Copy(m, size - k, seq(k, _ => 0));
    PatchEnds(t, size - k, seq(k, _ => 0));
    assert m[..size - k] == m[..][..size][..size - k];
    return SUCCESS, size - k;
  }

  lemma {:induction false} KnownFlags(c: bytes)
    requires |c| >= 32 && HeaderOk(c[..16]) && !BarePad(c)
    ensures c[8] <= 1 && (c[8] == 1 ==> |c| > 32)
  {
    assert c[8] == c[..16][8];
  }

  /** Whatever the key, its size, the mode and the IV, a context with the same key
      reads back what a context wrote. */
  lemma {:induction false} ContextBack(key: bytes, o: Options, iv: Block, m: bytes)
    requires KeySize(|key|) && o.ecb != o.cbc
    ensures var w := Expanded(key);
      Keys(w) && var c := Sealed(w, OptionWord(o), iv, m);
      |c| % 16 == 0 && |c| >= 32 && !BarePad(c) && Unsealed(w, c) == Message(m)
  {
    hide Expanded, Sealed, Unsealed, BarePad, Has;
    ExpandedKeys(key);
    WordBits(o);
    SealedBack(Expanded(key), OptionWord(o), iv, m);
  }

  class Context {
    var hasKey: bool
    var exp: bytes
    var options: Options
    var iv: Block

    ghost predicate Valid()
      reads this
    {
      options.ecb != options.cbc && (hasKey ==> Keys(exp))
    }

    /** A new context chains, from an IV drawn at random. */
    constructor (random: Block)
      ensures Valid() && !hasKey && options.cbc && iv == random
    {
      hasKey := false;
      exp := [];
      options := Options(false, true, false, true);
      iv := random;
    }

    /** A mode shuts out the other one; value stands for the IV given or drawn. */
    method SetOption(option: nat, given: bool, value: Block) returns (rc: Ret)
      requires Valid()
      modifies this`options, this`iv
      ensures Valid()
      ensures rc == if option == ECB || option == CBC || option == STEP_OFF then SUCCESS
                    else if option != STEP_ON then ARG2 else if given then SUCCESS else ARG3
      ensures option == ECB ==> !options.cbc && iv == seq(16, _ => 0)
      ensures option == CBC ==> options.cbc && iv == value
      ensures option == ECB || option == CBC ==> options.stepOn == old(options.stepOn) && options.stepOff == old(options.stepOff)
      ensures option != ECB && option != CBC ==> options.cbc == old(options.cbc) && iv == old(iv)
      ensures option == STEP_ON || option == STEP_OFF ==> options.stepOn == (option == STEP_ON && given) != options.stepOff
      ensures rc == ARG2 ==> options == old(options)
    {
      rc := SUCCESS;
      if option == ECB {
        options := options.(ecb := true, cbc := false);
        iv := seq(16, _ => 0);
      } else if option == CBC {
        options := options.(ecb := false, cbc := true);
        iv := value;
      } else if option == STEP_ON {
        if given {
          options := options.(stepOn := true, stepOff := false);
        } else {
          options := options.(stepOn := false, stepOff := true);
          rc := ARG3;
        }
      } else if option == STEP_OFF {
        options := options.(stepOn := false, stepOff := true);
      } else {
        rc := ARG2;
      }
    }

    method ImportKey(data: bytes) returns (rc: Ret)
      requires Valid()
      modifies this`hasKey, this`exp
      ensures Valid()
      ensures rc == if KeySize(|data|) then SUCCESS else ARG3
      ensures rc == SUCCESS ==> hasKey && exp == Expanded(data)
      ensures rc != SUCCESS ==> hasKey == old(hasKey) && exp == old(exp)
    {
      hide Expanded;
      if !KeySize(|data|) {
        return ARG3;
      }
      var w := Expand(data);
      ExpandedKeys(data);
      hasKey := true;
      exp := w[..];
      return SUCCESS;
    }

    /** One block: padded, combined with the IV, enciphered, and kept as the next IV. */
    method EncryptNext(c: array<byte>, at: nat, part: bytes)
      requires Valid() && hasKey && 0 < |part| <= 16 && at + 16 <= c.Length
      modifies c, this`iv
      ensures var b := part + Pad(16 - |part|);
        var x := Cipher(exp, if options.cbc then AddKey(b, old(iv)) else b);
        c[..] == Patch(old(c[..]), at, x) && iv == (if options.cbc then x else old(iv))
    {
      hide Cipher, AddKey, Patch, Keys;
      var block := PadBlock(part);
      ghost var b := part + Pad(16 - |part|);
      WholeBlock(b);
      if options.cbc {
        AddRoundKey(block, 0, iv);
      }
      ghost var x := if options.cbc then AddKey(b, iv) else b;
      WholePatch(b, x);
      assert block[..] == x;
      WholeBlock(x);
      EncryptBlock(exp, block, 0);
      WholePatch(x, Cipher(exp, x));
      assert block[..] == Cipher(exp, x);
      assert c[..] == old(c[..]);
      Copy(c, at, block[..]);
      if options.cbc {
        iv := block[..];
      }
    }

    /** Header and IV. */
    method WriteHead(c: array<byte>, flags: byte)
      requires c.Length >= 32
      modifies c
      ensures c[..] == Patch(old(c[..]), 0, Header(OptionWord(options), flags) + iv)
    {
      hide Patch, Has;
      WordBits(options);
      var o := OptionWord(options);
      ghost var s := c[..];
      Copy(c, 0, HEADER_START);
      c[6], c[7] := o % 256, o / 256;
      c[8] := flags;
      PatchEnds(s, 0, HEADER_START);
      assert c[..16] == Header(o, flags);
      assert c[16..] == s[16..];
      PatchRest(s, c[..], 0, Header(o, flags));
      Copy(c, 16, iv);
      PatchBeside(s, 0, Header(o, flags), iv);
    }

    /** Encryption. The text is the sealed message, and the last block is kept as
        the next IV. */
    method Encrypt(m: bytes, c: array<byte>) returns (rc: Ret, size: nat)
      requires Valid()
      modifies c, this`iv
      ensures Valid() && size == 32 + |Padded(m)|
      ensures rc == if c.Length < size then BUF else if !hasKey then NOKEY else SUCCESS
      ensures rc == SUCCESS ==> c[..] == Patch(old(c[..]), 0, Sealed(exp, OptionWord(options), old(iv), m))
      ensures rc == SUCCESS ==> iv == NextIv(exp, OptionWord(options), old(iv), m)
      ensures rc != SUCCESS ==> c[..] == old(c[..]) && iv == old(iv)
    {
      hide Patch, Keys, Chain, Padded, PadSize, Header, OptionWord, Sealing, Sealed, NextIv, IvAfter, Cipher, AddKey, Pad;
      var pad := PadSize(|m|);
      size := 32 + |m| + pad;
      SizesOf(m);
      if c.Length < size {
        return BUF, size;
      }
      if !hasKey {
        return NOKEY, size;
      }
      ghost var s, iv0, p, w, cbc := c[..], iv, Padded(m), exp, options.cbc;
      ghost var head := Header(OptionWord(options), Flags(m)) + iv0;
      WriteHead(c, if pad == 0 then 0 else 1);
      Copy(c, 32, m);
      SealStart(w, cbc, iv0, m, head, s, c[..]);
      var i := 0;
      while 16 * i < |m| + pad
        invariant Sealing(w, cbc, iv0, m, head, s, c[..], i)
        invariant 16 * i <= |p| && iv == IvAfter(w, cbc, iv0, p, i)
      {
        BlockCount(m, i);
        var part := c[32 + 16 * i..if 16 * i + 16 <= |m| then 48 + 16 * i else 32 + |m|];
        SealPart(w, cbc, iv0, m, head, s, c[..], i);
        PaddedPart(m, i);
        ghost var t := c[..];
        assert part == t[32 + 16 * i..32 + 16 * i + |Part(m, i)|];
        EncryptNext(c, 32 + 16 * i, part);
        ChainNext(w, cbc, iv0, p, i);
        SealStep(w, cbc, iv0, m, head, s, t, i, c[..]);
        i := i + 1;
      }
      SealEnd(w, options, iv0, m, s, c[..], i);
      return SUCCESS, size;
    }

    /** The blocks deciphered in the buffer, each combined with the one before it. */
    method DecryptBlocks(cbc: bool, first: Block, data: bytes, m: array<byte>)
      requires Valid() && hasKey && |data| % 16 == 0 && |data| <= m.Length
      modifies m
      ensures m[..|data|] == Unchain(exp, cbc, first, data, |data| / 16) && m[|data|..] == old(m[..])[|data|..]
    {
      hide Keys, Patch, Unchain, Unsealing, Decipher, AddKey;
      ghost var s := m[..];
      Copy(m, 0, data);
      UnsealStart(exp, cbc, first, data, s);
      var iv: Block := first;
      var i := 0;
      while 16 * i < |data|
        invariant i == 0 ==> iv == first
        invariant 16 * i <= |data| && m[..] == Unsealing(exp, cbc, first, data, s, i)
      {
        if cbc && i > 0 {
          iv := data[16 * (i - 1)..16 * (i - 1) + 16];
        }
        ghost var t := m[..];
        UnsealStep(exp, cbc, first, data, s, i);
        DecryptBlock(exp, m, 16 * i);
        ghost var x := Decipher(exp, Piece(data, i));
        if cbc {
          AddRoundKey(m, 16 * i, iv);
          PatchTwice(t, 16 * i, x, AddKey(x, iv));
        }
        i := i + 1;
      }
      UnsealEnd(exp, cbc, first, data, s, i);
    }

    /** Decryption: what the text opens to, and else the error; the buffer past the
        text's length stays as it was. */
    method Decrypt(c: bytes, m: array<byte>) returns (rc: Ret, size: nat)
      requires Valid() && |c| < SIZES && m.Length < SIZES - 32
      requires hasKey && |c| >= 32 ==> !BarePad(c)
      modifies m
      ensures |c| % 16 != 0 ==> rc == ARG3 && size == m.Length
      ensures |c| % 16 == 0 && |c| < 32 ==> rc == BUF && size == SIZES + |c| - 32
      ensures |c| % 16 == 0 && |c| >= 32 && m.Length < |c| - 32 ==> rc == BUF && size == |c| - 32
      ensures |c| % 16 == 0 && 32 <= |c| <= m.Length + 32 && !hasKey ==> rc == NOKEY && size == |c| - 32
      ensures |c| % 16 == 0 && 32 <= |c| <= m.Length + 32 && hasKey ==>
        match Unsealed(exp, c)
        case Message(x) => rc == SUCCESS && size == |x| <= m.Length && m[..size] == x
        case Rejected(why) => rc == why && size == |c| - 32
      ensures rc in {ARG3, BUF, NOKEY} ==> m[..] == old(m[..])
      ensures rc in {SUCCESS, HEADER} ==> 32 <= |c| <= m.Length + 32 && m[|c| - 32..] == old(m[..])[|c| - 32..]
    {
      hide Keys, Patch, Unchain, Unpadded, HeaderOk, Chained, OptionsOf, Has;
      if |c| % 16 != 0 {
        return ARG3, m.Length;
      }
      size := (|c| - 32 + SIZES) % SIZES;
      if m.Length < size {
        return BUF, size;
      }
      if !hasKey {
        return NOKEY, size;
      }
      if !HeaderOk(c[..16]) {
        return HEADER, size;
      }
      var cbc := Chained(OptionsOf(c[..16]));
      var first, data := c[16..32], c[32..];
      DecryptBlocks(cbc, first, data, m);
      KnownFlags(c);
      if c[8] == 1 {
        rc, size := Unpad(m, size);
      } else {
        rc := SUCCESS;
      }
    }
  }
}
