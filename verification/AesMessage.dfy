/** Messages under openaes: a header block, the IV, and the padded message
    enciphered block by block, chained or not (libs/openaes/oaes_lib.c:1233-1429;
    section 6.2 of NIST SP 800-38A). */
module AesMessage {
  import opened Bytes
  import opened AesCipher

  datatype Ret = SUCCESS | ARG2 | ARG3 | NOKEY | BUF | HEADER

  datatype Opened = Message(m: bytes) | Rejected(why: Ret)

  const ECB: nat := 1
  const CBC: nat := 2
  const STEP_ON: nat := 4
  const STEP_OFF: nat := 8

  /** Whether an option bit is set. */
  predicate Has(options: nat, option: nat)
    requires option > 0
  {
    options / option % 2 == 1
  }

  predicate Chained(options: nat) {
    Has(options, CBC)
  }

  /** The options that decryption takes: known bits, at least one, and not both modes. */
  predicate OptionsOk(options: nat) {
    0 < options < 16 && !(Has(options, ECB) && Has(options, CBC))
  }

  // ----- padding

  /** 1, 2, ..., k. */
  function Pad(k: nat): (s: bytes)
    requires k < 16
    ensures |s| == k
  {
    seq(k, i requires 0 <= i < k => i + 1)
  }

  function PadSize(size: nat): (k: nat)
    ensures k < 16 && (size + k) % 16 == 0
  {
    if size % 16 == 0 then 0 else 16 - size % 16
  }

  function Padded(m: bytes): (s: bytes)
    ensures |s| % 16 == 0
  {
    m + Pad(PadSize(|m|))
  }

  /** The message without the padding its last byte announces. */
  function Unpadded(s: bytes): Opened
    requires |s| >= 16
  {
    var k := s[|s| - 1];
    if k == 0 || k > 15 || s[|s| - k..] != Pad(k) then Rejected(HEADER) else Message(s[..|s| - k])
  }

  lemma {:induction false} PaddingBack(m: bytes)
    requires PadSize(|m|) != 0
    ensures Unpadded(Padded(m)) == Message(m)
  {
    var k := PadSize(|m|);
    var s := Padded(m);
    assert s[|s| - 1] == k;
    assert s[|s| - k..] == Pad(k) && s[..|s| - k] == m;
  }

  /** Only a padded message is unpadded. */
  lemma {:induction false} OnlyPadded(s: bytes, m: bytes)
    requires |s| >= 16 && |s| % 16 == 0 && Unpadded(s) == Message(m)
    ensures PadSize(|m|) != 0 && s == Padded(m)
  {
    assert s == s[..|s| - s[|s| - 1]] + s[|s| - s[|s| - 1]..];
  }

  // ----- chaining

  function Piece(s: bytes, n: nat): Block
    requires 16 * n + 16 <= |s|
  {
    s[16 * n..16 * n + 16]
  }

  /** What a chained block is combined with: the cipher block before, or the IV. */
  function Mask(cbc: bool, iv: Block, c: bytes, n: nat, b: Block): Block
    requires 16 * n <= |c|
  {
    if cbc then AddKey(b, if n == 0 then iv else Piece(c, n - 1)) else b
  }

  /** The first n blocks enciphered. */
  function Chain(w: bytes, cbc: bool, iv: Block, s: bytes, n: nat): (c: bytes)
    requires Keys(w) && 16 * n <= |s|
    ensures |c| == 16 * n
  {
    if n == 0 then []
    else
      var c := Chain(w, cbc, iv, s, n - 1);
      c + Cipher(w, Mask(cbc, iv, c, n - 1, Piece(s, n - 1)))
  }

  /** The first n blocks deciphered. */
  function Unchain(w: bytes, cbc: bool, iv: Block, c: bytes, n: nat): (s: bytes)
    requires Keys(w) && 16 * n <= |c|
    ensures |s| == 16 * n
  {
    if n == 0 then []
    else Unchain(w, cbc, iv, c, n - 1) + Mask(cbc, iv, c, n - 1, Decipher(w, Piece(c, n - 1)))
  }

  lemma {:induction false} UnchainPrefix(w: bytes, cbc: bool, iv: Block, c: bytes, d: bytes, n: nat)
    requires Keys(w) && 16 * n <= |c| && c <= d
    ensures Unchain(w, cbc, iv, c, n) == Unchain(w, cbc, iv, d, n)
    decreases n
  {
    hide Decipher, AddKey;
    if n > 0 {
      UnchainPrefix(w, cbc, iv, c, d, n - 1);
      assert Piece(c, n - 1) == Piece(d, n - 1);
      if n > 1 {
        assert Piece(c, n - 2) == Piece(d, n - 2);
      }
    }
  }

  lemma {:induction false} MaskBack(cbc: bool, iv: Block, c: bytes, d: bytes, n: nat, b: Block)
    requires 16 * n <= |c| && c <= d
    ensures Mask(cbc, iv, d, n, Mask(cbc, iv, c, n, b)) == b
  {
    hide AddKey;
    var k := if n == 0 then iv else Piece(c, n - 1);
    AddKeyBack(b, k);
    assert n > 0 ==> Piece(c, n - 1) == Piece(d, n - 1);
  }

  /** Deciphering undoes enciphering, chained or not, whatever the IV. */
  lemma {:induction false} ChainBack(w: bytes, cbc: bool, iv: Block, s: bytes, n: nat)
    requires Keys(w) && 16 * n <= |s|
    ensures Unchain(w, cbc, iv, Chain(w, cbc, iv, s, n), n) == s[..16 * n]
    decreases n
  {
    hide Keys, Cipher, Decipher, Mask;
    if n > 0 {
      var c := Chain(w, cbc, iv, s, n - 1);
      var b := Piece(s, n - 1);
      var x := Mask(cbc, iv, c, n - 1, b);
      var d := c + Cipher(w, x);
      ChainBack(w, cbc, iv, s, n - 1);
      UnchainPrefix(w, cbc, iv, c, d, n - 1);
      assert Piece(d, n - 1) == Cipher(w, x);
      BlockBack(w, x);
      MaskBack(cbc, iv, c, d, n - 1, b);
      assert s[..16 * n] == s[..16 * (n - 1)] + b;
    }
  }

  // ----- messages

  function Header(options: nat, flags: byte): Block
    requires options < 0x1_0000
  {
    [0x4f, 0x41, 0x45, 0x53, 1, 2, options % 256, options / 256, flags, 0, 0, 0, 0, 0, 0, 0]
  }

  function Flags(m: bytes): byte {
    if PadSize(|m|) == 0 then 0 else 1
  }

  /** The message enciphered. */
  function Body(w: bytes, options: nat, iv: Block, m: bytes): bytes
    requires Keys(w)
  {
    Chain(w, Chained(options), iv, Padded(m), |Padded(m)| / 16)
  }

  function Sealed(w: bytes, options: nat, iv: Block, m: bytes): bytes
    requires Keys(w) && options < 0x1_0000
  {
    Header(options, Flags(m)) + iv + Body(w, options, iv, m)
  }

  /** The IV kept for the next message: the last cipher block. */
  function NextIv(w: bytes, options: nat, iv: Block, m: bytes): Block
    requires Keys(w)
  {
    if Chained(options) && |m| > 0 then Piece(Body(w, options, iv, m), |Padded(m)| / 16 - 1) else iv
  }

  /** The options in a header, low byte first. */
  function OptionsOf(h: Block): nat {
    var low: nat, high: nat := h[6], h[7];
    low + 256 * high
  }

  predicate HeaderOk(h: Block) {
    h[..6] == [0x4f, 0x41, 0x45, 0x53, 1, 2] && OptionsOk(OptionsOf(h)) && h[8] <= 1
  }

  /** What decryption makes of a text, given room and a key. A text of two blocks
      that claims to be padded is not described: its padding is read before the
      message. */
  function Unsealed(w: bytes, c: bytes): Opened
    requires Keys(w) && |c| % 16 == 0 && |c| >= 32
    requires !BarePad(c)
  {
    if !HeaderOk(c[..16]) then Rejected(HEADER)
    else
      var s := Unchain(w, Chained(OptionsOf(c[..16])), c[16..32], c[32..], |c| / 16 - 2);
      if c[8] == 0 then Message(s) else Unpadded(s)
  }

  predicate BarePad(c: bytes)
    requires |c| >= 32
  {
    |c| == 32 && HeaderOk(c[..16]) && c[8] == 1
  }

  /** Which place of the message the removal of the padding reads first. */
  function PaddingPlace(c: bytes): int {
    |c| - 32 - 1
  }

  /** Any header that claims padding, and an IV, without a message: such a text meets
      every check, and its padding is looked for before the buffer. */
  lemma {:induction false} BarePadText(options: nat, iv: Block)
    requires OptionsOk(options)
    ensures var c := Header(options, 1) + iv; |c| == 32 && BarePad(c) && PaddingPlace(c) == -1
  {
    assert options < 16;
    hide OptionsOk, Header, HeaderOk;
    var c := Header(options, 1) + iv;
    HeaderBack(options, 1);
    assert c[..16] == Header(options, 1);
    assert c[8] == c[..16][8];
  }

  /** No other text that meets the checks does this. */
  lemma {:induction false} BarePadExactly(c: bytes)
    requires |c| >= 32 && |c| % 16 == 0 && HeaderOk(c[..16]) && c[8] == 1
    ensures BarePad(c) <==> !(0 <= PaddingPlace(c) < |c| - 32)
  {
    hide HeaderOk;
  }

  lemma {:induction false} SealedShape(w: bytes, options: nat, iv: Block, m: bytes)
    requires Keys(w) && options < 0x1_0000
    ensures var c := Sealed(w, options, iv, m);
      |c| == 32 + |Padded(m)| && c[..16] == Header(options, Flags(m)) && c[16..32] == iv && c[32..] == Body(w, options, iv, m)
  {
    hide Header, Keys;
  }

  lemma {:induction false} HeaderBack(options: nat, flags: byte)
    requires options < 0x1_0000 && flags <= 1
    ensures HeaderOk(Header(options, flags)) <==> OptionsOk(options)
    ensures var h := Header(options, flags); OptionsOf(h) == options && h[8] == flags
  {
    hide OptionsOk;
    assert Header(options, flags)[..6] == [0x4f, 0x41, 0x45, 0x53, 1, 2];
  }

  /** Decryption undoes encryption for every message, key and IV exactly when the
      options are ones it takes. */
  lemma {:induction false} SealedBack(w: bytes, options: nat, iv: Block, m: bytes)
    requires Keys(w) && options < 0x1_0000
    ensures var c := Sealed(w, options, iv, m);
      |c| % 16 == 0 && |c| >= 32 && !BarePad(c)
      && Unsealed(w, c) == if OptionsOk(options) then Message(m) else Rejected(HEADER)
  {
    hide Keys, OptionsOk, HeaderOk, Header, Unpadded, Body, Sealed, Chained, OptionsOf, Unchain, Padded, PadSize;
    var c := Sealed(w, options, iv, m);
    SealedShape(w, options, iv, m);
    HeaderBack(options, Flags(m));
    var h := c[..16];
    assert h[8] == c[8];
    SizesOf(m);
    BodyBack(w, options, iv, m);
    if PadSize(|m|) != 0 {
      PaddingBack(m);
    }
  }

  lemma {:induction false} SizesOf(m: bytes)
    ensures |Padded(m)| == |m| + PadSize(|m|) && (PadSize(|m|) == 0 ==> Padded(m) == m) && (PadSize(|m|) != 0 ==> |Padded(m)| >= 16)
  {
  }

  lemma {:induction false} BodyBack(w: bytes, options: nat, iv: Block, m: bytes)
    requires Keys(w)
    ensures |Body(w, options, iv, m)| == |Padded(m)|
    ensures Unchain(w, Chained(options), iv, Body(w, options, iv, m), |Padded(m)| / 16) == Padded(m)
  {
    hide Keys, Chain, Unchain, Padded, Chained;
    var s := Padded(m);
    ChainBack(w, Chained(options), iv, s, |s| / 16);
    assert s[..16 * (|s| / 16)] == s;
  }

  // ----- many messages of one context

  /** The texts of the messages, each starting from the IV the one before left. */
  function Session(w: bytes, options: nat, iv: Block, ms: seq<bytes>): (cs: seq<bytes>)
    requires Keys(w) && options < 0x1_0000
    ensures |cs| == |ms|
    decreases |ms|
  {
    hide Sealed, NextIv, Keys;
    if ms == [] then [] else [Sealed(w, options, iv, ms[0])] + Session(w, options, NextIv(w, options, iv, ms[0]), ms[1..])
  }

  /** Every text of a session opens on its own, in any order, to its message. */
  lemma {:induction false} SessionBack(w: bytes, options: nat, iv: Block, ms: seq<bytes>, i: nat)
    requires Keys(w) && OptionsOk(options) && i < |ms|
    ensures var c := Session(w, options, iv, ms)[i];
      |c| % 16 == 0 && |c| >= 32 && !BarePad(c) && Unsealed(w, c) == Message(ms[i])
    decreases i
  {
    hide Keys, Sealed, Unsealed, NextIv, BarePad;
    if i == 0 {
      SealedBack(w, options, iv, ms[0]);
    } else {
      SessionBack(w, options, NextIv(w, options, iv, ms[0]), ms[1..], i - 1);
    }
  }
}
