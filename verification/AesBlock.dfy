/** The block operations in place, on sixteen bytes of a buffer
    (libs/openaes/oaes_lib.c:255-444 and 1000-1231). */
module AesBlock {
  import opened Bytes
  import opened AesBox
  import opened AesField
  import opened AesCipher

  /** s with b written at an offset. */
  function Patch(s: bytes, at: nat, b: bytes): (t: bytes)
    requires at + |b| <= |s|
    ensures |t| == |s| && t[at..at + |b|] == b
  {
    s[..at] + b + s[at + |b|..]
  }

  lemma {:induction false} PatchTwice(s: bytes, at: nat, b: bytes, c: bytes)
    requires at + |b| <= |s| && |b| == |c|
    ensures Patch(Patch(s, at, b), at, c) == Patch(s, at, c)
  {
  }

  lemma {:induction false} PatchBeside(s: bytes, at: nat, b: bytes, c: bytes)
    requires at + |b| + |c| <= |s|
    ensures Patch(Patch(s, at, b), at + |b|, c) == Patch(s, at, b + c)
  {
  }

  method Copy(a: array<byte>, at: nat, b: bytes)
    requires at + |b| <= a.Length
    modifies a
    ensures a[..] == Patch(old(a[..]), at, b)
  {
    for j := 0 to |b|
      invariant forall k :: 0 <= k < at ==> a[k] == old(a[k])
      invariant forall k :: 0 <= k < j ==> a[at + k] == b[k]
      invariant forall k :: at + j <= k < a.Length ==> a[k] == old(a[k])
    {
      a[at + j] := b[j];
    }
  }

  method AddRoundKey(a: array<byte>, at: nat, k: Block)
    requires at + 16 <= a.Length
    modifies a
    ensures a[..] == Patch(old(a[..]), at, AddKey(old(a[..])[at..at + 16], k))
  {
    hide XorByte;
    for j := 0 to 16
      invariant forall i :: 0 <= i < at ==> a[i] == old(a[i])
      invariant forall i :: 0 <= i < j ==> a[at + i] == XorByte(old(a[at + i]), k[i])
      invariant forall i :: at + j <= i < a.Length ==> a[i] == old(a[i])
    {
      a[at + j] := XorByte(a[at + j], k[j]);
    }
    assert a[at..at + 16] == AddKey(old(a[..])[at..at + 16], k);
  }

  method Substitute(a: array<byte>, at: nat)
    requires at + 16 <= a.Length
    modifies a
    ensures a[..] == Patch(old(a[..]), at, SubBytes(old(a[..])[at..at + 16]))
  {
    hide Box;
    ghost var b := a[..][at..at + 16];
    for j := 0 to 16
      invariant forall i :: 0 <= i < at ==> a[i] == old(a[i])
      invariant forall i :: 0 <= i < j ==> a[at + i] == Box(b[i])
      invariant forall i :: at + j <= i < a.Length ==> a[i] == old(a[i])
    {
      a[at + j] := Box(a[at + j]);
    }
    assert a[at..at + 16] == SubBytes(old(a[..])[at..at + 16]);
  }

  method InvSubstitute(a: array<byte>, at: nat)
    requires at + 16 <= a.Length
    modifies a
    ensures a[..] == Patch(old(a[..]), at, InvSubBytes(old(a[..])[at..at + 16]))
  {
    hide InvBox;
    ghost var b := a[..][at..at + 16];
    for j := 0 to 16
      invariant forall i :: 0 <= i < at ==> a[i] == old(a[i])
      invariant forall i :: 0 <= i < j ==> a[at + i] == InvBox(b[i])
      invariant forall i :: at + j <= i < a.Length ==> a[i] == old(a[i])
    {
      a[at + j] := InvBox(a[at + j]);
    }
    assert a[at..at + 16] == InvSubBytes(old(a[..])[at..at + 16]);
  }

  method Shift(a: array<byte>, at: nat)
    requires at + 16 <= a.Length
    modifies a
    ensures a[..] == Patch(old(a[..]), at, ShiftRows(old(a[..])[at..at + 16]))
  {
    var b := a[..][at..at + 16];
    var t := [b[0x0], b[0x5], b[0xa], b[0xf], b[0x4], b[0x9], b[0xe], b[0x3],
              b[0x8], b[0xd], b[0x2], b[0x7], b[0xc], b[0x1], b[0x6], b[0xb]];
    assert t == ShiftRows(b);
    Copy(a, at, t);
  }

  method InvShift(a: array<byte>, at: nat)
    requires at + 16 <= a.Length
    modifies a
    ensures a[..] == Patch(old(a[..]), at, InvShiftRows(old(a[..])[at..at + 16]))
  {
    var b := a[..][at..at + 16];
    var t := [b[0x0], b[0xd], b[0xa], b[0x7], b[0x4], b[0x1], b[0xe], b[0xb],
              b[0x8], b[0x5], b[0x2], b[0xf], b[0xc], b[0x9], b[0x6], b[0x3]];
    assert t == InvShiftRows(b);
    Copy(a, at, t);
  }

  lemma {:induction false} PatchAfter(s: bytes, at: nat, b: bytes, x: nat, y: nat)
    requires at + |b| <= x <= y <= |s|
    ensures Patch(s, at, b)[x..y] == s[x..y]
  {
    var t := Patch(s, at, b);
    forall k | 0 <= k < y - x ensures t[x..y][k] == s[x..y][k] {
      assert t[x + k] == s[x + k];
    }
    assert t[x..y] == s[x..y];
  }

  method MixFour(a: array<byte>, at: nat)
    requires at + 4 <= a.Length
    modifies a
    ensures a[..] == Patch(old(a[..]), at, MixWord(old(a[..])[at..at + 4]))
  {
    hide MixWord;
    Copy(a, at, MixWord(a[..][at..at + 4]));
  }

  method InvMixFour(a: array<byte>, at: nat)
    requires at + 4 <= a.Length
    modifies a
    ensures a[..] == Patch(old(a[..]), at, InvMixWord(old(a[..])[at..at + 4]))
  {
    hide InvMixWord;
    Copy(a, at, InvMixWord(a[..][at..at + 4]));
  }

  /** Four words written one after the other are a block. */
  lemma {:induction false} FourWords(s: bytes, at: nat, x: bytes, y: bytes, z: bytes, t: bytes)
    requires at + 16 <= |s| && |x| == |y| == |z| == |t| == 4
    ensures Patch(Patch(Patch(Patch(s, at, x), at + 4, y), at + 8, z), at + 12, t) == Patch(s, at, x + y + z + t)
    ensures Patch(s, at, x)[at + 4..at + 8] == s[at + 4..at + 8]
    ensures Patch(Patch(s, at, x), at + 4, y)[at + 8..at + 12] == s[at + 8..at + 12]
    ensures Patch(Patch(Patch(s, at, x), at + 4, y), at + 8, z)[at + 12..at + 16] == s[at + 12..at + 16]
  {
    hide Patch;
    var xy := x + y;
    var xyz := xy + z;
    PatchBeside(s, at, x, y);
    PatchBeside(s, at, xy, z);
    PatchBeside(s, at, xyz, t);
    assert Patch(Patch(s, at, x), at + 4, y) == Patch(s, at, xy);
    assert Patch(Patch(s, at, xy), at + 8, z) == Patch(s, at, xyz);
    PatchAfter(s, at, x, at + 4, at + 8);
    PatchAfter(s, at, xy, at + 8, at + 12);
    PatchAfter(s, at, xyz, at + 12, at + 16);
  }

  lemma {:induction false} Slice(s: bytes, at: nat, x: nat, y: nat)
    requires at + 16 <= |s| && x <= y <= 16
    ensures s[at..at + 16][x..y] == s[at + x..at + y]
  {
    var b := s[at..at + 16];
    forall k | 0 <= k < y - x ensures b[x..y][k] == s[at + x..at + y][k] {
      assert b[x + k] == s[at + x + k];
    }
    assert b[x..y] == s[at + x..at + y];
  }

  lemma {:induction false} Words(s: bytes, at: nat)
    requires at + 16 <= |s|
    ensures s[at..at + 16][0..4] == s[at..at + 4] && s[at..at + 16][4..8] == s[at + 4..at + 8]
    ensures s[at..at + 16][8..12] == s[at + 8..at + 12] && s[at..at + 16][12..16] == s[at + 12..at + 16]
  {
    Slice(s, at, 0, 4);
    Slice(s, at, 4, 8);
    Slice(s, at, 8, 12);
    Slice(s, at, 12, 16);
  }

  method Mix(a: array<byte>, at: nat)
    requires at + 16 <= a.Length
    modifies a
    ensures a[..] == Patch(old(a[..]), at, MixColumns(old(a[..])[at..at + 16]))
  {
    hide MixWord, Patch;
    ghost var s := a[..];
    MixFour(a, at);
    MixFour(a, at + 4);
    MixFour(a, at + 8);
    MixFour(a, at + 12);
    FourWords(s, at, MixWord(s[at..at + 4]), MixWord(s[at + 4..at + 8]), MixWord(s[at + 8..at + 12]), MixWord(s[at + 12..at + 16]));
    Words(s, at);
  }

  method InvMix(a: array<byte>, at: nat)
    requires at + 16 <= a.Length
    modifies a
    ensures a[..] == Patch(old(a[..]), at, InvMixColumns(old(a[..])[at..at + 16]))
  {
    hide InvMixWord, Patch;
    ghost var s := a[..];
    InvMixFour(a, at);
    InvMixFour(a, at + 4);
    InvMixFour(a, at + 8);
    InvMixFour(a, at + 12);
    FourWords(s, at, InvMixWord(s[at..at + 4]), InvMixWord(s[at + 4..at + 8]), InvMixWord(s[at + 8..at + 12]), InvMixWord(s[at + 12..at + 16]));
    Words(s, at);
  }

  // ----- whole blocks

  /** SubBytes and ShiftRows. */
  method HalfRound(a: array<byte>, at: nat)
    requires at + 16 <= a.Length
    modifies a
    ensures a[..] == Patch(old(a[..]), at, Half(old(a[..])[at..at + 16]))
  {
    hide SubBytes, ShiftRows, Patch;
    ghost var s := a[..];
    Substitute(a, at);
    Shift(a, at);
    PatchTwice(s, at, SubBytes(s[at..at + 16]), Half(s[at..at + 16]));
  }

  method InvHalfRound(a: array<byte>, at: nat)
    requires at + 16 <= a.Length
    modifies a
    ensures a[..] == Patch(old(a[..]), at, InvHalf(old(a[..])[at..at + 16]))
  {
    hide InvSubBytes, InvShiftRows, Patch;
    ghost var s := a[..];
    InvShift(a, at);
    InvSubstitute(a, at);
    PatchTwice(s, at, InvShiftRows(s[at..at + 16]), InvHalf(s[at..at + 16]));
  }

  method EncryptBlock(w: bytes, a: array<byte>, at: nat)
    requires Keys(w) && at + 16 <= a.Length
    modifies a
    ensures a[..] == Patch(old(a[..]), at, Cipher(w, old(a[..])[at..at + 16]))
  {
    hide Half, AddKey, MixColumns, Patch, RoundKey;
    ghost var s := a[..];
    ghost var b := s[at..at + 16];
    var n := |w| / 16;
    AddRoundKey(a, at, RoundKey(w, 0));
    var i := 1;
    while i < n - 1
      invariant 1 <= i <= n - 1
      invariant a[..] == Patch(s, at, Rounds(w, b, i - 1))
    {
      ghost var x := Rounds(w, b, i - 1);
      HalfRound(a, at);
      PatchTwice(s, at, x, Half(x));
      Mix(a, at);
      PatchTwice(s, at, Half(x), MixColumns(Half(x)));
      AddRoundKey(a, at, RoundKey(w, i));
      PatchTwice(s, at, MixColumns(Half(x)), Rounds(w, b, i));
      i := i + 1;
    }
    ghost var x := Rounds(w, b, n - 2);
    HalfRound(a, at);
    PatchTwice(s, at, x, Half(x));
    AddRoundKey(a, at, RoundKey(w, n - 1));
    PatchTwice(s, at, Half(x), Cipher(w, b));
  }

  method DecryptBlock(w: bytes, a: array<byte>, at: nat)
    requires Keys(w) && at + 16 <= a.Length
    modifies a
    ensures a[..] == Patch(old(a[..]), at, Decipher(w, old(a[..])[at..at + 16]))
  {
    hide InvHalf, AddKey, InvMixColumns, Patch, RoundKey;
    ghost var s := a[..];
    ghost var c := s[at..at + 16];
    var n := |w| / 16;
    AddRoundKey(a, at, RoundKey(w, n - 1));
    var i := n - 2;
    while i > 0
      invariant 0 <= i <= n - 2
      invariant a[..] == Patch(s, at, Undone(w, c, i + 1))
    {
      ghost var x := Undone(w, c, i + 1);
      ghost var y := AddKey(InvHalf(x), RoundKey(w, i));
      InvHalfRound(a, at);
      PatchTwice(s, at, x, InvHalf(x));
      AddRoundKey(a, at, RoundKey(w, i));
      PatchTwice(s, at, InvHalf(x), y);
      InvMix(a, at);
      PatchTwice(s, at, y, InvMixColumns(y));
      i := i - 1;
    }
    ghost var x := Undone(w, c, 1);
    InvHalfRound(a, at);
    PatchTwice(s, at, x, InvHalf(x));
    AddRoundKey(a, at, RoundKey(w, 0));
    PatchTwice(s, at, InvHalf(x), Decipher(w, c));
  }
}
