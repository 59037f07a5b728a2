/** Key expansion (libs/openaes/oaes_lib.c:547-604; section 5.2 of FIPS 197). */
module AesKey {
  import opened Bytes
  import opened AesBox
  import opened AesField
  import opened AesCipher

  predicate KeySize(n: nat) {
    n == 16 || n == 24 || n == 32
  }

  const ONE := Bits(false, false, false, false, false, false, false, true)

  /** x to the power j, in the field. */
  function Power(j: nat): Bits {
    if j == 0 then ONE else Times2(Power(j - 1))
  }

  /** The table of round constants. */
  function RoundConstant(j: nat): byte
    requires j < 10
  {
    if j == 0 then 0x01 else if j == 1 then 0x02 else if j == 2 then 0x04 else if j == 3 then 0x08
    else if j == 4 then 0x10 else if j == 5 then 0x20 else if j == 6 then 0x40 else if j == 7 then 0x80
    else if j == 8 then 0x1b else 0x36
  }

  /** The binary digits of the round constants. */
  function ConstantBits(j: nat): Bits {
    if j == 0 then Bits(false, false, false, false, false, false, false, true)
    else if j == 1 then Bits(false, false, false, false, false, false, true, false)
    else if j == 2 then Bits(false, false, false, false, false, true, false, false)
    else if j == 3 then Bits(false, false, false, false, true, false, false, false)
    else if j == 4 then Bits(false, false, false, true, false, false, false, false)
    else if j == 5 then Bits(false, false, true, false, false, false, false, false)
    else if j == 6 then Bits(false, true, false, false, false, false, false, false)
    else if j == 7 then Bits(true, false, false, false, false, false, false, false)
    else if j == 8 then Bits(false, false, false, true, true, false, true, true)
    else Bits(false, false, true, true, false, true, true, false)
  }

  lemma {:induction false} PowerBits(j: nat)
    requires j < 10
    ensures Power(j) == ConstantBits(j)
  {
    if j > 0 {
      PowerBits(j - 1);
    }
  }

  lemma {:induction false} RoundConstantIsPower(j: nat)
    requires j < 10
    ensures ToByte(Power(j)) == RoundConstant(j)
  {
    hide Power;
    PowerBits(j);
  }

  type Word = w: seq<byte> | |w| == 4 witness [0, 0, 0, 0]

  function SubWord(w: Word): Word {
    [Box(w[0]), Box(w[1]), Box(w[2]), Box(w[3])]
  }

  function RotWord(w: Word): Word {
    [w[1], w[2], w[3], w[0]]
  }

  function XorWord(v: Word, w: Word): Word {
    [XorByte(v[0], w[0]), XorByte(v[1], w[1]), XorByte(v[2], w[2]), XorByte(v[3], w[3])]
  }

  /** What word i of the schedule adds to the word one key length before it. */
  function Stirred(nk: nat, i: nat, w: Word): Word
    requires 0 < nk <= i
  {
    if i % nk == 0 then XorWord(SubWord(RotWord(w)), [ToByte(Power(i / nk - 1)), 0, 0, 0])
    else if nk > 6 && i % nk == 4 then SubWord(w)
    else w
  }

  function KeyWord(key: bytes, i: nat): Word
    requires KeySize(|key|)
  {
    hide Stirred, XorWord;
    var nk := |key| / 4;
    if i < nk then key[4 * i..4 * i + 4]
    else XorWord(KeyWord(key, i - nk), Stirred(nk, i, KeyWord(key, i - 1)))
  }

  /** The first n words of the schedule. */
  function Schedule(key: bytes, n: nat): (w: bytes)
    requires KeySize(|key|)
    ensures |w| == 4 * n
  {
    hide KeyWord;
    if n == 0 then [] else Schedule(key, n - 1) + KeyWord(key, n - 1)
  }

  /** The round keys: 11, 13 or 15 of them, four words each. */
  function Expanded(key: bytes): bytes
    requires KeySize(|key|)
  {
    Schedule(key, 4 * (|key| / 4 + 7))
  }

  lemma {:induction false} ExpandedKeys(key: bytes)
    requires KeySize(|key|)
    ensures Keys(Expanded(key)) && |Expanded(key)| == 16 * (|key| / 4 + 7)
  {
    hide Schedule;
  }

  lemma {:induction false} ScheduleAt(key: bytes, n: nat, i: nat)
    requires KeySize(|key|) && i < n
    ensures Schedule(key, n)[4 * i..4 * i + 4] == KeyWord(key, i)
    decreases n
  {
    hide KeyWord;
    if i < n - 1 {
      ScheduleAt(key, n - 1, i);
      var s := Schedule(key, n - 1);
      assert Schedule(key, n)[4 * i..4 * i + 4] == s[4 * i..4 * i + 4];
    }
  }

  lemma KeyStart(key: bytes, i: nat)
    requires KeySize(|key|) && i < |key| / 4
    ensures KeyWord(key, i) == key[4 * i..4 * i + 4]
  {
  }

  /** The schedule starts with the key. */
  lemma {:induction false} ScheduleStart(key: bytes, n: nat)
    requires KeySize(|key|) && n <= |key| / 4
    ensures Schedule(key, n) == key[..4 * n]
    decreases n
  {
    hide KeyWord;
    if n > 0 {
      ScheduleStart(key, n - 1);
      KeyStart(key, n - 1);
      assert key[..4 * n] == key[..4 * (n - 1)] + key[4 * (n - 1)..4 * n];
    }
  }

  lemma {:induction false} ConstantIndex(nk: nat, i: nat)
    requires (nk == 4 || nk == 6 || nk == 8) && nk <= i < 4 * (nk + 7)
    ensures 0 <= i / nk - 1 < 10
  {
  }

  /** The transformed last word, with the constant out of the table. */
  method Stir(nk: nat, i: nat, w: Word) returns (t: Word)
    requires (nk == 4 || nk == 6 || nk == 8) && nk <= i < 4 * (nk + 7)
    ensures t == Stirred(nk, i, w)
  {
    hide Box, XorByte, ToByte, ToBits, Power, RoundConstant;
    t := w;
    if i % nk == 0 {
      t := RotWord(t);
      t := SubWord(t);
      ConstantIndex(nk, i);
      RoundConstantIsPower(i / nk - 1);
      XorNothing(t[1]);
      XorNothing(t[2]);
      XorNothing(t[3]);
      t := [XorByte(t[0], RoundConstant(i / nk - 1)), t[1], t[2], t[3]];
    } else if nk > 6 && i % nk == 4 {
      t := SubWord(t);
    }
  }

  lemma {:induction false} XorNothing(x: byte)
    ensures XorByte(x, 0) == x
  {
    hide ToByte;
    ByteBack(x);
    ToZero();
    XorZero(ToBits(x));
  }

  lemma {:induction false} ToZero()
    ensures ToBits(0) == ZERO
  {
  }

  lemma {:induction false} XorZero(b: Bits)
    ensures Xor(b, ZERO) == b
  {
  }

  /** Word i, out of the words before it. */
  method AddWord(key: bytes, exp: array<byte>, i: nat)
    requires KeySize(|key|) && |key| / 4 <= i < |key| + 28 && exp.Length == 4 * (|key| + 28)
    requires exp[..4 * i] == Schedule(key, i)
    modifies exp
    ensures exp[..4 * i + 4] == Schedule(key, i + 1)
  {
    hide Stirred, XorWord, KeyWord, Schedule;
    var nk := |key| / 4;
    var s := exp[..4 * i];
    ScheduleAt(key, i, i - 1);
    ScheduleAt(key, i, i - nk);
    var t := Stir(nk, i, s[4 * (i - 1)..4 * (i - 1) + 4]);
    var x := XorWord(s[4 * (i - nk)..4 * (i - nk) + 4], t);
    ScheduleNext(key, i);
    PutWord(exp, 4 * i, x);
  }

  method PutWord(exp: array<byte>, at: nat, x: Word)
    requires at + 4 <= exp.Length
    modifies exp
    ensures exp[..at + 4] == old(exp[..at]) + x
  {
    for j := 0 to 4
      invariant exp[..at + j] == old(exp[..at]) + x[..j]
    {
      exp[at + j] := x[j];
    }
  }

  method Expand(key: bytes) returns (exp: array<byte>)
    requires KeySize(|key|)
    ensures fresh(exp) && exp[..] == Expanded(key)
  {
    hide Stirred, XorWord, KeyWord, Schedule;
    var nk := |key| / 4;
    var n := 4 * (nk + 7);
    exp := new byte[4 * n](_ => 0);
    for j := 0 to |key|
      invariant exp[..j] == key[..j]
    {
      exp[j] := key[j];
    }
    ScheduleStart(key, nk);
    assert exp[..4 * nk] == Schedule(key, nk);
    for i := nk to n
      invariant exp[..4 * i] == Schedule(key, i)
    {
      AddWord(key, exp, i);
    }
    assert exp[..] == exp[..4 * n];
  }

  lemma {:induction false} ScheduleNext(key: bytes, i: nat)
    requires KeySize(|key|) && i >= |key| / 4
    ensures Schedule(key, i + 1) == Schedule(key, i) + XorWord(KeyWord(key, i - |key| / 4), Stirred(|key| / 4, i, KeyWord(key, i - 1)))
  {
    hide XorWord, Stirred;
  }
}
