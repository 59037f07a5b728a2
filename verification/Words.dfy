/** Binary digits, and the operations of a processor on words, digit by digit. */
module Words {
  import opened Bytes

  function Pow2(n: nat): (p: nat)
    ensures p > 0
  {
    if n == 0 then 1 else 2 * Pow2(n - 1)
  }

  lemma Powers()
    ensures Pow2(8) == 256 && Pow2(32) == 0x1_0000_0000
  {
    assert Pow2(4) == 16;
    PowSum(4, 4);
    PowSum(8, 8);
    PowSum(16, 16);
  }

  lemma {:induction false} PowSum(m: nat, n: nat)
    ensures Pow2(m + n) == Pow2(m) * Pow2(n)
    decreases m
  {
    if m > 0 { PowSum(m - 1, n); }
  }

  /** Digit i of a number, the lowest being digit 0. */
  function BitAt(x: nat, i: nat): (b: nat)
    ensures b <= 1
  {
    if i == 0 then x % 2 else BitAt(x / 2, i - 1)
  }

  datatype Gate = And | Or | Xor

  /** What a gate makes of two digits. */
  function Output(g: Gate, a: nat, b: nat): (r: nat)
    requires a <= 1 && b <= 1
    ensures r <= 1
  {
    match g
    case And => if a == 1 && b == 1 then 1 else 0
    case Or => if a == 1 || b == 1 then 1 else 0
    case Xor => if a != b then 1 else 0
  }

  /** A gate on the low n digits. */
  function Bitwise(g: Gate, a: nat, b: nat, n: nat): (r: nat)
    ensures r < Pow2(n)
  {
    if n == 0 then 0 else Output(g, a % 2, b % 2) + 2 * Bitwise(g, a / 2, b / 2, n - 1)
  }

  lemma {:induction false} BitwiseBit(g: Gate, a: nat, b: nat, n: nat, i: nat)
    requires i < n
    ensures BitAt(Bitwise(g, a, b, n), i) == Output(g, BitAt(a, i), BitAt(b, i))
    decreases n
  {
    hide Output;
    var low, rest := Output(g, a % 2, b % 2), Bitwise(g, a / 2, b / 2, n - 1);
    assert (low + 2 * rest) % 2 == low && (low + 2 * rest) / 2 == rest;
    if i > 0 { BitwiseBit(g, a / 2, b / 2, n - 1, i - 1); }
  }

  /** A number below 2^n, put under x shifted by n digits. */
  lemma {:induction false} BitJoin(x: nat, y: nat, n: nat, i: nat)
    requires y < Pow2(n)
    ensures BitAt(x * Pow2(n) + y, i) == if i < n then BitAt(y, i) else BitAt(x, i - n)
    decreases n
  {
    if n > 0 {
      var m := x * Pow2(n - 1);
      assert x * Pow2(n) == 2 * m;
      var z := 2 * m + y;
      assert z % 2 == y % 2 && z / 2 == m + y / 2;
      if i > 0 { BitJoin(x, y / 2, n - 1, i - 1); }
    }
  }

  /** The digits of a word are its own. */
  lemma {:induction false} SameBits(x: nat, y: nat, n: nat)
    requires x < Pow2(n) && y < Pow2(n) && forall i | 0 <= i < n :: BitAt(x, i) == BitAt(y, i)
    ensures x == y
  {
    if n > 0 {
      assert BitAt(x, 0) == BitAt(y, 0);
      forall i | 0 <= i < n - 1 ensures BitAt(x / 2, i) == BitAt(y / 2, i) {
        assert BitAt(x, i + 1) == BitAt(y, i + 1);
      }
      SameBits(x / 2, y / 2, n - 1);
    }
  }

  // ----- words of 32 digits

  function Word(g: Gate, a: uint32, b: uint32): uint32 {
    Powers();
    Bitwise(g, a, b, 32)
  }

  function NotWord(a: uint32): uint32 {
    0xffff_ffff - a
  }

  lemma {:induction false} NotBit(a: nat, n: nat, i: nat)
    requires a < Pow2(n) && i < n
    ensures BitAt(Pow2(n) - 1 - a, i) == 1 - BitAt(a, i)
    decreases n
  {
    var b := Pow2(n) - 1 - a;
    assert Pow2(n) == 2 * Pow2(n - 1);
    assert b % 2 == 1 - a % 2 && b / 2 == Pow2(n - 1) - 1 - a / 2;
    if i > 0 { NotBit(a / 2, n - 1, i - 1); }
  }

  /** Shifted left by n, with the digits that leave coming in at the right. */
  function Rotate(n: nat, w: uint32): uint32
    requires 0 < n < 32
  {
    var p := Pow2(32 - n);
    RotateRange(n, w);
    w % p * Pow2(n) + w / p
  }

  lemma RotateRange(n: nat, w: uint32)
    requires 0 < n < 32
    ensures 0 <= w % Pow2(32 - n) * Pow2(n) + w / Pow2(32 - n) < 0x1_0000_0000 && w / Pow2(32 - n) < Pow2(n)
  {
    hide Pow2;
    var p, q := Pow2(32 - n), Pow2(n);
    PowSum(32 - n, n);
    Powers();
    Quotient(w, p, q);
    assert w % p * q + q <= p * q by { MulMonotone(w % p + 1, p, q); }
  }

  lemma Quotient(w: nat, p: nat, q: nat)
    requires p > 0 && w < p * q
    ensures w / p < q
  {
    if w / p >= q { MulMonotone(q, w / p, p); }
  }

  lemma MulMonotone(a: nat, b: nat, c: nat)
    requires a <= b
    ensures a * c <= b * c
  {
  }

  /** Digit i of a rotated word is the one n places below, going around. */
  lemma RotateBit(n: nat, w: uint32, i: nat)
    requires 0 < n < 32 && i < 32
    ensures BitAt(Rotate(n, w), i) == BitAt(w, if i >= n then i - n else i + 32 - n)
  {
    hide BitAt, Pow2;
    var p := Pow2(32 - n);
    RotateRange(n, w);
    assert w == w / p * p + w % p;
    BitJoin(w % p, w / p, n, i);
    BitJoin(w / p, w % p, 32 - n, if i >= n then i - n else i + 32 - n);
  }
}
