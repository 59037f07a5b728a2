/** Bytes as bits, and the field of AES: MixColumns and its inverse
    (libs/openaes/oaes_lib.c:371-444). The products computed here stand for the
    product tables of the source. */
module AesField {
  import opened Bytes

  datatype Bits = Bits(b7: bool, b6: bool, b5: bool, b4: bool, b3: bool, b2: bool, b1: bool, b0: bool)

  function Bit(b: bool, n: nat): nat {
    if b then n else 0
  }

  function ToByte(b: Bits): byte {
    Bit(b.b7, 128) + Bit(b.b6, 64) + Bit(b.b5, 32) + Bit(b.b4, 16) + Bit(b.b3, 8) + Bit(b.b2, 4) + Bit(b.b1, 2)
    + Bit(b.b0, 1)
  }

  /** The binary digits, the highest first. */
  function ToBits(n: byte): Bits {
    var n6 := n - Bit(n >= 128, 128);
    var n5 := n6 - Bit(n6 >= 64, 64);
    var n4 := n5 - Bit(n5 >= 32, 32);
    var n3 := n4 - Bit(n4 >= 16, 16);
    var n2 := n3 - Bit(n3 >= 8, 8);
    var n1 := n2 - Bit(n2 >= 4, 4);
    var n0 := n1 - Bit(n1 >= 2, 2);
    Bits(n >= 128, n6 >= 64, n5 >= 32, n4 >= 16, n3 >= 8, n2 >= 4, n1 >= 2, n0 >= 1)
  }

  lemma {:induction false} ByteBack(n: byte)
    ensures ToByte(ToBits(n)) == n
  {
  }

  /** Bits that weigh the same are the same. */
  lemma {:induction false} Heavier(b: Bits, c: Bits)
    requires ToByte(b) == ToByte(c)
    ensures b == c
  {
    assert b.b7 == c.b7;
    assert b.b6 == c.b6;
    assert b.b5 == c.b5;
    assert b.b4 == c.b4;
    assert b.b3 == c.b3;
    assert b.b2 == c.b2;
  }

  lemma {:induction false} BitsBack(b: Bits)
    ensures ToBits(ToByte(b)) == b
  {
    hide ToByte, ToBits;
    ByteBack(ToByte(b));
    Heavier(ToBits(ToByte(b)), b);
  }

  const ZERO := Bits(false, false, false, false, false, false, false, false)

  function Xor(x: Bits, y: Bits): Bits {
    Bits(x.b7 != y.b7, x.b6 != y.b6, x.b5 != y.b5, x.b4 != y.b4, x.b3 != y.b3, x.b2 != y.b2, x.b1 != y.b1, x.b0 != y.b0)
  }

  function Xor4(x: Bits, y: Bits, z: Bits, w: Bits): Bits {
    Xor(Xor(Xor(x, y), z), w)
  }

  lemma {:induction false} XorBack(x: Bits, k: Bits)
    ensures Xor(Xor(x, k), k) == x
  {
  }

  /** Multiplication by x modulo the polynomial 0x11b. */
  function Times2(b: Bits): Bits {
    Bits(b.b6, b.b5, b.b4, b.b3 != b.b7, b.b2 != b.b7, b.b1, b.b0 != b.b7, b.b7)
  }

  function Mul(b: Bits, k: nat): Bits {
    var b2 := Times2(b);
    var b4 := Times2(b2);
    var b8 := Times2(b4);
    if k == 2 then b2
    else if k == 3 then Xor(b2, b)
    else if k == 9 then Xor(b8, b)
    else if k == 0xb then Xor(Xor(b8, b2), b)
    else if k == 0xd then Xor(Xor(b8, b4), b)
    else if k == 0xe then Xor(Xor(b8, b4), b2)
    else b
  }

  datatype Column = Column(a: Bits, b: Bits, c: Bits, d: Bits)

  function MixColumn(w: Column): Column {
    Column(Xor4(Mul(w.a, 2), Mul(w.b, 3), w.c, w.d), Xor4(w.a, Mul(w.b, 2), Mul(w.c, 3), w.d),
           Xor4(w.a, w.b, Mul(w.c, 2), Mul(w.d, 3)), Xor4(Mul(w.a, 3), w.b, w.c, Mul(w.d, 2)))
  }

  function InvMixColumn(w: Column): Column {
    Column(Xor4(Mul(w.a, 0xe), Mul(w.b, 0xb), Mul(w.c, 0xd), Mul(w.d, 9)),
           Xor4(Mul(w.a, 9), Mul(w.b, 0xe), Mul(w.c, 0xb), Mul(w.d, 0xd)),
           Xor4(Mul(w.a, 0xd), Mul(w.b, 9), Mul(w.c, 0xe), Mul(w.d, 0xb)),
           Xor4(Mul(w.a, 0xb), Mul(w.b, 0xd), Mul(w.c, 9), Mul(w.d, 0xe)))
  }

  lemma {:induction false} Times2Linear(x: Bits, y: Bits)
    ensures Times2(Xor(x, y)) == Xor(Times2(x), Times2(y))
  {
  }

  lemma {:induction false} XorPairs(a: Bits, b: Bits, c: Bits, d: Bits)
    ensures Xor(Xor(a, b), Xor(c, d)) == Xor(Xor(a, c), Xor(b, d))
  {
  }

  lemma {:induction false} MulLinear(x: Bits, y: Bits, k: nat)
    ensures Mul(Xor(x, y), k) == Xor(Mul(x, k), Mul(y, k))
  {
    hide Times2, Xor;
    var x2, y2 := Times2(x), Times2(y);
    var x4, y4 := Times2(x2), Times2(y2);
    var x8, y8 := Times2(x4), Times2(y4);
    Times2Linear(x, y);
    Times2Linear(x2, y2);
    Times2Linear(x4, y4);
    XorPairs(x2, y2, x, y);
    XorPairs(x8, y8, x, y);
    XorPairs(x8, y8, x2, y2);
    XorPairs(x8, y8, x4, y4);
    XorPairs(Xor(x8, x2), Xor(y8, y2), x, y);
    XorPairs(Xor(x8, x4), Xor(y8, y4), x, y);
    XorPairs(Xor(x8, x4), Xor(y8, y4), x2, y2);
  }

  lemma {:induction false} MulLinear4(p: Bits, q: Bits, r: Bits, s: Bits, k: nat)
    ensures Mul(Xor4(p, q, r, s), k) == Xor4(Mul(p, k), Mul(q, k), Mul(r, k), Mul(s, k))
  {
    hide Mul, Xor;
    MulLinear(Xor(Xor(p, q), r), s, k);
    MulLinear(Xor(p, q), r, k);
    MulLinear(p, q, k);
  }

  // The powers of a byte cancel in every product of a row and a column.

  lemma {:induction false} Shared(p: Bits, q: Bits, r: Bits)
    ensures Xor(Xor(p, q), Xor(q, r)) == Xor(p, r)
  {
  }

  lemma {:induction false} Regroup(p: Bits, q: Bits, r: Bits)
    ensures Xor(Xor(p, q), r) == Xor(p, Xor(q, r)) && Xor(p, q) == Xor(q, p)
  {
  }

  lemma {:induction false} SelfXor(p: Bits)
    ensures Xor(p, p) == ZERO
  {
  }

  lemma {:induction false} Cancel1(t4: Bits, t3: Bits, t2: Bits, t1: Bits, x: Bits)
    ensures Xor4(Xor(Xor(t4, t3), t2), Xor(Xor(t3, t1), x), Xor(Xor(t3, t2), x), Xor(Xor(t4, t1), Xor(t3, x))) == x
  {
    hide Xor, Xor4;
    var a, b, c, d := Xor(Xor(t4, t3), t2), Xor(Xor(t3, t1), x), Xor(Xor(t3, t2), x), Xor(Xor(t4, t1), Xor(t3, x));
    Halves(a, b, c, d);
    XorPairs(a, b, c, d);
    Regroup(t4, t3, t2);
    Shared(t4, Xor(t3, t2), x);
    Regroup(t3, t1, x);
    XorPairs(t4, t1, t3, x);
    Regroup(b, d, x);
    Shared(Xor(t4, t3), Xor(t1, x), t3);
    Regroup(Xor(t1, x), t3, x);
    XorBack(t4, t3);
    Regroup(t4, x, t4);
    XorBack(x, t4);
  }

  lemma {:induction false} Cancel2(t4: Bits, t3: Bits, t2: Bits, t1: Bits, x: Bits)
    ensures Xor4(Xor(Xor(Xor(t4, t3), t2), Xor(Xor(t3, t2), t1)), Xor(Xor(t4, t2), t1), Xor(Xor(t3, t2), x), Xor(t3, x)) == ZERO
  {
    hide Xor, Xor4;
    Halves(Xor(Xor(Xor(t4, t3), t2), Xor(Xor(t3, t2), t1)), Xor(Xor(t4, t2), t1), Xor(Xor(t3, t2), x), Xor(t3, x));
    Regroup(t4, t3, t2);
    Shared(t4, Xor(t3, t2), t1);
    Regroup(t4, t2, t1);
    Regroup(t2, t4, t1);
    Regroup(Xor(t2, Xor(t4, t1)), Xor(t4, t1), t1);
    XorBack(t2, Xor(t4, t1));
    Regroup(t3, t2, x);
    Regroup(t2, t3, x);
    XorBack(t2, Xor(t3, x));
    SelfXor(t2);
  }

  lemma {:induction false} Cancel3(t4: Bits, t3: Bits, t2: Bits, t1: Bits, x: Bits)
    ensures Xor4(Xor(Xor(t3, t2), t1), Xor(Xor(Xor(t4, t2), t1), Xor(Xor(t3, t1), x)), Xor(Xor(t4, t3), t1), Xor(t3, x)) == ZERO
  {
    hide Xor, Xor4;
    var a, b, c, d := Xor(Xor(t3, t2), t1), Xor(Xor(Xor(t4, t2), t1), Xor(Xor(t3, t1), x)), Xor(Xor(t4, t3), t1), Xor(t3, x);
    Halves(a, b, c, d);
    XorPairs(a, b, c, d);
    Regroup(t3, t2, t1);
    Regroup(t2, t3, t1);
    Regroup(t4, t3, t1);
    Regroup(t4, Xor(t3, t1), t1);
    Shared(t2, Xor(t3, t1), t4);
    Regroup(t3, t1, x);
    Regroup(t1, t3, x);
    Shared(Xor(t4, t2), t1, d);
    XorBack(Xor(t4, t2), d);
    Regroup(t4, t2, x);
    SelfXor(Xor(t4, t2));
  }

  lemma {:induction false} Cancel4(t4: Bits, t3: Bits, t2: Bits, t1: Bits, x: Bits)
    ensures Xor4(Xor(Xor(t3, t2), t1), Xor(Xor(t3, t1), x), Xor(Xor(Xor(t4, t3), t1), Xor(Xor(t3, t2), x)), Xor(t4, t1)) == ZERO
  {
    hide Xor, Xor4;
    Halves(Xor(Xor(t3, t2), t1), Xor(Xor(t3, t1), x), Xor(Xor(Xor(t4, t3), t1), Xor(Xor(t3, t2), x)), Xor(t4, t1));
    Regroup(t3, t2, t1);
    Regroup(t2, t3, t1);
    Shared(t2, Xor(t3, t1), x);
    Regroup(t4, t3, t1);
    Regroup(t3, t1, x);
    Regroup(t4, t1, t3);
    Regroup(t3, t2, x);
    Shared(Xor(t4, t1), t3, Xor(t2, x));
    Regroup(Xor(t4, t1), Xor(t2, x), x);
    XorBack(Xor(t2, x), Xor(t4, t1));
    SelfXor(Xor(t2, x));
  }

  lemma {:induction false} Products(x: Bits)
    ensures Xor4(Mul(Mul(x, 2), 0xe), Mul(x, 0xb), Mul(x, 0xd), Mul(Mul(x, 3), 9)) == x
    ensures Xor4(Mul(Mul(x, 3), 0xe), Mul(Mul(x, 2), 0xb), Mul(x, 0xd), Mul(x, 9)) == ZERO
    ensures Xor4(Mul(x, 0xe), Mul(Mul(x, 3), 0xb), Mul(Mul(x, 2), 0xd), Mul(x, 9)) == ZERO
    ensures Xor4(Mul(x, 0xe), Mul(x, 0xb), Mul(Mul(x, 3), 0xd), Mul(Mul(x, 2), 9)) == ZERO
  {
    hide Times2, Xor, Xor4;
    var t1 := Times2(x);
    var t2 := Times2(t1);
    var t3 := Times2(t2);
    MulLinear(t1, x, 9);
    MulLinear(t1, x, 0xe);
    MulLinear(t1, x, 0xb);
    MulLinear(t1, x, 0xd);
    Cancel1(Times2(t3), t3, t2, t1, x);
    Cancel2(Times2(t3), t3, t2, t1, x);
    Cancel3(Times2(t3), t3, t2, t1, x);
    Cancel4(Times2(t3), t3, t2, t1, x);
  }

  lemma {:induction false} Halves(p: Bits, q: Bits, r: Bits, s: Bits)
    ensures Xor4(p, q, r, s) == Xor(Xor(p, q), Xor(r, s))
  {
  }

  lemma {:induction false} Termwise(a1: Bits, a2: Bits, a3: Bits, a4: Bits, b1: Bits, b2: Bits, b3: Bits, b4: Bits)
    ensures Xor(Xor4(a1, a2, a3, a4), Xor4(b1, b2, b3, b4)) == Xor4(Xor(a1, b1), Xor(a2, b2), Xor(a3, b3), Xor(a4, b4))
  {
    hide Xor, Xor4;
    Halves(a1, a2, a3, a4);
    Halves(b1, b2, b3, b4);
    Halves(Xor(a1, b1), Xor(a2, b2), Xor(a3, b3), Xor(a4, b4));
    XorPairs(Xor(a1, a2), Xor(a3, a4), Xor(b1, b2), Xor(b3, b4));
    XorPairs(a1, a2, b1, b2);
    XorPairs(a3, a4, b3, b4);
  }

  lemma {:induction false} Transpose(a1: Bits, a2: Bits, a3: Bits, a4: Bits, b1: Bits, b2: Bits, b3: Bits, b4: Bits,
      c1: Bits, c2: Bits, c3: Bits, c4: Bits, d1: Bits, d2: Bits, d3: Bits, d4: Bits)
    ensures Xor4(Xor4(a1, a2, a3, a4), Xor4(b1, b2, b3, b4), Xor4(c1, c2, c3, c4), Xor4(d1, d2, d3, d4))
         == Xor4(Xor4(a1, b1, c1, d1), Xor4(a2, b2, c2, d2), Xor4(a3, b3, c3, d3), Xor4(a4, b4, c4, d4))
  {
    hide Xor, Xor4;
    Halves(Xor4(a1, a2, a3, a4), Xor4(b1, b2, b3, b4), Xor4(c1, c2, c3, c4), Xor4(d1, d2, d3, d4));
    Termwise(a1, a2, a3, a4, b1, b2, b3, b4);
    Termwise(c1, c2, c3, c4, d1, d2, d3, d4);
    Termwise(Xor(a1, b1), Xor(a2, b2), Xor(a3, b3), Xor(a4, b4), Xor(c1, d1), Xor(c2, d2), Xor(c3, d3), Xor(c4, d4));
    Halves(a1, b1, c1, d1);
    Halves(a2, b2, c2, d2);
    Halves(a3, b3, c3, d3);
    Halves(a4, b4, c4, d4);
  }

  /** e, b, d and 9 times the four rows of a mixed column give its first byte. */
  lemma {:induction false} RowUndone(p: Bits, q: Bits, r: Bits, s: Bits)
    ensures Xor4(Mul(Xor4(Mul(p, 2), Mul(q, 3), r, s), 0xe), Mul(Xor4(p, Mul(q, 2), Mul(r, 3), s), 0xb),
                 Mul(Xor4(p, q, Mul(r, 2), Mul(s, 3)), 0xd), Mul(Xor4(Mul(p, 3), q, r, Mul(s, 2)), 9)) == p
  {
    hide Mul, Xor4;
    MulLinear4(Mul(p, 2), Mul(q, 3), r, s, 0xe);
    MulLinear4(p, Mul(q, 2), Mul(r, 3), s, 0xb);
    MulLinear4(p, q, Mul(r, 2), Mul(s, 3), 0xd);
    MulLinear4(Mul(p, 3), q, r, Mul(s, 2), 9);
    Transpose(Mul(Mul(p, 2), 0xe), Mul(Mul(q, 3), 0xe), Mul(r, 0xe), Mul(s, 0xe),
      Mul(p, 0xb), Mul(Mul(q, 2), 0xb), Mul(Mul(r, 3), 0xb), Mul(s, 0xb),
      Mul(p, 0xd), Mul(q, 0xd), Mul(Mul(r, 2), 0xd), Mul(Mul(s, 3), 0xd),
      Mul(Mul(p, 3), 9), Mul(q, 9), Mul(r, 9), Mul(Mul(s, 2), 9));
    Products(p);
    Products(q);
    Products(r);
    Products(s);
    XorZeros(p);
  }

  lemma {:induction false} XorZeros(p: Bits)
    ensures Xor4(p, ZERO, ZERO, ZERO) == p
  {
  }

  lemma {:induction false} XorTurn(a: Bits, b: Bits, c: Bits, d: Bits)
    ensures Xor4(a, b, c, d) == Xor4(b, c, d, a)
  {
  }

  function Turned(w: Column): Column {
    Column(w.b, w.c, w.d, w.a)
  }

  /** Mixing a turned column turns the mixed one; so does unmixing. */
  lemma {:induction false} Turn(w: Column)
    ensures MixColumn(Turned(w)) == Turned(MixColumn(w)) && InvMixColumn(Turned(w)) == Turned(InvMixColumn(w))
  {
    hide Mul, Xor4;
    XorTurn(w.a, Mul(w.b, 2), Mul(w.c, 3), w.d);
    XorTurn(w.a, w.b, Mul(w.c, 2), Mul(w.d, 3));
    XorTurn(Mul(w.a, 3), w.b, w.c, Mul(w.d, 2));
    XorTurn(Mul(w.a, 2), Mul(w.b, 3), w.c, w.d);
    XorTurn(Mul(w.a, 9), Mul(w.b, 0xe), Mul(w.c, 0xb), Mul(w.d, 0xd));
    XorTurn(Mul(w.a, 0xd), Mul(w.b, 9), Mul(w.c, 0xe), Mul(w.d, 0xb));
    XorTurn(Mul(w.a, 0xb), Mul(w.b, 0xd), Mul(w.c, 9), Mul(w.d, 0xe));
    XorTurn(Mul(w.a, 0xe), Mul(w.b, 0xb), Mul(w.c, 0xd), Mul(w.d, 9));
  }

  lemma {:induction false} FirstUndone(w: Column)
    ensures InvMixColumn(MixColumn(w)).a == w.a
  {
    hide Mul, Xor4;
    RowUndone(w.a, w.b, w.c, w.d);
  }

  /** The inverse matrix undoes the matrix. */
  lemma {:induction false} MixUndone(w: Column)
    ensures InvMixColumn(MixColumn(w)) == w
  {
    hide MixColumn, InvMixColumn;
    var x := Turned(w);
    var y := Turned(x);
    var z := Turned(y);
    FirstUndone(w);
    FirstUndone(x);
    FirstUndone(y);
    FirstUndone(z);
    Turn(w);
    Turn(x);
    Turn(y);
    Turn(MixColumn(w));
    Turn(MixColumn(x));
    Turn(MixColumn(y));
  }
}
