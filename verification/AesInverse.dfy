/** The substitution table is the affine transformation of the inverse in the field
    (section 5.1.1 of FIPS 197; libs/openaes/oaes_lib.c:95-113). */
module AesInverse {
  import opened Bytes
  import opened AesBox
  import opened AesField

  const ONE := Bits(false, false, false, false, false, false, false, true)

  /** Every digit plus the four after it, going around, plus 0x63. */
  function Affine(b: Bits): Bits {
    Bits((((b.b7 != b.b6) != b.b5) != b.b4) != b.b3, !((((b.b6 != b.b5) != b.b4) != b.b3) != b.b2),
         !((((b.b5 != b.b4) != b.b3) != b.b2) != b.b1), (((b.b4 != b.b3) != b.b2) != b.b1) != b.b0,
         (((b.b3 != b.b2) != b.b1) != b.b0) != b.b7, (((b.b2 != b.b1) != b.b0) != b.b7) != b.b6,
         !((((b.b1 != b.b0) != b.b7) != b.b6) != b.b5), !((((b.b0 != b.b7) != b.b6) != b.b5) != b.b4))
  }

  function Unaffine(b: Bits): Bits {
    Bits((b.b1 != b.b4) != b.b6, (b.b0 != b.b3) != b.b5, (b.b7 != b.b2) != b.b4, (b.b6 != b.b1) != b.b3,
         (b.b5 != b.b0) != b.b2, !((b.b4 != b.b7) != b.b1), (b.b3 != b.b6) != b.b0, !((b.b2 != b.b5) != b.b7))
  }

  lemma UnaffineBack(b: Bits)
    ensures Unaffine(Affine(b)) == b
  {
    var a := Affine(b);
    assert Unaffine(a).b7 == b.b7 && Unaffine(a).b6 == b.b6;
    assert Unaffine(a).b5 == b.b5 && Unaffine(a).b4 == b.b4;
    assert Unaffine(a).b3 == b.b3 && Unaffine(a).b2 == b.b2;
  }

  /** What the table makes the inverse of n. */
  function Inverse(n: byte): Bits {
    Unaffine(ToBits(Box(n)))
  }

  function Doubled(n: byte): byte {
    ToByte(Times2(ToBits(n)))
  }

  /** The affine transformation of twice the number whose transformation is v. */
  function Turn(v: Bits): Bits {
    Bits(!v.b6, v.b5, !(v.b1 != v.b6), ((v.b1 != v.b3) != v.b4) != v.b6, v.b2, !(v.b4 != v.b6),
         ((v.b0 != v.b1) != v.b4) != v.b6, !(((v.b1 != v.b4) != v.b6) != v.b7))
  }

  lemma TurnHigh(v: Bits)
    ensures Turn(v).b7 == Affine(Times2(Unaffine(v))).b7 && Turn(v).b6 == Affine(Times2(Unaffine(v))).b6
    ensures Turn(v).b5 == Affine(Times2(Unaffine(v))).b5
  {
  }

  lemma TurnMiddle(v: Bits)
    ensures Turn(v).b4 == Affine(Times2(Unaffine(v))).b4 && Turn(v).b3 == Affine(Times2(Unaffine(v))).b3
  {
  }

  lemma TurnLow(v: Bits)
    ensures Turn(v).b2 == Affine(Times2(Unaffine(v))).b2 && Turn(v).b1 == Affine(Times2(Unaffine(v))).b1
    ensures Turn(v).b0 == Affine(Times2(Unaffine(v))).b0
  {
  }

  lemma TurnIs(v: Bits)
    ensures Turn(v) == Affine(Times2(Unaffine(v)))
  {
    hide *;
    TurnHigh(v);
    TurnMiddle(v);
    TurnLow(v);
  }

  predicate Link(u: byte, v: byte) {
    ToBits(u) == Turn(ToBits(v))
  }

  // ----- where the double of a number stands in the table

  /** Eleven, with the digits of x flipped in where x has them. */
  function Low(x: nat): nat {
    if x == 0 then 11 else if x == 1 then 9 else if x == 2 then 15 else if x == 3 then 13 else if x == 4 then 3
    else if x == 5 then 1 else if x == 6 then 7 else 5
  }

  lemma DoubledLow(n: byte)
    requires n < 128
    ensures Doubled(n) == 2 * n
  {
  }

  lemma Parts(b: Bits)
    ensures ToByte(b) / 8 == Bit(b.b7, 16) + Bit(b.b6, 8) + Bit(b.b5, 4) + Bit(b.b4, 2) + Bit(b.b3, 1)
    ensures ToByte(b) % 8 == Bit(b.b2, 4) + Bit(b.b1, 2) + Bit(b.b0, 1)
  {
    var low := Bit(b.b2, 4) + Bit(b.b1, 2) + Bit(b.b0, 1);
    var high := Bit(b.b7, 16) + Bit(b.b6, 8) + Bit(b.b5, 4) + Bit(b.b4, 2) + Bit(b.b3, 1);
    assert ToByte(b) == 8 * high + low;
  }

  lemma LowIs(b2: bool, b1: bool, b0: bool)
    ensures Low(Bit(b2, 4) + Bit(b1, 2) + Bit(b0, 1)) == Bit(!b2, 8) + Bit(b1, 4) + Bit(!b0, 2) + 1
  {
  }

  /** Half a row of the table further on, with the rows of a pair exchanged. */
  lemma DoubledHigh(n: byte)
    requires n >= 128
    ensures var y := n / 8 - 16; Doubled(n) == 16 * (if y % 2 == 0 then y + 1 else y - 1) + Low(n % 8)
  {
    var b := ToBits(n);
    ByteBack(n);
    Parts(b);
    LowIs(b.b2, b.b1, b.b0);
    hide ToBits, Low;
    var y := Bit(b.b6, 8) + Bit(b.b5, 4) + Bit(b.b4, 2) + Bit(b.b3, 1);
    assert n / 8 - 16 == y;
    assert (if y % 2 == 0 then y + 1 else y - 1) == Bit(b.b6, 8) + Bit(b.b5, 4) + Bit(b.b4, 2) + Bit(!b.b3, 1);
  }

  // ----- the table, half a row at a time

  lemma Half0(x: nat)
    requires x < 8
    ensures Link(BoxRow0(0 + x), BoxRow0(2 * x))
  {
  }

  lemma Half1(x: nat)
    requires x < 8
    ensures Link(BoxRow0(8 + x), BoxRow1(2 * x))
  {
  }

  lemma Half2(x: nat)
    requires x < 8
    ensures Link(BoxRow1(0 + x), BoxRow2(2 * x))
  {
  }

  lemma Half3(x: nat)
    requires x < 8
    ensures Link(BoxRow1(8 + x), BoxRow3(2 * x))
  {
  }

  lemma Half4(x: nat)
    requires x < 8
    ensures Link(BoxRow2(0 + x), BoxRow4(2 * x))
  {
  }

  lemma Half5(x: nat)
    requires x < 8
    ensures Link(BoxRow2(8 + x), BoxRow5(2 * x))
  {
  }

  lemma Half6(x: nat)
    requires x < 8
    ensures Link(BoxRow3(0 + x), BoxRow6(2 * x))
  {
  }

  lemma Half7(x: nat)
    requires x < 8
    ensures Link(BoxRow3(8 + x), BoxRow7(2 * x))
  {
  }

  lemma Half8(x: nat)
    requires x < 8
    ensures Link(BoxRow4(0 + x), BoxRow8(2 * x))
  {
  }

  lemma Half9(x: nat)
    requires x < 8
    ensures Link(BoxRow4(8 + x), BoxRow9(2 * x))
  {
  }

  lemma Half10(x: nat)
    requires x < 8
    ensures Link(BoxRow5(0 + x), BoxRow10(2 * x))
  {
  }

  lemma Half11(x: nat)
    requires x < 8
    ensures Link(BoxRow5(8 + x), BoxRow11(2 * x))
  {
  }

  lemma Half12(x: nat)
    requires x < 8
    ensures Link(BoxRow6(0 + x), BoxRow12(2 * x))
  {
  }

  lemma Half13(x: nat)
    requires x < 8
    ensures Link(BoxRow6(8 + x), BoxRow13(2 * x))
  {
  }

  lemma Half14(x: nat)
    requires x < 8
    ensures Link(BoxRow7(0 + x), BoxRow14(2 * x))
  {
  }

  lemma Half15(x: nat)
    requires x < 8
    ensures Link(BoxRow7(8 + x), BoxRow15(2 * x))
  {
  }

  lemma Half16(x: nat)
    requires x < 8
    ensures Link(BoxRow8(0 + x), BoxRow1(Low(x)))
  {
  }

  lemma Half17(x: nat)
    requires x < 8
    ensures Link(BoxRow8(8 + x), BoxRow0(Low(x)))
  {
  }

  lemma Half18(x: nat)
    requires x < 8
    ensures Link(BoxRow9(0 + x), BoxRow3(Low(x)))
  {
  }

  lemma Half19(x: nat)
    requires x < 8
    ensures Link(BoxRow9(8 + x), BoxRow2(Low(x)))
  {
  }

  lemma Half20(x: nat)
    requires x < 8
    ensures Link(BoxRow10(0 + x), BoxRow5(Low(x)))
  {
  }

  lemma Half21(x: nat)
    requires x < 8
    ensures Link(BoxRow10(8 + x), BoxRow4(Low(x)))
  {
  }

  lemma Half22(x: nat)
    requires x < 8
    ensures Link(BoxRow11(0 + x), BoxRow7(Low(x)))
  {
  }

  lemma Half23(x: nat)
    requires x < 8
    ensures Link(BoxRow11(8 + x), BoxRow6(Low(x)))
  {
  }

  lemma Half24(x: nat)
    requires x < 8
    ensures Link(BoxRow12(0 + x), BoxRow9(Low(x)))
  {
  }

  lemma Half25(x: nat)
    requires x < 8
    ensures Link(BoxRow12(8 + x), BoxRow8(Low(x)))
  {
  }

  lemma Half26(x: nat)
    requires x < 8
    ensures Link(BoxRow13(0 + x), BoxRow11(Low(x)))
  {
  }

  lemma Half27(x: nat)
    requires x < 8
    ensures Link(BoxRow13(8 + x), BoxRow10(Low(x)))
  {
  }

  lemma Half28(x: nat)
    requires x < 8
    ensures Link(BoxRow14(0 + x), BoxRow13(Low(x)))
  {
  }

  lemma Half29(x: nat)
    requires x < 8
    ensures Link(BoxRow14(8 + x), BoxRow12(Low(x)))
  {
  }

  lemma Half30(x: nat)
    requires x < 8
    ensures Link(BoxRow15(0 + x), BoxRow15(Low(x)))
  {
  }

  lemma Half31(x: nat)
    requires x < 8
    ensures Link(BoxRow15(8 + x), BoxRow14(Low(x)))
  {
  }

  /** Entry c of row r. */
  lemma BoxAt(r: nat, c: nat)
    requires r < 16 && c < 16
    ensures Box(16 * r + c) == RowAt(r, c)
  {
    hide BoxRow0, BoxRow1, BoxRow2, BoxRow3, BoxRow4, BoxRow5, BoxRow6, BoxRow7, BoxRow8, BoxRow9, BoxRow10, BoxRow11, BoxRow12, BoxRow13, BoxRow14, BoxRow15;
  }

  function RowAt(r: nat, c: nat): byte {
    if r == 0 then BoxRow0(c)
    else if r == 1 then BoxRow1(c)
    else if r == 2 then BoxRow2(c)
    else if r == 3 then BoxRow3(c)
    else if r == 4 then BoxRow4(c)
    else if r == 5 then BoxRow5(c)
    else if r == 6 then BoxRow6(c)
    else if r == 7 then BoxRow7(c)
    else if r == 8 then BoxRow8(c)
    else if r == 9 then BoxRow9(c)
    else if r == 10 then BoxRow10(c)
    else if r == 11 then BoxRow11(c)
    else if r == 12 then BoxRow12(c)
    else if r == 13 then BoxRow13(c)
    else if r == 14 then BoxRow14(c)
    else BoxRow15(c)
  }

  lemma RowsLinked(y: nat, x: nat)
    requires y < 32 && x < 8
    ensures var (r, c) := if y < 16 then (y, 2 * x) else (if y % 2 == 0 then y - 15 else y - 17, Low(x));
            Link(RowAt(y / 2, 8 * (y % 2) + x), RowAt(r, c))
  {
    hide Link, Low, BoxRow0, BoxRow1, BoxRow2, BoxRow3, BoxRow4, BoxRow5, BoxRow6, BoxRow7, BoxRow8, BoxRow9, BoxRow10, BoxRow11, BoxRow12, BoxRow13, BoxRow14, BoxRow15;
    if y == 0 {
      Half0(x);
    } else if y == 1 {
      Half1(x);
    } else if y == 2 {
      Half2(x);
    } else if y == 3 {
      Half3(x);
    } else if y == 4 {
      Half4(x);
    } else if y == 5 {
      Half5(x);
    } else if y == 6 {
      Half6(x);
    } else if y == 7 {
      Half7(x);
    } else if y == 8 {
      Half8(x);
    } else if y == 9 {
      Half9(x);
    } else if y == 10 {
      Half10(x);
    } else if y == 11 {
      Half11(x);
    } else if y == 12 {
      Half12(x);
    } else if y == 13 {
      Half13(x);
    } else if y == 14 {
      Half14(x);
    } else if y == 15 {
      Half15(x);
    } else if y == 16 {
      Half16(x);
    } else if y == 17 {
      Half17(x);
    } else if y == 18 {
      Half18(x);
    } else if y == 19 {
      Half19(x);
    } else if y == 20 {
      Half20(x);
    } else if y == 21 {
      Half21(x);
    } else if y == 22 {
      Half22(x);
    } else if y == 23 {
      Half23(x);
    } else if y == 24 {
      Half24(x);
    } else if y == 25 {
      Half25(x);
    } else if y == 26 {
      Half26(x);
    } else if y == 27 {
      Half27(x);
    } else if y == 28 {
      Half28(x);
    } else if y == 29 {
      Half29(x);
    } else if y == 30 {
      Half30(x);
    } else {
      Half31(x);
    }
  }

  lemma AllLinked(n: byte)
    ensures Link(Box(n), Box(Doubled(n)))
  {
    hide Link, Box, RowAt, Low, Doubled;
    var y, x := n / 8, n % 8;
    RowsLinked(y, x);
    BoxAt(y / 2, 8 * (y % 2) + x);
    assert n == 16 * (y / 2) + (8 * (y % 2) + x);
    LowSmall(x);
    if n < 128 {
      DoubledLow(n);
      BoxAt(y, 2 * x);
    } else {
      DoubledHigh(n);
      BoxAt(if y % 2 == 0 then y - 15 else y - 17, Low(x));
    }
  }

  lemma LowSmall(x: nat)
    ensures Low(x) < 16
  {
  }

  /** Doubling a number halves its inverse, at every entry of the table. */
  lemma InverseHalves(n: byte)
    ensures Times2(Inverse(Doubled(n))) == Inverse(n)
  {
    hide Box, ToBits, ToByte, Times2, Affine, Unaffine, Turn, Doubled;
    AllLinked(n);
    var v := ToBits(Box(Doubled(n)));
    TurnIs(v);
    UnaffineBack(Times2(Unaffine(v)));
  }

  lemma InverseStarts(n: byte)
    ensures n == 0 ==> Inverse(n) == ZERO
    ensures n == 1 ==> Inverse(n) == ONE
    ensures n == 3 ==> Xor(Inverse(n), Times2(Inverse(n))) == ONE
    ensures n == 5 ==> Xor(Inverse(n), Times2(Times2(Inverse(n)))) == ONE
  {
  }

  lemma InverseFifteen(b: Bits)
    requires b == Inverse(15)
    ensures Xor4(b, Times2(b), Times2(Times2(b)), Times2(Times2(Times2(b)))) == ONE
  {
  }

  lemma InverseSeventeen(b: Bits)
    requires b == Inverse(17)
    ensures Xor(b, Times2(Times2(Times2(Times2(b))))) == ONE
  {
  }

  // ----- the products of the numbers and their inverses

  function When(digit: bool, b: Bits): Bits {
    if digit then b else ZERO
  }

  /** The product in the field: the sum of the repeated doubles of b that the digits of a call for. */
  function Product(a: Bits, b: Bits): Bits {
    var b1 := Times2(b);
    var b2 := Times2(b1);
    var b3 := Times2(b2);
    var b4 := Times2(b3);
    var b5 := Times2(b4);
    var b6 := Times2(b5);
    Xor(Xor4(When(a.b0, b), When(a.b1, b1), When(a.b2, b2), When(a.b3, b3)),
        Xor4(When(a.b4, b4), When(a.b5, b5), When(a.b6, b6), When(a.b7, Times2(b6))))
  }

  lemma Eighth(b: Bits)
    ensures var b4 := Times2(Times2(Times2(Times2(b))));
            Times2(Times2(Times2(Times2(b4)))) == Xor4(b, Times2(b), Times2(Times2(Times2(b))), b4)
  {
  }

  lemma WhenEither(c: bool, d: bool, b: Bits)
    ensures When(c != d, b) == Xor(When(c, b), When(d, b))
  {
  }

  lemma Inner(x0: Bits, x1: Bits, w0: Bits, w1: Bits)
    ensures Xor(Xor(x0, Xor(w0, x1)), w1) == Xor(Xor(w0, w1), Xor(x0, x1))
  {
  }

  lemma Gathered(x0: Bits, x1: Bits, x3: Bits, w0: Bits, w1: Bits, w2: Bits)
    ensures Xor4(x0, Xor(w0, x1), w1, Xor(w2, x3)) == Xor(Xor(Xor(w0, w1), w2), Xor(Xor(x0, x1), x3))
  {
    hide Xor;
    Inner(x0, x1, w0, w1);
    XorPairs(Xor(w0, w1), Xor(x0, x1), w2, x3);
  }

  lemma Exchanged(p: Bits, q: Bits, r: Bits, s: Bits, w: Bits)
    ensures Xor(Xor(p, q), Xor(Xor(r, s), w)) == Xor(Xor(p, r), Xor(w, Xor(q, s)))
  {
  }

  lemma Grouped(p: Bits, q: Bits, r: Bits, s: Bits)
    ensures Xor4(p, q, r, s) == Xor(p, Xor(Xor(q, r), s))
  {
  }

  /** The four terms of x^8, taken to the end of a sum. */
  lemma Reordered(x0: Bits, x1: Bits, x3: Bits, x4: Bits, w0: Bits, w1: Bits, w2: Bits, w3: Bits, w4: Bits, w5: Bits, w6: Bits)
    ensures Xor(Xor4(x0, Xor(w0, x1), w1, Xor(w2, x3)), Xor4(Xor(w3, x4), w4, w5, w6))
            == Xor(Xor4(w0, w1, w2, w3), Xor4(w4, w5, w6, Xor4(x0, x1, x3, x4)))
  {
    hide Xor;
    Gathered(x0, x1, x3, w0, w1, w2);
    Grouped(Xor(w3, x4), w4, w5, w6);
    Exchanged(Xor(Xor(w0, w1), w2), Xor(Xor(x0, x1), x3), w3, x4, Xor(Xor(w4, w5), w6));
  }

  lemma EighthWhen(c: bool, b: Bits)
    ensures var b1 := Times2(b); var b3 := Times2(Times2(b1)); var b4 := Times2(b3);
            Xor4(When(c, b), When(c, b1), When(c, b3), When(c, b4)) == When(c, Times2(Times2(Times2(Times2(b4)))))
  {
    hide Times2;
    Eighth(b);
  }

  lemma ProductOfDouble(a: Bits, b: Bits)
    ensures var b1 := Times2(b); var b2 := Times2(b1); var b3 := Times2(b2); var b4 := Times2(b3); var b5 := Times2(b4);
            var b6 := Times2(b5);
            Product(Times2(a), b)
            == Xor(Xor4(When(a.b7, b), Xor(When(a.b0, b1), When(a.b7, b1)), When(a.b1, b2), Xor(When(a.b2, b3), When(a.b7, b3))),
                   Xor4(Xor(When(a.b3, b4), When(a.b7, b4)), When(a.b4, b5), When(a.b5, b6), When(a.b6, Times2(b6))))
  {
    hide Xor, Xor4, When;
    var b1 := Times2(b);
    var b3 := Times2(Times2(b1));
    WhenEither(a.b0, a.b7, b1);
    WhenEither(a.b2, a.b7, b3);
    WhenEither(a.b3, a.b7, Times2(b3));
  }

  /** A factor of two goes from one side of a product to the other. */
  lemma ProductMoves(a: Bits, b: Bits)
    ensures Product(Times2(a), b) == Product(a, Times2(b))
  {
    hide Xor, Xor4, When, Times2;
    ProductOfDouble(a, b);
    EighthWhen(a.b7, b);
    var b1 := Times2(b);
    var b3 := Times2(Times2(b1));
    var b4 := Times2(b3);
    var b5 := Times2(b4);
    Reordered(When(a.b7, b), When(a.b7, b1), When(a.b7, b3), When(a.b7, b4), When(a.b0, b1), When(a.b1, Times2(b1)),
              When(a.b2, b3), When(a.b3, b4), When(a.b4, b5), When(a.b5, Times2(b5)), When(a.b6, Times2(Times2(b5))));
  }

  predicate Inverted(n: byte) {
    Product(ToBits(n), Inverse(n)) == ONE
  }

  lemma XorNothing()
    ensures forall p: Bits :: Xor(p, ZERO) == p && Xor(ZERO, p) == p
  {
  }

  lemma FewDigits(a: Bits, b: Bits)
    requires !a.b7 && !a.b6 && !a.b5 && a.b0
    ensures !a.b4 && !a.b3 && !a.b2 && !a.b1 ==> Product(a, b) == b
    ensures !a.b4 && !a.b3 && !a.b2 && a.b1 ==> Product(a, b) == Xor(b, Times2(b))
    ensures !a.b4 && !a.b3 && a.b2 && !a.b1 ==> Product(a, b) == Xor(b, Times2(Times2(b)))
    ensures !a.b4 && a.b3 && a.b2 && a.b1 ==> Product(a, b) == Xor4(b, Times2(b), Times2(Times2(b)), Times2(Times2(Times2(b))))
    ensures a.b4 && !a.b3 && !a.b2 && !a.b1 ==> Product(a, b) == Xor(b, Times2(Times2(Times2(Times2(b)))))
  {
    hide Times2, Xor;
    XorNothing();
  }

  /** The repeated doubles of these numbers are all the numbers but zero. */
  lemma StartInverted(n: byte)
    requires n in {1, 3, 5, 15, 17}
    ensures Inverted(n)
  {
    hide Inverse, Product, Times2, Xor, Xor4;
    FewDigits(ToBits(n), Inverse(n));
    InverseStarts(n);
    if n == 15 { InverseFifteen(Inverse(n)); }
    if n == 17 { InverseSeventeen(Inverse(n)); }
  }

  // ----- the repeated doubles of 1, 3, 5, 15 and 17

  /** Where the double of a number is. */
  function Next(n: byte): byte {
    if n < 128 then 2 * n else 16 * (if n / 8 % 2 == 0 then n / 8 - 15 else n / 8 - 17) + Low(n % 8)
  }

  lemma DoubledIs(n: byte)
    ensures Doubled(n) == Next(n)
  {
    hide Doubled, Low;
    if n < 128 { DoubledLow(n); } else { DoubledHigh(n); }
  }

  ghost predicate Spreads(p: byte -> bool) {
    forall n :: p(n) ==> p(Next(n))
  }

  lemma Along(p: byte -> bool, n: byte, n1: byte, n2: byte, n3: byte, n4: byte, n5: byte)
    requires Spreads(p) && p(n)
    requires n1 == Next(n) && n2 == Next(n1) && n3 == Next(n2) && n4 == Next(n3) && n5 == Next(n4)
    ensures p(n1) && p(n2) && p(n3) && p(n4) && p(n5)
  {
  }

  lemma DoublesOne(p: byte -> bool)
    requires Spreads(p) && p(1)
    ensures forall n: byte | n in {1, 2, 4, 8, 16, 32, 64, 128, 27, 54, 108, 216, 171, 77, 154, 47, 94,
                                  188, 99, 198, 151, 53, 106, 212, 179, 125, 250, 239, 197, 145, 57, 114, 228, 211,
                                  189, 97, 194, 159, 37, 74, 148, 51, 102, 204, 131, 29, 58, 116, 232, 203, 141} :: p(n)
  {
    hide Spreads;
    Along(p, 1, 2, 4, 8, 16, 32);
    Along(p, 32, 64, 128, 27, 54, 108);
    Along(p, 108, 216, 171, 77, 154, 47);
    Along(p, 47, 94, 188, 99, 198, 151);
    Along(p, 151, 53, 106, 212, 179, 125);
    Along(p, 125, 250, 239, 197, 145, 57);
    Along(p, 57, 114, 228, 211, 189, 97);
    Along(p, 97, 194, 159, 37, 74, 148);
    Along(p, 148, 51, 102, 204, 131, 29);
    Along(p, 29, 58, 116, 232, 203, 141);
  }

  lemma DoublesThree(p: byte -> bool)
    requires Spreads(p) && p(3)
    ensures forall n: byte | n in {3, 6, 12, 24, 48, 96, 192, 155, 45, 90, 180, 115, 230, 215, 181, 113, 226,
                                  223, 165, 81, 162, 95, 190, 103, 206, 135, 21, 42, 84, 168, 75, 150, 55, 110,
                                  220, 163, 93, 186, 111, 222, 167, 85, 170, 79, 158, 39, 78, 156, 35, 70, 140} :: p(n)
  {
    hide Spreads;
    Along(p, 3, 6, 12, 24, 48, 96);
    Along(p, 96, 192, 155, 45, 90, 180);
    Along(p, 180, 115, 230, 215, 181, 113);
    Along(p, 113, 226, 223, 165, 81, 162);
    Along(p, 162, 95, 190, 103, 206, 135);
    Along(p, 135, 21, 42, 84, 168, 75);
    Along(p, 75, 150, 55, 110, 220, 163);
    Along(p, 163, 93, 186, 111, 222, 167);
    Along(p, 167, 85, 170, 79, 158, 39);
    Along(p, 39, 78, 156, 35, 70, 140);
  }

  lemma DoublesFive(p: byte -> bool)
    requires Spreads(p) && p(5)
    ensures forall n: byte | n in {5, 10, 20, 40, 80, 160, 91, 182, 119, 238, 199, 149, 49, 98, 196, 147, 61,
                                  122, 244, 243, 253, 225, 217, 169, 73, 146, 63, 126, 252, 227, 221, 161, 89, 178,
                                  127, 254, 231, 213, 177, 121, 242, 255, 229, 209, 185, 105, 210, 191, 101, 202, 143} :: p(n)
  {
    hide Spreads;
    Along(p, 5, 10, 20, 40, 80, 160);
    Along(p, 160, 91, 182, 119, 238, 199);
    Along(p, 199, 149, 49, 98, 196, 147);
    Along(p, 147, 61, 122, 244, 243, 253);
    Along(p, 253, 225, 217, 169, 73, 146);
    Along(p, 146, 63, 126, 252, 227, 221);
    Along(p, 221, 161, 89, 178, 127, 254);
    Along(p, 254, 231, 213, 177, 121, 242);
    Along(p, 242, 255, 229, 209, 185, 105);
    Along(p, 105, 210, 191, 101, 202, 143);
  }

  lemma DoublesFifteen(p: byte -> bool)
    requires Spreads(p) && p(15)
    ensures forall n: byte | n in {15, 30, 60, 120, 240, 251, 237, 193, 153, 41, 82, 164, 83, 166, 87, 174, 71,
                                  142, 7, 14, 28, 56, 112, 224, 219, 173, 65, 130, 31, 62, 124, 248, 235, 205,
                                  129, 25, 50, 100, 200, 139, 13, 26, 52, 104, 208, 187, 109, 218, 175, 69, 138} :: p(n)
  {
    hide Spreads;
    Along(p, 15, 30, 60, 120, 240, 251);
    Along(p, 251, 237, 193, 153, 41, 82);
    Along(p, 82, 164, 83, 166, 87, 174);
    Along(p, 174, 71, 142, 7, 14, 28);
    Along(p, 28, 56, 112, 224, 219, 173);
    Along(p, 173, 65, 130, 31, 62, 124);
    Along(p, 124, 248, 235, 205, 129, 25);
    Along(p, 25, 50, 100, 200, 139, 13);
    Along(p, 13, 26, 52, 104, 208, 187);
    Along(p, 187, 109, 218, 175, 69, 138);
  }

  lemma DoublesSeventeen(p: byte -> bool)
    requires Spreads(p) && p(17)
    ensures forall n: byte | n in {17, 34, 68, 136, 11, 22, 44, 88, 176, 123, 246, 247, 245, 241, 249, 233, 201,
                                  137, 9, 18, 36, 72, 144, 59, 118, 236, 195, 157, 33, 66, 132, 19, 38, 76,
                                  152, 43, 86, 172, 67, 134, 23, 46, 92, 184, 107, 214, 183, 117, 234, 207, 133} :: p(n)
  {
    hide Spreads;
    Along(p, 17, 34, 68, 136, 11, 22);
    Along(p, 22, 44, 88, 176, 123, 246);
    Along(p, 246, 247, 245, 241, 249, 233);
    Along(p, 233, 201, 137, 9, 18, 36);
    Along(p, 36, 72, 144, 59, 118, 236);
    Along(p, 236, 195, 157, 33, 66, 132);
    Along(p, 132, 19, 38, 76, 152, 43);
    Along(p, 43, 86, 172, 67, 134, 23);
    Along(p, 23, 46, 92, 184, 107, 214);
    Along(p, 214, 183, 117, 234, 207, 133);
  }

  /** Every number but zero times what the table transforms for it is one. */
  lemma InverseIs(n: byte)
    requires n != 0
    ensures Product(ToBits(n), Inverse(n)) == ONE
  {
    hide Product, ToBits, ToByte, Times2, Inverse, Next;
    forall m | Inverted(m) ensures Inverted(Next(m)) {
      DoubledIs(m);
      InverseHalves(m);
      BitsBack(Times2(ToBits(m)));
      ProductMoves(ToBits(m), Inverse(Doubled(m)));
    }
    StartInverted(1);
    StartInverted(3);
    StartInverted(5);
    StartInverted(15);
    StartInverted(17);
    DoublesOne(Inverted);
    DoublesThree(Inverted);
    DoublesFive(Inverted);
    DoublesFifteen(Inverted);
    DoublesSeventeen(Inverted);
    assert Inverted(n);
  }

  lemma AffineBackHigh(b: Bits)
    ensures Affine(Unaffine(b)).b7 == b.b7 && Affine(Unaffine(b)).b6 == b.b6
    ensures Affine(Unaffine(b)).b5 == b.b5 && Affine(Unaffine(b)).b4 == b.b4
  {
  }

  lemma AffineBackLow(b: Bits)
    ensures Affine(Unaffine(b)).b3 == b.b3 && Affine(Unaffine(b)).b2 == b.b2
    ensures Affine(Unaffine(b)).b1 == b.b1 && Affine(Unaffine(b)).b0 == b.b0
  {
  }

  lemma AffineBack(b: Bits)
    ensures Affine(Unaffine(b)) == b
  {
    hide *;
    AffineBackHigh(b);
    AffineBackLow(b);
  }

  /** The table holds the affine transformation of the inverse, and of zero for zero. */
  lemma BoxIs(n: byte)
    ensures exists v: Bits :: ToBits(Box(n)) == Affine(v) && if n == 0 then v == ZERO else Product(ToBits(n), v) == ONE
  {
    hide Product, Affine, Unaffine, Box, ToBits;
    AffineBack(ToBits(Box(n)));
    if n == 0 { InverseStarts(n); } else { InverseIs(n); }
    assert if n == 0 then Inverse(n) == ZERO else Product(ToBits(n), Inverse(n)) == ONE;
  }
}
