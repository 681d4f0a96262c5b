/**
 The field GF(2^8) of section 4.2 of FIPS 197, and the pair of walks that the table loop of js/rollups/aes.js:32
 takes through it.
 */
module Gf256 {
  import Arithmetic
  import opened WordArrays

  /** `128 > c ? c << 1 : c << 1 ^ 283` */
  function Xtime(b: Byte): Byte {
    if b < 128 then b << 1 else (b << 1) ^ 0x1B
  }

  /** The field's sum. */
  function Add(a: Byte, b: Byte): Byte {
    a ^ b
  }

  predicate Odd(a: Byte) {
    a & 1 != 0
  }

  function Half(a: Byte): Byte {
    a >> 1
  }

  function Pick(c: bool, b: Byte): Byte {
    if c then b else 0
  }

  /** The sum of the shifts of `b` by the low `n` bits of `a`. */
  function MulBits(a: Byte, b: Byte, n: nat): Byte
    decreases n
  {
    if n == 0 then 0 else Add(Pick(Odd(a), b), MulBits(Half(a), Xtime(b), n - 1))
  }

  function Mul(a: Byte, b: Byte): Byte {
    MulBits(a, b, 8)
  }

  lemma XtimeAdds(b: Byte, c: Byte)
    ensures Xtime(Add(b, c)) == Add(Xtime(b), Xtime(c))
  {
    if b < 128 {
      if c < 128 {} else {}
    } else {
      if c < 128 {} else {}
    }
  }

  lemma PickAdds(p: bool, b: Byte, c: Byte)
    ensures Pick(p, Add(b, c)) == Add(Pick(p, b), Pick(p, c))
    ensures Xtime(Pick(p, b)) == Pick(p, Xtime(b))
  {
  }

  lemma LowBitAdds(a: Byte, c: Byte, b: Byte)
    ensures Pick(Odd(Add(a, c)), b) == Add(Pick(Odd(a), b), Pick(Odd(c), b))
    ensures Half(Add(a, c)) == Add(Half(a), Half(c))
  {
  }

  lemma AddAssociates(a: Byte, b: Byte, c: Byte)
    ensures Add(Add(a, b), c) == Add(a, Add(b, c))
  {
  }

  lemma AddCommutes(a: Byte, b: Byte)
    ensures Add(a, b) == Add(b, a)
  {
  }

  lemma AddSwap(a: Byte, b: Byte, c: Byte, d: Byte)
    ensures Add(Add(a, b), Add(c, d)) == Add(Add(a, c), Add(b, d))
  {
    hide Add;
    AddAssociates(a, b, Add(c, d));
    AddAssociates(b, c, d);
    AddCommutes(b, c);
    AddAssociates(c, b, d);
    AddAssociates(a, c, Add(b, d));
  }

  lemma AddZero()
    ensures Add(0, 0) == 0 && Xtime(0) == 0
  {
  }

  lemma {:induction false} AddsRight(a: Byte, b: Byte, c: Byte, n: nat)
    ensures MulBits(a, Add(b, c), n) == Add(MulBits(a, b, n), MulBits(a, c, n))
    decreases n
  {
    hide Xtime, Add, Odd, Half, Pick;
    AddZero();
    if n > 0 {
      var p := Odd(a);
      XtimeAdds(b, c);
      PickAdds(p, b, c);
      AddsRight(Half(a), Xtime(b), Xtime(c), n - 1);
      AddSwap(Pick(p, b), Pick(p, c), MulBits(Half(a), Xtime(b), n - 1), MulBits(Half(a), Xtime(c), n - 1));
    }
  }

  lemma {:induction false} AddsLeft(a: Byte, c: Byte, b: Byte, n: nat)
    ensures MulBits(Add(a, c), b, n) == Add(MulBits(a, b, n), MulBits(c, b, n))
    decreases n
  {
    hide Xtime, Add, Odd, Half, Pick;
    AddZero();
    if n > 0 {
      LowBitAdds(a, c, b);
      AddsLeft(Half(a), Half(c), Xtime(b), n - 1);
      AddSwap(Pick(Odd(a), b), Pick(Odd(c), b), MulBits(Half(a), Xtime(b), n - 1), MulBits(Half(c), Xtime(b), n - 1));
    }
  }

  lemma {:induction false} XtimeRight(a: Byte, b: Byte, n: nat)
    ensures MulBits(a, Xtime(b), n) == Xtime(MulBits(a, b, n))
    decreases n
  {
    hide Xtime, Add, Odd, Half, Pick;
    AddZero();
    if n > 0 {
      PickAdds(Odd(a), b, b);
      XtimeRight(Half(a), Xtime(b), n - 1);
      XtimeAdds(Pick(Odd(a), b), MulBits(Half(a), Xtime(b), n - 1));
    }
  }

  function HalfN(a: Byte, n: nat): Byte
    decreases n
  {
    if n == 0 then a else HalfN(Half(a), n - 1)
  }

  function XtimeN(b: Byte, n: nat): Byte
    decreases n
  {
    if n == 0 then b else XtimeN(Xtime(b), n - 1)
  }

  lemma {:induction false} LastBit(a: Byte, b: Byte, n: nat)
    ensures MulBits(a, b, n + 1) == Add(MulBits(a, b, n), Pick(Odd(HalfN(a, n)), XtimeN(b, n)))
    decreases n
  {
    hide Xtime, Add, Odd, Half, Pick;
    if n == 0 {
      AddCommutes(0, Pick(Odd(a), b));
    } else {
      LastBit(Half(a), Xtime(b), n - 1);
      AddAssociates(Pick(Odd(a), b), MulBits(Half(a), Xtime(b), n - 1),
                    Pick(Odd(HalfN(Half(a), n - 1)), XtimeN(Xtime(b), n - 1)));
    }
  }

  /** The low `n` bits agree. */
  predicate Agree(a: Byte, c: Byte, n: nat)
    decreases n
  {
    n == 0 || (Odd(a) == Odd(c) && Agree(Half(a), Half(c), n - 1))
  }

  lemma {:induction false} SameLowBits(a: Byte, c: Byte, b: Byte, n: nat)
    requires Agree(a, c, n)
    ensures MulBits(a, b, n) == MulBits(c, b, n)
    decreases n
  {
    hide Xtime, Add, Odd, Half, Pick;
    if n > 0 {
      SameLowBits(Half(a), Half(c), Xtime(b), n - 1);
    }
  }

  lemma BitsOfShift(a: Byte)
    ensures !Odd(a << 1) && Half(a << 1) == a & 0x7F
    ensures Odd(HalfN(a, 7)) == (a >= 128)
  {
    assert HalfN(a, 7) == a >> 7;
  }

  lemma LowSevenBits(a: Byte)
    ensures Agree(a & 0x7F, a, 7)
  {
    assert Agree((a >> 6) & 1, a >> 6, 1);
    assert Agree((a >> 5) & 3, a >> 5, 2);
    assert Agree((a >> 4) & 7, a >> 4, 3);
    assert Agree((a >> 3) & 15, a >> 3, 4);
    assert Agree((a >> 2) & 31, a >> 2, 5);
    assert Agree((a >> 1) & 63, a >> 1, 6);
  }

  lemma Reduction8(b: Byte)
    ensures Xtime(Xtime(Xtime(Xtime(Xtime(Xtime(Xtime(Xtime(b))))))))
         == Add(b, Add(Xtime(b), Add(0, Add(Xtime(Xtime(Xtime(b))), Add(Xtime(Xtime(Xtime(Xtime(b)))), 0)))))
  {
  }

  /** The reduction polynomial: the eighth shift of a byte is 0x1B times the byte. */
  lemma Reduction(b: Byte)
    ensures XtimeN(b, 8) == Mul(0x1B, b)
  {
    Reduction8(b);
    hide Xtime, Add;
    var b1 := Xtime(b);
    var b2 := Xtime(b1);
    var b3 := Xtime(b2);
    var b4 := Xtime(b3);
    assert XtimeN(b, 8) == XtimeN(b4, 4) == Xtime(Xtime(Xtime(Xtime(b4))));
    AddZero();
    assert MulBits(0, Xtime(b4), 3) == 0;
    assert MulBits(1, b4, 4) == Add(b4, 0);
    assert MulBits(3, b3, 5) == Add(b3, Add(b4, 0));
    assert MulBits(6, b2, 6) == Add(0, Add(b3, Add(b4, 0)));
    assert MulBits(0xD, b1, 7) == Add(b1, Add(0, Add(b3, Add(b4, 0))));
  }

  lemma AddNothing(a: Byte, b: Byte)
    ensures Add(a, 0) == a && Add(0, a) == a && Pick(false, b) == 0 && Pick(true, b) == b
  {
  }

  /** A factor moved up by one bit loses the bit that `n` doublings have come to. */
  lemma ShiftedProduct(a: Byte, b: Byte, n: nat)
    requires Agree(a & 0x7F, a, n)
    ensures Xtime(MulBits(a, b, n + 1)) ==
            Add(MulBits(a << 1, b, n + 1), Pick(Odd(HalfN(a, n)), XtimeN(b, n + 1)))
  {
    BitsOfShift(a);
    hide Xtime, Add, Odd, Half, Pick;
    SameLowBits(a & 0x7F, a, Xtime(b), n);
    LastBit(a, Xtime(b), n);
    XtimeRight(a, b, n + 1);
    AddNothing(MulBits(a & 0x7F, Xtime(b), n), b);
  }

  lemma XtimeIs(a: Byte)
    ensures Xtime(a) == if a < 128 then a << 1 else Add(a << 1, 0x1B)
  {
  }

  lemma XtimeLeft(a: Byte, b: Byte)
    ensures Mul(Xtime(a), b) == Xtime(Mul(a, b))
  {
    hide MulBits, XtimeN, HalfN, Agree, Xtime, Add, Odd, Half, Pick;
    LowSevenBits(a);
    BitsOfShift(a);
    ShiftedProduct(a, b, 7);
    Reduction(b);
    AddsLeft(a << 1, 0x1B, b, 8);
    XtimeIs(a);
    AddNothing(MulBits(a << 1, b, 8), XtimeN(b, 8));
  }

  // ----- the two walks of the table loop

  /** `j ^= a[a[j]]`: five times `j`. */
  function Times5(j: Byte): Byte {
    Add(j, Xtime(Xtime(j)))
  }

  /** `e = z ^ a[a[a[G ^ z]]]` with `z = 2e` and `G = 8e`: 0x52 times `e`. */
  function Times82(e: Byte): Byte {
    Add(Xtime(e), Xtime(Xtime(Xtime(Add(Xtime(Xtime(Xtime(e))), Xtime(e))))))
  }

  function Times5N(b: Byte, n: nat): Byte
    decreases n
  {
    if n == 0 then b else Times5(Times5N(b, n - 1))
  }

  function Times82N(b: Byte, n: nat): Byte
    decreases n
  {
    if n == 0 then b else Times82(Times82N(b, n - 1))
  }

  /** The multipliers 5 and 0x52 are inverses of each other. */
  lemma TimesCancel(b: Byte)
    ensures Times5(Times82(b)) == b
    ensures Times82(Times5(b)) == b
  {
  }

  lemma TimesLeft(a: Byte, b: Byte)
    ensures Mul(Times82(a), b) == Times82(Mul(a, b))
    ensures Mul(Times5(a), b) == Times5(Mul(a, b))
  {
    hide Xtime, Add, Mul;
    var a1 := Xtime(a);
    var a2 := Xtime(a1);
    var a3 := Xtime(a2);
    var d := Add(a3, a1);
    XtimeLeft(a, b);
    XtimeLeft(a1, b);
    XtimeLeft(a2, b);
    XtimeLeft(d, b);
    XtimeLeft(Xtime(d), b);
    XtimeLeft(Xtime(Xtime(d)), b);
    MulAddsLeft(a3, a1, b);
    MulAddsLeft(a1, Xtime(Xtime(Xtime(d))), b);
    MulAddsLeft(a, a2, b);
  }

  lemma MulAddsLeft(a: Byte, c: Byte, b: Byte)
    ensures Mul(Add(a, c), b) == Add(Mul(a, b), Mul(c, b))
  {
    AddsLeft(a, c, b, 8);
  }

  lemma MulOne(b: Byte)
    ensures Mul(1, b) == b
  {
    assert MulBits(0, Xtime(b), 7) == 0;
  }

  lemma {:induction false} WalkActs(n: nat, b: Byte)
    ensures Mul(Times82N(1, n), b) == Times82N(b, n)
    ensures Mul(Times5N(1, n), b) == Times5N(b, n)
    decreases n
  {
    hide Times5, Times82, Mul;
    if n == 0 {
      MulOne(b);
    } else {
      WalkActs(n - 1, b);
      TimesLeft(Times82N(1, n - 1), b);
      TimesLeft(Times5N(1, n - 1), b);
    }
  }

  lemma {:induction false} WalkAdds(b: Byte, m: nat, n: nat)
    ensures Times5N(b, m + n) == Times5N(Times5N(b, m), n)
    ensures Times82N(b, m + n) == Times82N(Times82N(b, m), n)
    decreases n
  {
    hide Times5, Times82;
    if n > 0 {
      WalkAdds(b, m, n - 1);
    }
  }

  lemma {:induction false} WalkCancels(b: Byte, n: nat)
    ensures Times5N(Times82N(b, n), n) == b
    ensures Times82N(Times5N(b, n), n) == b
    decreases n
  {
    hide Times5, Times82;
    if n > 0 {
      var c, d := Times82N(b, n - 1), Times5N(b, n - 1);
      WalkCancels(b, n - 1);
      WalkAdds(Times82(c), 1, n - 1);
      WalkAdds(Times5(d), 1, n - 1);
      TimesCancel(c);
      TimesCancel(d);
      assert Times5N(Times82(c), 1) == Times5(Times5N(Times82(c), 0));
      assert Times82N(Times5(d), 1) == Times82(Times82N(Times5(d), 0));
    }
  }

  /** At every step of the loop, `e` and `j` are multiplicative inverses, and `j` is the only inverse of `e`. */
  lemma WalkInverse(n: nat, y: Byte)
    ensures Mul(Times82N(1, n), y) == 1 <==> y == Times5N(1, n)
  {
    hide Times5, Times82, Mul;
    WalkActs(n, y);
    WalkCancels(1, n);
    WalkCancels(y, n);
  }

  // ----- the walks visit every non-zero byte once

  function Power(n: nat): Byte {
    Times5N(1, n)
  }

  lemma PowerAdds(m: nat, n: nat)
    ensures Power(m + n) == Mul(Power(n), Power(m))
  {
    WalkAdds(1, m, n);
    WalkActs(n, Power(m));
  }

  /** The product written out. */
  lemma MulTerms(a: Byte, b: Byte)
    ensures var b1 := Xtime(b);
            var b2 := Xtime(b1);
            var b3 := Xtime(b2);
            var b4 := Xtime(b3);
            var b5 := Xtime(b4);
            var b6 := Xtime(b5);
            var b7 := Xtime(b6);
            var a1 := Half(a);
            var a2 := Half(a1);
            var a3 := Half(a2);
            var a4 := Half(a3);
            var a5 := Half(a4);
            var a6 := Half(a5);
            Mul(a, b) == Add(Pick(Odd(a), b), Add(Pick(Odd(a1), b1), Add(Pick(Odd(a2), b2), Add(Pick(Odd(a3), b3),
                         Add(Pick(Odd(a4), b4), Add(Pick(Odd(a5), b5), Add(Pick(Odd(a6), b6), Add(Pick(Odd(Half(a6)), b7), 0))))))))
  {
    hide Xtime, Add, Pick, Odd, Half;
    MulBitsStep(a, b, 8);
    MulBitsStep(Half(a), Xtime(b), 7);
    var a2, b2 := Half(Half(a)), Xtime(Xtime(b));
    MulBitsStep(a2, b2, 6);
    MulBitsStep(Half(a2), Xtime(b2), 5);
    var a4, b4 := Half(Half(a2)), Xtime(Xtime(b2));
    MulBitsStep(a4, b4, 4);
    MulBitsStep(Half(a4), Xtime(b4), 3);
    var a6, b6 := Half(Half(a4)), Xtime(Xtime(b4));
    MulBitsStep(a6, b6, 2);
    MulBitsStep(Half(a6), Xtime(b6), 1);
  }

  lemma MulBitsStep(a: Byte, b: Byte, n: nat)
    requires n > 0
    ensures MulBits(a, b, n) == Add(Pick(Odd(a), b), MulBits(Half(a), Xtime(b), n - 1))
  {
  }

  lemma Squares()
    ensures Mul(0x05, 0x05) == 0x11
    ensures Mul(0x11, 0x11) == 0x1A
    ensures Mul(0x1A, 0x1A) == 0x5F
    ensures Mul(0x5F, 0x5F) == 0xE5
  {
    MulTerms(0x05, 0x05);
    MulTerms(0x11, 0x11);
    MulTerms(0x1A, 0x1A);
    MulTerms(0x5F, 0x5F);
  }

  lemma MoreProducts()
    ensures Mul(0x05, 0xE5) == 0x5C
    ensures Mul(0x5C, 0x5C) == 0xE0
    ensures Mul(0xE0, 0x5C) == 0x50
  {
    MulTerms(0x05, 0xE5);
    MulTerms(0x5C, 0x5C);
    MulTerms(0xE0, 0x5C);
  }

  lemma LastProducts()
    ensures Mul(0xE0, 0x50) == 0xBC
    ensures Mul(0xBC, 0xBC) == 0xBD
    ensures Mul(0xBC, 0xBD) == 0x01
  {
    MulTerms(0xE0, 0x50);
    MulTerms(0xBC, 0xBC);
    MulTerms(0xBC, 0xBD);
  }

  lemma FirstPower()
    ensures Power(1) == 5 && Mul(5, 1) == 5
  {
    assert Power(1) == Times5(Power(0));
  }

  /** The powers of 5 that settle its order. */
  lemma SomePowers()
    ensures Power(255) == 1
    ensures Power(15) != 1 && Power(51) != 1 && Power(85) != 1
  {
    hide Times5, Mul, Power;
    FirstPower();
    Squares();
    PowerAdds(1, 1);
    PowerAdds(2, 2);
    PowerAdds(4, 4);
    PowerAdds(8, 8);
    PowerAdds(1, 15);
    PowerOfSum(15);
    MoreProducts();
    PowerAdds(16, 1);
    PowerAdds(17, 17);
    PowerAdds(17, 34);
    LastProducts();
    PowerAdds(51, 34);
    PowerAdds(85, 85);
    PowerAdds(170, 85);
    assert Power(16) == 0xE5 && Power(51) == 0x50 && Power(85) == 0xBC;
    assert Mul(5, 1) != 0xE5;
  }

  lemma PowerOfSum(n: nat)
    ensures Power(n + 1) == Mul(5, Power(n))
  {
    PowerAdds(n, 1);
    FirstPower();
  }

  lemma {:induction false} PowerOfOne(d: nat, k: nat)
    requires Power(d) == 1
    ensures Power(k * d) == 1
    decreases k
  {
    hide Times5, Mul;
    if k > 0 {
      PowerOfOne(d, k - 1);
      Arithmetic.MulDistributes(k - 1, 1, d);
      PowerAdds((k - 1) * d, d);
      MulOne(1);
    } else {
      assert k * d == 0;
    }
  }

  lemma DivisorsOf255(d: nat, k: nat)
    requires d * k == 255
    ensures d == 1 || d == 3 || d == 5 || d == 15 || d == 17 || d == 51 || d == 85 || d == 255
  {
    if d <= 15 {
      assert d == 0 || d == 1 || d == 2 || d == 3 || d == 4 || d == 5 || d == 6 || d == 7 || d == 8 || d == 9 || d == 10
          || d == 11 || d == 12 || d == 13 || d == 14 || d == 15;
    } else {
      if k >= 16 {
        Arithmetic.MulMonotone(16, k, d);
      }
      assert k == 0 || k == 1 || k == 2 || k == 3 || k == 4 || k == 5 || k == 6 || k == 7 || k == 8 || k == 9 || k == 10
          || k == 11 || k == 12 || k == 13 || k == 14 || k == 15;
    }
  }

  lemma DivisorIsNoOrder(d: nat, k: nat)
    requires d < 255 && d * k == 255
    ensures Power(d) != 1
  {
    hide Power;
    SomePowers();
    DivisorsOf255(d, k);
    if Power(d) == 1 {
      if d == 17 {
        PowerOfOne(17, 3);
      } else if d == 1 {
        PowerOfOne(1, 15);
      } else if d == 3 {
        PowerOfOne(3, 5);
      } else if d == 5 {
        PowerOfOne(5, 3);
      }
    }
  }

  /** 5 has order 255. */
  lemma {:induction false} OrderIs255(d: nat)
    requires 0 < d < 255
    ensures Power(d) != 1
    decreases d
  {
    hide Power, Mul;
    var q, r := 255 / d, 255 % d;
    assert 255 == q * d + r;
    if r == 0 {
      DivisorIsNoOrder(d, q);
    } else if Power(d) == 1 {
      SomePowers();
      PowerOfOne(d, q);
      PowerAdds(r, q * d);
      MulOne(Power(r));
      OrderIs255(r);
    }
  }

  lemma PowersDistinct(i: nat, j: nat)
    requires i < j < 255
    ensures Power(i) != Power(j)
    ensures Times82N(1, i) != Times82N(1, j)
  {
    hide Times5, Times82, Mul;
    if Power(i) == Power(j) {
      WalkAdds(1, j - i, i);
      WalkCancels(Power(j - i), i);
      WalkCancels(1, i);
      OrderIs255(j - i);
    }
    WalkInverse(i, Power(j));
    WalkInverse(j, Power(j));
  }

  lemma ByteRange(b: Byte)
    ensures 0 <= b as int <= 255 && (b as int == 0 <==> b == 0)
  {
  }

  lemma SameByte(b: Byte, c: Byte)
    requires b as int == c as int
    ensures b == c
  {
  }

  ghost function Visit(i: nat): int {
    Times82N(1, i) as int
  }

  ghost function Visited(n: nat): set<int> {
    if n == 0 then {} else Visited(n - 1) + {Visit(n - 1)}
  }

  lemma {:induction false} VisitedHas(n: nat, b: int)
    ensures b in Visited(n) ==> exists i: nat :: i < n && Visit(i) == b
    decreases n
  {
    hide Visit;
    if b in Visited(n) {
      if b == Visit(n - 1) {
        assert n - 1 < n && Visit(n - 1) == b;
      } else {
        VisitedHas(n - 1, b);
        var i: nat :| i < n - 1 && Visit(i) == b;
        assert i < n && Visit(i) == b;
      }
    }
  }

  lemma VisitsDistinct(i: nat, j: nat)
    requires i < j < 255
    ensures Visit(i) != Visit(j)
  {
    hide Times82N;
    PowersDistinct(i, j);
    if Visit(i) == Visit(j) {
      SameByte(Times82N(1, i), Times82N(1, j));
    }
  }

  lemma VisitRange(n: nat)
    ensures 0 < Visit(n) <= 255
  {
    hide Times82N, Times5N;
    WalkInverse(n, Times5N(1, n));
    MulZero(Times5N(1, n), 8);
    ByteRange(Times82N(1, n));
  }

  lemma {:induction false} MulZero(b: Byte, n: nat)
    ensures MulBits(0, b, n) == 0
    decreases n
  {
    if n > 0 {
      MulZero(Xtime(b), n - 1);
    }
  }

  ghost function UpTo(n: nat): set<int> {
    if n == 0 then {} else UpTo(n - 1) + {n}
  }

  lemma {:induction false} UpToCount(n: nat)
    ensures |UpTo(n)| <= n
    ensures forall i :: 0 < i <= n ==> i in UpTo(n)
    decreases n
  {
    if n > 0 {
      UpToCount(n - 1);
    }
  }

  lemma {:induction false} VisitedCount(n: nat)
    requires n <= 255
    ensures |Visited(n)| == n && forall i :: i in Visited(n) ==> 0 < i <= 255
    decreases n
  {
    hide Visit;
    if n > 0 {
      VisitedCount(n - 1);
      VisitRange(n - 1);
      VisitedHas(n - 1, Visit(n - 1));
      if Visit(n - 1) in Visited(n - 1) {
        var i: nat :| i < n - 1 && Visit(i) == Visit(n - 1);
        VisitsDistinct(i, n - 1);
      }
    }
  }

  lemma VisitsAll(n: nat, v: int)
    requires |Visited(n)| == n && forall i :: i in Visited(n) ==> 0 < i <= n
    requires 0 < v <= n
    ensures v in Visited(n)
  {
    UpToCount(n);
    if v !in Visited(n) {
      forall i | i in Visited(n) + {v}
        ensures i in UpTo(n)
      {
        assert 0 < i <= n;
      }
      SubsetCount(Visited(n) + {v}, UpTo(n));
    }
  }

  /** The walk of `e` meets every non-zero byte in its first 255 steps. */
  lemma WalkCovers(b: Byte) returns (n: nat)
    requires b != 0
    ensures n < 255 && Times82N(1, n) == b
  {
    hide Times82N, Visited;
    var v := b as int;
    ByteRange(b);
    VisitedCount(255);
    VisitsAll(255, v);
    VisitedHas(255, v);
    n :| n < 255 && Visit(n) == v;
    SameByte(Times82N(1, n), b);
  }

  lemma SubsetCount(a: set<int>, b: set<int>)
    requires a <= b
    ensures |a| <= |b|
  {
    assert b == a + (b - a);
  }

  // ----- inverses

  ghost predicate IsInverse(x: Byte, y: Byte) {
    if x == 0 then y == 0 else Mul(x, y) == 1
  }

  /** Every byte has exactly one inverse. */
  lemma InverseExists(x: Byte) returns (y: Byte)
    ensures IsInverse(x, y)
    ensures forall z :: IsInverse(x, z) ==> z == y
  {
    hide Times82N, Times5N, Mul;
    if x == 0 {
      y := 0;
    } else {
      var n := WalkCovers(x);
      y := Times5N(1, n);
      WalkInverse(n, y);
      forall z | IsInverse(x, z)
        ensures z == y
      {
        WalkInverse(n, z);
      }
    }
  }

  /** Different bytes have different inverses. */
  lemma InverseInjective(w: Byte, x: Byte, y: Byte)
    requires IsInverse(w, y) && IsInverse(x, y)
    ensures w == x
  {
    hide Times82N, Times5N, Mul;
    MulByZero(w);
    MulByZero(x);
    if w != 0 && x != 0 {
      var m := WalkCovers(w);
      var n := WalkCovers(x);
      WalkInverse(m, y);
      WalkInverse(n, y);
      if m < n {
        PowersDistinct(m, n);
      } else if n < m {
        PowersDistinct(n, m);
      }
    }
  }

  lemma MulByZero(b: Byte)
    ensures Mul(b, 0) == 0
  {
    AddsRight(b, 0, 0, 8);
    AddZero();
    assert Add(Mul(b, 0), Mul(b, 0)) == 0;
  }
}
