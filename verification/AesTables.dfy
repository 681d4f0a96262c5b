/**
 The S-box of section 5.1.1 of FIPS 197 and the round tables that the loop of js/rollups/aes.js:32 builds.
 */
module AesTables {
  import opened WordArrays
  import opened Gf256

  // ----- the S-box

  function RotateLeft8(b: Byte, n: nat): Byte
    requires n < 8
  {
    (b << n) | (b >> (8 - n))
  }

  /** The affine transformation of section 5.1.1 of FIPS 197. */
  function Affine(b: Byte): Byte {
    b ^ RotateLeft8(b, 1) ^ RotateLeft8(b, 2) ^ RotateLeft8(b, 3) ^ RotateLeft8(b, 4) ^ 0x63
  }

  /** The inverse transformation of section 5.3.2 of FIPS 197. */
  function Unaffine(b: Byte): Byte {
    RotateLeft8(b, 1) ^ RotateLeft8(b, 3) ^ RotateLeft8(b, 6) ^ 0x05
  }

  lemma UnaffineInverts(b: Byte)
    ensures Unaffine(Affine(b)) == b
  {
  }

  ghost function Inverse(x: Byte): (y: Byte)
    ensures IsInverse(x, y)
  {
    assert exists y :: IsInverse(x, y) by {
      var y := InverseExists(x);
    }
    var y :| IsInverse(x, y);
    y
  }

  lemma InverseUnique(x: Byte, y: Byte)
    requires IsInverse(x, y)
    ensures Inverse(x) == y
  {
    var z := InverseExists(x);
  }

  /** SubBytes on one byte. */
  ghost function Sub(x: Byte): Byte {
    Affine(Inverse(x))
  }

  lemma SubInjective(x: Byte, y: Byte)
    requires Sub(x) == Sub(y)
    ensures x == y
  {
    hide Affine, Unaffine, IsInverse;
    UnaffineInverts(Inverse(x));
    UnaffineInverts(Inverse(y));
    InverseInjective(x, y, Inverse(x));
  }

  // ----- MixColumns

  lemma BytesXorAsSums(v: Word, w: Word, k: nat)
    requires k < 4
    ensures ByteOf(Xor(v, w), k) == Add(ByteOf(v, k), ByteOf(w, k))
  {
    if k == 0 {} else if k == 1 {} else if k == 2 {} else {}
  }

  /** The first row of a circulant matrix over GF(2^8). */
  datatype Row = Row(c0: Byte, c1: Byte, c2: Byte, c3: Byte)

  /** Section 5.1.3 of FIPS 197. */
  const MIX := Row(2, 3, 1, 1)

  /** Section 5.3.3 of FIPS 197. */
  const UNMIX := Row(14, 11, 13, 9)

  function Sum4(a: Byte, b: Byte, c: Byte, d: Byte): Byte {
    Add(Add(a, b), Add(c, d))
  }

  function Dot(r: Row, b0: Byte, b1: Byte, b2: Byte, b3: Byte): Byte {
    Sum4(Mul(r.c0, b0), Mul(r.c1, b1), Mul(r.c2, b2), Mul(r.c3, b3))
  }

  /** The matrix applied to one column of the state. */
  function MixColumn(r: Row, w: Word): Word {
    var b0, b1, b2, b3 := ByteOf(w, 0), ByteOf(w, 1), ByteOf(w, 2), ByteOf(w, 3);
    WordOf(Dot(r, b0, b1, b2, b3), Dot(r, b1, b2, b3, b0), Dot(r, b2, b3, b0, b1), Dot(r, b3, b0, b1, b2))
  }

  lemma MulAdds(a: Byte, b: Byte, c: Byte)
    ensures Mul(a, Add(b, c)) == Add(Mul(a, b), Mul(a, c))
  {
    AddsRight(a, b, c, 8);
  }

  lemma DotAdds(r: Row, a0: Byte, a1: Byte, a2: Byte, a3: Byte, b0: Byte, b1: Byte, b2: Byte, b3: Byte)
    ensures Dot(r, Add(a0, b0), Add(a1, b1), Add(a2, b2), Add(a3, b3)) == Add(Dot(r, a0, a1, a2, a3), Dot(r, b0, b1, b2, b3))
  {
    hide Mul, Add;
    MulAdds(r.c0, a0, b0);
    MulAdds(r.c1, a1, b1);
    MulAdds(r.c2, a2, b2);
    MulAdds(r.c3, a3, b3);
    var m0, m1, m2, m3 := Mul(r.c0, a0), Mul(r.c1, a1), Mul(r.c2, a2), Mul(r.c3, a3);
    var n0, n1, n2, n3 := Mul(r.c0, b0), Mul(r.c1, b1), Mul(r.c2, b2), Mul(r.c3, b3);
    AddSwap(m0, n0, m1, n1);
    AddSwap(m2, n2, m3, n3);
    AddSwap(Add(m0, m1), Add(n0, n1), Add(m2, m3), Add(n2, n3));
  }

  lemma MixColumnBytes(r: Row, w: Word)
    ensures var b0, b1, b2, b3 := ByteOf(w, 0), ByteOf(w, 1), ByteOf(w, 2), ByteOf(w, 3);
            && ByteOf(MixColumn(r, w), 0) == Dot(r, b0, b1, b2, b3)
            && ByteOf(MixColumn(r, w), 1) == Dot(r, b1, b2, b3, b0)
            && ByteOf(MixColumn(r, w), 2) == Dot(r, b2, b3, b0, b1)
            && ByteOf(MixColumn(r, w), 3) == Dot(r, b3, b0, b1, b2)
  {
    hide ByteOf, WordOf, Dot;
    var b0, b1, b2, b3 := ByteOf(w, 0), ByteOf(w, 1), ByteOf(w, 2), ByteOf(w, 3);
    BytesOfWord(Dot(r, b0, b1, b2, b3), Dot(r, b1, b2, b3, b0), Dot(r, b2, b3, b0, b1), Dot(r, b3, b0, b1, b2));
  }

  lemma SameWord(v: Word, w: Word)
    requires ByteOf(v, 0) == ByteOf(w, 0) && ByteOf(v, 1) == ByteOf(w, 1)
    requires ByteOf(v, 2) == ByteOf(w, 2) && ByteOf(v, 3) == ByteOf(w, 3)
    ensures v == w
  {
    hide ByteOf;
    WordExt(v, w);
  }

  lemma MixColumnAdds(r: Row, v: Word, w: Word)
    ensures MixColumn(r, Xor(v, w)) == Xor(MixColumn(r, v), MixColumn(r, w))
  {
    hide ByteOf, WordOf, Dot, Xor, Add, MixColumn;
    var x, y, z := MixColumn(r, v), MixColumn(r, w), Xor(v, w);
    XorAllBytes(v, w);
    XorAllBytes(x, y);
    MixColumnBytes(r, v);
    MixColumnBytes(r, w);
    MixColumnBytes(r, z);
    var a0, a1, a2, a3 := ByteOf(v, 0), ByteOf(v, 1), ByteOf(v, 2), ByteOf(v, 3);
    var b0, b1, b2, b3 := ByteOf(w, 0), ByteOf(w, 1), ByteOf(w, 2), ByteOf(w, 3);
    DotAdds(r, a0, a1, a2, a3, b0, b1, b2, b3);
    DotAdds(r, a1, a2, a3, a0, b1, b2, b3, b0);
    DotAdds(r, a2, a3, a0, a1, b2, b3, b0, b1);
    DotAdds(r, a3, a0, a1, a2, b3, b0, b1, b2);
    SameWord(MixColumn(r, z), Xor(x, y));
  }

  lemma XorAllBytes(v: Word, w: Word)
    ensures ByteOf(Xor(v, w), 0) == Add(ByteOf(v, 0), ByteOf(w, 0))
    ensures ByteOf(Xor(v, w), 1) == Add(ByteOf(v, 1), ByteOf(w, 1))
    ensures ByteOf(Xor(v, w), 2) == Add(ByteOf(v, 2), ByteOf(w, 2))
    ensures ByteOf(Xor(v, w), 3) == Add(ByteOf(v, 3), ByteOf(w, 3))
  {
    hide ByteOf, Xor, Add;
    BytesXorAsSums(v, w, 0);
    BytesXorAsSums(v, w, 1);
    BytesXorAsSums(v, w, 2);
    BytesXorAsSums(v, w, 3);
  }

  // ----- the two matrices are inverse to each other

  lemma SmallMultiples(b: Byte)
    ensures Mul(1, b) == b && Mul(2, b) == Xtime(b) && Mul(3, b) == Add(b, Xtime(b))
  {
    hide Xtime, Add;
    AddZero2(b);
    AddZero2(Xtime(b));
    MulZero(Xtime(b), 7);
    MulZero(Xtime(Xtime(b)), 6);
    assert MulBits(1, Xtime(b), 7) == Xtime(b);
  }

  lemma AddZero2(b: Byte)
    ensures Add(b, 0) == b && Add(0, b) == b && Add(b, b) == 0
  {
  }

  lemma LargeMultiples(b: Byte)
    ensures var b2 := Xtime(b);
            var b4 := Xtime(b2);
            var b8 := Xtime(b4);
            && Mul(9, b) == Add(b, b8)
            && Mul(11, b) == Add(b, Add(b2, b8))
            && Mul(13, b) == Add(b, Add(b4, b8))
            && Mul(14, b) == Add(b2, Add(b4, b8))
  {
    hide Xtime, Add;
    var b2 := Xtime(b);
    var b4 := Xtime(b2);
    var b8 := Xtime(b4);
    AddZero2(b8);
    AddZero2(Add(b4, b8));
    AddZero2(Add(b2, Add(b4, b8)));
    MulZero(Xtime(b8), 4);
    assert MulBits(1, b8, 5) == b8;
    assert MulBits(2, b4, 6) == Add(0, b8) && MulBits(3, b4, 6) == Add(b4, b8);
    assert MulBits(4, b2, 7) == Add(0, Add(0, b8));
    assert MulBits(5, b2, 7) == Add(b2, Add(0, b8)) && MulBits(6, b2, 7) == Add(0, Add(b4, b8));
    assert MulBits(7, b2, 7) == Add(b2, Add(b4, b8));
  }

  /** The product of the matrices is the identity: the coefficient of each input byte. */
  lemma UnmixMix(b: Byte)
    ensures Sum4(Mul(14, Mul(2, b)), Mul(11, Mul(1, b)), Mul(13, Mul(1, b)), Mul(9, Mul(3, b))) == b
    ensures Sum4(Mul(14, Mul(3, b)), Mul(11, Mul(2, b)), Mul(13, Mul(1, b)), Mul(9, Mul(1, b))) == 0
    ensures Sum4(Mul(14, Mul(1, b)), Mul(11, Mul(3, b)), Mul(13, Mul(2, b)), Mul(9, Mul(1, b))) == 0
    ensures Sum4(Mul(14, Mul(1, b)), Mul(11, Mul(1, b)), Mul(13, Mul(3, b)), Mul(9, Mul(2, b))) == 0
  {
    SmallMultiples(b);
    LargeMultiples(b);
    LargeMultiples(Xtime(b));
    LargeMultiples(Add(b, Xtime(b)));
    hide Mul;
    UnmixMixShifts(b);
  }

  lemma UnmixMixShifts(b: Byte)
    ensures var b2 := Xtime(b);
            var b4 := Xtime(b2);
            var b8 := Xtime(b4);
            var b16 := Xtime(b8);
            var c := Add(b, b2);
            var c2 := Xtime(c);
            var c4 := Xtime(c2);
            var c8 := Xtime(c4);
            && Sum4(Add(b4, Add(b8, b16)), Add(b, Add(b2, b8)), Add(b, Add(b4, b8)), Add(c, c8)) == b
            && Sum4(Add(c2, Add(c4, c8)), Add(b2, Add(b4, b16)), Add(b, Add(b4, b8)), Add(b, b8)) == 0
            && Sum4(Add(b2, Add(b4, b8)), Add(c, Add(c2, c8)), Add(b2, Add(b8, b16)), Add(b, b8)) == 0
            && Sum4(Add(b2, Add(b4, b8)), Add(b, Add(b2, b8)), Add(c, Add(c4, c8)), Add(b2, b16)) == 0
  {
    hide Xtime, Add, Sum4;
    var b2 := Xtime(b);
    var b4 := Xtime(b2);
    var b8 := Xtime(b4);
    XtimeAdds(b, b2);
    XtimeAdds(b2, b4);
    XtimeAdds(b4, b8);
    UnmixSum0(b, b2, b4, b8, Xtime(b8));
    UnmixSum1(b, b2, b4, b8, Xtime(b8));
    UnmixSum2(b, b2, b4, b8, Xtime(b8));
    UnmixSum3(b, b2, b4, b8, Xtime(b8));
  }

  lemma UnmixSum0(b: Byte, b2: Byte, b4: Byte, b8: Byte, b16: Byte)
    ensures Sum4(Add(b4, Add(b8, b16)), Add(b, Add(b2, b8)), Add(b, Add(b4, b8)), Add(Add(b, b2), Add(b8, b16))) == b
  {
  }

  lemma UnmixSum1(b: Byte, b2: Byte, b4: Byte, b8: Byte, b16: Byte)
    ensures Sum4(Add(Add(b2, b4), Add(Add(b4, b8), Add(b8, b16))), Add(b2, Add(b4, b16)), Add(b, Add(b4, b8)), Add(b, b8)) == 0
  {
  }

  lemma UnmixSum2(b: Byte, b2: Byte, b4: Byte, b8: Byte, b16: Byte)
    ensures Sum4(Add(b2, Add(b4, b8)), Add(Add(b, b2), Add(Add(b2, b4), Add(b8, b16))), Add(b2, Add(b8, b16)), Add(b, b8)) == 0
  {
    hide Add;
    UnmixHalf2(b, b2, b4, b8, b16);
    AddZero2(Add(b, Add(b2, b16)));
  }

  lemma Telescope(a: Byte, b: Byte, c: Byte)
    ensures Add(Add(a, b), Add(b, c)) == Add(a, c) && Add(Add(a, b), Add(c, b)) == Add(a, c)
  {
  }

  lemma UnmixHalf2(b: Byte, b2: Byte, b4: Byte, b8: Byte, b16: Byte)
    ensures Add(Add(b2, Add(b4, b8)), Add(Add(b, b2), Add(Add(b2, b4), Add(b8, b16)))) == Add(b, Add(b2, b16))
    ensures Add(Add(b2, Add(b8, b16)), Add(b, b8)) == Add(b, Add(b2, b16))
  {
    hide Add;
    UnmixQuarter2(b2, b8, b16, b);
    AddSwap(b, b4, b16, b8);
    AddAssociates(b2, b, b16);
    AddCommutes(b2, b);
    AddAssociates(b, b2, b16);
    AddAssociates(Add(b, b2), Add(b2, b4), Add(b8, b16));
    Telescope(b, b2, b4);
    AddCommutes(b8, b16);
    Telescope(b2, Add(b4, b8), Add(b, b16));
  }

  lemma UnmixQuarter2(b2: Byte, b8: Byte, b16: Byte, b: Byte)
    ensures Add(Add(b2, Add(b8, b16)), Add(b, b8)) == Add(b, Add(b2, b16))
  {
  }

  lemma UnmixSum3(b: Byte, b2: Byte, b4: Byte, b8: Byte, b16: Byte)
    ensures Sum4(Add(b2, Add(b4, b8)), Add(b, Add(b2, b8)), Add(Add(b, b2), Add(Add(b4, b8), Add(b8, b16))), Add(b2, b16)) == 0
  {
    hide Add;
    UnmixHalf3(b, b2, b4, b8, b16);
    AddZero2(Add(b, b4));
  }

  lemma UnmixHalf3(b: Byte, b2: Byte, b4: Byte, b8: Byte, b16: Byte)
    ensures Add(Add(b2, Add(b4, b8)), Add(b, Add(b2, b8))) == Add(b, b4)
    ensures Add(Add(Add(b, b2), Add(Add(b4, b8), Add(b8, b16))), Add(b2, b16)) == Add(b, b4)
  {
  }

  lemma SumSwap(a0: Byte, a1: Byte, a2: Byte, a3: Byte, b0: Byte, b1: Byte, b2: Byte, b3: Byte,
                c0: Byte, c1: Byte, c2: Byte, c3: Byte, d0: Byte, d1: Byte, d2: Byte, d3: Byte)
    ensures Sum4(Sum4(a0, a1, a2, a3), Sum4(b0, b1, b2, b3), Sum4(c0, c1, c2, c3), Sum4(d0, d1, d2, d3))
         == Sum4(Sum4(a0, b0, c0, d0), Sum4(a1, b1, c1, d1), Sum4(a2, b2, c2, d2), Sum4(a3, b3, c3, d3))
  {
    hide Add;
    AddSwap(Add(a0, a1), Add(a2, a3), Add(b0, b1), Add(b2, b3));
    AddSwap(Add(c0, c1), Add(c2, c3), Add(d0, d1), Add(d2, d3));
    AddSwap(a0, a1, b0, b1);
    AddSwap(a2, a3, b2, b3);
    AddSwap(c0, c1, d0, d1);
    AddSwap(c2, c3, d2, d3);
    AddSwap(Add(Add(a0, b0), Add(a1, b1)), Add(Add(a2, b2), Add(a3, b3)),
            Add(Add(c0, d0), Add(c1, d1)), Add(Add(c2, d2), Add(c3, d3)));
    AddSwap(Add(a0, b0), Add(a1, b1), Add(c0, d0), Add(c1, d1));
    AddSwap(Add(a2, b2), Add(a3, b3), Add(c2, d2), Add(c3, d3));
  }

  lemma MulSum(a: Byte, b0: Byte, b1: Byte, b2: Byte, b3: Byte)
    ensures Mul(a, Sum4(b0, b1, b2, b3)) == Sum4(Mul(a, b0), Mul(a, b1), Mul(a, b2), Mul(a, b3))
  {
    hide Add, Mul;
    MulAdds(a, Add(b0, b1), Add(b2, b3));
    MulAdds(a, b0, b1);
    MulAdds(a, b2, b3);
  }

  lemma SumRotate(a: Byte, b: Byte, c: Byte, d: Byte)
    ensures Sum4(a, b, c, d) == Sum4(d, a, b, c)
  {
    hide Add;
    AddCommutes(c, d);
    AddSwap(a, b, d, c);
    AddCommutes(a, d);
  }

  lemma UnmixDot(b0: Byte, b1: Byte, b2: Byte, b3: Byte)
    ensures Dot(UNMIX, Dot(MIX, b0, b1, b2, b3), Dot(MIX, b1, b2, b3, b0), Dot(MIX, b2, b3, b0, b1), Dot(MIX, b3, b0, b1, b2)) == b0
  {
    hide Mul, Add, Sum4;
    MulSum(14, Mul(2, b0), Mul(3, b1), Mul(1, b2), Mul(1, b3));
    MulSum(11, Mul(2, b1), Mul(3, b2), Mul(1, b3), Mul(1, b0));
    MulSum(13, Mul(2, b2), Mul(3, b3), Mul(1, b0), Mul(1, b1));
    MulSum(9, Mul(2, b3), Mul(3, b0), Mul(1, b1), Mul(1, b2));
    var p0, p1, p2, p3 := Mul(14, Mul(2, b0)), Mul(14, Mul(3, b1)), Mul(14, Mul(1, b2)), Mul(14, Mul(1, b3));
    var q0, q1, q2, q3 := Mul(11, Mul(1, b0)), Mul(11, Mul(2, b1)), Mul(11, Mul(3, b2)), Mul(11, Mul(1, b3));
    var r0, r1, r2, r3 := Mul(13, Mul(1, b0)), Mul(13, Mul(1, b1)), Mul(13, Mul(2, b2)), Mul(13, Mul(3, b3));
    var s0, s1, s2, s3 := Mul(9, Mul(3, b0)), Mul(9, Mul(1, b1)), Mul(9, Mul(1, b2)), Mul(9, Mul(2, b3));
    SumRotate(q1, q2, q3, q0);
    SumRotate(r2, r3, r0, r1);
    SumRotate(r1, r2, r3, r0);
    SumRotate(s0, s1, s2, s3);
    SumSwap(p0, p1, p2, p3, q0, q1, q2, q3, r0, r1, r2, r3, s0, s1, s2, s3);
    UnmixMix(b0);
    UnmixMix(b1);
    UnmixMix(b2);
    UnmixMix(b3);
    SumZeros(b0);
  }

  lemma SumZeros(b: Byte)
    ensures Sum4(b, 0, 0, 0) == b && Sum4(0, b, 0, 0) == b && Sum4(0, 0, b, 0) == b && Sum4(0, 0, 0, b) == b
  {
  }

  /** InvMixColumns undoes MixColumns. */
  lemma UnmixColumn(w: Word)
    ensures MixColumn(UNMIX, MixColumn(MIX, w)) == w
  {
    hide ByteOf, WordOf, Dot, MixColumn;
    var v := MixColumn(MIX, w);
    var b0, b1, b2, b3 := ByteOf(w, 0), ByteOf(w, 1), ByteOf(w, 2), ByteOf(w, 3);
    MixColumnBytes(MIX, w);
    MixColumnBytes(UNMIX, v);
    UnmixDot(b0, b1, b2, b3);
    UnmixDot(b1, b2, b3, b0);
    UnmixDot(b2, b3, b0, b1);
    UnmixDot(b3, b0, b1, b2);
    SameWord(MixColumn(UNMIX, v), w);
  }

  // ----- the round tables

  /** What one byte of a column, already substituted, adds to the mixed column. */
  function TableWord(r: Row, s: Byte, k: nat): Word
    requires k < 4
  {
    MixColumn(r, AtByte(s, k))
  }

  lemma WordIsSum(b0: Byte, b1: Byte, b2: Byte, b3: Byte)
    ensures WordOf(b0, b1, b2, b3) == Xor(Xor(Xor(AtByte(b0, 0), AtByte(b1, 1)), AtByte(b2, 2)), AtByte(b3, 3))
  {
    hide ByteOf, WordOf, AtByte, Xor, Add;
    var w0, w1, w2, w3 := AtByte(b0, 0), AtByte(b1, 1), AtByte(b2, 2), AtByte(b3, 3);
    BytesOfWord(b0, b1, b2, b3);
    XorAllBytes(w0, w1);
    XorAllBytes(Xor(w0, w1), w2);
    XorAllBytes(Xor(Xor(w0, w1), w2), w3);
    AtByteBytes(b0, 0);
    AtByteBytes(b1, 1);
    AtByteBytes(b2, 2);
    AtByteBytes(b3, 3);
    AddZero2(b0);
    AddZero2(b1);
    AddZero2(b2);
    AddZero2(b3);
    AddZero2(0);
    SameWord(WordOf(b0, b1, b2, b3), Xor(Xor(Xor(w0, w1), w2), w3));
  }

  lemma AtByteBytes(b: Byte, k: nat)
    requires k < 4
    ensures ByteOf(AtByte(b, k), 0) == if k == 0 then b else 0
    ensures ByteOf(AtByte(b, k), 1) == if k == 1 then b else 0
    ensures ByteOf(AtByte(b, k), 2) == if k == 2 then b else 0
    ensures ByteOf(AtByte(b, k), 3) == if k == 3 then b else 0
  {
    hide ByteOf, AtByte;
    ByteOfAtByte(b, k, 0);
    ByteOfAtByte(b, k, 1);
    ByteOfAtByte(b, k, 2);
    ByteOfAtByte(b, k, 3);
  }

  /** Four table words sum to a mixed column. */
  lemma TablesMix(r: Row, b0: Byte, b1: Byte, b2: Byte, b3: Byte)
    ensures Xor(Xor(Xor(TableWord(r, b0, 0), TableWord(r, b1, 1)), TableWord(r, b2, 2)), TableWord(r, b3, 3))
         == MixColumn(r, WordOf(b0, b1, b2, b3))
  {
    hide AtByte, WordOf, MixColumn, Xor;
    var w0, w1, w2, w3 := AtByte(b0, 0), AtByte(b1, 1), AtByte(b2, 2), AtByte(b3, 3);
    WordIsSum(b0, b1, b2, b3);
    MixColumnAdds(r, Xor(Xor(w0, w1), w2), w3);
    MixColumnAdds(r, Xor(w0, w1), w2);
    MixColumnAdds(r, w0, w1);
  }

  lemma DotSingle(r: Row, b: Byte)
    ensures Dot(r, b, 0, 0, 0) == Mul(r.c0, b) && Dot(r, 0, b, 0, 0) == Mul(r.c1, b)
    ensures Dot(r, 0, 0, b, 0) == Mul(r.c2, b) && Dot(r, 0, 0, 0, b) == Mul(r.c3, b)
  {
    hide Mul, Sum4;
    MulByZero(r.c0);
    MulByZero(r.c1);
    MulByZero(r.c2);
    MulByZero(r.c3);
    SumZeros(Mul(r.c0, b));
    SumZeros(Mul(r.c1, b));
    SumZeros(Mul(r.c2, b));
    SumZeros(Mul(r.c3, b));
  }

  lemma TableWordBytes(r: Row, s: Byte)
    ensures var m0, m1, m2, m3 := Mul(r.c0, s), Mul(r.c1, s), Mul(r.c2, s), Mul(r.c3, s);
            && TableWord(r, s, 0) == WordOf(m0, m3, m2, m1)
            && TableWord(r, s, 1) == WordOf(m1, m0, m3, m2)
            && TableWord(r, s, 2) == WordOf(m2, m1, m0, m3)
            && TableWord(r, s, 3) == WordOf(m3, m2, m1, m0)
  {
    hide ByteOf, WordOf, AtByte, Dot, Mul;
    DotSingle(r, s);
    AtByteBytes(s, 0);
    AtByteBytes(s, 1);
    AtByteBytes(s, 2);
    AtByteBytes(s, 3);
  }

  // ----- the words the loop computes

  /** `y = 257 * a[k] ^ 16843008 * k` */
  function EncWord(s: Byte): Word {
    Xor(257 * (Xtime(s) as Word), 16843008 * (s as Word))
  }

  /** `y = 16843009 * e8 ^ 65537 * e4 ^ 257 * z ^ 16843008 * e` with `z = 2e`, `e4 = 4e`, `e8 = 8e` */
  function DecWord(e: Byte): Word {
    var z := Xtime(e);
    var e4 := Xtime(z);
    var e8 := Xtime(e4);
    Xor(Xor(Xor(16843009 * (e8 as Word), 65537 * (e4 as Word)), 257 * (z as Word)), 16843008 * (e as Word))
  }

  /** `y << 8 * n | y >>> 32 - 8 * n` */
  function RotateBytes(y: Word, n: nat): Word
    requires n < 4
  {
    if n == 0 then y
    else if n == 1 then (y << 8) | (y >> 24)
    else if n == 2 then (y << 16) | (y >> 16)
    else (y << 24) | (y >> 8)
  }

  lemma RotatedWord(b0: Byte, b1: Byte, b2: Byte, b3: Byte)
    ensures RotateBytes(WordOf(b0, b1, b2, b3), 1) == WordOf(b1, b2, b3, b0)
    ensures RotateBytes(WordOf(b0, b1, b2, b3), 2) == WordOf(b2, b3, b0, b1)
    ensures RotateBytes(WordOf(b0, b1, b2, b3), 3) == WordOf(b3, b0, b1, b2)
  {
    hide ByteOf, WordOf, RotateBytes;
    var w := WordOf(b0, b1, b2, b3);
    BytesOfWord(b0, b1, b2, b3);
    BytesOfWord(b1, b2, b3, b0);
    BytesOfWord(b2, b3, b0, b1);
    BytesOfWord(b3, b0, b1, b2);
    RotatedBytes1(w);
    RotatedBytes2(w);
    RotatedBytes3(w);
    SameWord(RotateBytes(w, 1), WordOf(b1, b2, b3, b0));
    SameWord(RotateBytes(w, 2), WordOf(b2, b3, b0, b1));
    SameWord(RotateBytes(w, 3), WordOf(b3, b0, b1, b2));
  }

  lemma RotatedBytes1(w: Word)
    ensures ByteOf(RotateBytes(w, 1), 0) == ByteOf(w, 1) && ByteOf(RotateBytes(w, 1), 1) == ByteOf(w, 2)
    ensures ByteOf(RotateBytes(w, 1), 2) == ByteOf(w, 3) && ByteOf(RotateBytes(w, 1), 3) == ByteOf(w, 0)
  {
  }

  lemma RotatedBytes2(w: Word)
    ensures ByteOf(RotateBytes(w, 2), 0) == ByteOf(w, 2) && ByteOf(RotateBytes(w, 2), 1) == ByteOf(w, 3)
    ensures ByteOf(RotateBytes(w, 2), 2) == ByteOf(w, 0) && ByteOf(RotateBytes(w, 2), 3) == ByteOf(w, 1)
  {
  }

  lemma RotatedBytes3(w: Word)
    ensures ByteOf(RotateBytes(w, 3), 0) == ByteOf(w, 3) && ByteOf(RotateBytes(w, 3), 1) == ByteOf(w, 0)
    ensures ByteOf(RotateBytes(w, 3), 2) == ByteOf(w, 1) && ByteOf(RotateBytes(w, 3), 3) == ByteOf(w, 2)
  {
  }

  lemma RepeatedBytes(b: Byte)
    ensures 257 * (b as Word) == WordOf(0, 0, b, b) && 65537 * (b as Word) == WordOf(0, b, 0, b)
    ensures 16843008 * (b as Word) == WordOf(b, b, b, 0) && 16843009 * (b as Word) == WordOf(b, b, b, b)
  {
  }

  lemma XorOfWords(a0: Byte, a1: Byte, a2: Byte, a3: Byte, b0: Byte, b1: Byte, b2: Byte, b3: Byte)
    ensures Xor(WordOf(a0, a1, a2, a3), WordOf(b0, b1, b2, b3)) == WordOf(Add(a0, b0), Add(a1, b1), Add(a2, b2), Add(a3, b3))
  {
    hide ByteOf, WordOf, Xor, Add;
    BytesOfWord(a0, a1, a2, a3);
    BytesOfWord(b0, b1, b2, b3);
    BytesOfWord(Add(a0, b0), Add(a1, b1), Add(a2, b2), Add(a3, b3));
    XorAllBytes(WordOf(a0, a1, a2, a3), WordOf(b0, b1, b2, b3));
    SameWord(Xor(WordOf(a0, a1, a2, a3), WordOf(b0, b1, b2, b3)), WordOf(Add(a0, b0), Add(a1, b1), Add(a2, b2), Add(a3, b3)));
  }

  lemma EncWordBytes(s: Byte)
    ensures EncWord(s) == WordOf(s, s, Add(s, Xtime(s)), Xtime(s))
  {
    hide Xtime, WordOf, Add, Xor;
    var z := Xtime(s);
    RepeatedBytes(z);
    RepeatedBytes(s);
    XorOfWords(0, 0, z, z, s, s, s, 0);
    AddZero2(s);
    AddZero2(z);
    AddCommutes(z, s);
  }

  lemma DecWordBytes(e: Byte)
    ensures var z := Xtime(e);
            var e4 := Xtime(z);
            var e8 := Xtime(e4);
            DecWord(e) == WordOf(Add(e, e8), Add(e, Add(e4, e8)), Add(e, Add(z, e8)), Add(z, Add(e4, e8)))
  {
    hide Xtime, WordOf, Add, Xor;
    var z := Xtime(e);
    var e4 := Xtime(z);
    var e8 := Xtime(e4);
    RepeatedBytes(e);
    RepeatedBytes(z);
    RepeatedBytes(e4);
    RepeatedBytes(e8);
    AddZero2(e);
    AddZero2(z);
    AddZero2(e4);
    AddZero2(e8);
    XorOfWords(e8, e8, e8, e8, 0, e4, 0, e4);
    AddCommutes(e8, e4);
    AddZero2(Add(e4, e8));
    XorOfWords(e8, Add(e4, e8), e8, Add(e4, e8), 0, 0, z, z);
    AddCommutes(e8, z);
    AddCommutes(Add(e4, e8), z);
    AddZero2(Add(z, Add(e4, e8)));
    XorOfWords(e8, Add(e4, e8), Add(z, e8), Add(z, Add(e4, e8)), e, e, e, 0);
    AddCommutes(e8, e);
    AddCommutes(Add(e4, e8), e);
    AddCommutes(Add(z, e8), e);
  }

  /** The four rotations of the two products are the table words of the two matrices. */
  lemma LoopWords(b: Byte, k: nat)
    requires k < 4
    ensures RotateBytes(EncWord(b), 3 - k) == TableWord(MIX, b, k)
    ensures RotateBytes(DecWord(b), 3 - k) == TableWord(UNMIX, b, k)
  {
    hide Add, Xtime, EncWord, DecWord, RotateBytes, WordOf, TableWord, Mul;
    SmallMultiples(b);
    LargeMultiples(b);
    EncWordBytes(b);
    DecWordBytes(b);
    TableWordBytes(MIX, b);
    TableWordBytes(UNMIX, b);
    var z := Xtime(b);
    var e4 := Xtime(z);
    var e8 := Xtime(e4);
    RotatedWord(b, b, Add(b, z), z);
    RotatedWord(Add(b, e8), Add(b, Add(e4, e8)), Add(b, Add(z, e8)), Add(z, Add(e4, e8)));
    RotateNothing(EncWord(b));
    RotateNothing(DecWord(b));
  }

  lemma RotateNothing(y: Word)
    ensures RotateBytes(y, 0) == y
  {
  }

  // ----- the table loop

  function Index(b: Byte): (i: nat)
    ensures i < 256
  {
    b as nat
  }

  lemma IndexInjective(b: Byte, c: Byte)
    requires Index(b) == Index(c)
    ensures b == c
  {
    SameByte(b, c);
  }

  /** The ten arrays of js/rollups/aes.js:32: the S-box and its inverse, and four round tables for each direction. */
  datatype Tables = Tables(
    sub: seq<Byte>, unsub: seq<Byte>,
    enc0: seq<Word>, enc1: seq<Word>, enc2: seq<Word>, enc3: seq<Word>,
    dec0: seq<Word>, dec1: seq<Word>, dec2: seq<Word>, dec3: seq<Word>)
  {
    predicate Sized() {
      && |sub| == |unsub| == 256
      && |enc0| == |enc1| == |enc2| == |enc3| == 256
      && |dec0| == |dec1| == |dec2| == |dec3| == 256
    }

    /** The forward entries at `i` are those of FIPS 197 for a byte whose substitute is `s`. */
    predicate EncAt(i: nat, s: Byte)
      requires Sized() && i < 256
    {
      && sub[i] == s
      && enc0[i] == TableWord(MIX, s, 0) && enc1[i] == TableWord(MIX, s, 1)
      && enc2[i] == TableWord(MIX, s, 2) && enc3[i] == TableWord(MIX, s, 3)
    }

    /** The inverse entries at `k` are those for a byte whose inverse substitute is `x`. */
    predicate DecAt(k: nat, x: Byte)
      requires Sized() && k < 256
    {
      && unsub[k] == x
      && dec0[k] == TableWord(UNMIX, x, 0) && dec1[k] == TableWord(UNMIX, x, 1)
      && dec2[k] == TableWord(UNMIX, x, 2) && dec3[k] == TableWord(UNMIX, x, 3)
    }

    /** Forward entries sit at a byte, inverse ones at its image. */
    ghost predicate CorrectAt(x: Byte)
      requires Sized()
    {
      EncAt(Index(x), Sub(x)) && DecAt(Index(Sub(x)), x)
    }

    ghost predicate Correct() {
      Sized() && forall x: Byte :: CorrectAt(x)
    }

    /** One pass of the loop body: the forward entries of `e` and the inverse entries of `k`. */
    function Written(e: Byte, k: Byte, y: Word, y': Word): (t: Tables)
      requires Sized()
      ensures t.Sized()
    {
      Tables(sub[Index(e) := k], unsub[Index(k) := e],
             enc0[Index(e) := RotateBytes(y, 3)], enc1[Index(e) := RotateBytes(y, 2)],
             enc2[Index(e) := RotateBytes(y, 1)], enc3[Index(e) := y],
             dec0[Index(k) := RotateBytes(y', 3)], dec1[Index(k) := RotateBytes(y', 2)],
             dec2[Index(k) := RotateBytes(y', 1)], dec3[Index(k) := y'])
    }
  }

  lemma LoopTables(b: Byte)
    ensures RotateBytes(EncWord(b), 3) == TableWord(MIX, b, 0) && RotateBytes(EncWord(b), 2) == TableWord(MIX, b, 1)
    ensures RotateBytes(EncWord(b), 1) == TableWord(MIX, b, 2) && EncWord(b) == TableWord(MIX, b, 3)
    ensures RotateBytes(DecWord(b), 3) == TableWord(UNMIX, b, 0) && RotateBytes(DecWord(b), 2) == TableWord(UNMIX, b, 1)
    ensures RotateBytes(DecWord(b), 1) == TableWord(UNMIX, b, 2) && DecWord(b) == TableWord(UNMIX, b, 3)
  {
    hide EncWord, DecWord, RotateBytes, TableWord;
    LoopWords(b, 0);
    LoopWords(b, 1);
    LoopWords(b, 2);
    LoopWords(b, 3);
    RotateNothing(EncWord(b));
    RotateNothing(DecWord(b));
  }

  /** A pass writes the right entries for `e`, with substitute `s`, and spoils no others. */
  lemma PassWrites(t: Tables, e: Byte, s: Byte, i: nat, b: Byte)
    requires t.Sized() && i < 256
    ensures var t' := t.Written(e, s, EncWord(s), DecWord(e));
            && (if i == Index(e) then t'.EncAt(i, s) else t.EncAt(i, b) ==> t'.EncAt(i, b))
            && (if i == Index(s) then t'.DecAt(i, e) else t.DecAt(i, b) ==> t'.DecAt(i, b))
  {
    hide EncWord, DecWord, RotateBytes, TableWord, Index;
    LoopTables(s);
    LoopTables(e);
  }

  lemma PassIsCorrect(t: Tables, e: Byte, x: Byte)
    requires t.Sized()
    requires x == e || t.CorrectAt(x)
    ensures t.Written(e, Sub(e), EncWord(Sub(e)), DecWord(e)).CorrectAt(x)
  {
    hide Sub, EncWord, DecWord, RotateBytes, TableWord, Index;
    PassWrites(t, e, Sub(e), Index(x), Sub(x));
    PassWrites(t, e, Sub(e), Index(Sub(x)), x);
    if Index(x) == Index(e) {
      IndexInjective(x, e);
    } else if Index(Sub(x)) == Index(Sub(e)) {
      IndexInjective(Sub(x), Sub(e));
      SubInjective(x, e);
    }
  }

  /** The value of `e` in pass `c`. */
  ghost function Walk(c: nat): Byte {
    if c == 0 then 0 else Times82N(1, c - 1)
  }

  ghost function CoWalk(c: nat): Byte {
    if c == 0 then 0 else Times5N(1, c - 1)
  }

  lemma PassSubstitutes(c: nat)
    ensures Fold(CoWalk(c)) == Sub(Walk(c))
  {
    hide Fold, Affine, Mul, Times82N, Times5N;
    FoldIsAffine(CoWalk(c));
    if c > 0 {
      WalkInverse(c - 1, CoWalk(c));
      VisitRange(c - 1);
    }
    InverseUnique(Walk(c), CoWalk(c));
  }

  /** `k = j ^ j << 1 ^ j << 2 ^ j << 3 ^ j << 4, k = k >>> 8 ^ k & 255 ^ 99` */
  function Fold(j: Byte): Byte {
    var w := j as Word;
    var k := w ^ (w << 1) ^ (w << 2) ^ (w << 3) ^ (w << 4);
    ((k >> 8) ^ (k & 255) ^ 99) as Byte
  }

  lemma FoldIsAffine(j: Byte)
    ensures Fold(j) == Affine(j)
  {
  }

  lemma AllPassesCover(x: Byte) returns (c: nat)
    ensures c < 256 && Walk(c) == x
  {
    if x == 0 {
      c := 0;
    } else {
      c := WalkCovers(x);
      c := c + 1;
    }
  }

  /** The doubling table. */
  method DoublingTable() returns (a: seq<Byte>)
    ensures |a| == 256 && forall b: Byte :: a[Index(b)] == Xtime(b)
  {
    hide Xtime;
    a := [];
    for c := 0 to 256
      invariant |a| == c && forall i: nat :: i < c ==> a[i] == Xtime(i as Byte)
    {
      a := a + [Xtime(c as Byte)];
    }
    forall b: Byte
      ensures a[Index(b)] == Xtime(b)
    {
      SameByte(Index(b) as Byte, b);
    }
  }

  /** The ten tables. Every entry of every table is written, with the value FIPS 197 gives it. */
  method BuildTables() returns (t: Tables)
    ensures t.Correct()
  {
    hide Sub, Fold, Xor, Xtime, Add, Index, RotateBytes, TableWord, Tables.Written, Tables.CorrectAt, EncWord, DecWord;
    var a := DoublingTable();
    var bytes, words := seq(256, _ => 0 as Byte), seq(256, _ => 0 as Word);
    t := Tables(bytes, bytes, words, words, words, words, words, words, words, words);
    var e: Byte, j: Byte := 0, 0;
    for c := 0 to 256
      invariant e == Walk(c) && j == CoWalk(c) && t.Sized()
      invariant forall m: nat :: m < c ==> t.CorrectAt(Walk(m))
    {
      var k := Fold(j);
      PassSubstitutes(c);
      var z := a[Index(e)];
      var e4 := a[Index(z)];
      var e8 := a[Index(e4)];
      var y := Xor(257 * (a[Index(k)] as Word), 16843008 * (k as Word));
      var y' := Xor(Xor(Xor(16843009 * (e8 as Word), 65537 * (e4 as Word)), 257 * (z as Word)), 16843008 * (e as Word));
      assert y == EncWord(k) && y' == DecWord(e) by {
        LoopBodyWords(e, k);
      }
      forall m: nat | m <= c
        ensures t.Written(e, k, y, y').CorrectAt(Walk(m))
      {
        PassIsCorrect(t, e, Walk(m));
      }
      t := t.Written(e, k, y, y');
      if e != 0 {
        e := Add(z, a[Index(a[Index(a[Index(Add(e8, z))])])]);
        j := Add(j, a[Index(a[Index(j)])]);
      } else {
        e, j := 1, 1;
      }
      NextPass(c);
    }
    forall x: Byte
      ensures t.CorrectAt(x)
    {
      var c := AllPassesCover(x);
    }
  }

  lemma LoopBodyWords(e: Byte, k: Byte)
    ensures EncWord(k) == Xor(257 * (Xtime(k) as Word), 16843008 * (k as Word))
    ensures var z := Xtime(e);
            var e4 := Xtime(z);
            var e8 := Xtime(e4);
            DecWord(e) == Xor(Xor(Xor(16843009 * (e8 as Word), 65537 * (e4 as Word)), 257 * (z as Word)), 16843008 * (e as Word))
  {
  }

  lemma NextPass(c: nat)
    ensures var e, j := Walk(c), CoWalk(c);
            && (e == 0 <==> c == 0)
            && Walk(c + 1) == (if e != 0 then Add(Xtime(e), Xtime(Xtime(Xtime(Add(Xtime(Xtime(Xtime(e))), Xtime(e)))))) else 1)
            && CoWalk(c + 1) == (if e != 0 then Add(j, Xtime(Xtime(j))) else 1)
  {
    hide Add, Xtime, Times5N, Times82N;
    if c > 0 {
      VisitRange(c - 1);
      WalkStep(c - 1);
    } else {
      WalkStart();
    }
  }

  lemma WalkStart()
    ensures Times82N(1, 0) == 1 && Times5N(1, 0) == 1
  {
  }

  lemma WalkStep(n: nat)
    ensures Times82N(1, n + 1) == Times82(Times82N(1, n)) && Times5N(1, n + 1) == Times5(Times5N(1, n))
  {
  }
}
