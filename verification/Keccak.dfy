/**
 Keccak-f[1600] on 64-bit lanes, as sections 3.2 and 3.3 of FIPS 202 define it, and the tables that js/sha3.js:15
 generates for it. Lane (x, y) is number x + 5 * y.
 */
module Keccak {
  import Arithmetic
  import opened JsNumber
  import opened Lanes

  predicate Lanes25(a: seq<nat>) {
    |a| == 25
  }

  function Mod5(n: nat): (r: nat)
    ensures r < 5
  {
    n % 5
  }

  function X(i: nat): (x: nat)
    ensures x < 5
  {
    Mod5(i)
  }

  function Y(i: nat): (y: nat)
    ensures i < 25 ==> y < 5
  {
    i / 5
  }

  function At(x: nat, y: nat): (i: nat)
    ensures x < 5 && y < 5 ==> i < 25
  {
    x + 5 * y
  }

  lemma Coordinates(x: nat, y: nat)
    requires x < 5
    ensures X(At(x, y)) == x && Y(At(x, y)) == y
  {
  }

  lemma Place(i: nat)
    ensures At(X(i), Y(i)) == i
  {
  }

  // ----- the step mappings

  function Rotl64(v: nat, n: nat): nat
    requires n <= 64
  {
    Rotr64(v, 64 - n)
  }

  /** The offsets of section 3.2.2, modulo the lane size. */
  function Offset(i: nat): (n: nat)
    ensures n < 64
  {
    match i
    case 0 => 0 case 1 => 1 case 2 => 62 case 3 => 28 case 4 => 27
    case 5 => 36 case 6 => 44 case 7 => 6 case 8 => 55 case 9 => 20
    case 10 => 3 case 11 => 10 case 12 => 43 case 13 => 25 case 14 => 39
    case 15 => 41 case 16 => 45 case 17 => 15 case 18 => 21 case 19 => 8
    case 20 => 18 case 21 => 2 case 22 => 61 case 23 => 56 case 24 => 14
    case _ => 0
  }

  /** Where the lane that ends up in place `i` comes from, section 3.2.3. */
  function PiSource(i: nat): (j: nat)
    requires i < 25
    ensures j < 25
  {
    At(Mod5(X(i) + 3 * Y(i)), X(i))
  }

  function Parity(a: seq<nat>, x: nat): nat
    requires Lanes25(a) && x < 5
  {
    Xor64(Xor64(Xor64(Xor64(a[x], a[x + 5]), a[x + 10]), a[x + 15]), a[x + 20])
  }

  function Effect(a: seq<nat>, x: nat): nat
    requires Lanes25(a) && x < 5
  {
    Xor64(Parity(a, (x + 4) % 5), Rotl64(Parity(a, (x + 1) % 5), 1))
  }

  function Theta(a: seq<nat>): (r: seq<nat>)
    requires Lanes25(a)
    ensures Lanes25(r)
  {
    seq(25, i requires 0 <= i < 25 => Xor64(a[i], Effect(a, X(i))))
  }

  function Rho(a: seq<nat>): (r: seq<nat>)
    requires Lanes25(a)
    ensures Lanes25(r)
  {
    seq(25, i requires 0 <= i < 25 => Rotl64(a[i], Offset(i)))
  }

  function Pi(a: seq<nat>): (r: seq<nat>)
    requires Lanes25(a)
    ensures Lanes25(r)
  {
    seq(25, i requires 0 <= i < 25 => a[PiSource(i)])
  }

  function ChiOf(a: seq<nat>, i: nat): nat
    requires Lanes25(a) && i < 25
  {
    Xor64(a[i], And64(Not64(a[At((X(i) + 1) % 5, Y(i))]), a[At((X(i) + 2) % 5, Y(i))]))
  }

  function Chi(a: seq<nat>): (r: seq<nat>)
    requires Lanes25(a)
    ensures Lanes25(r)
  {
    seq(25, i requires 0 <= i < 25 => ChiOf(a, i))
  }

  /** The register of Algorithm 5: the powers of x modulo x^8 + x^6 + x^5 + x^4 + 1. */
  function Register(t: nat): (r: nat)
    ensures r < 256
  {
    if t == 0 then 1 else NextRegister(Register(t - 1))
  }

  function NextRegister(r: nat): (s: nat)
    requires r < 256
    ensures s < 256
  {
    assert Pow2(8) == 256;
    if r < 128 then 2 * r else Bitwise(Xor, 2 * r - 256, 0x71, 8)
  }

  /** Bits 0, 1, 3, 7, 15, 31 and 63 of a round constant are seven successive output bits; here, the first `n` of them. */
  function ConstantBits(ir: nat, n: nat): nat
    requires n <= 7
  {
    if n == 0 then 0 else ConstantBits(ir, n - 1) + if Register(7 * ir + n - 1) % 2 == 1 then Pow2(Pow2(n - 1) - 1) else 0
  }

  function RoundConstant(ir: nat): nat {
    ConstantBits(ir, 7)
  }

  function Iota(a: seq<nat>, ir: nat): (r: seq<nat>)
    requires Lanes25(a)
    ensures Lanes25(r)
  {
    a[0 := Xor64(a[0], RoundConstant(ir))]
  }

  /** The first `n` rounds. */
  function Rounds(a: seq<nat>, n: nat): (r: seq<nat>)
    requires Lanes25(a)
    ensures Lanes25(r)
  {
    if n == 0 then a else Iota(Chi(Pi(Rho(Theta(Rounds(a, n - 1))))), n - 1)
  }

  function KeccakF(a: seq<nat>): (r: seq<nat>)
    requires Lanes25(a)
    ensures Lanes25(r)
  {
    Rounds(a, 24)
  }

  // ----- the offset table

  /** The lane that the walk of section 3.2.2 visits at step `t`, by its coordinates. */
  function WalkX(t: nat): nat {
    match t
    case 0 => 1 case 1 => 0 case 2 => 2 case 3 => 1 case 4 => 2 case 5 => 3
    case 6 => 3 case 7 => 0 case 8 => 1 case 9 => 3 case 10 => 1 case 11 => 4
    case 12 => 4 case 13 => 0 case 14 => 3 case 15 => 4 case 16 => 3 case 17 => 2
    case 18 => 2 case 19 => 0 case 20 => 4 case 21 => 2 case 22 => 4 case 23 => 1
    case 24 => 1
    case _ => 0
  }

  function WalkY(t: nat): nat {
    match t
    case 0 => 0 case 1 => 2 case 2 => 1 case 3 => 2 case 4 => 3 case 5 => 3
    case 6 => 0 case 7 => 1 case 8 => 3 case 9 => 1 case 10 => 4 case 11 => 4
    case 12 => 0 case 13 => 3 case 14 => 4 case 15 => 3 case 16 => 2 case 17 => 2
    case 18 => 0 case 19 => 4 case 20 => 2 case 21 => 4 case 22 => 1 case 23 => 1
    case 24 => 0
    case _ => 0
  }

  /** The step at which it visits lane `m`. */
  function Visit(m: nat): (t: nat)
    ensures t < 24
  {
    match m
    case 1 => 0 case 2 => 18 case 3 => 6 case 4 => 12 case 5 => 7 case 6 => 23
    case 7 => 2 case 8 => 9 case 9 => 22 case 10 => 1 case 11 => 3 case 12 => 17
    case 13 => 16 case 14 => 20 case 15 => 13 case 16 => 8 case 17 => 4 case 18 => 5
    case 19 => 15 case 20 => 19 case 21 => 10 case 22 => 21 case 23 => 14 case 24 => 11
    case _ => 0
  }

  /** The triangular numbers on the way. */
  function Triangle(t: nat): nat {
    match t
    case 0 => 1 case 1 => 3 case 2 => 6 case 3 => 10 case 4 => 15 case 5 => 21
    case 6 => 28 case 7 => 36 case 8 => 45 case 9 => 55 case 10 => 66 case 11 => 78
    case 12 => 91 case 13 => 105 case 14 => 120 case 15 => 136 case 16 => 153 case 17 => 171
    case 18 => 190 case 19 => 210 case 20 => 231 case 21 => 253 case 22 => 276 case 23 => 300
    case _ => 0
  }

  lemma NextTriangle(t: nat)
    requires t < 23
    ensures Triangle(t + 1) == Triangle(t) + t + 2
  {
  }

  lemma {:induction false} TriangleIs(t: nat)
    requires t < 24
    ensures Triangle(t) == (t + 1) * (t + 2) / 2
    decreases t
  {
    if t > 0 {
      hide Triangle;
      TriangleIs(t - 1);
      NextTriangle(t - 1);
      assert (t + 1) * (t + 2) == t * (t + 1) + 2 * (t + 1);
    }
  }

  lemma WalkStep(t: nat)
    requires t < 24
    ensures WalkX(t + 1) == WalkY(t) && WalkX(t) < 5 && WalkY(t) < 5
    ensures WalkY(t + 1) == Mod5(2 * WalkX(t) + 3 * WalkY(t))
    ensures Visit(At(WalkX(t), WalkY(t))) == t && At(WalkX(t), WalkY(t)) > 0
  {
  }

  lemma OffsetIs(m: nat)
    requires 0 < m < 25
    ensures Offset(m) == Triangle(Visit(m)) % 64
  {
  }

  lemma WalkCovers(m: nat)
    requires 0 < m < 25
    ensures At(WalkX(Visit(m)), WalkY(Visit(m))) == m
  {
  }

  lemma WalkStarts()
    ensures WalkX(0) == 1 && WalkY(0) == 0
  {
  }

  /** The generated offsets: lane by lane along the walk, triangular numbers modulo 64. */
  method BuildOffsets() returns (s: array<nat>)
    ensures fresh(s) && s.Length == 25
    ensures forall m :: 0 < m < 25 ==> s[m] == Offset(m)
  {
    hide Offset, Triangle, Mod5, Visit, At, WalkX, WalkY;
    s := new nat[25](_ => 0);
    var e, q := 1, 0;
    WalkStarts();
    for t := 0 to 24
      invariant 0 <= e < 5 && 0 <= q < 5 && e == WalkX(t) && q == WalkY(t)
      invariant forall m :: 0 < m < 25 && Visit(m) < t ==> s[m] == Offset(m)
    {
      WalkStep(t);
      OffsetIs(At(e, q));
      TriangleIs(t);
      s[At(e, q)] := (t + 1) * (t + 2) / 2 % 64;
      forall m | 0 < m < 25 && Visit(m) == t
        ensures m == At(e, q)
      {
        WalkCovers(m);
      }
      e, q := q, Mod5(2 * e + 3 * q);
    }
  }

  // ----- the table of destinations

  function PiTarget(m: nat): (j: nat)
    requires m < 25
    ensures j < 25
  {
    At(Y(m), Mod5(2 * X(m) + 3 * Y(m)))
  }

  lemma Mod5Is(n: nat, q: int, r: nat)
    requires r < 5 && n == 5 * q + r
    ensures Mod5(n) == r
  {
  }

  lemma PiCoordinates(x: nat, y: nat)
    requires x < 5 && y < 5
    ensures Mod5(y + 3 * Mod5(2 * x + 3 * y)) == x
    ensures Mod5(2 * Mod5(x + 3 * y) + 3 * x) == y
  {
    var q, r := (2 * x + 3 * y) / 5, (x + 3 * y) / 5;
    Mod5Is(y + 3 * (2 * x + 3 * y - 5 * q), x + 2 * y - 3 * q, x);
    Mod5Is(2 * (x + 3 * y - 5 * r) + 3 * x, x + y - 2 * r, y);
  }

  /** Moving every lane to its target is a permutation, and it is the step mapping of section 3.2.3. */
  lemma PiTargetInverts(m: nat)
    requires m < 25
    ensures PiSource(PiTarget(m)) == m && PiTarget(PiSource(m)) == m
  {
    hide X, Y, At, Mod5;
    var x, y := X(m), Y(m);
    PiCoordinates(x, y);
    Coordinates(y, Mod5(2 * x + 3 * y));
    Coordinates(Mod5(x + 3 * y), x);
    Place(m);
  }

  lemma OriginStays()
    ensures PiTarget(0) == 0
  {
  }

  lemma PiFixesOrigin(m: nat)
    requires m < 25
    ensures PiTarget(m) == 0 <==> m == 0
  {
    hide PiTarget, PiSource;
    OriginStays();
    PiTargetInverts(m);
    PiTargetInverts(0);
  }

  method BuildTargets() returns (x: array<nat>)
    ensures fresh(x) && x.Length == 25
    ensures forall m :: 0 <= m < 25 ==> x[m] == PiTarget(m)
  {
    hide X, Y, At, Mod5;
    x := new nat[25](_ => 0);
    for e := 0 to 5
      invariant forall m :: 0 <= m < 25 && X(m) < e ==> x[m] == PiTarget(m)
    {
      for q := 0 to 5
        invariant forall m :: 0 <= m < 25 && (X(m) < e || (X(m) == e && Y(m) < q)) ==> x[m] == PiTarget(m)
      {
        Coordinates(e, q);
        x[At(e, q)] := At(q, Mod5(2 * e + 3 * q));
        forall m | 0 <= m < 25 && X(m) == e && Y(m) == q
          ensures m == At(e, q)
        {
          Place(m);
        }
      }
    }
  }

  // ----- the split rotation

  /** The two assignments that rotate a lane left by `k`; JavaScript takes shift counts modulo 32. */
  function RotateSplit(p: Lane, k: nat): Lane
    requires k < 64
  {
    if k < 32 then
      Lane(Bits(Or, Shl(p.high, k), Shr(p.low, (32 - k) % 32)), Bits(Or, Shl(p.low, k), Shr(p.high, (32 - k) % 32)))
    else
      Lane(Bits(Or, Shl(p.low, k - 32), Shr(p.high, (64 - k) % 32)), Bits(Or, Shl(p.high, k - 32), Shr(p.low, (64 - k) % 32)))
  }

  lemma RotateSplitVal(p: Lane, k: nat)
    requires 0 < k < 64 && k != 32
    ensures RotateSplit(p, k).Val() == Rotl64(p.Val(), k)
  {
    hide Bits, Shl, Shr, Rotr64, Lane.Val, Unsigned, Funnel;
    var j := 64 - k;
    RotateLaneVal(p, j);
    if k < 32 {
      RotHalfUnsigned(p.low, p.high, 32 - k);
      RotHalfUnsigned(p.high, p.low, 32 - k);
    } else {
      RotHalfUnsigned(p.high, p.low, 64 - k);
      RotHalfUnsigned(p.low, p.high, 64 - k);
    }
  }

  /** With no distance left both halves become the same number. */
  lemma HalvesMerge(p: Lane, k: nat)
    requires k == 0 || k == 32
    ensures Unsigned(RotateSplit(p, k).high) == Unsigned(RotateSplit(p, k).low)
  {
    hide Bitwise, Unsigned, High, Up, Signed;
    NoLowPart(Unsigned(p.high));
    NoLowPart(Unsigned(p.low));
    SignedKeeps(Unsigned(p.high));
    SignedKeeps(Unsigned(p.low));
    UnsignedTwice(p.high);
    UnsignedTwice(p.low);
    BitsUnsigned(Or, Shl(p.high, 0), Shr(p.low, 0));
    BitsUnsigned(Or, Shl(p.low, 0), Shr(p.high, 0));
    BitwiseCommutes(Or, Unsigned(p.high), Unsigned(p.low), 32);
  }

  lemma RotatesNothing(v: nat)
    requires v < TWO64
    ensures Rotl64(v, 0) == v
  {
    hide High, Low, Up, Pow2;
    Pow2Values();
    UpZero(64);
    PartsUnique(v, 0, v, 64);
    NoLowPart(v);
  }

  lemma UnequalHalves()
    ensures Rotl64(Lane(1, 0).Val(), 0) == TWO32 && Rotl64(Lane(1, 0).Val(), 32) == 1
  {
    hide High, Low, Up;
    RotatesNothing(Lane(1, 0).Val());
    LaneParts(Lane(1, 0));
    UpZero(32);
  }

  lemma RotateSplitFails(k: nat)
    requires k == 0 || k == 32
    ensures RotateSplit(Lane(1, 0), k).Val() != Rotl64(Lane(1, 0).Val(), k)
  {
    hide RotateSplit, Rotl64;
    HalvesMerge(Lane(1, 0), k);
    UnequalHalves();
  }

  /** The split rotation is right for every lane exactly when the offset is not a multiple of 32. */
  lemma RotateSplitRight(k: nat)
    requires k < 64
    ensures k % 32 != 0 <==> forall p: Lane :: RotateSplit(p, k).Val() == Rotl64(p.Val(), k)
  {
    hide RotateSplit, Rotl64, Lane.Val;
    if k % 32 == 0 {
      RotateSplitFails(k);
    } else {
      forall p: Lane
        ensures RotateSplit(p, k).Val() == Rotl64(p.Val(), k)
      {
        RotateSplitVal(p, k);
      }
    }
  }

  /** No lane but lane 0, which the code only copies, has such an offset. */
  lemma OffsetsAvoid32(m: nat)
    requires 0 < m < 25
    ensures 0 < Offset(m) < 64 && Offset(m) != 32
  {
  }

  // ----- the round constants

  /** `e & 128 ? e << 1 ^ 113 : e << 1` */
  function ShiftRegister(e: int): int {
    if Bits(And, e, 128) != 0 then Bits(Xor, Shl(e, 1), 113) else Shl(e, 1)
  }

  lemma Eight()
    ensures Pow2(7) == 128 && Pow2(8) == 256 && Pow2(1) == 2
  {
  }

  lemma LowBit(u: nat)
    ensures Bitwise(And, u, 1, 32) == u % 2
  {
    AndOnes(u / 2, 31);
  }

  lemma Bit7(u: nat)
    ensures Bitwise(And, u, 128, 32) == 128 * (u / 128 % 2)
  {
    hide Bitwise, High, Low, Up;
    Eight();
    UpOne(7);
    PartsUnique(128, 1, 0, 7);
    UpIs128(u / 128);
    PartsUnique(u, u / 128, u % 128, 7);
    BitwiseSplit(And, u, 128, 25, 7);
    LowBit25(u / 128);
    BitwiseLow(And, u, 128, 7);
    AndOnes(Low(u, 7), 7);
    UpIs128(u / 128 % 2);
  }

  lemma LowBit25(u: nat)
    ensures Bitwise(And, u, 1, 25) == u % 2
  {
    AndOnes(u / 2, 24);
  }

  lemma UpOne(k: nat)
    ensures Up(1, k) == Pow2(k)
  {
  }

  lemma UpIs128(h: nat)
    ensures Up(h, 7) == 128 * h
  {
    Eight();
  }

  lemma ZeroTest(x: int)
    requires -TWO31 <= x < TWO31
    ensures x != 0 <==> Unsigned(x) != 0
  {
  }

  lemma DoubledLow(u: nat)
    ensures 2 * u % 256 == 2 * (u % 256) % 256 && (2 * u - TWO32) % 256 == 2 * (u % 256) % 256
  {
    var h, l := u / 256, u % 256;
    Arithmetic.QuotientShift(2 * l, 2 * h, 256);
    Arithmetic.QuotientShift(2 * l, 2 * h - 0x100_0000, 256);
  }

  lemma Doubled(e: int)
    ensures Unsigned(Shl(e, 1)) % 256 == 2 * (Unsigned(e) % 256) % 256
  {
    var u := Unsigned(e);
    DoubledLow(u);
    assert Shl(e, 1) == Signed(2 * u);
    SignedKeeps(2 * u);
    UnsignedSum(u, u);
    hide Shl, Signed, Unsigned;
    UnsignedSmall(u);
  }

  /** An exclusive-or with a byte changes the low byte as it would change the byte alone. */
  lemma LowByte(u: nat)
    ensures Low(u, 8) == u % 256
  {
    Eight();
  }

  lemma XorLowByte(u: nat, v: nat)
    requires v < 256
    ensures Bitwise(Xor, u, v, 32) % 256 == Bitwise(Xor, u % 256, v, 8)
  {
    hide Bitwise, High, Up, Low, Pow2;
    LowByte(u);
    LowByte(v);
    LowByte(Bitwise(Xor, u, v, 32));
    BitwiseSplit(Xor, u, v, 24, 8);
    BitwiseLow(Xor, u, v, 8);
    PartsUnique(Bitwise(Xor, u, v, 32), Bitwise(Xor, High(u, 8), High(v, 8), 24), Bitwise(Xor, u, v, 8), 8);
  }

  lemma BitTests(e: int)
    ensures Bits(And, e, 1) != 0 <==> Unsigned(e) % 2 == 1
    ensures Bits(And, e, 128) != 0 <==> Unsigned(e) / 128 % 2 == 1
  {
    var u := Unsigned(e);
    hide Bitwise, Unsigned;
    LowBit(u);
    Bit7(u);
    BitsUnsigned(And, e, 1);
    BitsUnsigned(And, e, 128);
    UnsignedSmall(1);
    UnsignedSmall(128);
    ZeroTest(Bits(And, e, 1));
    ZeroTest(Bits(And, e, 128));
  }

  lemma ByteBits(u: nat)
    ensures u % 256 % 2 == u % 2 && (u / 128 % 2 == 1 <==> u % 256 >= 128)
  {
    var q, r := u / 256, u % 256;
    Arithmetic.QuotientShift(r, 128 * q, 2);
    Arithmetic.QuotientShift(r, 2 * q, 128);
    Arithmetic.QuotientShift(r / 128, q, 2);
  }

  lemma NextRegisterIs(r: nat)
    requires r < 256
    ensures NextRegister(r) == if r < 128 then 2 * r % 256 else Bitwise(Xor, 2 * r % 256, 113, 8)
  {
    hide Bitwise;
    assert r >= 128 ==> 2 * r % 256 == 2 * r - 256;
  }

  /** The register is never masked; its low 8 bits follow Algorithm 5 of FIPS 202, and the branch looks at the right bit. */
  lemma RegisterSteps(e: int)
    ensures Bits(And, e, 1) != 0 <==> Unsigned(e) % 256 % 2 == 1
    ensures Unsigned(ShiftRegister(e)) % 256 == NextRegister(Unsigned(e) % 256)
  {
    hide Bitwise, Shl, Bits, Unsigned, NextRegister;
    var u := Unsigned(e);
    NextRegisterIs(u % 256);
    BitTests(e);
    ByteBits(u);
    Doubled(e);
    XorLowByte(Unsigned(Shl(e, 1)), 113);
    BitsUnsigned(Xor, Shl(e, 1), 113);
    UnsignedSmall(113);
  }

  lemma BitNumber(b: nat)
    requires b < 32
    ensures Unsigned(Shl(1, b)) == Pow2(b) == Up(1, b) && Pow2(b) < TWO32
  {
    hide Up, Pow2, Signed;
    UpOne(b);
    Pow2Grows(b, 31);
    Pow2Values();
    Pow2Step(31);
    SignedKeeps(Up(1, b));
  }

  lemma {:induction false} Pow2Grows(m: nat, n: nat)
    requires m <= n
    ensures Pow2(m) <= Pow2(n)
    decreases n
  {
    if m < n {
      Pow2Grows(m, n - 1);
    }
  }

  /** `w ^= 1 << b` above every bit set so far adds a bit. */
  lemma BitAdds(w: int, b: nat)
    requires b < 32 && Unsigned(w) < Pow2(b)
    ensures Unsigned(Bits(Xor, w, Shl(1, b))) == Unsigned(w) + Pow2(b)
  {
    hide Bitwise, Pow2, Up, Shl, Unsigned;
    BitNumber(b);
    BitsUnsigned(Xor, w, Shl(1, b));
    DoubleIs(1, 1, 2);
    Pow2Grows(1, 32 - b);
    Eight();
    DisjointAdd(Xor, Unsigned(w), 1, 32 - b, b);
  }

  lemma {:induction false} ConstantBitsBound(ir: nat, n: nat)
    requires n <= 7
    ensures ConstantBits(ir, n) < Pow2(Pow2(n) - 1)
    decreases n
  {
    hide Register;
    if n > 0 {
      ConstantBitsBound(ir, n - 1);
      BoundStep(n - 1);
    } else {
      assert Pow2(0) == 1;
    }
  }

  lemma BoundStep(n: nat)
    ensures 2 * Pow2(Pow2(n) - 1) <= Pow2(Pow2(n + 1) - 1)
  {
    Pow2Step(n);
    var p := Pow2(n) - 1;
    Pow2Step(p);
    Pow2Grows(p + 1, 2 * p + 1);
  }

  /** The bit positions `(1 << a) - 1` of the seven output bits. */
  lemma BitPlaces(a: nat)
    requires a < 7
    ensures Shl(1, a) - 1 == Pow2(a) - 1
    ensures if a < 6 then Pow2(a) - 1 < 32 else Pow2(a) - 1 == 63
  {
    assert Pow2(0) == 1 && Pow2(1) == 2 && Pow2(2) == 4 && Pow2(3) == 8 && Pow2(4) == 16 && Pow2(5) == 32 && Pow2(6) == 64;
  }

  /** One step of the inner loop of the constant generator. */
  lemma PlaceBit(q: nat, a: nat, t: int, w: int)
    requires a < 7 && t == 0 && Unsigned(w) == ConstantBits(q, a)
    ensures var b := Shl(1, a) - 1;
            if b < 32 then b >= 0 && Unsigned(Bits(Xor, w, Shl(1, b))) == ConstantBits(q, a) + Pow2(b)
            else b == 63 && Lane(Bits(Xor, t, Shl(1, b - 32)), w).Val() == ConstantBits(q, a) + Pow2(b)
    ensures (Shl(1, a) - 1 < 32) == (a < 6) && Shl(1, a) - 1 == Pow2(a) - 1
  {
    hide Bitwise, ConstantBits, Shl, Pow2, Bits;
    BitPlaces(a);
    ConstantBitsBound(q, a);
    if a < 6 {
      BitAdds(w, Pow2(a) - 1);
    } else {
      Pow2Grows(0, 31);
      Pow2Adds(31, 32);
      Pow2Values();
      BitAdds(0, 31);
    }
  }

  /** The generated round constants, section 3.2.5. */
  method BuildRoundConstants() returns (y: array<Lane>)
    ensures fresh(y) && y.Length == 24
    ensures forall i :: 0 <= i < 24 ==> y[i].Val() == RoundConstant(i)
  {
    hide ConstantBits, Register, Bits, Shl, Pow2, ShiftRegister, NextRegister;
    y := new Lane[24](_ => Lane(0, 0));
    var e := 1;
    RegisterStarts();
    for q := 0 to 24
      invariant Unsigned(e) % 256 == Register(7 * q)
      invariant forall i :: 0 <= i < q ==> y[i].Val() == RoundConstant(i)
    {
      var t, w := 0, 0;
      NoBits(q);
      for a := 0 to 7
        invariant Unsigned(e) % 256 == Register(7 * q + a)
        invariant forall i :: 0 <= i < q ==> y[i].Val() == RoundConstant(i)
        invariant Lane(t, w).Val() == ConstantBits(q, a)
        invariant a <= 6 ==> t == 0
      {
        RegisterSteps(e);
        NextBits(q, a);
        PlaceBit(q, a, t, w);
        if Bits(And, e, 1) != 0 {
          var b := Shl(1, a) - 1;
          if b < 32 {
            w := Bits(Xor, w, Shl(1, b));
          } else {
            t := Bits(Xor, t, Shl(1, b - 32));
          }
        }
        e := ShiftRegister(e);
      }
      y[q] := Lane(t, w);
    }
  }

  lemma RegisterStarts()
    ensures Unsigned(1) % 256 == Register(0)
  {
  }

  lemma NoBits(q: nat)
    ensures ConstantBits(q, 0) == 0 && Lane(0, 0).Val() == 0
  {
  }

  lemma NextBits(q: nat, a: nat)
    requires a < 7
    ensures Register(7 * q + a + 1) == NextRegister(Register(7 * q + a))
    ensures ConstantBits(q, a + 1) == ConstantBits(q, a) + if Register(7 * q + a) % 2 == 1 then Pow2(Pow2(a) - 1) else 0
  {
  }
}
