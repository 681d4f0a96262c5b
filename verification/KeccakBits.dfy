/**
 The step mappings of Keccak-f[1600] bit by bit, as section 3.2 of FIPS 202 defines them: bit (x, y, z) of a state is bit z
 of lane x + 5 * y.
 */
module KeccakBits {
  import opened Arithmetic
  import opened JsNumber
  import opened Lanes
  import opened Bits
  import K = Keccak

  predicate Lanes64(a: seq<nat>) {
    |a| == 25 && forall i :: 0 <= i < 25 ==> a[i] < TWO64
  }

  function BitAt(a: seq<nat>, x: nat, y: nat, z: nat): (b: nat)
    requires |a| == 25 && x < 5 && y < 5
    ensures b <= 1
  {
    Bit(a[x + 5 * y], z)
  }

  /** Section 3.2.1: the sum of the five bits of a column. */
  function Column(a: seq<nat>, x: nat, z: nat): nat
    requires |a| == 25 && x < 5
  {
    BitAt(a, x, 0, z) + BitAt(a, x, 1, z) + BitAt(a, x, 2, z) + BitAt(a, x, 3, z) + BitAt(a, x, 4, z)
  }

  lemma ParityBit(a: seq<nat>, x: nat, z: nat)
    requires Lanes64(a) && x < 5 && z < 64
    ensures K.Parity(a, x) < TWO64 && Bit(K.Parity(a, x), z) == Column(a, x, z) % 2
  {
    hide Bit, Xor64;
    var p := Xor64(a[x], a[x + 5]);
    var q := Xor64(p, a[x + 10]);
    var r := Xor64(q, a[x + 15]);
    XorBit(a[x], a[x + 5], z, Bit(a[x], z));
    XorBit(p, a[x + 10], z, BitAt(a, x, 0, z) + BitAt(a, x, 1, z));
    XorBit(q, a[x + 15], z, BitAt(a, x, 0, z) + BitAt(a, x, 1, z) + BitAt(a, x, 2, z));
    XorBit(r, a[x + 20], z, BitAt(a, x, 0, z) + BitAt(a, x, 1, z) + BitAt(a, x, 2, z) + BitAt(a, x, 3, z));
    Bounds64(r, a[x + 20]);
  }

  lemma XorBit(v: nat, w: nat, z: nat, n: nat)
    requires z < 64 && Bit(v, z) == n % 2
    ensures Bit(Xor64(v, w), z) == (n + Bit(w, z)) % 2
  {
    hide Bit, Xor64;
    Operators64(v, w, z);
  }

  /** A bit added where the next is 0 and the one after is 1. */
  lemma ChiLaneBit(v: nat, b: nat, c: nat, z: nat)
    requires b < TWO64 && z < 64
    ensures Bit(Xor64(v, And64(Not64(b), c)), z) == if Bit(b, z) == 0 && Bit(c, z) == 1 then 1 - Bit(v, z) else Bit(v, z)
  {
    hide Bit, Xor64, And64, Not64;
    Operators64(b, b, z);
    Operators64(Not64(b), c, z);
    Operators64(v, And64(Not64(b), c), z);
  }

  lemma Place(x: nat, y: nat)
    requires x < 5 && y < 5
    ensures K.X(x + 5 * y) == x && K.Y(x + 5 * y) == y && x + 5 * y < 25
  {
  }

  /** Section 3.2.1: each bit is added to two column sums. */
  lemma ThetaBit(a: seq<nat>, x: nat, y: nat, z: nat)
    requires Lanes64(a) && x < 5 && y < 5 && z < 64
    ensures BitAt(K.Theta(a), x, y, z) ==
            (BitAt(a, x, y, z) + Column(a, (x + 4) % 5, z) + Column(a, (x + 1) % 5, (z + 63) % 64)) % 2
  {
    hide Bit, Xor64, Column, K.Parity, Rotr64, K.X, K.Y;
    Place(x, y);
    var p, q := K.Parity(a, (x + 4) % 5), K.Parity(a, (x + 1) % 5);
    ParityBit(a, (x + 4) % 5, z);
    ParityBit(a, (x + 1) % 5, (z + 63) % 64);
    RotateBit(q, 63, z);
    Operators64(p, K.Rotl64(q, 1), z);
    Operators64(a[x + 5 * y], K.Effect(a, x), z);
  }

  /** Section 3.2.2: lane by lane, bits move up by the offset. */
  lemma RhoBit(a: seq<nat>, x: nat, y: nat, z: nat)
    requires Lanes64(a) && x < 5 && y < 5 && z < 64
    ensures BitAt(K.Rho(a), x, y, z) == BitAt(a, x, y, (z + 64 - K.Offset(x + 5 * y)) % 64)
  {
    hide Bit, Rotr64, K.Offset;
    RotateBit(a[x + 5 * y], 64 - K.Offset(x + 5 * y), z);
  }

  /** Section 3.2.3 */
  lemma PiBit(a: seq<nat>, x: nat, y: nat, z: nat)
    requires |a| == 25 && x < 5 && y < 5
    ensures BitAt(K.Pi(a), x, y, z) == BitAt(a, (x + 3 * y) % 5, x, z)
  {
    hide Bit, K.X, K.Y;
    Place(x, y);
  }

  lemma ChiLane(a: seq<nat>, x: nat, y: nat, x1: nat, x2: nat)
    requires |a| == 25 && x < 5 && y < 5 && x1 == (x + 1) % 5 && x2 == (x + 2) % 5
    ensures K.Chi(a)[x + 5 * y] == Xor64(a[x + 5 * y], And64(Not64(a[x1 + 5 * y]), a[x2 + 5 * y]))
  {
    hide Xor64, And64, Not64, K.X, K.Y, K.At, K.Chi;
    Place(x, y);
    LaneNumber(x1, y);
    LaneNumber(x2, y);
    ChiAt(a, x + 5 * y, x1, x2, y);
  }

  lemma ChiAt(a: seq<nat>, i: nat, x1: nat, x2: nat, y: nat)
    requires |a| == 25 && i < 25 && x1 == (K.X(i) + 1) % 5 && x2 == (K.X(i) + 2) % 5 && y == K.Y(i)
    ensures K.At(x1, y) < 25 && K.At(x2, y) < 25
    ensures K.Chi(a)[i] == Xor64(a[i], And64(Not64(a[K.At(x1, y)]), a[K.At(x2, y)]))
  {
    hide Xor64, And64, Not64, K.X, K.Y, K.At;
    assert K.Chi(a)[i] == K.ChiOf(a, i);
  }

  lemma LaneNumber(x: nat, y: nat)
    ensures K.At(x, y) == x + 5 * y
  {
  }

  /** Section 3.2.4: a bit is flipped where the next of its row is 0 and the one after is 1. */
  lemma ChiBit(a: seq<nat>, x: nat, y: nat, z: nat)
    requires Lanes64(a) && x < 5 && y < 5 && z < 64
    ensures BitAt(K.Chi(a), x, y, z) ==
            if BitAt(a, (x + 1) % 5, y, z) == 0 && BitAt(a, (x + 2) % 5, y, z) == 1 then 1 - BitAt(a, x, y, z) else BitAt(a, x, y, z)
  {
    hide Bit, Xor64, And64, Not64, K.Chi;
    ChiLane(a, x, y, (x + 1) % 5, (x + 2) % 5);
    ChiLaneBit(a[x + 5 * y], a[(x + 1) % 5 + 5 * y], a[(x + 2) % 5 + 5 * y], z);
  }

  /** Section 3.2.5: the round constant is added to lane (0, 0). */
  lemma IotaBit(a: seq<nat>, ir: nat, x: nat, y: nat, z: nat)
    requires Lanes64(a) && x < 5 && y < 5 && z < 64
    ensures BitAt(K.Iota(a, ir), x, y, z) == (BitAt(a, x, y, z) + if x == 0 && y == 0 then Bit(K.RoundConstant(ir), z) else 0) % 2
  {
    hide Bit, Xor64, K.RoundConstant;
    Operators64(a[0], K.RoundConstant(ir), z);
  }

  /** Section 3.3: twenty-four rounds of the five mappings in this order. */
  lemma RoundsInOrder(a: seq<nat>, n: nat)
    requires |a| == 25
    ensures K.Rounds(a, 0) == a && K.Rounds(a, n + 1) == K.Iota(K.Chi(K.Pi(K.Rho(K.Theta(K.Rounds(a, n))))), n)
    ensures K.KeccakF(a) == K.Rounds(a, 24)
  {
    hide K.Iota, K.Chi, K.Pi, K.Rho, K.Theta;
    var r := 24;
    assert K.Rounds(a, r) == K.Rounds(a, 24);
  }

  // ----- round constants

  /** Algorithm 5 of section 3.2.5: the register moves up, and bit 8 is added to bits 0, 4, 5 and 6. */
  lemma RegisterBit(t: nat, i: nat)
    requires i < 8
    ensures K.Register(0) == 1
    ensures Bit(K.Register(t + 1), i) ==
            ((if i == 0 then 0 else Bit(K.Register(t), i - 1)) +
             (if i == 0 || i == 4 || i == 5 || i == 6 then Bit(K.Register(t), 7) else 0)) % 2
  {
    var r := K.Register(t);
    assert K.Register(t + 1) == K.NextRegister(r);
    NextRegisterBit(r, i);
  }

  lemma NextRegisterBit(r: nat, i: nat)
    requires r < 256 && i < 8
    ensures Bit(K.NextRegister(r), i) ==
            ((if i == 0 then 0 else Bit(r, i - 1)) + (if i == 0 || i == 4 || i == 5 || i == 6 then Bit(r, 7) else 0)) % 2
  {
    hide Bit, Bitwise, Pow2, K.NextRegister;
    NextIs(r);
    TopBit(r);
    TapBits(i);
    BitStep(2 * r, if i == 0 then 0 else i - 1);
    if r >= 128 {
      OperatorBits(2 * r - 256, 0x71, 8, i);
      DropTop(2 * r - 256, i);
    }
  }

  lemma NextIs(r: nat)
    requires r < 256
    ensures K.NextRegister(r) == if r < 128 then 2 * r else Bitwise(Xor, 2 * r - 256, 0x71, 8)
  {
    hide Bitwise;
  }

  lemma TopBit(r: nat)
    requires r < 256
    ensures Bit(r, 7) == if r >= 128 then 1 else 0
  {
    SevenUp();
    PartsUnique(r, if r >= 128 then 1 else 0, if r >= 128 then r - 128 else r, 7);
  }

  lemma SevenUp()
    ensures Pow2(7) == 128 && Pow2(8) == 256 && Up(1, 7) == 128 && Up(0, 7) == 0 && Up(1, 8) == 256
  {
  }

  lemma DropTop(x: nat, i: nat)
    requires i < 8
    ensures Bit(x + 256, i) == Bit(x, i)
  {
    SevenUp();
    hide Bit, Up, Pow2;
    LowerBit(x, 1, 8, i);
  }

  lemma TapBits(i: nat)
    requires i < 8
    ensures Bit(0x71, i) == if i == 0 || i == 4 || i == 5 || i == 6 then 1 else 0
  {
    SmallPowers();
    hide Pow2;
    match i {
      case 0 => PartsUnique(0x71, 0x71, 0, 0);
      case 1 => PartsUnique(0x71, 0x38, 1, 1);
      case 2 => PartsUnique(0x71, 0x1C, 1, 2);
      case 3 => PartsUnique(0x71, 0x0E, 1, 3);
      case 4 => PartsUnique(0x71, 0x07, 1, 4);
      case 5 => PartsUnique(0x71, 0x03, 0x11, 5);
      case 6 => PartsUnique(0x71, 0x01, 0x31, 6);
      case 7 => PartsUnique(0x71, 0, 0x71, 7);
    }
  }

  lemma SmallPowers()
    ensures Pow2(0) == 1 && Pow2(1) == 2 && Pow2(2) == 4 && Pow2(3) == 8 && Pow2(4) == 16 && Pow2(5) == 32 && Pow2(6) == 64
    ensures Pow2(7) == 128
  {
  }

  /** Section 3.2.5: bit 2^j - 1 of the round constant is the output of Algorithm 5 for j + 7 * ir; other bits are 0. */
  lemma ConstantBit(ir: nat, z: nat)
    requires z < 64
    ensures Bit(K.RoundConstant(ir), z) ==
            if z == 0 then K.Register(7 * ir) % 2
            else if z == 1 then K.Register(7 * ir + 1) % 2
            else if z == 3 then K.Register(7 * ir + 2) % 2
            else if z == 7 then K.Register(7 * ir + 3) % 2
            else if z == 15 then K.Register(7 * ir + 4) % 2
            else if z == 31 then K.Register(7 * ir + 5) % 2
            else if z == 63 then K.Register(7 * ir + 6) % 2
            else 0
  {
    SmallPowers();
    hide Bit, Pow2, K.Register, K.ConstantBits;
    NoBits(ir, z);
    NextBit(ir, 0, 0, z);
    NextBit(ir, 1, 1, z);
    NextBit(ir, 2, 3, z);
    NextBit(ir, 3, 7, z);
    NextBit(ir, 4, 15, z);
    NextBit(ir, 5, 31, z);
    NextBit(ir, 6, 63, z);
  }

  lemma NoBits(ir: nat, z: nat)
    ensures Bit(K.ConstantBits(ir, 0), z) == 0
  {
    PartsUnique(0, 0, 0, z);
  }

  lemma NextBit(ir: nat, n: nat, m: nat, z: nat)
    requires n < 7 && m == Pow2(n) - 1
    ensures Bit(K.ConstantBits(ir, n + 1), z) ==
            if z == m then K.Register(7 * ir + n) % 2 else if z < m then Bit(K.ConstantBits(ir, n), z) else 0
  {
    hide K.ConstantBits, K.Register, Bit, Pow2, Up;
    K.ConstantBitsBound(ir, n);
    MoreBits(ir, n, m);
    BitAbove(K.ConstantBits(ir, n), K.Register(7 * ir + n) % 2, m, z);
  }

  lemma BitAbove(a: nat, b: nat, m: nat, z: nat)
    requires a < Pow2(m) && b <= 1
    ensures Bit(a + Up(b, m), z) == if z == m then b else if z < m then Bit(a, z) else 0
  {
    hide Bit, Pow2, Up;
    StackedBit(a, b, m, z);
    OneBit(b, if z >= m then z - m else 0);
  }

  lemma MoreBits(ir: nat, n: nat, m: nat)
    requires n < 7 && m == Pow2(n) - 1
    ensures K.ConstantBits(ir, n + 1) == K.ConstantBits(ir, n) + Up(K.Register(7 * ir + n) % 2, m)
  {
    hide Pow2, K.Register;
    MulMonotone(1, 1, Pow2(m));
  }

  lemma OneBit(b: nat, i: nat)
    requires b <= 1
    ensures Bit(b, i) == if i == 0 then b else 0
  {
    NoLowPart(b);
    if i > 0 {
      assert Pow2(i) >= 2;
      PartsUnique(b, 0, b, i);
    }
  }
}
