/**
 64-bit words held as two JavaScript numbers, `x64.Word` (js/rollups/hmac-sha512.js:14, js/sha3.js:14), and what the
 code's 32-bit operations on the halves do to the 64-bit value.
 */
module Lanes {
  import opened Arithmetic
  import opened JsNumber
  import opened MachineWords

  const TWO64: int := 0x1_0000_0000_0000_0000

  datatype Lane = Lane(high: int, low: int)
  {
    /** The 64-bit word the two halves stand for; neither half need be truncated. */
    function Val(): (v: nat)
      ensures v < TWO64
    {
      Unsigned(high) * TWO32 + Unsigned(low)
    }
  }

  // ----- operations on 64-bit words

  function Xor64(x: nat, y: nat): nat {
    Bitwise(Xor, x, y, 64)
  }

  function And64(x: nat, y: nat): nat {
    Bitwise(And, x, y, 64)
  }

  function Not64(x: nat): nat {
    if x < TWO64 then TWO64 - 1 - x else 0
  }

  function Rotr64(x: nat, k: nat): nat
    requires k <= 64
  {
    High(x, k) + Up(Low(x, k), 64 - k)
  }

  // ----- moving bits by a variable distance

  lemma UpAdds(a: nat, b: nat, k: nat)
    ensures Up(a + b, k) == Up(a, k) + Up(b, k)
  {
    MulDistributes(a, b, Pow2(k));
  }

  lemma UpUp(a: nat, j: nat, k: nat)
    ensures Up(Up(a, j), k) == Up(a, j + k)
  {
    Pow2Adds(j, k);
    MulAssociates(a, Pow2(j), Pow2(k));
  }

  lemma Up32(a: nat)
    ensures Up(a, 32) == a * TWO32
  {
    Pow2Values();
  }

  lemma HighBound(x: nat, j: nat, k: nat)
    requires x < Pow2(j + k)
    ensures High(x, k) < Pow2(j)
  {
    Pow2Adds(j, k);
    MulMonotone(Pow2(j), High(x, k), Pow2(k));
  }

  /** The bits a left shift pushes out of the word. */
  lemma ShlUnsigned(x: int, k: nat)
    requires 0 < k < 32
    ensures Unsigned(Shl(x, 32 - k)) == Up(Low(Unsigned(x), k), 32 - k)
    ensures Up(Low(Unsigned(x), k), 32 - k) < TWO32
  {
    hide Up, High, Low, Pow2;
    var u := Unsigned(x);
    var h, l := High(u, k), Low(u, k);
    PartsAddUp(u, k);
    UpAdds(Up(h, k), l, 32 - k);
    UpUp(h, k, 32 - k);
    Up32(h);
    UpBound(l, k, 32 - k);
    SignedKeeps(Up(u, 32 - k));
    QuotientUnique(Up(u, 32 - k), h, Up(l, 32 - k), TWO32);
  }

  lemma UpBound(x: nat, j: nat, k: nat)
    requires x < Pow2(j)
    ensures Up(x, k) < Pow2(j + k)
    ensures j + k == 32 ==> Up(x, k) < TWO32
  {
    Pow2Adds(j, k);
    Pow2Values();
    MulMonotone(x + 1, Pow2(j), Pow2(k));
    MulDistributes(x, 1, Pow2(k));
  }

  /** `g >>> k | v << 32 - k`, in either order: one half of a rotation. */
  function RotHalf(g: int, v: int, k: nat): int
    requires 0 < k < 32
  {
    Bits(Or, Shr(g, k), Shl(v, 32 - k))
  }

  function Funnel(g: nat, v: nat, k: nat): nat
    requires k <= 32
  {
    High(g, k) + Up(Low(v, k), 32 - k)
  }

  lemma RotHalfUnsigned(g: int, v: int, k: nat)
    requires 0 < k < 32
    ensures Unsigned(RotHalf(g, v, k)) == Funnel(Unsigned(g), Unsigned(v), k) < TWO32
    ensures Bits(Or, Shl(v, 32 - k), Shr(g, k)) == RotHalf(g, v, k)
  {
    hide Up, High, Low, Pow2, Shl, Bitwise, Unsigned;
    var a := High(Unsigned(g), k);
    Pow2Values();
    HighBound(Unsigned(g), 32 - k, k);
    ShlUnsigned(v, k);
    DisjointAdd(Or, a, Low(Unsigned(v), k), k, 32 - k);
    BitsUnsigned(Or, Shr(g, k), Shl(v, 32 - k));
    UnsignedSmall(Shr(g, k));
    BitwiseCommutes(Or, Unsigned(Shr(g, k)), Unsigned(Shl(v, 32 - k)), 32);
  }

  lemma UnsignedSmall(x: int)
    ensures 0 <= x < TWO32 ==> Unsigned(x) == x
  {
  }

  // ----- 64-bit operations on the halves

  lemma LaneParts(p: Lane)
    ensures High(p.Val(), 32) == Unsigned(p.high) && Low(p.Val(), 32) == Unsigned(p.low)
    ensures p.Val() == Up(Unsigned(p.high), 32) + Unsigned(p.low)
  {
    Up32(Unsigned(p.high));
    Pow2Values();
    PartsUnique(p.Val(), Unsigned(p.high), Unsigned(p.low), 32);
  }

  /** The halves as 32-bit words. */
  lemma HalfNumbers(p: Lane)
    ensures Unsigned(p.Val() / TWO32) == Unsigned(p.high) && Unsigned(p.Val()) == Unsigned(p.low)
  {
  }

  lemma HalfWords(p: Lane)
    ensures NumberWord(p.Val() / TWO32) == NumberWord(p.high) && NumberWord(p.Val()) == NumberWord(p.low)
  {
    hide Unsigned, Lane.Val;
    HalfNumbers(p);
  }

  /** Bit operations act on the halves separately. */
  lemma LaneBits(op: BitOp, p: Lane, q: Lane)
    ensures Lane(Bits(op, p.high, q.high), Bits(op, p.low, q.low)).Val() == Bitwise(op, p.Val(), q.Val(), 64)
  {
    hide Bitwise, High, Low, Up, Unsigned;
    LaneParts(p);
    LaneParts(q);
    BitwiseSplit(op, p.Val(), q.Val(), 32, 32);
    BitwiseLow(op, p.Val(), q.Val(), 32);
    BitsUnsigned(op, p.high, q.high);
    BitsUnsigned(op, p.low, q.low);
    Up32(Bitwise(op, Unsigned(p.high), Unsigned(q.high), 32));
  }

  lemma LaneNot(p: Lane)
    ensures Lane(Not(p.high), Not(p.low)).Val() == Not64(p.Val())
  {
    NotUnsigned(p.high);
    NotUnsigned(p.low);
  }

  lemma NotUnsigned(x: int)
    ensures Unsigned(Not(x)) == TWO32 - 1 - Unsigned(x)
  {
    SignedKeeps(-x - 1);
  }

  /** A rotation by less than 32: each half takes its missing bits from the other. */
  lemma RotateShort(h: nat, l: nat, k: nat)
    requires h < TWO32 && l < TWO32 && 0 < k < 32
    ensures Rotr64(Up(h, 32) + l, k) == Up(Funnel(h, l, k), 32) + Funnel(l, h, k)
  {
    hide Up, High, Low, Pow2;
    var h1, h0, l1, l0 := High(h, k), Low(h, k), High(l, k), Low(l, k);
    PartsAddUp(h, k);
    PartsAddUp(l, k);
    // the word is h1 | h0 | l1 | l0
    UpAdds(Up(h1, k), h0, 32);
    UpUp(h1, k, 32);
    UpUp(h1, 32, k);
    UpUp(h0, 32 - k, k);
    UpAdds(Up(h1, 32) + Up(h0, 32 - k), l1, k);
    UpAdds(Up(h1, 32), Up(h0, 32 - k), k);
    PartsUnique(Up(h, 32) + l, Up(h1, 32) + Up(h0, 32 - k) + l1, l0, k);
    UpUp(l0, 32 - k, 32);
    UpAdds(h1, Up(l0, 32 - k), 32);
  }

  /** A rotation by more than 32: the same with the halves exchanged. */
  lemma RotateLong(h: nat, l: nat, k: nat)
    requires h < TWO32 && l < TWO32 && 32 < k < 64
    ensures Rotr64(Up(h, 32) + l, k) == Up(Funnel(l, h, k - 32), 32) + Funnel(h, l, k - 32)
  {
    hide Up, High, Low, Pow2;
    var j := k - 32;
    var h1, h0, l1, l0 := High(h, j), Low(h, j), High(l, j), Low(l, j);
    PartsAddUp(h, j);
    PartsAddUp(l, j);
    UpAdds(Up(h1, j), h0, 32);
    UpUp(h1, j, 32);
    LongLow(h0, l, j);
    PartsUnique(Up(h, 32) + l, h1, Up(h0, 32) + l, k);
    UpAdds(Up(h0, 32), l, 32 - j);
    UpUp(h0, 32, 32 - j);
    UpUp(h0, 32 - j, 32);
    UpAdds(Up(l1, j), l0, 32 - j);
    UpUp(l1, j, 32 - j);
    UpAdds(l1, Up(h0, 32 - j), 32);
  }

  lemma LongLow(h0: nat, l: nat, j: nat)
    requires h0 < Pow2(j) && l < TWO32
    ensures Up(h0, 32) + l < Pow2(j + 32)
  {
    Pow2Adds(j, 32);
    Pow2Values();
    MulMonotone(h0 + 1, Pow2(j), TWO32);
    MulDistributes(h0, 1, TWO32);
  }

  /** The two halves of a rotation to the right by `k`, as the code writes them for `k < 32` and for `k > 32`. */
  function RotateLane(p: Lane, k: nat): Lane
    requires 0 < k < 64 && k != 32
  {
    if k < 32 then Lane(RotHalf(p.high, p.low, k), RotHalf(p.low, p.high, k))
    else Lane(RotHalf(p.low, p.high, k - 32), RotHalf(p.high, p.low, k - 32))
  }

  lemma RotateLaneVal(p: Lane, k: nat)
    requires 0 < k < 64 && k != 32
    ensures RotateLane(p, k).Val() == Rotr64(p.Val(), k)
  {
    if k < 32 {
      RotateLaneShort(p, k);
    } else {
      RotateLaneLong(p, k);
    }
  }

  lemma RotateLaneShort(p: Lane, k: nat)
    requires 0 < k < 32
    ensures RotateLane(p, k).Val() == Rotr64(p.Val(), k)
  {
    hide High, Low, Funnel, Up, RotHalf, Rotr64, Unsigned;
    LaneParts(p);
    LaneParts(RotateLane(p, k));
    RotHalfUnsigned(p.high, p.low, k);
    RotHalfUnsigned(p.low, p.high, k);
    RotateShort(Unsigned(p.high), Unsigned(p.low), k);
  }

  lemma RotateLaneLong(p: Lane, k: nat)
    requires 32 < k < 64
    ensures RotateLane(p, k).Val() == Rotr64(p.Val(), k)
  {
    hide High, Low, Funnel, Up, RotHalf, Rotr64, Unsigned;
    LaneParts(p);
    LaneParts(RotateLane(p, k));
    RotHalfUnsigned(p.low, p.high, k - 32);
    RotHalfUnsigned(p.high, p.low, k - 32);
    RotateLong(Unsigned(p.high), Unsigned(p.low), k);
  }

  /** The halves of a shift to the right. */
  function ShiftLane(p: Lane, k: nat): Lane
    requires 0 < k < 32
  {
    Lane(Shr(p.high, k), RotHalf(p.low, p.high, k))
  }

  lemma ShiftLaneVal(p: Lane, k: nat)
    requires 0 < k < 32
    ensures ShiftLane(p, k).Val() == High(p.Val(), k)
  {
    hide Up, Low, High, Pow2, Unsigned, RotHalf;
    var h, l := Unsigned(p.high), Unsigned(p.low);
    LaneParts(p);
    LaneParts(ShiftLane(p, k));
    RotHalfUnsigned(p.low, p.high, k);
    UnsignedSmall(Shr(p.high, k));
    HighBound32(h, k);
    var h1, h0, l1, l0 := High(h, k), Low(h, k), High(l, k), Low(l, k);
    PartsAddUp(h, k);
    PartsAddUp(l, k);
    UpAdds(Up(h1, k), h0, 32);
    UpUp(h1, k, 32);
    UpUp(h1, 32, k);
    UpUp(h0, 32 - k, k);
    UpAdds(Up(h1, 32) + Up(h0, 32 - k), l1, k);
    UpAdds(Up(h1, 32), Up(h0, 32 - k), k);
    PartsUnique(Up(h, 32) + l, Up(h1, 32) + Up(h0, 32 - k) + l1, l0, k);
  }

  lemma HighBound32(x: nat, k: nat)
    requires x < TWO32
    ensures High(x, k) < TWO32
  {
    MulMonotone(1, Pow2(k), High(x, k));
  }

  // ----- addition with a carry found by comparison

  /** `low >>> 0 < addend >>> 0 ? 1 : 0` */
  function Carry(low: int, addend: int): (c: int)
    ensures 0 <= c <= 1
  {
    if Unsigned(low) < Unsigned(addend) then 1 else 0
  }

  /** Neither half is truncated, and still the pair stands for the sum modulo 2^64. */
  lemma CarrySum(p: Lane, q: Lane, high: int, low: int)
    requires low == p.low + q.low
    requires high == p.high + q.high + Carry(low, p.low) || high == p.high + q.high + Carry(low, q.low)
    ensures Lane(high, low).Val() == (p.Val() + q.Val()) % TWO64
  {
    hide Unsigned;
    var c := Carry(low, p.low);
    UnsignedSum(p.low, q.low);
    assert c == Carry(low, q.low);
    UnsignedSum(p.high, q.high);
    UnsignedSum(p.high + q.high, c);
    UnsignedBit(c);
    SumHalves(Unsigned(p.high), Unsigned(p.low), Unsigned(q.high), Unsigned(q.low));
  }

  lemma UnsignedBit(c: int)
    requires 0 <= c <= 1
    ensures Unsigned(c) == c
  {
  }

  lemma SumHalves(h1: nat, l1: nat, h2: nat, l2: nat)
    requires h1 < TWO32 && l1 < TWO32 && h2 < TWO32 && l2 < TWO32
    ensures var c := if l1 + l2 < TWO32 then 0 else 1;
            var h := h1 + h2 + c;
            (h1 * TWO32 + l1 + (h2 * TWO32 + l2)) % TWO64 == (if h < TWO32 then h else h - TWO32) * TWO32 + (l1 + l2 - c * TWO32)
  {
  }
}
