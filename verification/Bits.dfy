/**
 Numbers bit by bit: what the operators on 32-bit and 64-bit words do to each bit. The standards define the step mappings
 of Keccak and the functions of the SHA family in these terms.
 */
module Bits {
  import opened JsNumber
  import opened Lanes

  /** Bit `i`, the least significant first. */
  function Bit(x: nat, i: nat): (b: nat)
    ensures b <= 1
  {
    High(x, i) % 2
  }

  lemma BitStep(x: nat, i: nat)
    ensures Bit(x, 0) == x % 2 && Bit(x, i + 1) == Bit(x / 2, i)
  {
    NoLowPart(x);
    NextParts(x, i);
  }

  lemma {:induction false} BitwiseBit(op: BitOp, x: nat, y: nat, n: nat, i: nat)
    requires i < n
    ensures Bit(Bitwise(op, x, y, n), i) == BitOf(op, Bit(x, i), Bit(y, i))
    decreases i
  {
    hide Bit, BitOf;
    BitwiseParts(op, x, y, n);
    hide Bitwise;
    BitStep(x, if i == 0 then 0 else i - 1);
    BitStep(y, if i == 0 then 0 else i - 1);
    BitStep(Bitwise(op, x, y, n), if i == 0 then 0 else i - 1);
    if i > 0 {
      BitwiseBit(op, x / 2, y / 2, n - 1, i - 1);
    }
  }

  /** `^` adds bits modulo 2, `&` multiplies them, and `|` takes the larger. */
  lemma OperatorBits(x: nat, y: nat, n: nat, i: nat)
    requires i < n
    ensures Bit(Bitwise(Xor, x, y, n), i) == (Bit(x, i) + Bit(y, i)) % 2
    ensures Bit(Bitwise(And, x, y, n), i) == Bit(x, i) * Bit(y, i)
    ensures Bit(Bitwise(Or, x, y, n), i) == if Bit(x, i) < Bit(y, i) then Bit(y, i) else Bit(x, i)
  {
    hide Bit, Bitwise;
    BitwiseBit(Xor, x, y, n, i);
    BitwiseBit(And, x, y, n, i);
    BitwiseBit(Or, x, y, n, i);
  }

  lemma {:induction false} NotBit(x: nat, n: nat, i: nat)
    requires x < Pow2(n) && i < n
    ensures Bit(Pow2(n) - 1 - x, i) == 1 - Bit(x, i)
    decreases i
  {
    hide Bit;
    BitStep(x, if i == 0 then 0 else i - 1);
    BitStep(Pow2(n) - 1 - x, if i == 0 then 0 else i - 1);
    assert Pow2(n) == 2 * Pow2(n - 1);
    if i > 0 {
      NotBit(x / 2, n - 1, i - 1);
      assert (Pow2(n) - 1 - x) / 2 == Pow2(n - 1) - 1 - x / 2;
    }
  }

  lemma {:induction false} HighBit(x: nat, k: nat, i: nat)
    ensures Bit(High(x, k), i) == Bit(x, i + k)
    decreases k
  {
    hide Bit, High;
    if k == 0 {
      NoLowPart(x);
    } else {
      NextParts(x, k - 1);
      HighBit(x / 2, k - 1, i);
      BitStep(x, i + k - 1);
    }
  }

  /** A number below 2^m beneath another. */
  lemma {:induction false} StackedBit(a: nat, b: nat, m: nat, i: nat)
    requires a < Pow2(m)
    ensures Bit(a + Up(b, m), i) == if i < m then Bit(a, i) else Bit(b, i - m)
  {
    hide Bit, High, Up, Pow2;
    if i < m {
      LowerBit(a, b, m, i);
    } else {
      PartsUnique(a + Up(b, m), b, a, m);
      HighBit(a + Up(b, m), m, i - m);
    }
  }

  lemma {:induction false} LowerBit(a: nat, b: nat, m: nat, i: nat)
    requires i < m
    ensures Bit(a + Up(b, m), i) == Bit(a, i)
    decreases i
  {
    hide Bit, High;
    var x := a + Up(b, m);
    Pow2Step(m - 1);
    DoubleIs(b, Pow2(m - 1), Pow2(m));
    hide Pow2;
    assert x == a + 2 * Up(b, m - 1);
    BitStep(a, if i == 0 then 0 else i - 1);
    BitStep(x, if i == 0 then 0 else i - 1);
    if i > 0 {
      assert x / 2 == a / 2 + Up(b, m - 1);
      LowerBit(a / 2, b, m - 1, i - 1);
    }
  }

  /** A rotation to the right by `k` brings bit `i + k` to place `i`. */
  lemma RotateBit(x: nat, k: nat, i: nat)
    requires x < TWO64 && k <= 64 && i < 64
    ensures Bit(Rotr64(x, k), i) == Bit(x, (i + k) % 64)
  {
    hide Bit, High, Low, Up, Pow2;
    Pow2Values();
    HighBound(x, 64 - k, k);
    StackedBit(High(x, k), Low(x, k), 64 - k, i);
    if i < 64 - k {
      HighBit(x, k, i);
    } else {
      PartsAddUp(x, k);
      StackedBit(Low(x, k), High(x, k), k, i - (64 - k));
      assert (i + k) % 64 == i - (64 - k);
    }
  }

  lemma Operators64(x: nat, y: nat, i: nat)
    requires i < 64
    ensures Bit(Xor64(x, y), i) == (Bit(x, i) + Bit(y, i)) % 2
    ensures Bit(And64(x, y), i) == Bit(x, i) * Bit(y, i)
    ensures x < TWO64 ==> Bit(Not64(x), i) == 1 - Bit(x, i)
  {
    hide Bit, Bitwise, Pow2;
    Pow2Values();
    OperatorBits(x, y, 64, i);
    if x < TWO64 {
      NotBit(x, 64, i);
    }
  }

  lemma Bounds64(x: nat, y: nat)
    ensures Xor64(x, y) < TWO64 && And64(x, y) < TWO64 && Not64(x) < TWO64
  {
    hide Bitwise, Pow2;
    Pow2Values();
  }
}
