/**
 JavaScript numbers that hold integers. Sums are exact only below 2^53 in magnitude; bit operations first take their
 operands modulo 2^32 and give a signed 32-bit result, except `>>>`, which gives an unsigned one.
 */
module JsNumber {
  import Arithmetic

  const TWO31: int := 0x8000_0000
  const TWO32: int := 0x1_0000_0000
  const TWO53: int := 0x20_0000_0000_0000

  function Pow2(n: nat): (p: nat)
    ensures p >= 1
  {
    if n == 0 then 1 else 2 * Pow2(n - 1)
  }

  lemma {:induction false} Pow2Adds(m: nat, n: nat)
    ensures Pow2(m + n) == Pow2(m) * Pow2(n)
    decreases n
  {
    if n > 0 {
      Pow2Adds(m, n - 1);
      assert Pow2(m) * (2 * Pow2(n - 1)) == 2 * (Pow2(m) * Pow2(n - 1));
    }
  }

  lemma Pow2Step(n: nat)
    ensures Pow2(n + 1) == 2 * Pow2(n)
  {
  }

  lemma Pow2Values()
    ensures Pow2(32) == TWO32
    ensures Pow2(64) == TWO32 * TWO32
  {
    assert Pow2(4) == 16;
    hide Pow2;
    Pow2Adds(4, 4);
    Pow2Adds(8, 8);
    Pow2Adds(16, 16);
    Pow2Adds(32, 32);
  }

  // ----- sums

  /** An integer that JavaScript's numbers hold without rounding, whatever its neighbours. */
  predicate Exact(x: int) {
    -TWO53 < x < TWO53
  }

  // ----- conversions

  /** `x >>> 0` */
  function Unsigned(x: int): (u: nat)
    ensures u < TWO32
  {
    x % TWO32
  }

  /** `x | 0` */
  function Signed(x: int): (s: int)
    ensures -TWO31 <= s < TWO31
  {
    var u := x % TWO32;
    if u < TWO31 then u else u - TWO32
  }

  lemma SignedKeeps(x: int)
    ensures Unsigned(Signed(x)) == Unsigned(x)
  {
  }

  lemma UnsignedSum(x: int, y: int)
    ensures Unsigned(x + y) == Unsigned(Unsigned(x) + Unsigned(y))
    ensures Unsigned(x + y) == if Unsigned(x) + Unsigned(y) < TWO32 then Unsigned(x) + Unsigned(y) else Unsigned(x) + Unsigned(y) - TWO32
  {
  }

  /** Multiples of 2^32 do not matter. */
  lemma UnsignedShift(x: int, q: int)
    ensures Unsigned(x + q * TWO32) == Unsigned(x)
  {
    Arithmetic.QuotientShift(x, q, TWO32);
  }

  lemma UnsignedIs(x: int)
    ensures Unsigned(x) == x % TWO32
  {
  }

  lemma UnsignedRest(x: int)
    ensures x == x / TWO32 * TWO32 + Unsigned(x)
  {
  }

  // ----- bit operations

  datatype BitOp = And | Or | Xor

  function BitOf(op: BitOp, a: nat, b: nat): (c: nat)
    ensures c <= 1
  {
    match op
    case And => if a == 1 && b == 1 then 1 else 0
    case Or => if a == 1 || b == 1 then 1 else 0
    case Xor => if a != b then 1 else 0
  }

  /** The operation on the low `n` bits. */
  function Bitwise(op: BitOp, x: nat, y: nat, n: nat): (r: nat)
    ensures r < Pow2(n)
    decreases n, x, y
  {
    if n == 0 then 0 else BitOf(op, x % 2, y % 2) + 2 * Bitwise(op, x / 2, y / 2, n - 1)
  }

  lemma BitwiseParts(op: BitOp, x: nat, y: nat, n: nat)
    requires n > 0
    ensures Bitwise(op, x, y, n) % 2 == BitOf(op, x % 2, y % 2)
    ensures Bitwise(op, x, y, n) / 2 == Bitwise(op, x / 2, y / 2, n - 1)
  {
  }

  // ----- parts of a word

  /** The bits from `k` up. */
  function High(x: nat, k: nat): (h: nat)
    ensures h * Pow2(k) <= x < h * Pow2(k) + Pow2(k)
  {
    assert x == (x / Pow2(k)) * Pow2(k) + x % Pow2(k);
    Arithmetic.MulMonotone(x / Pow2(k), -1, Pow2(k));
    x / Pow2(k)
  }

  /** The `k` low bits. */
  function Low(x: nat, k: nat): (l: nat)
    ensures l < Pow2(k)
  {
    x % Pow2(k)
  }

  /** Moved up by `k` bits. */
  function Up(x: nat, k: nat): nat {
    x * Pow2(k)
  }

  lemma PartsAddUp(x: nat, k: nat)
    ensures x == Up(High(x, k), k) + Low(x, k)
  {
  }

  lemma PartsUnique(x: nat, h: nat, l: nat, k: nat)
    requires x == Up(h, k) + l && l < Pow2(k)
    ensures High(x, k) == h && Low(x, k) == l
  {
    Arithmetic.QuotientUnique(x, h, l, Pow2(k));
  }

  lemma NextParts(x: nat, k: nat)
    ensures High(x, k + 1) == High(x / 2, k)
    ensures Low(x, k + 1) / 2 == Low(x / 2, k) && Low(x, k + 1) % 2 == x % 2
    ensures Up(x, k + 1) == 2 * Up(x, k)
  {
    hide High, Low;
    var p := Pow2(k);
    Pow2Step(k);
    PartsAddUp(x / 2, k);
    var h, l := High(x / 2, k), Low(x / 2, k);
    DoubleIs(h, p, Pow2(k + 1));
    DoubleIs(x, p, Pow2(k + 1));
    assert x == 2 * (x / 2) + x % 2;
    PartsUnique(x, h, 2 * l + x % 2, k + 1);
  }

  lemma DoubleIs(b: int, p: int, q: int)
    requires q == 2 * p
    ensures b * q == 2 * (b * p)
  {
  }

  /** High and low parts are treated apart. */
  lemma {:induction false} BitwiseSplit(op: BitOp, x: nat, y: nat, m: nat, k: nat)
    ensures Bitwise(op, x, y, m + k) == Up(Bitwise(op, High(x, k), High(y, k), m), k) + Bitwise(op, x, y, k)
    decreases k
  {
    hide BitOf, High, Low, Up;
    if k == 0 {
      NoLowPart(x);
      NoLowPart(y);
      NoLowPart(Bitwise(op, x, y, m));
    } else {
      NextParts(x, k - 1);
      NextParts(y, k - 1);
      BitwiseSplit(op, x / 2, y / 2, m, k - 1);
      NextParts(Bitwise(op, High(x, k), High(y, k), m), k - 1);
    }
  }

  /** What the three operators mean: `&` finds the carries that `^` and `|` leave out of the sum. */
  lemma {:induction false} BitSums(x: nat, y: nat, n: nat)
    ensures Bitwise(Xor, x, y, n) + 2 * Bitwise(And, x, y, n) == x % Pow2(n) + y % Pow2(n)
    ensures Bitwise(Or, x, y, n) + Bitwise(And, x, y, n) == x % Pow2(n) + y % Pow2(n)
    decreases n
  {
    if n == 0 {
      NoLowPart(x);
      NoLowPart(y);
    } else {
      NextParts(x, n - 1);
      NextParts(y, n - 1);
      BitSums(x / 2, y / 2, n - 1);
      hide Pow2;
      assert Low(x, n) == 2 * Low(x / 2, n - 1) + x % 2 && Low(y, n) == 2 * Low(y / 2, n - 1) + y % 2;
    }
  }

  lemma NoLowPart(x: nat)
    ensures High(x, 0) == x && Up(x, 0) == x && Low(x, 0) == 0
  {
  }

  /** Only the low `n` bits matter. */
  lemma {:induction false} BitwiseLow(op: BitOp, x: nat, y: nat, n: nat)
    ensures Bitwise(op, Low(x, n), Low(y, n), n) == Bitwise(op, x, y, n)
    decreases n
  {
    hide BitOf, High, Low, Up;
    if n > 0 {
      NextParts(x, n - 1);
      NextParts(y, n - 1);
      BitwiseLow(op, x / 2, y / 2, n - 1);
    }
  }

  lemma {:induction false} BitwiseZero(x: nat, n: nat)
    requires x < Pow2(n)
    ensures Bitwise(Or, x, 0, n) == x && Bitwise(Or, 0, x, n) == x
    ensures Bitwise(Xor, x, 0, n) == x && Bitwise(Xor, 0, x, n) == x
    decreases n
  {
    if n > 0 {
      BitwiseZero(x / 2, n - 1);
    }
  }

  lemma {:induction false} BitwiseCommutes(op: BitOp, x: nat, y: nat, n: nat)
    ensures Bitwise(op, x, y, n) == Bitwise(op, y, x, n)
    decreases n
  {
    if n > 0 {
      BitwiseCommutes(op, x / 2, y / 2, n - 1);
    }
  }

  /** Masking with ones keeps the low bits. */
  lemma {:induction false} AndOnes(x: nat, n: nat)
    ensures Bitwise(And, x, Pow2(n) - 1, n) == Low(x, n)
    ensures Bitwise(And, x, 0, n) == 0
    decreases n
  {
    hide High, Low, Up;
    if n == 0 {
      NoLowPart(x);
    } else {
      NextParts(x, n - 1);
      AndOnes(x / 2, n - 1);
      assert (Pow2(n) - 1) / 2 == Pow2(n - 1) - 1;
    }
  }

  /** Parts that share no bit add up, under `|` and under `^`. */
  lemma DisjointAdd(op: BitOp, a: nat, b: nat, m: nat, k: nat)
    requires op != And && a < Pow2(k) && b < Pow2(m)
    ensures Bitwise(op, a, Up(b, k), m + k) == a + Up(b, k)
    ensures Bitwise(op, Up(b, k), a, m + k) == a + Up(b, k)
  {
    hide Pow2, Bitwise, Up, High, Low;
    UpZero(k);
    PartsUnique(a, 0, a, k);
    PartsUnique(Up(b, k), b, 0, k);
    BitwiseSplit(op, a, Up(b, k), m, k);
    BitwiseLow(op, a, Up(b, k), k);
    BitwiseZero(a, k);
    BitwiseZero(b, m);
    BitwiseCommutes(op, a, Up(b, k), m + k);
  }

  lemma UpZero(k: nat)
    ensures Up(0, k) == 0
  {
  }

  /** `x op y` for `&`, `|` and `^` */
  function Bits(op: BitOp, x: int, y: int): (r: int)
    ensures -TWO31 <= r < TWO31
  {
    Signed(Bitwise(op, Unsigned(x), Unsigned(y), 32))
  }

  /** `~x` */
  function Not(x: int): int {
    Signed(-x - 1)
  }

  /** Exclusive-or of unsigned words. */
  function Xor32(x: nat, y: nat): (r: nat)
    ensures r < TWO32
  {
    Pow2Values();
    Bitwise(Xor, x, y, 32)
  }

  /** `x << k` */
  function Shl(x: int, k: nat): int
    requires k < 32
  {
    Signed(Up(Unsigned(x), k))
  }

  /** `x >>> k` */
  function Shr(x: int, k: nat): nat
    requires k < 32
  {
    High(Unsigned(x), k)
  }

  lemma BitsUnsigned(op: BitOp, x: int, y: int)
    ensures Unsigned(Bits(op, x, y)) == Bitwise(op, Unsigned(x), Unsigned(y), 32)
  {
    hide Bitwise, Pow2;
    Pow2Values();
    SignedKeeps(Bitwise(op, Unsigned(x), Unsigned(y), 32));
  }

  lemma UnsignedTwice(x: int)
    ensures Unsigned(Unsigned(x)) == Unsigned(x)
  {
  }
}
