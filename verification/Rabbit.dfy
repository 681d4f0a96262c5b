/**
 The Rabbit stream cipher (js/rollups/rabbit-legacy.js:32-36): the state as section 2 of RFC 4503 defines it, and the
 object that computes it with JavaScript numbers.
 */
module Rabbit {
  import opened Arithmetic
  import opened JsNumber
  import opened Lanes

  // ----- the state, sections 2.2 and 2.5 of RFC 4503

  predicate Eight(s: seq<nat>) {
    |s| == 8 && forall i :: 0 <= i < 8 ==> s[i] < TWO32
  }

  type Words8 = s: seq<nat> | Eight(s) witness [0, 0, 0, 0, 0, 0, 0, 0]

  /** The state variables, the counters and the counter carry. */
  datatype State = State(x: Words8, c: Words8, b: nat)

  function A(j: nat): (a: nat)
    ensures 0 < a < TWO32 - 1
  {
    if j % 3 == 0 then 0x4D34_D34D else if j % 3 == 1 then 0xD34D_34D3 else 0x34D3_4D34
  }

  /** The carry into counter word `j`. */
  function CarryInto(c: Words8, b: nat, j: nat): nat
    requires j <= 8
  {
    if j == 0 then b else (c[j - 1] + A(j - 1) + CarryInto(c, b, j - 1)) / TWO32
  }

  function Counter(c: Words8, b: nat): Words8 {
    seq(8, j requires 0 <= j < 8 => (c[j] + A(j) + CarryInto(c, b, j)) % TWO32)
  }

  /** Section 2.6: the two halves of a 64-bit square, folded together. */
  function G(u: nat): nat {
    Bitwise(Xor, u * u / TWO32, u * u % TWO32, 32)
  }

  function Rotl(u: nat, n: nat): nat
    requires n <= 32
  {
    High(u, 32 - n) + Up(Low(u, 32 - n), n)
  }

  function Mix(g: seq<nat>, j: nat): nat
    requires |g| == 8 && j < 8
  {
    if j % 2 == 0 then (g[j] + Rotl(g[(j + 7) % 8], 16) + Rotl(g[(j + 6) % 8], 16)) % TWO32
    else (g[j] + Rotl(g[(j + 7) % 8], 8) + g[(j + 6) % 8]) % TWO32
  }

  function Gs(x: Words8, c: Words8): (g: seq<nat>)
    ensures |g| == 8
  {
    seq(8, j requires 0 <= j < 8 => G((x[j] + c[j]) % TWO32))
  }

  function NextX(x: Words8, c: Words8): Words8 {
    var g := Gs(x, c);
    seq(8, j requires 0 <= j < 8 => Mix(g, j))
  }

  function Next(s: State): State {
    var c := Counter(s.c, s.b);
    State(NextX(s.x, c), c, CarryInto(s.c, s.b, 8))
  }

  function After(s: State, n: nat): State {
    if n == 0 then s else Next(After(s, n - 1))
  }

  // ----- the counter system is one addition

  /** The number that the first `n` words make, least significant word first. */
  function Number(c: seq<nat>, n: nat): nat
    requires n <= |c|
  {
    if n == 0 then 0 else Number(c, n - 1) + Up(c[n - 1], 32 * (n - 1))
  }

  function Addends(): (s: seq<nat>)
    ensures |s| == 8
  {
    seq(8, j requires 0 <= j < 8 => A(j))
  }

  lemma NextCarry(c: Words8, b: nat, n: nat)
    requires 0 < n <= 8
    ensures var t := c[n - 1] + A(n - 1) + CarryInto(c, b, n - 1);
            CarryInto(c, b, n) == t / TWO32 && Counter(c, b)[n - 1] == t % TWO32
  {
  }

  lemma {:induction false} CounterAdds(c: Words8, b: nat, n: nat)
    requires n <= 8
    ensures Number(Counter(c, b), n) + Up(CarryInto(c, b, n), 32 * n) == Number(c, n) + Number(Addends(), n) + b
    decreases n
  {
    hide Up, Low, High, Pow2, A, Counter;
    if n == 0 {
      NoLowPart(b);
    } else {
      CounterAdds(c, b, n - 1);
      NextCarry(c, b, n);
      hide CarryInto;
      var k := 32 * (n - 1);
      var t := c[n - 1] + A(n - 1) + CarryInto(c, b, n - 1);
      UpUp(t / TWO32, 32, k);
      Up32(t / TWO32);
      UpAdds(Up(t / TWO32, 32), t % TWO32, k);
      UpAdds(c[n - 1] + A(n - 1), CarryInto(c, b, n - 1), k);
      UpAdds(c[n - 1], A(n - 1), k);
    }
  }

  function Whole(s: State): nat {
    Number(s.c, 8)
  }

  /** Section 2.5: one step adds the constant and the old carry to the 256-bit counter; the new carry is bit 256. */
  lemma StepIsAddition(s: State)
    ensures Whole(Next(s)) + Up(Next(s).b, 256) == Whole(s) + Number(Addends(), 8) + s.b
  {
    CounterAdds(s.c, s.b, 8);
  }

  const MODULUS: nat := Pow2(256) - 1

  lemma ModulusPositive()
    ensures MODULUS > 0
  {
    Pow2Adds(8, 248);
    assert Pow2(8) == 256;
    MulMonotone(1, Pow2(248), 256);
  }

  /** The counter and its carry together step by the constant modulo 2^256 - 1. */
  lemma {:induction false} CounterSystem(s: State, n: nat)
    ensures MODULUS > 0
    ensures (Whole(After(s, n)) + After(s, n).b) % MODULUS == (Whole(s) + s.b + n * Number(Addends(), 8)) % MODULUS
    decreases n
  {
    hide Pow2, Next, Number, Addends;
    ModulusPositive();
    if n > 0 {
      CounterSystem(s, n - 1);
      var t := After(s, n - 1);
      StepIsAddition(t);
      var u, a := Next(t), Number(Addends(), 8);
      MulDistributes(n - 1, 1, a);
      UpIsMultiple(u.b);
      StepModulo(Whole(u) + u.b, Whole(t) + t.b, u.b, a, Whole(s) + s.b + (n - 1) * a, MODULUS);
    }
  }

  lemma UpIsMultiple(b: nat)
    ensures Up(b, 256) == b * MODULUS + b
  {
    MulDistributes(Pow2(256), 1, b);
  }

  lemma StepModulo(x: nat, y: nat, m: nat, a: nat, z: nat, d: nat)
    requires d > 0 && x + m * d == y + a && y % d == z % d
    ensures x % d == (z + a) % d
  {
    QuotientShift(x, m, d);
    assert y == (y / d) * d + y % d && z == (z / d) * d + z % d;
    QuotientShift(y % d + a, y / d, d);
    QuotientShift(y % d + a, z / d, d);
  }

  // ----- squaring in half-words

  /** A number between the two readings of a 32-bit word. */
  predicate Wordlike(x: int) {
    -TWO31 <= x < TWO32
  }

  lemma HalfMasks(e: int)
    ensures Unsigned(Bits(And, e, 65535)) == Bits(And, e, 65535) == Low(Unsigned(e), 16)
    ensures Unsigned(Bits(And, e, 4294901760)) == Up(High(Unsigned(e), 16), 16)
  {
    hide Bitwise, High, Low, Up, Pow2;
    var u := Unsigned(e);
    Sixteen();
    BitsUnsigned(And, e, 65535);
    BitsUnsigned(And, e, 4294901760);
    BitwiseSplit(And, u, 65535, 16, 16);
    BitwiseSplit(And, u, 4294901760, 16, 16);
    PartsUnique(65535, 0, 65535, 16);
    PartsUnique(4294901760, 65535, 0, 16);
    AndOnes(High(u, 16), 16);
    AndOnes(u, 16);
    AndOnes(Low(u, 16), 16);
    BitwiseLow(And, u, 4294901760, 16);
    HighBound(u, 16, 16);
    PartsUnique(High(u, 16), 0, High(u, 16), 16);
    UpZero(16);
  }

  lemma Sixteen()
    ensures Pow2(16) == 65536 && Pow2(32) == TWO32
    ensures forall a: nat :: Up(a, 16) == a * 65536
  {
    Pow2Values();
    assert Pow2(8) == 256;
    Pow2Adds(8, 8);
  }

  function Times(x: int, y: int): int {
    x * y
  }

  /** The expression the code puts into `c[a]` for `e = b[a] + d[a]`. */
  function Square(e: int): int {
    var k := Bits(And, e, 65535);
    var l := Shr(e, 16);
    Bits(Xor, Shr(Shr(Times(k, k), 17) + Times(k, l), 15) + Times(l, l),
      Signed(Times(Bits(And, e, 4294901760), e)) + Signed(Times(Bits(And, e, 65535), e)))
  }

  lemma SquareHigh(k: nat, l: nat)
    requires k < 65536 && l < 65536
    ensures k * k / 131072 + k * l < TWO32 && k * k < TWO32
    ensures (k * k / 131072 + k * l) / 32768 + l * l == (l * 65536 + k) * (l * 65536 + k) / TWO32
  {
    var kk, kl, ll := k * k, k * l, l * l;
    Products(k, l);
    assert (l * 65536 + k) * (l * 65536 + k) == ll * TWO32 + kl * 131072 + kk by {
      SquareOfSum(k, l);
    }
    assert (ll * TWO32 + kl * 131072 + kk) / TWO32 == ll + (kl * 131072 + kk) / TWO32;
  }

  lemma SquareOfSum(k: nat, l: nat)
    ensures (l * 65536 + k) * (l * 65536 + k) == l * l * TWO32 + k * l * 131072 + k * k
  {
    MulDistributes(l * 65536, k, l * 65536 + k);
    MulDistributes(l * 65536, k, k);
    MulDistributes(l * 65536, k, l * 65536);
  }

  lemma Products(k: nat, l: nat)
    requires k < 65536 && l < 65536
    ensures k * k <= 65535 * 65535 && k * l <= 65535 * 65535 && l * l <= 65535 * 65535
  {
    MulMonotone(k, 65535, k);
    MulMonotone(l, 65535, k);
    MulMonotone(k, 65535, l);
    MulMonotone(l, 65535, l);
  }

  lemma UnsignedFactor(x: int, y: int)
    ensures Unsigned(x * y) == Unsigned(Unsigned(x) * y)
  {
    var u, q := Unsigned(x), x / TWO32;
    MulDistributes(u, q * TWO32, y);
    MulThree(q, TWO32, y);
    QuotientShift(u * y, q * y, TWO32);
  }

  lemma UnsignedProduct(x: int, y: int)
    ensures Unsigned(x * y) == Unsigned(Unsigned(x) * Unsigned(y))
  {
    UnsignedFactor(x, y);
    UnsignedFactor(y, Unsigned(x));
  }

  lemma MulThree(a: int, b: int, c: int)
    ensures a * b * c == a * c * b
  {
  }

  /** The low word of the square, from the two truncated products. */
  lemma SquareLow(e: int, m: int, k: int, u: nat)
    requires Unsigned(m) + k == Unsigned(e) == u && 0 <= k < TWO32
    ensures Unsigned(Signed(Times(m, e)) + Signed(Times(k, e))) == Times(u, u) % TWO32
  {
    hide Unsigned, Signed;
    UnsignedSum(Signed(m * e), Signed(k * e));
    SignedKeeps(m * e);
    SignedKeeps(k * e);
    UnsignedSum(m * e, k * e);
    MulDistributes(m, k, e);
    UnsignedProduct(m + k, e);
    UnsignedSum(m, k);
    UnsignedSmall(k);
    UnsignedSmall(u);
    UnsignedIs(u * u);
  }

  lemma Halves(e: int)
    ensures var k, l, m := Bits(And, e, 65535), Shr(e, 16), Bits(And, e, 4294901760);
            && 0 <= k < 65536 && l < 65536 && Unsigned(e) == l * 65536 + k
            && Unsigned(m) == l * 65536 && Unsigned(m) + k == Unsigned(e) && m % 65536 == 0
  {
    hide Bitwise, High, Low, Up, Pow2, Bits;
    Sixteen();
    HalfMasks(e);
    PartsAddUp(Unsigned(e), 16);
    HighBound(Unsigned(e), 16, 16);
  }

  lemma ProductBounds(k: nat, l: nat)
    requires k < 65536 && l < 65536
    ensures 0 <= Times(k, k) < TWO32 && 0 <= Times(l, l) < TWO32 && 0 <= Times(k, l)
    ensures Times(k, k) / 131072 + Times(k, l) < TWO32
  {
    Products(k, l);
  }

  lemma BoundedProduct(k: int, e: int)
    requires -65536 <= k < 65536 && -TWO32 <= e < 2 * TWO32
    ensures Exact(Times(k, e))
  {
    MulMonotone(-TWO32, e, if k < 0 then -k else k);
    MulMonotone(e, 2 * TWO32, if k < 0 then -k else k);
    assert -k * e == -(k * e);
  }

  lemma BoundedLargeProduct(m: int, e: int)
    requires -TWO31 <= m < TWO31 && m % 65536 == 0 && -TWO32 <= e < 2 * TWO32
    ensures Exact(Times(m / 65536, e)) && Times(m, e) == 65536 * Times(m / 65536, e)
  {
    BoundedProduct(m / 65536, e);
    assert m == 65536 * (m / 65536);
    MulAssociates(65536, m / 65536, e);
  }

  lemma ShiftsAre(x: nat)
    requires x < TWO32
    ensures Shr(x, 17) == x / 131072 && Shr(x, 15) == x / 32768
  {
    assert Pow2(17) == 131072 && Pow2(15) == 32768;
  }

  /** No intermediate of `Square` is rounded: sums stay below 2^53, and the large product is 2^16 times such a number. */
  predicate Unrounded(e: int) {
    UnroundedParts(e, Bits(And, e, 65535), Shr(e, 16), Bits(And, e, 4294901760))
  }

  predicate UnroundedParts(e: int, k: int, l: int, m: int) {
    && Exact(e)
    && Exact(Times(k, k)) && Exact(Times(l, l)) && 0 <= Shr(Times(k, k), 17) + Times(k, l) < TWO32
    && Exact(Shr(Shr(Times(k, k), 17) + Times(k, l), 15) + Times(l, l))
    && Exact(Times(k, e)) && Exact(Times(m / 65536, e)) && Times(m, e) == 65536 * Times(m / 65536, e)
  }

  lemma HalfProductsExact(k: nat, l: nat)
    requires k < 65536 && l < 65536
    ensures Exact(Times(k, k)) && Exact(Times(l, l)) && 0 <= Shr(Times(k, k), 17) + Times(k, l) < TWO32
    ensures Exact(Shr(Shr(Times(k, k), 17) + Times(k, l), 15) + Times(l, l))
  {
    hide Times, Shr;
    ProductBounds(k, l);
    ShiftsAre(Times(k, k));
    HighPart(k, l, l * 65536 + k);
  }

  lemma PartsExact(e: int, k: nat, l: nat, m: int)
    requires -TWO32 <= e < 2 * TWO32 && k < 65536 && l < 65536
    requires -TWO31 <= m < TWO31 && m % 65536 == 0
    ensures UnroundedParts(e, k, l, m)
  {
    assert Exact(e);
    hide Times, Shr, Exact;
    HalfProductsExact(k, l);
    BoundedProduct(k, e);
    BoundedLargeProduct(m, e);
  }

  lemma SquareExact(e: int)
    requires -TWO32 <= e < 2 * TWO32
    ensures Unrounded(e)
  {
    hide UnroundedParts, Bits, Shr, Unsigned;
    Halves(e);
    PartsExact(e, Bits(And, e, 65535), Shr(e, 16), Bits(And, e, 4294901760));
  }

  lemma HighPart(k: nat, l: nat, u: nat)
    requires k < 65536 && l < 65536 && u == l * 65536 + k
    ensures Shr(Shr(Times(k, k), 17) + Times(k, l), 15) + Times(l, l) == Times(u, u) / TWO32
    ensures 0 <= Times(u, u) / TWO32 < TWO32
  {
    hide Shr, Times;
    ProductBounds(k, l);
    ShiftsAre(Times(k, k));
    ShiftsAre(Times(k, k) / 131072 + Times(k, l));
    SquareQuotient(k, l, u);
  }

  lemma SquareQuotient(k: nat, l: nat, u: nat)
    requires k < 65536 && l < 65536 && u == l * 65536 + k
    ensures (Times(k, k) / 131072 + Times(k, l)) / 32768 + Times(l, l) == Times(u, u) / TWO32
    ensures 0 <= Times(u, u) / TWO32 < TWO32
  {
    SquareHigh(k, l);
    MulMonotone(u, TWO32 - 1, u);
    MulMonotone(u, TWO32 - 1, TWO32 - 1);
  }

  lemma Folded(u: nat)
    ensures G(u) == Bitwise(Xor, Times(u, u) / TWO32, Times(u, u) % TWO32, 32)
  {
  }

  /** Section 2.6 of RFC 4503: the code's half-word arithmetic folds the 64-bit square of the sum modulo 2^32. */
  lemma SquareIsG(e: int)
    ensures Unsigned(Square(e)) == G(Unsigned(e))
  {
    hide Bitwise, Times, Shr, Signed, G;
    var u := Unsigned(e);
    var k, l, m := Bits(And, e, 65535), Shr(e, 16), Bits(And, e, 4294901760);
    Halves(e);
    SquareLow(e, m, k, u);
    HighPart(k, l, u);
    var hi, lo := Shr(Shr(Times(k, k), 17) + Times(k, l), 15) + Times(l, l), Signed(Times(m, e)) + Signed(Times(k, e));
    BitsUnsigned(Xor, hi, lo);
    UnsignedSmall(hi);
    Folded(u);
  }
}
