/**
 SHA-1 (js/rollups/pbkdf2.js:14-15), the default hash function of PBKDF2: the block function on JavaScript numbers against
 section 6.1.2 of FIPS 180-4, in place, and the object's functions for the hasher.
 */
module Sha1s {
  import opened WordArrays
  import opened B = BufferedBlocks
  import opened JsNumber
  import opened MachineWords
  import Lanes
  import opened LengthPaddings
  import opened Hashers
  import opened Hmacs

  // ----- section 6.1.2 of FIPS 180-4 on 32-bit words

  function Rotl32(u: nat, n: nat): nat
    requires n <= 32
  {
    Lanes.Funnel(u, u, 32 - n)
  }

  function And32(x: nat, y: nat): nat {
    Bitwise(And, x, y, 32)
  }

  function Not32(x: nat): nat {
    if x < TWO32 then TWO32 - 1 - x else 0
  }

  function Ch(x: nat, y: nat, z: nat): nat {
    Xor32(And32(x, y), And32(Not32(x), z))
  }

  function Parity(x: nat, y: nat, z: nat): nat {
    Xor32(Xor32(x, y), z)
  }

  function Maj(x: nat, y: nat, z: nat): nat {
    Xor32(Xor32(And32(x, y), And32(x, z)), And32(y, z))
  }

  /** Section 4.1.1. */
  function Function(t: nat, x: nat, y: nat, z: nat): nat {
    if t < 20 then Ch(x, y, z)
    else if t < 40 then Parity(x, y, z)
    else if t < 60 then Maj(x, y, z)
    else Parity(x, y, z)
  }

  /** Section 4.2.1. */
  function Constant(t: nat): nat {
    if t < 20 then 0x5A82_7999 else if t < 40 then 0x6ED9_EBA1 else if t < 60 then 0x8F1B_BCDC else 0xCA62_C1D6
  }

  /** The message schedule of a block of sixteen words. */
  function W(m: seq<nat>, t: nat): nat
    requires |m| == 16
    decreases t, m
  {
    if t < 16 then m[t]
    else Rotl32(Xor32(Xor32(Xor32(W(m, t - 3), W(m, t - 8)), W(m, t - 14)), W(m, t - 16)), 1)
  }

  datatype Five<T> = Five(a: T, b: T, c: T, d: T, e: T)

  function Round(v: Five<nat>, t: nat, w: nat): Five<nat> {
    Five((Rotl32(v.a, 5) + Function(t, v.b, v.c, v.d) + v.e + Constant(t) + w) % TWO32, v.a, Rotl32(v.b, 30), v.c, v.d)
  }

  function Rounds(v: Five<nat>, m: seq<nat>, t: nat): Five<nat>
    requires |m| == 16
    decreases t, m
  {
    if t == 0 then v else Round(Rounds(v, m, t - 1), t - 1, W(m, t - 1))
  }

  function Compress(v: Five<nat>, m: seq<nat>): Five<nat>
    requires |m| == 16
  {
    var r := Rounds(v, m, 80);
    Five((v.a + r.a) % TWO32, (v.b + r.b) % TWO32, (v.c + r.c) % TWO32, (v.d + r.d) % TWO32, (v.e + r.e) % TWO32)
  }

  // ----- the code

  const INITIAL: Five<int> := Five(1732584193, 4023233417, 2562383102, 271733878, 3285377520)

  /** `x << n | x >>> 32 - n` */
  function RotateLeft(x: int, n: nat): (r: int)
    requires 0 < n < 32
    ensures -TWO31 <= r < TWO31
  {
    Bits(Or, Shl(x, n), Shr(x, 32 - n))
  }

  /** The part of `c` that depends on the pass: a function of three variables and a constant. */
  function Mixed(t: nat, k: int, h: int, g: int): int {
    if t < 20 then Bits(Or, Bits(And, k, h), Bits(And, Not(k), g)) + 1518500249
    else if t < 40 then Bits(Xor, Bits(Xor, k, h), g) + 1859775393
    else if t < 60 then Bits(Or, Bits(Or, Bits(And, k, h), Bits(And, k, g)), Bits(And, h, g)) - 1894007588
    else Bits(Xor, Bits(Xor, k, h), g) - 899497514
  }

  /** One pass of the loop after the schedule word. */
  function Pass(v: Five<int>, t: nat, m: int): Five<int> {
    Five(RotateLeft(v.a, 5) + v.e + m + Mixed(t, v.b, v.c, v.d), v.a, RotateLeft(v.b, 30), v.c, v.d)
  }

  function NextWord(w3: int, w8: int, w14: int, w16: int): int {
    RotateLeft(Bits(Xor, Bits(Xor, Bits(Xor, w3, w8), w14), w16), 1)
  }

  function ScheduleWord(ws: seq<int>, a: seq<int>): (w: int)
    requires |a| == 16
    ensures -TWO31 <= w < TWO31
  {
    var t := |ws|;
    if t < 16 then Signed(a[t]) else NextWord(ws[t - 3], ws[t - 8], ws[t - 14], ws[t - 16])
  }

  /** The schedule array after `t` passes. */
  function Schedule(a: seq<int>, t: nat): (ws: seq<int>)
    requires |a| == 16
    ensures |ws| == t
    decreases t, a
  {
    if t == 0 then [] else
    var ws := Schedule(a, t - 1);
    ws + [ScheduleWord(ws, a)]
  }

  function Passes(v: Five<int>, a: seq<int>, t: nat): Five<int>
    requires |a| == 16
    decreases t, a
  {
    if t == 0 then v else Pass(Passes(v, a, t - 1), t - 1, ScheduleWord(Schedule(a, t - 1), a))
  }

  /** `b[0] = b[0] + l | 0` and its companions. */
  function FeedForward(h: Five<int>, r: Five<int>): Five<int> {
    Five(Signed(h.a + r.a), Signed(h.b + r.b), Signed(h.c + r.c), Signed(h.d + r.d), Signed(h.e + r.e))
  }

  function Block(h: Five<int>, a: seq<int>): Five<int>
    requires |a| == 16
  {
    FeedForward(h, Passes(h, a, 80))
  }

  // ----- no sum is rounded

  /** Words of the state: truncated, or one of the unsigned constants. */
  predicate InRange(v: Five<int>) {
    && -TWO31 <= v.a < TWO32 && -TWO31 <= v.b < TWO32 && -TWO31 <= v.c < TWO32
    && -TWO31 <= v.d < TWO32 && -TWO31 <= v.e < TWO32
  }

  /** Only the first two working variables are sums that have not been truncated. */
  predicate Working(v: Five<int>) {
    && -8 * TWO32 <= v.a <= 8 * TWO32 && -8 * TWO32 <= v.b <= 8 * TWO32
    && -TWO31 <= v.c < TWO32 && -TWO31 <= v.d < TWO32 && -TWO31 <= v.e < TWO32
  }

  /** The sums of a pass, in the order in which they are made. */
  predicate PassRoom(v: Five<int>, t: nat, m: int) {
    && Exact(RotateLeft(v.a, 5) + v.e) && Exact(RotateLeft(v.a, 5) + v.e + m) && Exact(Mixed(t, v.b, v.c, v.d))
    && Exact(Pass(v, t, m).a)
  }

  lemma MixedBound(t: nat, k: int, h: int, g: int)
    ensures -2 * TWO32 <= Mixed(t, k, h, g) <= 2 * TWO32
  {
    hide Bits, Not;
  }

  lemma PassExact(v: Five<int>, t: nat, m: int)
    requires Working(v) && -TWO31 <= m < TWO31
    ensures PassRoom(v, t, m) && Working(Pass(v, t, m))
  {
    hide Mixed, RotateLeft;
    MixedBound(t, v.b, v.c, v.d);
  }

  lemma {:induction false} PassesExact(h: Five<int>, a: seq<int>, t: nat)
    requires InRange(h) && |a| == 16
    ensures Working(Passes(h, a, t))
    ensures forall i: nat | i < t :: PassRoom(Passes(h, a, i), i, ScheduleWord(Schedule(a, i), a))
    decreases t
  {
    hide PassRoom, Pass, ScheduleWord, Schedule;
    if t > 0 {
      PassesExact(h, a, t - 1);
      PassExact(Passes(h, a, t - 1), t - 1, ScheduleWord(Schedule(a, t - 1), a));
    }
  }

  /** No sum that the block function makes is rounded. */
  predicate BlockRoom(h: Five<int>, a: seq<int>)
    requires |a| == 16
  {
    var r := Passes(h, a, 80);
    && (forall t: nat | t < 80 :: PassRoom(Passes(h, a, t), t, ScheduleWord(Schedule(a, t), a)))
    && Exact(h.a + r.a) && Exact(h.b + r.b) && Exact(h.c + r.c) && Exact(h.d + r.d) && Exact(h.e + r.e)
  }

  /** Every sum of every block is exact, and the state is in range again. */
  lemma BlockExact(h: Five<int>, a: seq<int>)
    requires InRange(h) && |a| == 16
    ensures BlockRoom(h, a) && InRange(Block(h, a))
  {
    hide PassRoom, Passes, Schedule, ScheduleWord;
    PassesExact(h, a, 80);
  }

  // ----- the code computes the standard's words

  function Words(v: Five<int>): Five<nat> {
    Five(Unsigned(v.a), Unsigned(v.b), Unsigned(v.c), Unsigned(v.d), Unsigned(v.e))
  }

  lemma RotateLeftIs(x: int, n: nat)
    requires 0 < n < 32
    ensures Unsigned(RotateLeft(x, n)) == Rotl32(Unsigned(x), n)
  {
    hide Bits, Shl, Shr, Lanes.Funnel, Unsigned;
    Lanes.RotHalfUnsigned(x, x, 32 - n);
  }

  /** The lowest bits of a complement. */
  lemma NotParts(x: nat, n: nat)
    requires n > 0 && x < Pow2(n)
    ensures (Pow2(n) - 1 - x) % 2 == 1 - x % 2 && (Pow2(n) - 1 - x) / 2 == Pow2(n - 1) - 1 - x / 2
  {
  }

  /** `x & y` and `~x & z` share no bit, so that `|` joins them as `^` does. */
  lemma {:induction false} ChooseBits(x: nat, y: nat, z: nat, n: nat)
    requires x < Pow2(n)
    ensures var p, q := Bitwise(And, x, y, n), Bitwise(And, Pow2(n) - 1 - x, z, n);
            Bitwise(Or, p, q, n) == Bitwise(Xor, p, q, n)
    decreases n
  {
    if n > 0 {
      NotParts(x, n);
      ChooseBits(x / 2, y / 2, z / 2, n - 1);
    }
  }

  lemma MajorityBit(a: nat, b: nat, c: nat)
    ensures var p, q, r := BitOf(And, a, b), BitOf(And, a, c), BitOf(And, b, c);
            BitOf(Or, BitOf(Or, p, q), r) == BitOf(Xor, BitOf(Xor, p, q), r)
  {
  }

  lemma EqualParts(x: nat, y: nat)
    requires x % 2 == y % 2 && x / 2 == y / 2
    ensures x == y
  {
  }

  /** The majority of three bits, with `|` as with `^`. */
  lemma {:induction false} MajorityBits(x: nat, y: nat, z: nat, n: nat)
    ensures var p, q, r := Bitwise(And, x, y, n), Bitwise(And, x, z, n), Bitwise(And, y, z, n);
            Bitwise(Or, Bitwise(Or, p, q, n), r, n) == Bitwise(Xor, Bitwise(Xor, p, q, n), r, n)
    decreases n
  {
    if n > 0 {
      MajorityBits(x / 2, y / 2, z / 2, n - 1);
      hide Bitwise, BitOf;
      var p, q, r := Bitwise(And, x, y, n), Bitwise(And, x, z, n), Bitwise(And, y, z, n);
      BitwiseParts(And, x, y, n);
      BitwiseParts(And, x, z, n);
      BitwiseParts(And, y, z, n);
      BitwiseParts(Or, p, q, n);
      BitwiseParts(Xor, p, q, n);
      BitwiseParts(Or, Bitwise(Or, p, q, n), r, n);
      BitwiseParts(Xor, Bitwise(Xor, p, q, n), r, n);
      MajorityBit(x % 2, y % 2, z % 2);
      EqualParts(Bitwise(Or, Bitwise(Or, p, q, n), r, n), Bitwise(Xor, Bitwise(Xor, p, q, n), r, n));
    }
  }

  lemma ChooseIs(k: int, h: int, g: int)
    ensures Unsigned(Bits(Or, Bits(And, k, h), Bits(And, Not(k), g))) == Ch(Unsigned(k), Unsigned(h), Unsigned(g))
  {
    hide Bitwise, Bits, Not, Unsigned, Pow2;
    Pow2Values();
    Lanes.NotUnsigned(k);
    BitsUnsigned(And, k, h);
    BitsUnsigned(And, Not(k), g);
    BitsUnsigned(Or, Bits(And, k, h), Bits(And, Not(k), g));
    ChooseBits(Unsigned(k), Unsigned(h), Unsigned(g), 32);
  }

  lemma ParityIs(k: int, h: int, g: int)
    ensures Unsigned(Bits(Xor, Bits(Xor, k, h), g)) == Parity(Unsigned(k), Unsigned(h), Unsigned(g))
  {
    hide Bitwise, Bits, Unsigned;
    BitsUnsigned(Xor, k, h);
    BitsUnsigned(Xor, Bits(Xor, k, h), g);
  }

  lemma MajorityIs(k: int, h: int, g: int)
    ensures Unsigned(Bits(Or, Bits(Or, Bits(And, k, h), Bits(And, k, g)), Bits(And, h, g))) == Maj(Unsigned(k), Unsigned(h), Unsigned(g))
  {
    hide Bitwise, Bits, Unsigned;
    var p, q, r := Bits(And, k, h), Bits(And, k, g), Bits(And, h, g);
    BitsUnsigned(And, k, h);
    BitsUnsigned(And, k, g);
    BitsUnsigned(And, h, g);
    BitsUnsigned(Or, p, q);
    BitsUnsigned(Or, Bits(Or, p, q), r);
    MajorityBits(Unsigned(k), Unsigned(h), Unsigned(g), 32);
  }

  lemma SumModulo(x: int, y: int, z: int, f: int, k: int)
    ensures Unsigned(x + y + z + (f + k)) == (Unsigned(x) + Unsigned(f) + Unsigned(y) + Unsigned(k) + Unsigned(z)) % TWO32
  {
    UnsignedRest(x);
    UnsignedRest(y);
    UnsignedRest(z);
    UnsignedRest(f);
    UnsignedRest(k);
    var u := Unsigned(x) + Unsigned(f) + Unsigned(y) + Unsigned(k) + Unsigned(z);
    UnsignedShift(u, x / TWO32 + y / TWO32 + z / TWO32 + f / TWO32 + k / TWO32);
    UnsignedIs(u);
    hide Unsigned;
  }

  lemma Constants()
    ensures Unsigned(1518500249) == 0x5A82_7999 && Unsigned(1859775393) == 0x6ED9_EBA1
    ensures Unsigned(-1894007588) == 0x8F1B_BCDC && Unsigned(-899497514) == 0xCA62_C1D6
  {
  }

  /** `Mixed` is a function value and a constant. */
  lemma MixedIs(t: nat, k: int, h: int, g: int) returns (f: int, c: int)
    ensures Mixed(t, k, h, g) == f + c
    ensures Unsigned(f) == Function(t, Unsigned(k), Unsigned(h), Unsigned(g)) && Unsigned(c) == Constant(t)
  {
    hide Bits, Unsigned, Ch, Parity, Maj, Not;
    Constants();
    ChooseIs(k, h, g);
    ParityIs(k, h, g);
    MajorityIs(k, h, g);
    c := if t < 20 then 1518500249 else if t < 40 then 1859775393 else if t < 60 then -1894007588 else -899497514;
    f := Mixed(t, k, h, g) - c;
  }

  /** A pass on numbers is the round of section 6.1.2. */
  lemma PassIsRound(v: Five<int>, t: nat, m: int)
    ensures Words(Pass(v, t, m)) == Round(Words(v), t, Unsigned(m))
  {
    hide RotateLeft, Rotl32, Unsigned, Function, Constant, Mixed;
    RotateLeftIs(v.a, 5);
    RotateLeftIs(v.b, 30);
    var f, c := MixedIs(t, v.b, v.c, v.d);
    SumModulo(RotateLeft(v.a, 5), v.e, m, f, c);
  }

  function BlockWords(a: seq<int>): (m: seq<nat>)
    ensures |m| == |a|
  {
    seq(|a|, t requires 0 <= t < |a| => Unsigned(a[t]))
  }

  lemma NextWordIs(w3: int, w8: int, w14: int, w16: int)
    ensures Unsigned(NextWord(w3, w8, w14, w16)) ==
            Rotl32(Xor32(Xor32(Xor32(Unsigned(w3), Unsigned(w8)), Unsigned(w14)), Unsigned(w16)), 1)
  {
    hide Bits, Unsigned, RotateLeft, Rotl32, Bitwise;
    var x := Bits(Xor, w3, w8);
    var y := Bits(Xor, x, w14);
    BitsUnsigned(Xor, w3, w8);
    BitsUnsigned(Xor, x, w14);
    BitsUnsigned(Xor, y, w16);
    RotateLeftIs(Bits(Xor, y, w16), 1);
  }

  lemma {:induction false} ScheduleIsW(a: seq<int>, t: nat)
    requires |a| == 16
    ensures forall i: nat :: i < t ==> Unsigned(Schedule(a, t)[i]) == W(BlockWords(a), i)
    decreases t
  {
    hide NextWord, Unsigned, Rotl32, Xor32, Signed;
    if t > 0 {
      ScheduleIsW(a, t - 1);
      var ws := Schedule(a, t - 1);
      if t - 1 < 16 {
        SignedKeeps(a[t - 1]);
      } else {
        NextWordIs(ws[t - 4], ws[t - 9], ws[t - 15], ws[t - 17]);
      }
    }
  }

  lemma {:induction false} PassesAreRounds(v: Five<int>, a: seq<int>, t: nat)
    requires |a| == 16
    ensures Words(Passes(v, a, t)) == Rounds(Words(v), BlockWords(a), t)
    decreases t
  {
    hide Pass, Round, Words, ScheduleWord, W, Unsigned;
    if t > 0 {
      PassesAreRounds(v, a, t - 1);
      ScheduleIsW(a, t);
      assert Schedule(a, t)[t - 1] == ScheduleWord(Schedule(a, t - 1), a);
      PassIsRound(Passes(v, a, t - 1), t - 1, ScheduleWord(Schedule(a, t - 1), a));
    }
  }

  lemma FeedIs(x: int, y: int)
    ensures Unsigned(Signed(x + y)) == (Unsigned(x) + Unsigned(y)) % TWO32
  {
    hide Signed, Unsigned;
    SignedKeeps(x + y);
    UnsignedSum(x, y);
    UnsignedIs(Unsigned(x) + Unsigned(y));
  }

  /** The block function on numbers stands for the block function of FIPS 180-4. */
  lemma BlockIsCompress(h: Five<int>, a: seq<int>)
    requires |a| == 16
    ensures Words(Block(h, a)) == Compress(Words(h), BlockWords(a))
  {
    hide Passes, Rounds, Unsigned, Signed;
    PassesAreRounds(h, a, 80);
    var r := Passes(h, a, 80);
    FeedIs(h.a, r.a);
    FeedIs(h.b, r.b);
    FeedIs(h.c, r.c);
    FeedIs(h.d, r.d);
    FeedIs(h.e, r.e);
  }

  // ----- the block function in place

  function FiveOf(h: seq<int>): Five<int>
    requires |h| == 5
  {
    Five(h[0], h[1], h[2], h[3], h[4])
  }

  /** The hash words and the schedule array that all calls share. */
  class Compressor {
    const hash: array<int>
    const schedule: array<int>

    ghost predicate Valid() {
      hash.Length == 5 && schedule.Length == 80 && hash != schedule
    }

    constructor ()
      ensures Valid() && fresh(hash) && fresh(schedule)
      ensures FiveOf(hash[..]) == INITIAL
    {
      hash := new int[5] [1732584193, 4023233417, 2562383102, 271733878, 3285377520];
      schedule := new int[80](_ => 0);
    }

    /** `_doProcessBlock`; every sum it makes is asserted to have room. */
    method DoProcessBlock(a: seq<int>)
      requires Valid() && |a| == 16 && InRange(FiveOf(hash[..]))
      modifies hash, schedule
      ensures FiveOf(hash[..]) == Block(FiveOf(old(hash[..])), a)
      ensures BlockRoom(FiveOf(old(hash[..])), a) && InRange(FiveOf(hash[..]))
      ensures schedule[..] == Schedule(a, 80)
    {
      hide Mixed, RotateLeft, NextWord, Signed, PassRoom, BlockRoom;
      ghost var start := FiveOf(hash[..]);
      BlockExact(start, a);
      var l, k, h, g, j := hash[0], hash[1], hash[2], hash[3], hash[4];
      for t := 0 to 80
        invariant hash[..] == old(hash[..])
        invariant schedule[..t] == Schedule(a, t)
        invariant Five(l, k, h, g, j) == Passes(start, a, t)
      {
        assert forall i: nat :: i < t ==> schedule[i] == schedule[..t][i];
        if t < 16 {
          schedule[t] := Signed(a[t]);
        } else {
          schedule[t] := NextWord(schedule[t - 3], schedule[t - 8], schedule[t - 14], schedule[t - 16]);
        }
        assert schedule[t] == ScheduleWord(Schedule(a, t), a);
        assert schedule[..t + 1] == schedule[..t] + [schedule[t]];
        RoomFor(start, a, t);
        assert PassRoom(Five(l, k, h, g, j), t, schedule[t]);
        var c := RotateLeft(l, 5) + j + schedule[t] + Mixed(t, k, h, g);
        j := g;
        g := h;
        h := RotateLeft(k, 30);
        k := l;
        l := c;
      }
      hash[0] := Signed(hash[0] + l);
      hash[1] := Signed(hash[1] + k);
      hash[2] := Signed(hash[2] + h);
      hash[3] := Signed(hash[3] + g);
      hash[4] := Signed(hash[4] + j);
    }
  }

  lemma RoomFor(h: Five<int>, a: seq<int>, t: nat)
    requires |a| == 16 && t < 80 && BlockRoom(h, a)
    ensures PassRoom(Passes(h, a, t), t, ScheduleWord(Schedule(a, t), a))
  {
    hide PassRoom, Passes, Schedule, ScheduleWord;
  }

  // ----- the hash function

  function Numbers(ws: seq<Word>): (a: seq<int>)
    ensures |a| == |ws|
  {
    seq(|ws|, i requires 0 <= i < |ws| => AsNumber(ws[i]))
  }

  function Step(h: Five<int>, block: seq<Word>): (Five<int>, seq<Word>) {
    if |block| == 16 then (Block(h, Numbers(block)), block) else (h, block)
  }

  function Algorithm1(): Algorithm<Five<int>> {
    Algorithm((h: Five<int>, block: seq<Word>) => Step(h, block), 16, 0)
  }

  lemma AlgorithmValid()
    ensures Algorithm1().Valid()
  {
    hide Block;
  }

  function DigestWords(v: Five<int>): (ws: seq<Word>)
    ensures |ws| == 5
  {
    [NumberWord(v.a), NumberWord(v.b), NumberWord(v.c), NumberWord(v.d), NumberWord(v.e)]
  }

  /** The object's functions; `finalize` hands out the array of the state. */
  function Hash1(): HashFunction<Five<int>> {
    HashFunction(Algorithm1(), INITIAL, (p: seq<Byte>, n: nat) => PaddedWords(p, n, 16), Limit(16),
      (ws: seq<Word>, sigBytes: nat, n: nat) => FinalWords(ws, sigBytes, n, 16), (v: Five<int>) => DigestWords(v), 20, true)
  }

  /** SHA-1 is a hash function that the hasher, HMAC and PBKDF2 objects can be built on. */
  lemma Hash1Sound()
    ensures Hash1().Sound()
  {
    hide Step, PaddedWords, FinalWords, DigestWords;
    AlgorithmValid();
    var h := Hash1();
    forall p: seq<Byte>, n: nat
      ensures |h.Pad(p, n)| % h.alg.blockSize == 0
      ensures |p| < h.limit ==> h.close(Pack(p), |p|, n) == h.Pad(p, n)
    {
      PaddedSize(p, n, 16);
      FinalWordsPad(p, n, 16);
    }
    forall m: seq<Byte>, k: nat | 4 * (k * h.alg.blockSize) <= |m|
      ensures h.Pad(m, |m|) == Pack(m[..4 * (k * h.alg.blockSize)]) + h.Pad(m[4 * (k * h.alg.blockSize)..], |m|)
    {
      PaddedRest(m, |m|, k, 16);
    }
  }

  // ----- whole messages

  /** The words of block `n` of a message. */
  function MessageBlock(ws: seq<Word>, n: nat): (m: seq<nat>)
    ensures |m| == 16
  {
    BlockWords(Numbers(BlockAt(ws, n * 16, 16)))
  }

  /** Section 6.1.2 of FIPS 180-4 over `n` blocks. */
  function Fold(v: Five<nat>, ws: seq<Word>, n: nat): Five<nat> {
    if n == 0 then v else Compress(Fold(v, ws, n - 1), MessageBlock(ws, n - 1))
  }

  function AsWords(w: Five<nat>): seq<Word> {
    [NumberWord(w.a), NumberWord(w.b), NumberWord(w.c), NumberWord(w.d), NumberWord(w.e)]
  }

  /** Section 6.1 of FIPS 180-4. */
  function Sha1(m: seq<Byte>): seq<Word> {
    var ws := PaddedWords(m, |m|, 16);
    AsWords(Fold(Words(INITIAL), ws, |ws| / 16))
  }

  lemma NextBlock(h: Five<int>, ws: seq<Word>, n: nat)
    requires Algorithm1().Valid()
    ensures Run(Algorithm1(), h, ws, n + 1).0 == Block(Run(Algorithm1(), h, ws, n).0, Numbers(BlockAt(ws, n * 16, 16)))
  {
    hide Block;
  }

  /** At every block of any message the state stands for the fold, and no sum of the next block is rounded. */
  lemma {:induction false} RunIsFold(h: Five<int>, ws: seq<Word>, n: nat)
    requires Algorithm1().Valid() && InRange(h)
    ensures var r := Run(Algorithm1(), h, ws, n).0;
            Words(r) == Fold(Words(h), ws, n) && InRange(r) && BlockRoom(r, Numbers(BlockAt(ws, n * 16, 16)))
    decreases n
  {
    hide Block, Step, Compress, Words, InRange, BlockWords, Numbers, BlockAt, BlockRoom;
    if n > 0 {
      RunIsFold(h, ws, n - 1);
      NextBlock(h, ws, n - 1);
      var r := Run(Algorithm1(), h, ws, n - 1).0;
      var a := Numbers(BlockAt(ws, (n - 1) * 16, 16));
      BlockExact(r, a);
      BlockIsCompress(r, a);
    }
    BlockExact(Run(Algorithm1(), h, ws, n).0, Numbers(BlockAt(ws, n * 16, 16)));
  }

  lemma DigestWordsAre(v: Five<int>)
    ensures DigestWords(v) == AsWords(Words(v))
  {
    hide NumberWord;
    NumberWordUnsigned(v.a);
    NumberWordUnsigned(v.b);
    NumberWordUnsigned(v.c);
    NumberWordUnsigned(v.d);
    NumberWordUnsigned(v.e);
  }

  lemma InitialInRange()
    ensures InRange(INITIAL)
  {
  }

  /** The digest of the padded message is that of FIPS 180-4: no sum is rounded in any block of a message of any length. */
  lemma Hash1Digest(m: seq<Byte>)
    requires Hash1().Valid()
    ensures Hash1().Digest(m) == Sha1(m)
  {
    hide Fold, PaddedWords, Words, Step, Run, DigestWords, AsWords, HashFunction.Valid, INITIAL,
      InRange, BlockRoom;
    AlgorithmValid();
    var ws := PaddedWords(m, |m|, 16);
    InitialInRange();
    RunIsFold(INITIAL, ws, |ws| / 16);
    DigestWordsAre(Run(Algorithm1(), INITIAL, ws, |ws| / 16).0);
  }

  /** HMAC over the SHA-1 object is HMAC-SHA-1, for every key and every text. */
  lemma HmacIsHmacSha1(key: seq<Byte>, text: seq<Byte>)
    requires Hash1().Keys()
    ensures Hmac(Hash1(), key, text) == HmacOver(Sha1, 64, key, text)
  {
    hide Sha1, HashFunction.Valid, HashFunction.Digest, HashFunction.FullWidth, Step, DigestWords, InnerText,
      OuterText, Hmac, HmacOver, HashFunction.Pad;
    Hash1Sound();
    HashIsBuilt(Hash1());
    Hash1Digest(key);
    Hash1Digest(InnerText(Sha1, 64, key, text));
    Hash1Digest(OuterText(Sha1, 64, key, text));
    HmacIsOver(Hash1(), Sha1, key, text);
  }

  /** The caller's tests of what is pushed: clamped, and below the limit of the closing indices. */
  ghost predicate Pushable(a: WordArray)
    reads a
  {
    AppendsClamped(a.words, a.sigBytes) && a.sigBytes < Limit(16)
  }

  /** `CryptoJS.SHA1` */
  method Digest(message: WordArray) returns (digest: WordArray)
    ensures digest.sigBytes == 20
    ensures Pushable(message) ==> digest.words == Sha1(message.Bytes())
  {
    hide Sha1, HashFunction.Valid, HashFunction.Digest, HashFunction.Closed, Step, DigestWords, BytesIn, AppendsClamped,
      Pack, FinalWords, PaddedWords, Limit;
    Hash1Sound();
    SoundWidth(Hash1());
    digest := HashOf(Hash1(), message);
    Hash1Digest(message.Bytes());
  }

  /** `CryptoJS.HmacSHA1` */
  method HmacDigest(message: WordArray, key: WordArray) returns (mac: WordArray)
    modifies key
    ensures mac.sigBytes == 20
    ensures old(Pushable(message) && (key.sigBytes > 64 ==> Pushable(key))) ==>
              mac.words == HmacOver(Sha1, 64, old(key.Bytes()), old(message.Bytes()))
  {
    hide HmacOver, HashFunction.Valid, HashFunction.FullWidth, Hmac, Step, DigestWords, BytesIn, AppendsClamped, Pack,
      FinalWords, PaddedWords, Limit;
    Hash1Sound();
    SoundWidth(Hash1());
    ghost var k, m := key.Bytes(), message.Bytes();
    mac := HmacOf(Hash1(), message, key);
    HmacIsHmacSha1(k, m);
  }
}
