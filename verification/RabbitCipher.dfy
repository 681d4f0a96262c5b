/**
 The Rabbit object (js/rollups/rabbit-legacy.js:32-36): setup from a key and an IV, the next-state function and the
 keystream, in place on the object's arrays.
 */
module RabbitCipher {
  import opened WordArrays
  import opened BufferedBlocks
  import opened JsNumber
  import opened MachineWords
  import opened Lanes
  import opened Rabbit

  // ----- setup, sections 2.3 and 2.4 of RFC 4503

  function HighHalf(w: Word): bv16 {
    (w >> 16) as bv16
  }

  function LowHalf(w: Word): bv16 {
    (w & 0xFFFF) as bv16
  }

  function JoinHalves(h: bv16, l: bv16): Word {
    ((h as Word) << 16) | (l as Word)
  }

  /** The 16-bit subkeys, least significant first; the key's words are read as numbers, not as octets. */
  function Subkey(key: seq<Word>, j: nat): bv16
    requires |key| >= 4
  {
    if j % 2 == 0 then LowHalf(key[j % 8 / 2]) else HighHalf(key[j % 8 / 2])
  }

  function KeyX(key: seq<Word>, j: nat): Word
    requires |key| >= 4
  {
    if j % 2 == 0 then JoinHalves(Subkey(key, j + 1), Subkey(key, j)) else JoinHalves(Subkey(key, j + 5), Subkey(key, j + 4))
  }

  function KeyC(key: seq<Word>, j: nat): Word
    requires |key| >= 4
  {
    if j % 2 == 0 then JoinHalves(Subkey(key, j + 4), Subkey(key, j + 5)) else JoinHalves(Subkey(key, j), Subkey(key, j + 1))
  }

  /** The key words as RFC 4503 reads the octets of the key, least significant octet first. */
  function OctetKey(key: seq<Word>): (r: seq<Word>)
    requires |key| >= 4
    ensures |r| == 4
  {
    [SwapBytes(key[0]), SwapBytes(key[1]), SwapBytes(key[2]), SwapBytes(key[3])]
  }

  function AsNumbers(ws: seq<Word>): Words8
    requires |ws| == 8
  {
    seq(8, j requires 0 <= j < 8 => AsNumber(ws[j]))
  }

  function ExpandX(key: seq<Word>): (r: seq<Word>)
    requires |key| >= 4
    ensures |r| == 8
  {
    [KeyX(key, 0), KeyX(key, 1), KeyX(key, 2), KeyX(key, 3), KeyX(key, 4), KeyX(key, 5), KeyX(key, 6), KeyX(key, 7)]
  }

  function ExpandC(key: seq<Word>): (r: seq<Word>)
    requires |key| >= 4
    ensures |r| == 8
  {
    [KeyC(key, 0), KeyC(key, 1), KeyC(key, 2), KeyC(key, 3), KeyC(key, 4), KeyC(key, 5), KeyC(key, 6), KeyC(key, 7)]
  }

  function Expand(key: seq<Word>): State
    requires |key| >= 4
  {
    State(AsNumbers(ExpandX(key)), AsNumbers(ExpandC(key)), 0)
  }

  /** The even state variables are the key words themselves. */
  lemma ExpandShowsKey(key: seq<Word>, i: nat)
    requires |key| >= 4 && i < 4
    ensures Expand(key).x[2 * i] == AsNumber(key[i])
  {
    hide AsNumber, JoinHalves, HighHalf, LowHalf;
    HalvesJoin(key[i], key[i]);
  }

  lemma ExpandInjective(key: seq<Word>, key': seq<Word>, i: nat)
    requires |key| >= 4 && |key'| >= 4 && i < 4
    requires Expand(key) == Expand(key')
    ensures key[i] == key'[i]
  {
    hide Expand, AsNumber, NumberWord;
    ExpandShowsKey(key, i);
    ExpandShowsKey(key', i);
    WordBack(key[i]);
    WordBack(key'[i]);
  }

  /**
   Before the four iterations the key is expanded as RFC 4503 asks exactly when each of its four words reads the same in
   both orders of octets.
   */
  lemma KeyOrderMatters(key: seq<Word>)
    requires |key| >= 4
    ensures Expand(key) == Expand(OctetKey(key)) <==> forall i :: 0 <= i < 4 ==> SwapBytes(key[i]) == key[i]
  {
    hide Expand, SwapBytes;
    var octets := OctetKey(key);
    assert forall i :: 0 <= i < 4 ==> octets[i] == SwapBytes(key[i]);
    if Expand(key) == Expand(octets) {
      ExpandInjective(key, octets, 0);
      ExpandInjective(key, octets, 1);
      ExpandInjective(key, octets, 2);
      ExpandInjective(key, octets, 3);
    }
    if forall i :: 0 <= i < 4 ==> SwapBytes(key[i]) == key[i] {
      assert octets == key[..4] == octets[..4];
      SameWords(key, octets);
    }
  }

  lemma SameWords(key: seq<Word>, key': seq<Word>)
    requires |key| >= 4 && |key'| >= 4 && key[..4] == key'[..4]
    ensures Expand(key) == Expand(key')
  {
    hide AsNumber, JoinHalves, HighHalf, LowHalf;
    assert forall i :: 0 <= i < 4 ==> key[i] == key[..4][i] == key'[i];
    assert forall j: nat :: Subkey(key, j) == Subkey(key', j);
    hide Subkey;
  }

  /** The key whose only set bit is the lowest of its first word is expanded differently. */
  lemma KeyOrderFails()
    ensures Expand([1, 0, 0, 0]) != Expand(OctetKey([1, 0, 0, 0]))
  {
    hide Expand, OctetKey;
    var key: seq<Word> := [1, 0, 0, 0];
    KeyOrderMatters(key);
    assert SwapBytes(key[0]) == 0x0100_0000;
  }

  function KeySetup(key: seq<Word>): State
    requires |key| >= 4
  {
    var s := After(Expand(key), 4);
    State(s.x, XoredWithX(s.c, s.x), s.b)
  }

  function XoredWithX(c: Words8, x: Words8): Words8 {
    seq(8, j requires 0 <= j < 8 => Xor32(c[j], x[(j + 4) % 8]))
  }

  datatype Iv = NoIv | Iv(w0: Word, w1: Word)

  /** The 64-bit IV is read as octets, least significant first. */
  function IvWord(w0: Word, w1: Word, j: nat): Word {
    var i0, i1 := SwapBytes(w0), SwapBytes(w1);
    if j % 4 == 0 then i0
    else if j % 4 == 1 then JoinHalves(HighHalf(i1), HighHalf(i0))
    else if j % 4 == 2 then i1
    else JoinHalves(LowHalf(i1), LowHalf(i0))
  }

  function IvNumbers(w0: Word, w1: Word): (r: seq<nat>)
    ensures |r| == 8
  {
    seq(8, j requires 0 <= j => AsNumber(IvWord(w0, w1, j)))
  }

  function XoredWithIv(c: Words8, w0: Word, w1: Word): Words8 {
    seq(8, j requires 0 <= j < 8 => Xor32(c[j], IvNumbers(w0, w1)[j]))
  }

  function Setup(key: seq<Word>, iv: Iv): State
    requires |key| >= 4
  {
    var s := KeySetup(key);
    match iv
    case NoIv => s
    case Iv(w0, w1) => After(State(s.x, XoredWithIv(s.c, w0, w1), s.b), 4)
  }

  // ----- keystream, section 2.7

  /** Word `a` of the 128-bit keystream block, least significant word first. */
  function KeyWord(x: Words8, a: nat): Word {
    var x0, x5, x3 := NumberWord(x[2 * a % 8]), NumberWord(x[(2 * a + 5) % 8]), NumberWord(x[(2 * a + 3) % 8]);
    JoinHalves(HighHalf(x0) ^ LowHalf(x3), LowHalf(x0) ^ HighHalf(x5))
  }

  /** The block as words of octets in the order they meet the message. */
  function Keystream(x: Words8): (ks: seq<Word>)
    ensures |ks| == 4
  {
    seq(4, a requires 0 <= a => SwapBytes(KeyWord(x, a)))
  }

  // ----- the code's numbers and the words they stand for

  function Words(s: seq<int>): Words8
    requires |s| == 8
  {
    seq(8, i requires 0 <= i < 8 => Unsigned(s[i]))
  }

  /** One carry found by comparison. */
  lemma CarryFound(c: int, a: nat, carry: nat)
    requires 0 < a < TWO32 - 1 && carry <= 1
    ensures var t := Unsigned(c) + a + carry;
            Unsigned(Signed(c + a + carry)) == t % TWO32 && Carry(Signed(c + a + carry), c) == t / TWO32
  {
    SignedKeeps(c + a + carry);
    UnsignedSum(c, a + carry);
    UnsignedSmall(a + carry);
  }

  function RotLeft(v: int, n: nat): int
    requires 0 < n < 32
  {
    Bits(Or, Shl(v, n), Shr(v, 32 - n))
  }

  lemma RotLeftIs(v: int, n: nat)
    requires 0 < n < 32
    ensures Unsigned(RotLeft(v, n)) == Rotl(Unsigned(v), n)
  {
    hide Bits, Shl, Shr, High, Up, Low, Unsigned;
    RotHalfUnsigned(v, v, 32 - n);
  }

  lemma SumOfThree(x: int, y: int, z: int)
    ensures Unsigned(Signed(x + y + z)) == (Unsigned(x) + Unsigned(y) + Unsigned(z)) % TWO32
  {
    hide Signed;
    SignedKeeps(x + y + z);
    UnsignedRest(x);
    UnsignedRest(y);
    UnsignedRest(z);
    UnsignedShift(Unsigned(x) + Unsigned(y) + Unsigned(z), x / TWO32 + y / TWO32 + z / TWO32);
    UnsignedIs(Unsigned(x) + Unsigned(y) + Unsigned(z));
    hide Unsigned;
  }

  function MixEven(g: int, g1: int, g2: int): (r: int)
    ensures Wordlike(r)
  {
    Signed(g + RotLeft(g1, 16) + RotLeft(g2, 16))
  }

  function MixOdd(g: int, g1: int, g2: int): (r: int)
    ensures Wordlike(r)
  {
    Signed(g + RotLeft(g1, 8) + g2)
  }

  /** The sums of `MixEven` and `MixOdd`, from left to right, are exact. */
  predicate MixRoom(g: int, g1: int, g2: int) {
    && Exact(g) && Exact(g2)
    && Exact(g + RotLeft(g1, 16)) && Exact(g + RotLeft(g1, 16) + RotLeft(g2, 16))
    && Exact(g + RotLeft(g1, 8)) && Exact(g + RotLeft(g1, 8) + g2)
  }

  predicate RoomAt(g: seq<int>, j: nat)
    requires |g| == 8 && j < 8
  {
    MixRoom(g[j], g[(j + 7) % 8], g[(j + 6) % 8])
  }

  lemma MixExact(g: seq<int>)
    requires |g| == 8 && forall i :: 0 <= i < 8 ==> Wordlike(g[i])
    ensures forall j: nat | j < 8 :: RoomAt(g, j)
  {
    hide Bits;
  }

  lemma MixIs(g: seq<int>, j: nat)
    requires |g| == 8 && j < 8
    ensures var g0, g1, g2 := g[j], g[(j + 7) % 8], g[(j + 6) % 8];
            Unsigned(if j % 2 == 0 then MixEven(g0, g1, g2) else MixOdd(g0, g1, g2)) == Mix(Words(g), j)
  {
    hide RotLeft, Rotl, Signed, Unsigned;
    var g0, g1, g2 := g[j], g[(j + 7) % 8], g[(j + 6) % 8];
    RotLeftIs(g1, 16);
    RotLeftIs(g2, 16);
    RotLeftIs(g1, 8);
    SumOfThree(g0, RotLeft(g1, 16), RotLeft(g2, 16));
    SumOfThree(g0, RotLeft(g1, 8), g2);
  }

  /** `v << 16 | w >>> 16` */
  function LowHigh(v: Word, w: Word): Word {
    (v << 16) | (w >> 16)
  }

  /** `v & 4294901760 | w & 65535` */
  function HighLow(v: Word, w: Word): Word {
    (v & 0xFFFF_0000) | (w & 0xFFFF)
  }

  lemma HalvesJoin(v: Word, w: Word)
    ensures LowHigh(v, w) == JoinHalves(LowHalf(v), HighHalf(w))
    ensures HighLow(v, w) == JoinHalves(HighHalf(v), LowHalf(w))
    ensures w == JoinHalves(HighHalf(w), LowHalf(w))
  {
  }

  /** `c >>> 16 | a & 4294901760` */
  function HighHigh(a: Word, c: Word): Word {
    (c >> 16) | (a & 0xFFFF_0000)
  }

  /** `a << 16 | c & 65535` */
  function LowLow(a: Word, c: Word): Word {
    (a << 16) | (c & 0xFFFF)
  }

  lemma EqualHalvesJoin(a: Word, c: Word)
    ensures HighHigh(a, c) == JoinHalves(HighHalf(a), HighHalf(c)) && LowLow(a, c) == JoinHalves(LowHalf(a), LowHalf(c))
  {
  }

  lemma IvWords(w0: Word, w1: Word)
    ensures var d, a := Swapped(w0), Swapped(w1);
            && d == IvWord(w0, w1, 0) == IvWord(w0, w1, 4)
            && HighHigh(a, d) == IvWord(w0, w1, 1) == IvWord(w0, w1, 5)
            && a == IvWord(w0, w1, 2) == IvWord(w0, w1, 6)
            && LowLow(a, d) == IvWord(w0, w1, 3) == IvWord(w0, w1, 7)
  {
    hide Swapped, SwapBytes, HighHigh, LowLow, JoinHalves, HighHalf, LowHalf;
    SwappedBytes(w0);
    SwappedBytes(w1);
    EqualHalvesJoin(Swapped(w1), Swapped(w0));
  }

  lemma IvNumbersAre(w0: Word, w1: Word, n: seq<nat>)
    requires n == IvNumbers(w0, w1)
    ensures var d, a := Swapped(w0), Swapped(w1);
            && n[0] == n[4] == AsNumber(d) && n[1] == n[5] == AsNumber(HighHigh(a, d))
            && n[2] == n[6] == AsNumber(a) && n[3] == n[7] == AsNumber(LowLow(a, d))
  {
    hide Swapped, HighHigh, LowLow, IvWord, AsNumber;
    IvWords(w0, w1);
  }

  lemma XorIs(x: int, y: int)
    ensures Unsigned(Bits(Xor, x, y)) == Xor32(Unsigned(x), Unsigned(y))
  {
    BitsUnsigned(Xor, x, y);
  }

  /** The words that `_doReset` puts into `_X`. */
  function InitialX(key: seq<Word>): (r: seq<Word>)
    requires |key| >= 4
    ensures |r| == 8
  {
    [key[0], LowHigh(key[3], key[2]), key[1], LowHigh(key[0], key[3]),
     key[2], LowHigh(key[1], key[0]), key[3], LowHigh(key[2], key[1])]
  }

  /** The words that `_doReset` puts into `_C`. */
  function InitialC(key: seq<Word>): (r: seq<Word>)
    requires |key| >= 4
    ensures |r| == 8
  {
    [LowHigh(key[2], key[2]), HighLow(key[0], key[1]), LowHigh(key[3], key[3]), HighLow(key[1], key[2]),
     LowHigh(key[0], key[0]), HighLow(key[2], key[3]), LowHigh(key[1], key[1]), HighLow(key[3], key[0])]
  }

  lemma Subkeys(key: seq<Word>)
    requires |key| >= 4
    ensures Subkey(key, 0) == Subkey(key, 8) == LowHalf(key[0]) && Subkey(key, 1) == Subkey(key, 9) == HighHalf(key[0])
    ensures Subkey(key, 2) == Subkey(key, 10) == LowHalf(key[1]) && Subkey(key, 3) == Subkey(key, 11) == HighHalf(key[1])
    ensures Subkey(key, 4) == Subkey(key, 12) == LowHalf(key[2]) && Subkey(key, 5) == HighHalf(key[2])
    ensures Subkey(key, 6) == LowHalf(key[3]) && Subkey(key, 7) == HighHalf(key[3])
  {
    hide LowHalf, HighHalf;
  }

  lemma InitialXIs(key: seq<Word>)
    requires |key| >= 4
    ensures InitialX(key) == ExpandX(key)
  {
    hide LowHigh, HighLow, JoinHalves, LowHalf, HighHalf, Subkey;
    Subkeys(key);
    HalvesJoin(key[3], key[2]);
    HalvesJoin(key[0], key[3]);
    HalvesJoin(key[1], key[0]);
    HalvesJoin(key[2], key[1]);
  }

  lemma InitialCIs(key: seq<Word>)
    requires |key| >= 4
    ensures InitialC(key) == ExpandC(key)
  {
    hide LowHigh, HighLow, JoinHalves, LowHalf, HighHalf, Subkey;
    Subkeys(key);
    HalvesJoin(key[2], key[2]);
    HalvesJoin(key[3], key[3]);
    HalvesJoin(key[0], key[0]);
    HalvesJoin(key[1], key[1]);
    HalvesJoin(key[0], key[1]);
    HalvesJoin(key[1], key[2]);
    HalvesJoin(key[2], key[3]);
    HalvesJoin(key[3], key[0]);
  }

  lemma NumbersKept(s: seq<int>, ws: seq<Word>)
    requires |s| == |ws| == 8 && forall i :: 0 <= i < 8 ==> s[i] == AsNumber(ws[i])
    ensures Words(s) == AsNumbers(ws) && forall i :: 0 <= i < 8 ==> Wordlike(s[i])
  {
    hide AsNumber, Unsigned;
    forall i | 0 <= i < 8
      ensures Unsigned(s[i]) == s[i]
    {
      UnsignedSmall(s[i]);
    }
  }

  /** The state variables in the order the counters are combined with them. */
  function SkewedBy4(x: Words8): (r: seq<nat>)
    ensures |r| == 8
  {
    seq(8, i requires 0 <= i => x[(i + 4) % 8])
  }

  class RabbitLegacy {
    const x: array<int>
    const c: array<int>
    var b: nat
    // scratch arrays: the counters before a step, the squares, and a keystream block
    const p: array<int>
    const g: array<int>
    const l: array<Word>

    ghost predicate Valid()
      reads this, x, c
    {
      && x.Length == c.Length == p.Length == g.Length == 8 && l.Length == 4
      && x != c && x != p && x != g && c != p && c != g && p != g
      && (forall i :: 0 <= i < 8 ==> Wordlike(x[i]) && Wordlike(c[i]))
      && b <= 1
    }

    ghost function Abs(): State
      reads this, x, c
      requires Valid()
    {
      State(Words(x[..]), Words(c[..]), b)
    }

    /** `_doReset` */
    constructor (key: seq<Word>, iv: Iv)
      requires |key| >= 4
      ensures Valid() && Abs() == Setup(key, iv)
      ensures fresh(x) && fresh(c) && fresh(p) && fresh(g) && fresh(l)
    {
      hide InitialX, InitialC, ExpandX, ExpandC, AsNumber, AsNumbers, Setup, Wordlike;
      x := new int[8](i requires 0 <= i < 8 => AsNumber(InitialX(key)[i]));
      c := new int[8](i requires 0 <= i < 8 => AsNumber(InitialC(key)[i]));
      b := 0;
      p := new int[8](_ => 0);
      g := new int[8](_ => 0);
      l := new Word[4](_ => 0);
      new;
      InitialXIs(key);
      InitialCIs(key);
      NumbersKept(x[..], InitialX(key));
      NumbersKept(c[..], InitialC(key));
      Schedule(key, iv);
    }

    /** The part of `_doReset` after the arrays are made. */
    method Schedule(ghost key: seq<Word>, iv: Iv)
      requires Valid() && |key| >= 4 && Abs() == Expand(key)
      modifies this`b, x, c, p, g
      ensures Valid() && Abs() == Setup(key, iv)
    {
      hide Expand, Next, XoredWithX, XoredWithIv, Wordlike;
      Advance(4);
      XorCounters();
      match iv {
        case NoIv =>
        case Iv(w0, w1) =>
          XorIv(w0, w1);
          Advance(4);
      }
    }

    /** The loops that call `q` a fixed number of times. */
    method Advance(n: nat)
      requires Valid()
      modifies this`b, x, c, p, g
      ensures Valid() && Abs() == After(old(Abs()), n)
    {
      hide Next;
      for e := 0 to n
        invariant Valid() && Abs() == After(old(Abs()), e)
      {
        Q();
      }
    }

    /** `b[e] ^= a[e + 4 & 7]` for all eight counters */
    method XorCounters()
      requires Valid()
      modifies c
      ensures Valid() && Words(c[..]) == XoredWithX(old(Words(c[..])), Words(x[..]))
    {
      hide Xor32, Unsigned;
      ghost var c0, mask := c[..], SkewedBy4(Words(x[..]));
      for e := 0 to 8
        invariant Valid()
        invariant forall i :: e <= i < 8 ==> c[i] == c0[i]
        invariant forall i :: 0 <= i < e ==> Unsigned(c[i]) == Xor32(Unsigned(c0[i]), mask[i])
      {
        XorInto(e, x[(e + 4) % 8], c0, mask);
      }
    }

    method XorIv(w0: Word, w1: Word)
      requires Valid()
      modifies c
      ensures Valid() && Words(c[..]) == XoredWithIv(old(Words(c[..])), w0, w1)
    {
      hide Xor32, Unsigned, Swapped, IvNumbers, HighHigh, LowLow, AsNumber;
      ghost var c0, mask := c[..], IvNumbers(w0, w1);
      var d, a := Swapped(w0), Swapped(w1);
      var e, k := HighHigh(a, d), LowLow(a, d);
      IvNumbersAre(w0, w1, mask);
      UnsignedSmall(AsNumber(d));
      UnsignedSmall(AsNumber(e));
      UnsignedSmall(AsNumber(a));
      UnsignedSmall(AsNumber(k));
      XorFour(0, AsNumber(d), AsNumber(e), AsNumber(a), AsNumber(k), c0, mask);
      XorFour(4, AsNumber(d), AsNumber(e), AsNumber(a), AsNumber(k), c0, mask);
    }

    method XorFour(j: nat, d: nat, e: nat, a: nat, k: nat, ghost c0: seq<int>, ghost mask: seq<nat>)
      requires Valid() && j <= 4 && |c0| == |mask| == 8
      requires Unsigned(d) == mask[j] && Unsigned(e) == mask[j + 1] && Unsigned(a) == mask[j + 2] && Unsigned(k) == mask[j + 3]
      requires forall i :: j <= i < 8 ==> c[i] == c0[i]
      requires forall i :: 0 <= i < j ==> Unsigned(c[i]) == Xor32(Unsigned(c0[i]), mask[i])
      modifies c
      ensures Valid()
      ensures forall i :: j + 4 <= i < 8 ==> c[i] == c0[i]
      ensures forall i :: 0 <= i < j + 4 ==> Unsigned(c[i]) == Xor32(Unsigned(c0[i]), mask[i])
    {
      hide Xor32, Unsigned;
      XorInto(j, d, c0, mask);
      XorInto(j + 1, e, c0, mask);
      XorInto(j + 2, a, c0, mask);
      XorInto(j + 3, k, c0, mask);
    }

    /** `b[j] ^= v`, one of eight such statements in a row. */
    method XorInto(j: nat, v: int, ghost c0: seq<int>, ghost mask: seq<nat>)
      requires Valid() && j < 8 == |c0| == |mask| && Unsigned(v) == mask[j]
      requires forall i :: j <= i < 8 ==> c[i] == c0[i]
      requires forall i :: 0 <= i < j ==> Unsigned(c[i]) == Xor32(Unsigned(c0[i]), mask[i])
      modifies c
      ensures Valid()
      ensures forall i :: j < i < 8 ==> c[i] == c0[i]
      ensures forall i :: 0 <= i <= j ==> Unsigned(c[i]) == Xor32(Unsigned(c0[i]), mask[i])
    {
      hide Xor32, Unsigned;
      XorIs(c[j], v);
      c[j] := Bits(Xor, c[j], v);
    }

    /** One counter statement of `q`. */
    method AddWord(j: nat, a: nat, carry: nat, ghost c0: seq<int>, ghost b0: nat)
      requires 0 <= j < 8 == c.Length && |c0| == 8 && c[j] == c0[j] && Wordlike(c0[j])
      requires a == A(j) && carry == CarryInto(Words(c0), b0, j) <= 1
      modifies c
      ensures forall i :: 0 <= i < 8 && i != j ==> c[i] == old(c[i])
      ensures Wordlike(c[j]) && Unsigned(c[j]) == Counter(Words(c0), b0)[j]
      ensures Carry(c[j], c0[j]) == CarryInto(Words(c0), b0, j + 1) <= 1
    {
      hide Signed, Unsigned, A;
      assert Exact(c[j] + a + carry);
      CarryFound(c[j], a, carry);
      SignedWordlike(c[j] + a + carry);
      c[j] := Signed(c[j] + a + carry);
    }

    /** The eight counter statements of `q`. */
    method AdvanceCounters()
      requires Valid()
      modifies c, p, this`b
      ensures Valid() && Words(c[..]) == Counter(old(Words(c[..])), old(b)) && b == CarryInto(old(Words(c[..])), old(b), 8)
    {
      hide Unsigned, Signed, Carry, CarryInto, Counter, Words;
      for i := 0 to 8
        invariant forall k :: 0 <= k < i ==> p[k] == c[k]
        invariant c[..] == old(c[..]) && b == old(b)
      {
        p[i] := c[i];
      }
      ghost var c0, b0 := c[..], b;
      NoCarryYet(Words(c0), b0);
      AddWord(0, 1295307597, b, c0, b0);
      AddWord(1, 3545052371, Carry(c[0], p[0]), c0, b0);
      AddWord(2, 886263092, Carry(c[1], p[1]), c0, b0);
      AddWord(3, 1295307597, Carry(c[2], p[2]), c0, b0);
      AddWord(4, 3545052371, Carry(c[3], p[3]), c0, b0);
      AddWord(5, 886263092, Carry(c[4], p[4]), c0, b0);
      AddWord(6, 1295307597, Carry(c[5], p[5]), c0, b0);
      AddWord(7, 3545052371, Carry(c[6], p[6]), c0, b0);
      b := Carry(c[7], p[7]);
      CountersAre(c[..], Words(c0), b0);
    }

    /** The squaring loop of `q`; no number of it is rounded. */
    method Squares()
      requires Valid()
      modifies g
      ensures forall i :: 0 <= i < 8 ==> Unrounded(x[i] + c[i])
      ensures Words(g[..]) == Gs(Words(x[..]), Words(c[..]))
      ensures forall i :: 0 <= i < 8 ==> Wordlike(g[i])
    {
      hide Unsigned, Unrounded, Square, G;
      for a := 0 to 8
        invariant forall i :: 0 <= i < a ==> Unrounded(x[i] + c[i])
        invariant forall i :: 0 <= i < a ==> Wordlike(g[i])
        invariant forall i :: 0 <= i < a ==> Unsigned(g[i]) == G((Unsigned(x[i]) + Unsigned(c[i])) % TWO32)
      {
        var e := x[a] + c[a];
        SquareExact(e);
        SquareIsG(e);
        SquareWordlike(e);
        SumOfTwo(x[a], c[a]);
        g[a] := Square(e);
      }
    }

    /** The closing statements of `q`; no sum of them is rounded. */
    method MixSquares()
      requires Valid() && forall i :: 0 <= i < 8 ==> Wordlike(g[i])
      modifies x
      ensures Valid()
      ensures forall j: nat | j < 8 :: RoomAt(g[..], j)
      ensures forall j :: 0 <= j < 8 ==> Unsigned(x[j]) == Mix(Words(g[..]), j)
    {
      hide Unsigned, MixEven, MixOdd, Mix, Words, Wordlike, RoomAt;
      ghost var gs := g[..];
      MixAll(gs);
      MixExact(gs);
      x[0] := MixEven(g[0], g[7], g[6]);
      x[1] := MixOdd(g[1], g[0], g[7]);
      x[2] := MixEven(g[2], g[1], g[0]);
      x[3] := MixOdd(g[3], g[2], g[1]);
      x[4] := MixEven(g[4], g[3], g[2]);
      x[5] := MixOdd(g[5], g[4], g[3]);
      x[6] := MixEven(g[6], g[5], g[4]);
      x[7] := MixOdd(g[7], g[6], g[5]);
    }

    /** The next-state function: one step of sections 2.5 and 2.6 of RFC 4503. */
    method Q()
      requires Valid()
      modifies this`b, x, c, p, g
      ensures Valid() && Abs() == Next(old(Abs()))
    {
      hide Unsigned, Mix, Gs, Counter, CarryInto;
      AdvanceCounters();
      Squares();
      ghost var gs := g[..];
      MixSquares();
      assert g[..] == gs;
    }

    /** `_doProcessBlock`: step, form 128 bits of keystream and combine them with one block of the array in place. */
    method DoProcessBlock(m: WordArray, q: nat)
      requires Valid() && q <= |m.words|
      modifies this`b, x, c, p, g, l, m`words
      ensures Valid() && Abs() == Next(old(Abs()))
      ensures m.words == WriteBlock(old(m.words), q, XorWords(BlockAt(old(m.words), q, 4), Keystream(Abs().x)))
    {
      hide Next, Mixed, WriteBlock, XorWords, Keystream, KeyWord, Unsigned, Wordlike;
      Q();
      l[0] := Mixed(x[0], x[5], x[3]);
      l[1] := Mixed(x[2], x[7], x[5]);
      l[2] := Mixed(x[4], x[1], x[7]);
      l[3] := Mixed(x[6], x[3], x[1]);
      MixedWords(x[..]);
      XorKeystream(m, q, Words(x[..]));
    }

    /** The loop of `_doProcessBlock`. */
    method XorKeystream(m: WordArray, q: nat, ghost xs: Words8)
      requires l.Length == 4 && q <= |m.words|
      requires l[0] == KeyWord(xs, 0) && l[1] == KeyWord(xs, 1) && l[2] == KeyWord(xs, 2) && l[3] == KeyWord(xs, 3)
      modifies l, m`words
      ensures m.words == WriteBlock(old(m.words), q, XorWords(BlockAt(old(m.words), q, 4), Keystream(xs)))
    {
      hide WriteBlock, KeyWord, SwapBytes, WordArrays.Xor, Swapped;
      ghost var block := XorWords(BlockAt(m.words, q, 4), Keystream(xs));
      WriteNothing(m.words, q);
      for a := 0 to 4
        invariant forall i :: a <= i < 4 ==> l[i] == KeyWord(xs, i)
        invariant m.words == WriteBlock(old(m.words), q, block[..a])
      {
        l[a] := Swapped(l[a]);
        SwappedBytes(KeyWord(xs, a));
        WriteNext(old(m.words), q, block, a);
        m.words := Put(m.words, q + a, WordArrays.Xor(Get(m.words, q + a), l[a]));
      }
      assert block[..4] == block;
    }
  }

  /** `a[0] ^ a[5] >>> 16 ^ a[3] << 16` */
  function Mixed(x0: int, x5: int, x3: int): Word {
    NumberWord(x0) ^ (NumberWord(x5) >> 16) ^ (NumberWord(x3) << 16)
  }

  lemma MixedHalves(x0: int, x5: int, x3: int)
    ensures Mixed(x0, x5, x3) ==
            JoinHalves(HighHalf(NumberWord(x0)) ^ LowHalf(NumberWord(x3)), LowHalf(NumberWord(x0)) ^ HighHalf(NumberWord(x5)))
  {
    hide NumberWord;
  }

  lemma MixedWord(s: seq<int>, a: nat)
    requires |s| == 8 && a < 4
    ensures Mixed(s[2 * a % 8], s[(2 * a + 5) % 8], s[(2 * a + 3) % 8]) == KeyWord(Words(s), a)
  {
    hide Mixed, NumberWord, JoinHalves, HighHalf, LowHalf, Unsigned;
    MixedHalves(s[2 * a % 8], s[(2 * a + 5) % 8], s[(2 * a + 3) % 8]);
    NumberWordUnsigned(s[2 * a % 8]);
    NumberWordUnsigned(s[(2 * a + 5) % 8]);
    NumberWordUnsigned(s[(2 * a + 3) % 8]);
  }

  lemma MixedWords(s: seq<int>)
    requires |s| == 8
    ensures Mixed(s[0], s[5], s[3]) == KeyWord(Words(s), 0) && Mixed(s[2], s[7], s[5]) == KeyWord(Words(s), 1)
    ensures Mixed(s[4], s[1], s[7]) == KeyWord(Words(s), 2) && Mixed(s[6], s[3], s[1]) == KeyWord(Words(s), 3)
  {
    hide Mixed, KeyWord, Words;
    MixedWord(s, 0);
    MixedWord(s, 1);
    MixedWord(s, 2);
    MixedWord(s, 3);
  }

  lemma WriteNothing(ws: seq<Word>, q: nat)
    requires q <= |ws|
    ensures WriteBlock(ws, q, []) == ws
  {
  }

  lemma WriteNext(ws: seq<Word>, q: nat, block: seq<Word>, a: nat)
    requires q <= |ws| && a < |block|
    ensures Put(WriteBlock(ws, q, block[..a]), q + a, block[a]) == WriteBlock(ws, q, block[..a + 1])
    ensures Get(WriteBlock(ws, q, block[..a]), q + a) == Get(ws, q + a)
  {
    assert block[..a + 1] == block[..a] + [block[a]];
  }

  lemma NoCarryYet(c: Words8, b: nat)
    ensures CarryInto(c, b, 0) == b
  {
  }

  lemma CountersAre(s: seq<int>, c0: Words8, b0: nat)
    requires |s| == 8 && forall i :: 0 <= i < 8 ==> Unsigned(s[i]) == Counter(c0, b0)[i]
    ensures Words(s) == Counter(c0, b0)
  {
    hide Unsigned, Counter;
  }

  lemma SignedWordlike(x: int)
    ensures Wordlike(Signed(x))
  {
  }

  lemma SquareWordlike(e: int)
    ensures Wordlike(Square(e))
  {
  }

  lemma SumOfTwo(x: int, y: int)
    ensures Unsigned(x + y) == (Unsigned(x) + Unsigned(y)) % TWO32
  {
  }

  lemma MixAll(g: seq<int>)
    requires |g| == 8
    ensures Unsigned(MixEven(g[0], g[7], g[6])) == Mix(Words(g), 0) && Unsigned(MixOdd(g[1], g[0], g[7])) == Mix(Words(g), 1)
    ensures Unsigned(MixEven(g[2], g[1], g[0])) == Mix(Words(g), 2) && Unsigned(MixOdd(g[3], g[2], g[1])) == Mix(Words(g), 3)
    ensures Unsigned(MixEven(g[4], g[3], g[2])) == Mix(Words(g), 4) && Unsigned(MixOdd(g[5], g[4], g[3])) == Mix(Words(g), 5)
    ensures Unsigned(MixEven(g[6], g[5], g[4])) == Mix(Words(g), 6) && Unsigned(MixOdd(g[7], g[6], g[5])) == Mix(Words(g), 7)
  {
    hide Mix, Unsigned, Words;
    forall j | 0 <= j < 8
      ensures var g0, g1, g2 := g[j], g[(j + 7) % 8], g[(j + 6) % 8];
              Unsigned(if j % 2 == 0 then MixEven(g0, g1, g2) else MixOdd(g0, g1, g2)) == Mix(Words(g), j)
    {
      MixIs(g, j);
    }
  }
}
