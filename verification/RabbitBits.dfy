/**
 Rabbit in the terms of RFC 4503: the eight equations of a step, the constants, the folded square bit by bit, the two setups
 and the keystream octets.
 */
module RabbitBits {
  import opened WordArrays
  import opened BufferedBlocks
  import opened JsNumber
  import opened MachineWords
  import opened Lanes
  import opened Bits
  import opened Rabbit
  import opened RabbitCipher
  import RabbitStream

  // ----- sections 2.5 and 2.6

  /** The constants of the counter system. */
  lemma Constants()
    ensures Addends() == [0x4D34_D34D, 0xD34D_34D3, 0x34D3_4D34, 0x4D34_D34D, 0xD34D_34D3, 0x34D3_4D34, 0x4D34_D34D, 0xD34D_34D3]
  {
  }

  /** The number with its two 16-bit halves exchanged. */
  function Rotated16(v: nat): nat {
    v % 0x1_0000 * 0x1_0000 + v / 0x1_0000
  }

  /** The number rotated to the left by eight places. */
  function Rotated8(v: nat): nat {
    v % 0x100_0000 * 0x100 + v / 0x100_0000
  }

  lemma Rotations(v: nat)
    ensures Rotl(v, 16) == Rotated16(v) && Rotl(v, 8) == Rotated8(v)
  {
    hide Pow2;
    Sixteen();
    Pow2Adds(8, 16);
    assert Pow2(8) == 256 by { EightBits(); }
  }

  lemma EightBits()
    ensures Pow2(8) == 256
  {
  }

  /** The folded square for state variable `j` in the step from `s`. */
  function Folded(s: State, j: nat): nat
    requires j < 8
  {
    G((s.x[j] + Counter(s.c, s.b)[j]) % 0x1_0000_0000)
  }

  lemma MixedAt(s: State, j: nat)
    requires j < 8
    ensures var g0, g1, g2 := Folded(s, j), Folded(s, (j + 7) % 8), Folded(s, (j + 6) % 8);
            Next(s).x[j] == (if j % 2 == 0 then g0 + Rotated16(g1) + Rotated16(g2) else g0 + Rotated8(g1) + g2) % 0x1_0000_0000
  {
    hide G, Rotl, Rotated16, Rotated8, Counter, CarryInto;
    Rotations(Folded(s, (j + 7) % 8));
    Rotations(Folded(s, (j + 6) % 8));
  }

  /** The next-state function: every state variable from three of the folded squares. */
  lemma StepEquations(s: State)
    ensures var x := Next(s).x;
            && x[0] == (Folded(s, 0) + Rotated16(Folded(s, 7)) + Rotated16(Folded(s, 6))) % 0x1_0000_0000
            && x[2] == (Folded(s, 2) + Rotated16(Folded(s, 1)) + Rotated16(Folded(s, 0))) % 0x1_0000_0000
            && x[4] == (Folded(s, 4) + Rotated16(Folded(s, 3)) + Rotated16(Folded(s, 2))) % 0x1_0000_0000
            && x[6] == (Folded(s, 6) + Rotated16(Folded(s, 5)) + Rotated16(Folded(s, 4))) % 0x1_0000_0000
    ensures var x := Next(s).x;
            && x[1] == (Folded(s, 1) + Rotated8(Folded(s, 0)) + Folded(s, 7)) % 0x1_0000_0000
            && x[3] == (Folded(s, 3) + Rotated8(Folded(s, 2)) + Folded(s, 1)) % 0x1_0000_0000
            && x[5] == (Folded(s, 5) + Rotated8(Folded(s, 4)) + Folded(s, 3)) % 0x1_0000_0000
            && x[7] == (Folded(s, 7) + Rotated8(Folded(s, 6)) + Folded(s, 5)) % 0x1_0000_0000
  {
    hide Folded, Rotated16, Rotated8, Next;
    EvenEquations(s);
    OddEquations(s);
  }

  lemma EvenEquations(s: State)
    ensures var x := Next(s).x;
            && x[0] == (Folded(s, 0) + Rotated16(Folded(s, 7)) + Rotated16(Folded(s, 6))) % 0x1_0000_0000
            && x[2] == (Folded(s, 2) + Rotated16(Folded(s, 1)) + Rotated16(Folded(s, 0))) % 0x1_0000_0000
            && x[4] == (Folded(s, 4) + Rotated16(Folded(s, 3)) + Rotated16(Folded(s, 2))) % 0x1_0000_0000
            && x[6] == (Folded(s, 6) + Rotated16(Folded(s, 5)) + Rotated16(Folded(s, 4))) % 0x1_0000_0000
  {
    hide Folded, Rotated16, Rotated8, Next;
    MixedAt(s, 0);
    MixedAt(s, 2);
    MixedAt(s, 4);
    MixedAt(s, 6);
  }

  lemma OddEquations(s: State)
    ensures var x := Next(s).x;
            && x[1] == (Folded(s, 1) + Rotated8(Folded(s, 0)) + Folded(s, 7)) % 0x1_0000_0000
            && x[3] == (Folded(s, 3) + Rotated8(Folded(s, 2)) + Folded(s, 1)) % 0x1_0000_0000
            && x[5] == (Folded(s, 5) + Rotated8(Folded(s, 4)) + Folded(s, 3)) % 0x1_0000_0000
            && x[7] == (Folded(s, 7) + Rotated8(Folded(s, 6)) + Folded(s, 5)) % 0x1_0000_0000
  {
    hide Folded, Rotated16, Rotated8, Next;
    MixedAt(s, 1);
    MixedAt(s, 3);
    MixedAt(s, 5);
    MixedAt(s, 7);
  }

  /** The upper and the lower half of the 64-bit square, added bit by bit. */
  lemma SquareBits(u: nat, i: nat)
    requires u < TWO32 && i < 32
    ensures G(u) < TWO32 && Bit(G(u), i) == (Bit(u * u, i) + Bit(u * u, i + 32)) % 2
  {
    hide Bit, Bitwise, High, Low, Up, Pow2;
    var x := u * u;
    Pow2Values();
    OperatorBits(x / TWO32, x % TWO32, 32, i);
    HighBit(x, 32, i);
    PartsAddUp(x, 32);
    HalvesOf(x);
    StackedBit(Low(x, 32), High(x, 32), 32, i);
  }

  lemma HalvesOf(x: nat)
    ensures High(x, 32) == x / TWO32 && Low(x, 32) == x % TWO32
  {
    Pow2Values();
  }

  // ----- sections 2.3 and 2.4

  /** The state variables and counters that the key's 16-bit parts are put into. */
  lemma ExpandedKey(key: seq<Word>)
    requires |key| >= 4
    ensures var k0, k1, k2, k3 := key[0], key[1], key[2], key[3];
            && Expand(key).x == AsNumbers([k0, (k3 << 16) | (k2 >> 16), k1, (k0 << 16) | (k3 >> 16),
                                           k2, (k1 << 16) | (k0 >> 16), k3, (k2 << 16) | (k1 >> 16)])
            && Expand(key).c == AsNumbers([(k2 << 16) | (k2 >> 16), (k0 & 0xFFFF_0000) | (k1 & 0xFFFF),
                                           (k3 << 16) | (k3 >> 16), (k1 & 0xFFFF_0000) | (k2 & 0xFFFF),
                                           (k0 << 16) | (k0 >> 16), (k2 & 0xFFFF_0000) | (k3 & 0xFFFF),
                                           (k1 << 16) | (k1 >> 16), (k3 & 0xFFFF_0000) | (k0 & 0xFFFF)])
            && Expand(key).b == 0
  {
    InitialXIs(key);
    InitialCIs(key);
    hide ExpandX, ExpandC, AsNumber;
  }

  lemma XorBits(x: nat, y: nat, i: nat)
    requires i < 32
    ensures Bit(Xor32(x, y), i) == (Bit(x, i) + Bit(y, i)) % 2 && Xor32(x, y) < TWO32
  {
    hide Bit, Bitwise;
    OperatorBits(x, y, 32, i);
  }

  /** Four iterations, and every counter combined with the state variable four places on. */
  lemma KeySetupIs(key: seq<Word>, j: nat, i: nat)
    requires |key| >= 4 && j < 8 && i < 32
    ensures var s, t := Next(Next(Next(Next(Expand(key))))), KeySetup(key);
            t.x == s.x && t.b == s.b && Bit(t.c[j], i) == (Bit(s.c[j], i) + Bit(s.x[(j + 4) % 8], i)) % 2
  {
    hide Bit, Xor32, Next, Expand;
    FourSteps(Expand(key));
    var s := After(Expand(key), 4);
    hide After;
    XorBits(s.c[j], s.x[(j + 4) % 8], i);
  }

  lemma FourSteps(s: State)
    ensures After(s, 4) == Next(Next(Next(Next(s))))
  {
    hide Next;
    assert After(s, 1) == Next(After(s, 0));
    assert After(s, 2) == Next(After(s, 1));
    assert After(s, 3) == Next(After(s, 2));
  }

  /** The upper halves of two words, and the lower ones. */
  function Uppers(a: Word, c: Word): Word {
    (a & 0xFFFF_0000) | (c >> 16)
  }

  function Lowers(a: Word, c: Word): Word {
    (a << 16) | (c & 0xFFFF)
  }

  lemma HalvesInOrder(a: Word, c: Word)
    ensures Uppers(a, c) == JoinHalves(HighHalf(a), HighHalf(c)) && Lowers(a, c) == JoinHalves(LowHalf(a), LowHalf(c))
  {
  }

  /** The word that counter `j` is combined with: the IV's octets least significant first. */
  function IvPart(w0: Word, w1: Word, j: nat): Word {
    var i0 := WordOf(ByteOf(w0, 3), ByteOf(w0, 2), ByteOf(w0, 1), ByteOf(w0, 0));
    var i1 := WordOf(ByteOf(w1, 3), ByteOf(w1, 2), ByteOf(w1, 1), ByteOf(w1, 0));
    if j % 4 == 0 then i0 else if j % 4 == 1 then Uppers(i1, i0) else if j % 4 == 2 then i1 else Lowers(i1, i0)
  }

  lemma IvPartIs(w0: Word, w1: Word, j: nat)
    ensures IvPart(w0, w1, j) == IvWord(w0, w1, j)
  {
    hide JoinHalves, HighHalf, LowHalf, WordOf, ByteOf, Uppers, Lowers;
    HalvesInOrder(SwapBytes(w1), SwapBytes(w0));
  }

  lemma IvBits(c: Words8, w0: Word, w1: Word, j: nat, i: nat)
    requires j < 8 && i < 32
    ensures Bit(XoredWithIv(c, w0, w1)[j], i) == (Bit(c[j], i) + Bit(AsNumber(IvPart(w0, w1, j)), i)) % 2
  {
    hide Bit, Xor32, IvPart, IvWord, AsNumber;
    IvPartIs(w0, w1, j);
    XorBits(c[j], IvNumbers(w0, w1)[j], i);
  }

  /** With an IV, four more iterations follow after it has been combined with the counters; without one, none. */
  lemma SetupIs(key: seq<Word>, w0: Word, w1: Word)
    requires |key| >= 4
    ensures Setup(key, NoIv) == KeySetup(key)
    ensures var s := KeySetup(key);
            Setup(key, Iv(w0, w1)) == Next(Next(Next(Next(State(s.x, XoredWithIv(s.c, w0, w1), s.b)))))
  {
    hide Next, KeySetup, XoredWithIv;
    var s := KeySetup(key);
    FourSteps(State(s.x, XoredWithIv(s.c, w0, w1), s.b));
    hide After;
  }

  // ----- sections 2.7 and 2.8

  function Combined(x0: Word, x5: Word, x3: Word): Word {
    x0 ^ (x5 >> 16) ^ (x3 << 16)
  }

  lemma MixedIs(x0: int, x5: int, x3: int)
    ensures Mixed(x0, x5, x3) == Combined(NumberWord(x0), NumberWord(x5), NumberWord(x3))
  {
    hide NumberWord;
  }

  lemma NumbersStay(x: Words8)
    ensures Words(x) == x
  {
    hide Unsigned;
    forall i | 0 <= i < 8
      ensures Unsigned(x[i]) == x[i]
    {
      UnsignedSmall(x[i]);
    }
  }

  /** Each word of a keystream block combines a state variable with halves of two others. */
  lemma KeyWordIs(x: Words8, a: nat)
    requires a < 4
    ensures KeyWord(x, a) == Combined(NumberWord(x[2 * a]), NumberWord(x[(2 * a + 5) % 8]), NumberWord(x[(2 * a + 3) % 8]))
  {
    hide KeyWord, Mixed, NumberWord, Combined, Words;
    NumbersStay(x);
    MixedWord(x, a);
    MixedIs(x[2 * a], x[(2 * a + 5) % 8], x[(2 * a + 3) % 8]);
  }

  /**
   Octet `i` of a message is combined with octet `i` of the blocks of the steps from the first, each least significant octet
   first.
   */
  lemma OctetIs(s: State, m: seq<Byte>, i: nat)
    requires i < |m|
    ensures RabbitStream.Encrypted(s, m)[i] == m[i] ^ ByteOf(KeyWord(After(s, i / 16 + 1).x, i % 16 / 4), 3 - i % 4)
  {
    hide ByteOf, KeyWord, After;
  }

  /** Less than a block of a message is kept back. */
  lemma KeptBack(s: State, m: seq<Byte>)
    ensures RabbitStream.Encryptor().Valid()
    ensures |Process(RabbitStream.Encryptor(), Stream(s, m), false).0.pending| == |m| % 16
  {
    hide Process, RabbitStream.Step;
    RabbitStream.EncryptorValid();
    HeldBack(RabbitStream.Encryptor(), Stream(s, m));
  }
}
