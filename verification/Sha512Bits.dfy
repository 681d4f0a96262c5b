/**
 The functions of SHA-512 bit by bit and its steps as sums: what sections 4.1.3 and 6.4.2 of FIPS 180-4 say, without the
 operators that the code shares with the model of the standard.
 */
module Sha512Bits {
  import opened Arithmetic
  import opened WordArrays
  import opened MachineWords
  import opened JsNumber
  import opened Lanes
  import opened Bits
  import LengthPaddings
  import S = Sha512
  import H = Sha512Hasher

  // ----- section 4.1.3

  lemma Xor3Bit(x: nat, y: nat, z: nat, i: nat)
    requires i < 64
    ensures Bit(S.Xor3(x, y, z), i) == (Bit(x, i) + Bit(y, i) + Bit(z, i)) % 2
  {
    hide Bit, Xor64;
    Operators64(x, y, i);
    Operators64(Xor64(x, y), z, i);
  }

  /** Each bit of the sigma functions is the sum modulo 2 of three bits of the argument. */
  lemma SigmaBits(x: nat, i: nat)
    requires x < TWO64 && i < 64
    ensures Bit(S.BigSigma0(x), i) == (Bit(x, (i + 28) % 64) + Bit(x, (i + 34) % 64) + Bit(x, (i + 39) % 64)) % 2
    ensures Bit(S.BigSigma1(x), i) == (Bit(x, (i + 14) % 64) + Bit(x, (i + 18) % 64) + Bit(x, (i + 41) % 64)) % 2
    ensures Bit(S.SmallSigma0(x), i) ==
            (Bit(x, (i + 1) % 64) + Bit(x, (i + 8) % 64) + if i < 57 then Bit(x, i + 7) else 0) % 2
    ensures Bit(S.SmallSigma1(x), i) ==
            (Bit(x, (i + 19) % 64) + Bit(x, (i + 61) % 64) + if i < 58 then Bit(x, i + 6) else 0) % 2
  {
    hide Bit, S.Xor3, Rotr64, High;
    Xor3Bit(Rotr64(x, 28), Rotr64(x, 34), Rotr64(x, 39), i);
    Xor3Bit(Rotr64(x, 14), Rotr64(x, 18), Rotr64(x, 41), i);
    Xor3Bit(Rotr64(x, 1), Rotr64(x, 8), High(x, 7), i);
    Xor3Bit(Rotr64(x, 19), Rotr64(x, 61), High(x, 6), i);
    RotateBit(x, 28, i);
    RotateBit(x, 34, i);
    RotateBit(x, 39, i);
    RotateBit(x, 14, i);
    RotateBit(x, 18, i);
    RotateBit(x, 41, i);
    RotateBit(x, 1, i);
    RotateBit(x, 8, i);
    RotateBit(x, 19, i);
    RotateBit(x, 61, i);
    ShiftBit(x, 7, i);
    ShiftBit(x, 6, i);
  }

  lemma ShiftBit(x: nat, k: nat, i: nat)
    requires x < TWO64 && i < 64 && k < 64
    ensures Bit(High(x, k), i) == if i < 64 - k then Bit(x, i + k) else 0
  {
    hide Bit, High, Pow2;
    Pow2Values();
    HighBit(x, k, i);
    if i >= 64 - k {
      BeyondBits(x, 64, i + k);
    }
  }

  lemma BeyondBits(x: nat, n: nat, i: nat)
    requires x < Pow2(n) && n <= i
    ensures Bit(x, i) == 0
  {
    hide Pow2;
    Pow2Adds(n, i - n);
    MulMonotone(1, Pow2(i - n), Pow2(n));
    PartsUnique(x, 0, x, i);
  }

  /** `Ch` takes each bit from `y` or from `z`, and `Maj` the bit that at least two arguments have. */
  lemma ChoiceBits(x: nat, y: nat, z: nat, i: nat)
    requires x < TWO64 && i < 64
    ensures Bit(S.Ch(x, y, z), i) == if Bit(x, i) == 1 then Bit(y, i) else Bit(z, i)
    ensures Bit(S.Maj(x, y, z), i) == if Bit(x, i) + Bit(y, i) + Bit(z, i) >= 2 then 1 else 0
  {
    hide Bit, Xor64, And64, Not64, S.Xor3;
    Operators64(x, y, i);
    Operators64(x, z, i);
    Operators64(y, z, i);
    Operators64(Not64(x), z, i);
    Operators64(And64(x, y), And64(Not64(x), z), i);
    Xor3Bit(And64(x, y), And64(x, z), And64(y, z), i);
  }

  // ----- section 6.4.2

  lemma AddMore(x: nat, y: nat, z: nat)
    requires x == y % TWO64
    ensures S.Add64(x, z) == (y + z) % TWO64
  {
    QuotientShift(x + z, y / TWO64, TWO64);
    assert y == y / TWO64 * TWO64 + x;
  }

  lemma AddTwo(x: nat, y: nat, z: nat, w: nat)
    requires x == y % TWO64 && z == w % TWO64
    ensures S.Add64(x, z) == (y + w) % TWO64
  {
    AddMore(x, y, w);
    AddMore(z, w, x);
  }

  /** One round: the eight assignments with the two sums modulo 2^64. */
  lemma RoundSums(v: S.Vars<nat>, k: nat, w: nat)
    ensures var t1 := v.h + S.BigSigma1(v.e) + S.Ch(v.e, v.f, v.g) + k + w;
            var t2 := S.BigSigma0(v.a) + S.Maj(v.a, v.b, v.c);
            S.Round(v, k, w) == S.Vars((t1 + t2) % TWO64, v.a, v.b, v.c, (v.d + t1) % TWO64, v.e, v.f, v.g)
  {
    hide S.Add64, S.BigSigma0, S.BigSigma1, S.Ch, S.Maj;
    var a, b, c := v.h + S.BigSigma1(v.e), S.Ch(v.e, v.f, v.g), S.BigSigma0(v.a) + S.Maj(v.a, v.b, v.c);
    AddsModulo(v.h, S.BigSigma1(v.e));
    AddsModulo(S.BigSigma0(v.a), S.Maj(v.a, v.b, v.c));
    AddMore(a % TWO64, a, b);
    AddMore((a + b) % TWO64, a + b, k);
    AddMore((a + b + k) % TWO64, a + b + k, w);
    AddTwo((a + b + k + w) % TWO64, a + b + k + w, c % TWO64, c);
    AddTwo((a + b + k + w) % TWO64, a + b + k + w, v.d % TWO64, v.d);
    AddOther((a + b + k + w) % TWO64, a + b + k + w, v.d);
  }

  lemma AddsModulo(x: nat, y: nat)
    ensures S.Add64(x, y) == (x + y) % TWO64
  {
  }

  lemma AddOther(x: nat, y: nat, z: nat)
    requires x == y % TWO64
    ensures S.Add64(z, x) == (z + y) % TWO64
  {
    AddMore(x, y, z);
  }

  /** The message schedule. */
  lemma ScheduleSums(m: seq<nat>, t: nat)
    requires |m| == 16
    ensures t < 16 ==> S.W(m, t) == m[t]
    ensures t >= 16 ==>
              S.W(m, t) ==
              (S.SmallSigma1(S.W(m, t - 2)) + S.W(m, t - 7) + S.SmallSigma0(S.W(m, t - 15)) + S.W(m, t - 16)) % TWO64
  {
    hide S.Add64, S.SmallSigma0, S.SmallSigma1;
    if t >= 16 {
      var a, b, c := S.SmallSigma1(S.W(m, t - 2)), S.W(m, t - 7), S.SmallSigma0(S.W(m, t - 15));
      AddsModulo(a, b);
      AddMore((a + b) % TWO64, a + b, c);
      AddMore((a + b + c) % TWO64, a + b + c, S.W(m, t - 16));
    }
  }

  /** Eighty rounds, and the sums that close a block. */
  lemma BlockSums(v: S.Vars<nat>, m: seq<nat>, t: nat)
    requires |m| == 16 && t < 80
    ensures S.Rounds(v, m, 0) == v
    ensures S.Rounds(v, m, t + 1) == S.Round(S.Rounds(v, m, t), S.K[t].Val(), S.W(m, t))
    ensures var r := S.Rounds(v, m, 80);
            S.Compress(v, m) ==
            S.Vars((v.a + r.a) % TWO64, (v.b + r.b) % TWO64, (v.c + r.c) % TWO64, (v.d + r.d) % TWO64,
              (v.e + r.e) % TWO64, (v.f + r.f) % TWO64, (v.g + r.g) % TWO64, (v.h + r.h) % TWO64)
  {
    hide S.Round, S.W;
    var r := 80;
    assert S.Rounds(v, m, r) == S.Rounds(v, m, 80);
  }

  // ----- words of 32 bits

  function Joined(h: Word, l: Word): nat {
    AsNumber(h) * TWO32 + AsNumber(l)
  }

  lemma JoinedIs(h: Word, l: Word)
    ensures Lane(AsNumber(h), AsNumber(l)).Val() == Joined(h, l)
  {
    hide AsNumber;
    SmallUnsigned(AsNumber(h));
    SmallUnsigned(AsNumber(l));
  }

  /** Two words of the message make up each word of a block, the first the more significant. */
  lemma MessageWord(ws: seq<Word>, n: nat, t: nat)
    requires t < 16
    ensures H.MessageBlock(ws, n)[t] == Joined(Get(ws, 32 * n + 2 * t), Get(ws, 32 * n + 2 * t + 1))
  {
    hide AsNumber, Joined, Lane.Val;
    JoinedIs(Get(ws, 32 * n + 2 * t), Get(ws, 32 * n + 2 * t + 1));
  }

  lemma HalvesOf(v: nat)
    requires v < TWO64
    ensures Joined(NumberWord(v / TWO32), NumberWord(v)) == v
  {
    hide NumberWord, AsNumber;
    NumberBack(v);
    NumberBack(v / TWO32);
    SmallUnsigned(v / TWO32);
    UnsignedIs(v);
  }

  predicate Small(v: S.Vars<nat>) {
    v.a < TWO64 && v.b < TWO64 && v.c < TWO64 && v.d < TWO64 && v.e < TWO64 && v.f < TWO64 && v.g < TWO64 && v.h < TWO64
  }

  /** The sixteen words of a digest make up the eight words of 64 bits, in their order. */
  lemma DigestWords(v: S.Vars<nat>)
    requires Small(v)
    ensures var ws := H.Halves(v);
            S.Vars(Joined(ws[0], ws[1]), Joined(ws[2], ws[3]), Joined(ws[4], ws[5]), Joined(ws[6], ws[7]),
              Joined(ws[8], ws[9]), Joined(ws[10], ws[11]), Joined(ws[12], ws[13]), Joined(ws[14], ws[15])) == v
  {
    hide NumberWord, Joined;
    HalvesOf(v.a);
    HalvesOf(v.b);
    HalvesOf(v.c);
    HalvesOf(v.d);
    HalvesOf(v.e);
    HalvesOf(v.f);
    HalvesOf(v.g);
    HalvesOf(v.h);
  }

  function InitialVars(): S.Vars<nat> {
    var h := S.INITIAL;
    S.Vars(h[0].Val(), h[1].Val(), h[2].Val(), h[3].Val(), h[4].Val(), h[5].Val(), h[6].Val(), h[7].Val())
  }

  lemma {:induction false} FoldSmall(ws: seq<Word>, n: nat)
    ensures Small(H.Fold(InitialVars(), ws, n))
    decreases n
  {
    hide S.Rounds, H.MessageBlock, Lane.Val, S.INITIAL;
    if n > 0 {
      FoldSmall(ws, n - 1);
    }
  }

  /** Section 6.4: the initial words, block after block, and the digest words of the last. */
  lemma DigestFolds(m: seq<Byte>)
    ensures var ws := LengthPaddings.PaddedWords(m, |m|, 32);
            var v := H.Fold(InitialVars(), ws, |ws| / 32);
            var d := H.Sha512(m);
            S.Vars(Joined(d[0], d[1]), Joined(d[2], d[3]), Joined(d[4], d[5]), Joined(d[6], d[7]),
              Joined(d[8], d[9]), Joined(d[10], d[11]), Joined(d[12], d[13]), Joined(d[14], d[15])) == v
  {
    hide H.Halves, S.Compress, H.MessageBlock, Joined, Lane.Val, S.INITIAL, LengthPaddings.PaddedWords;
    var ws := LengthPaddings.PaddedWords(m, |m|, 32);
    FoldSmall(ws, |ws| / 32);
    DigestWords(H.Fold(InitialVars(), ws, |ws| / 32));
  }

  lemma FoldsInOrder(v: S.Vars<nat>, ws: seq<Word>, n: nat)
    ensures H.Fold(v, ws, 0) == v && H.Fold(v, ws, n + 1) == S.Compress(H.Fold(v, ws, n), H.MessageBlock(ws, n))
  {
    hide S.Compress, H.MessageBlock;
  }
}
