/**
 SHA-1 in machine words: sections 4.1.1, 4.2.1 and 6.1.2 of FIPS 180-4 written with the operators of 32-bit words, against
 the same sections on numbers in `Sha1s`, and the published digest of "abc".
 */
module Sha1Machine {
  import opened WordArrays
  import opened MachineWords
  import O = MachineOperators
  import J = JsNumber
  import Lanes
  import LengthPaddings
  import S = Sha1s
  import opened BufferedBlocks

  type Five = S.Five<Word>

  function Both(x: Word, y: Word): Word { x & y }
  function Exclusive(x: Word, y: Word): Word { x ^ y }

  function Function(t: nat, x: Word, y: Word, z: Word): Word {
    if t < 20 then Exclusive(Both(x, y), Both(O.Inverted(x), z))
    else if t < 40 then Exclusive(Exclusive(x, y), z)
    else if t < 60 then Exclusive(Exclusive(Both(x, y), Both(x, z)), Both(y, z))
    else Exclusive(Exclusive(x, y), z)
  }

  function Constant(t: nat): Word {
    if t < 20 then 0x5A82_7999 else if t < 40 then 0x6ED9_EBA1 else if t < 60 then 0x8F1B_BCDC else 0xCA62_C1D6
  }

  function W(m: seq<Word>, t: nat): Word
    requires |m| == 16
    decreases t, m
  {
    if t < 16 then m[t] else
    var x := W(m, t - 3) ^ W(m, t - 8) ^ W(m, t - 14) ^ W(m, t - 16);
    (x << 1) | (x >> 31)
  }

  function Rotl1(x: Word): Word { (x << 1) | (x >> 31) }
  function Rotl5(x: Word): Word { (x << 5) | (x >> 27) }
  function Rotl30(x: Word): Word { (x << 30) | (x >> 2) }

  function Round(v: Five, t: nat, w: Word): Five {
    S.Five(O.Plus(O.Plus(O.Plus(O.Plus(Rotl5(v.a), Function(t, v.b, v.c, v.d)), v.e), Constant(t)), w), v.a, Rotl30(v.b), v.c, v.d)
  }

  function Rounds(v: Five, m: seq<Word>, t: nat): Five
    requires |m| == 16
    decreases t, m
  {
    if t == 0 then v else Round(Rounds(v, m, t - 1), t - 1, W(m, t - 1))
  }

  function Compress(v: Five, m: seq<Word>): Five
    requires |m| == 16
  {
    var r := Rounds(v, m, 80);
    S.Five(O.Plus(v.a, r.a), O.Plus(v.b, r.b), O.Plus(v.c, r.c), O.Plus(v.d, r.d), O.Plus(v.e, r.e))
  }

  // ----- the numbers of the model stand for these words

  function AsWords(v: S.Five<nat>): Five {
    S.Five(NumberWord(v.a), NumberWord(v.b), NumberWord(v.c), NumberWord(v.d), NumberWord(v.e))
  }

  function MapWords(m: seq<nat>): (ws: seq<Word>)
    ensures |ws| == |m|
  {
    seq(|m|, i requires 0 <= i < |m| => NumberWord(m[i]))
  }

  lemma Rotate1(w: Word)
    ensures O.FunnelWord(w, w, 31) == Rotl1(w)
  {
  }

  lemma Rotate5(w: Word)
    ensures O.FunnelWord(w, w, 27) == Rotl5(w)
  {
  }

  lemma Rotate30(w: Word)
    ensures O.FunnelWord(w, w, 2) == Rotl30(w)
  {
  }

  lemma RotationsAre(u: nat)
    requires u < J.TWO32
    ensures NumberWord(S.Rotl32(u, 1)) == Rotl1(NumberWord(u))
    ensures NumberWord(S.Rotl32(u, 5)) == Rotl5(NumberWord(u))
    ensures NumberWord(S.Rotl32(u, 30)) == Rotl30(NumberWord(u))
  {
    hide NumberWord, O.FunnelWord, Lanes.Funnel, Rotl1, Rotl5, Rotl30;
    O.FunnelIs(u, u, 31);
    O.FunnelIs(u, u, 27);
    O.FunnelIs(u, u, 2);
    Rotate1(NumberWord(u));
    Rotate5(NumberWord(u));
    Rotate30(NumberWord(u));
  }

  lemma OperatorNames(x: Word, y: Word)
    ensures O.OpWord(J.And, x, y) == Both(x, y) && O.OpWord(J.Xor, x, y) == Exclusive(x, y)
  {
  }

  lemma Operators(x: nat, y: nat)
    requires x < J.TWO32 && y < J.TWO32
    ensures S.And32(x, y) < J.TWO32 && NumberWord(S.And32(x, y)) == Both(NumberWord(x), NumberWord(y))
    ensures J.Xor32(x, y) < J.TWO32 && NumberWord(J.Xor32(x, y)) == Exclusive(NumberWord(x), NumberWord(y))
    ensures S.Not32(x) < J.TWO32 && NumberWord(S.Not32(x)) == O.Inverted(NumberWord(x))
  {
    J.Pow2Values();
    hide NumberWord, J.Bitwise, J.Pow2, O.Inverted, O.OpWord, Both, Exclusive;
    OperatorNames(NumberWord(x), NumberWord(y));
    O.BitwiseOp(J.And, x, y);
    O.BitwiseOp(J.Xor, x, y);
    O.NotWord(x);
  }

  predicate Small(v: S.Five<nat>) {
    v.a < J.TWO32 && v.b < J.TWO32 && v.c < J.TWO32 && v.d < J.TWO32 && v.e < J.TWO32
  }

  lemma FunctionIs(t: nat, x: nat, y: nat, z: nat)
    requires x < J.TWO32 && y < J.TWO32 && z < J.TWO32
    ensures NumberWord(S.Function(t, x, y, z)) == Function(t, NumberWord(x), NumberWord(y), NumberWord(z))
  {
    hide NumberWord, S.And32, S.Not32, J.Xor32, Both, Exclusive, O.Inverted;
    Operators(x, y);
    Operators(x, z);
    Operators(y, z);
    Operators(S.Not32(x), z);
    Operators(S.And32(x, y), S.And32(S.Not32(x), z));
    Operators(S.And32(x, y), S.And32(x, z));
    Operators(J.Xor32(S.And32(x, y), S.And32(x, z)), S.And32(y, z));
    Operators(J.Xor32(x, y), z);
  }

  lemma ConstantIs(t: nat)
    ensures NumberWord(S.Constant(t)) == Constant(t)
  {
    hide NumberWord;
    ConstantsAre();
  }

  lemma ConstantsAre()
    ensures NumberWord(0x5A82_7999) == 0x5A82_7999 && NumberWord(0x6ED9_EBA1) == 0x6ED9_EBA1
    ensures NumberWord(0x8F1B_BCDC) == 0x8F1B_BCDC && NumberWord(0xCA62_C1D6) == 0xCA62_C1D6
  {
    hide NumberWord;
    LiteralWord(0x5A, 0x82, 0x79, 0x99, 0x5A82_7999, 0x5A82_7999);
    LiteralWord(0x6E, 0xD9, 0xEB, 0xA1, 0x6ED9_EBA1, 0x6ED9_EBA1);
    LiteralWord(0x8F, 0x1B, 0xBC, 0xDC, 0x8F1B_BCDC, 0x8F1B_BCDC);
    LiteralWord(0xCA, 0x62, 0xC1, 0xD6, 0xCA62_C1D6, 0xCA62_C1D6);
  }

  lemma SumIs(a: nat, b: nat, c: nat, d: nat, e: nat)
    ensures NumberWord((a + b + c + d + e) % J.TWO32) ==
            O.Plus(O.Plus(O.Plus(O.Plus(NumberWord(a), NumberWord(b)), NumberWord(c)), NumberWord(d)), NumberWord(e))
  {
    hide NumberWord, O.Plus;
    NumberWordUnsigned(a + b + c + d + e);
    O.PlusOf(a, b);
    O.PlusOf(a + b, c);
    O.PlusOf(a + b + c, d);
    O.PlusOf(a + b + c + d, e);
  }

  lemma RotatedSmall(u: nat, n: nat)
    requires u < J.TWO32 && 0 < n < 32
    ensures S.Rotl32(u, n) < J.TWO32
  {
    hide Lanes.Funnel, J.Bits;
    O.SmallFunnel(u, u, 32 - n);
  }

  lemma RoundIs(v: S.Five<nat>, t: nat, w: nat)
    requires Small(v) && w < J.TWO32
    ensures Small(S.Round(v, t, w)) && AsWords(S.Round(v, t, w)) == Round(AsWords(v), t, NumberWord(w))
  {
    hide NumberWord, S.Function, S.Constant, S.Rotl32, Function, Constant, Rotl5, Rotl30, O.Plus;
    RotationsAre(v.a);
    RotationsAre(v.b);
    RotatedSmall(v.b, 30);
    FunctionIs(t, v.b, v.c, v.d);
    ConstantIs(t);
    SumIs(S.Rotl32(v.a, 5), S.Function(t, v.b, v.c, v.d), v.e, S.Constant(t), w);
  }

  // ----- whole blocks

  lemma NextWord(m: seq<Word>, t: nat)
    requires |m| == 16 && t >= 16
    ensures W(m, t) == Rotl1(Exclusive(Exclusive(Exclusive(W(m, t - 3), W(m, t - 8)), W(m, t - 14)), W(m, t - 16)))
  {
    FourWords(W(m, t - 3), W(m, t - 8), W(m, t - 14), W(m, t - 16));
    hide Exclusive, Rotl1;
  }

  lemma FourWords(a: Word, b: Word, c: Word, d: Word)
    ensures var x := a ^ b ^ c ^ d; (x << 1) | (x >> 31) == Rotl1(Exclusive(Exclusive(Exclusive(a, b), c), d))
  {
  }

  lemma FirstWords(m: seq<nat>, t: nat)
    requires |m| == 16
    ensures t < 16 ==> S.W(m, t) == m[t] && W(MapWords(m), t) == NumberWord(m[t])
  {
    hide NumberWord;
  }

  lemma {:induction false} ScheduleIs(m: seq<nat>, t: nat)
    requires |m| == 16 && forall i :: 0 <= i < 16 ==> m[i] < J.TWO32
    ensures S.W(m, t) < J.TWO32 && NumberWord(S.W(m, t)) == W(MapWords(m), t)
    decreases t
  {
    hide NumberWord, S.Rotl32, J.Xor32, Exclusive, Rotl1, W, MapWords;
    FirstWords(m, t);
    if t >= 16 {
      ScheduleIs(m, t - 3);
      ScheduleIs(m, t - 8);
      ScheduleIs(m, t - 14);
      ScheduleIs(m, t - 16);
      var x := J.Xor32(S.W(m, t - 3), S.W(m, t - 8));
      var y := J.Xor32(x, S.W(m, t - 14));
      Operators(S.W(m, t - 3), S.W(m, t - 8));
      Operators(x, S.W(m, t - 14));
      Operators(y, S.W(m, t - 16));
      RotationsAre(J.Xor32(y, S.W(m, t - 16)));
      RotatedSmall(J.Xor32(y, S.W(m, t - 16)), 1);
      NextWord(MapWords(m), t);
    }
  }

  lemma {:induction false} RoundsAre(v: S.Five<nat>, m: seq<nat>, t: nat)
    requires Small(v) && |m| == 16 && forall i :: 0 <= i < 16 ==> m[i] < J.TWO32
    ensures Small(S.Rounds(v, m, t)) && AsWords(S.Rounds(v, m, t)) == Rounds(AsWords(v), MapWords(m), t)
    decreases t
  {
    hide NumberWord, S.Round, Round, S.W, W, MapWords, Small, AsWords;
    if t > 0 {
      RoundsAre(v, m, t - 1);
      ScheduleIs(m, t - 1);
      RoundIs(S.Rounds(v, m, t - 1), t - 1, S.W(m, t - 1));
    }
  }

  /** The compression of the model, section 6.1.2 on numbers, is that section in machine words. */
  lemma CompressIs(v: S.Five<nat>, m: seq<nat>)
    requires Small(v) && |m| == 16 && forall i :: 0 <= i < 16 ==> m[i] < J.TWO32
    ensures AsWords(S.Compress(v, m)) == Compress(AsWords(v), MapWords(m))
  {
    hide NumberWord, S.Rounds, Rounds, MapWords, O.Plus;
    RoundsAre(v, m, 80);
    var r := S.Rounds(v, m, 80);
    FedForward(v.a, r.a);
    FedForward(v.b, r.b);
    FedForward(v.c, r.c);
    FedForward(v.d, r.d);
    FedForward(v.e, r.e);
  }

  lemma FedForward(x: nat, y: nat)
    ensures NumberWord((x + y) % J.TWO32) == O.Plus(NumberWord(x), NumberWord(y))
  {
    hide NumberWord, O.Plus;
    NumberWordUnsigned(x + y);
    O.PlusOf(x, y);
  }

  // ----- whole messages

  const START: Five := S.Five(0x6745_2301, 0xEFCD_AB89, 0x98BA_DCFE, 0x1032_5476, 0xC3D2_E1F0)

  /** Section 5.3.1: least octet first, the initial words count up to EF and back, and then from F0 down to C3. */
  lemma InitialPattern()
    ensures AsWords(S.Words(S.INITIAL)) == START
    ensures SwapBytes(START.a) == 0x0123_4567 && SwapBytes(START.b) == 0x89AB_CDEF
    ensures SwapBytes(START.c) == 0xFEDC_BA98 && SwapBytes(START.d) == 0x7654_3210 && SwapBytes(START.e) == 0xF0E1_D2C3
  {
    hide NumberWord;
    LiteralWord(0x67, 0x45, 0x23, 0x01, 1732584193, START.a);
    LiteralWord(0xEF, 0xCD, 0xAB, 0x89, 4023233417, START.b);
    LiteralWord(0x98, 0xBA, 0xDC, 0xFE, 2562383102, START.c);
    LiteralWord(0x10, 0x32, 0x54, 0x76, 271733878, START.d);
    LiteralWord(0xC3, 0xD2, 0xE1, 0xF0, 3285377520, START.e);
  }

  /** Section 6.1.2 in machine words over `n` blocks. */
  function Fold(v: Five, ws: seq<Word>, n: nat): Five {
    if n == 0 then v else Compress(Fold(v, ws, n - 1), BlockAt(ws, (n - 1) * 16, 16))
  }

  lemma BlockIs(ws: seq<Word>, n: nat)
    ensures forall i :: 0 <= i < 16 ==> S.MessageBlock(ws, n)[i] < J.TWO32
    ensures MapWords(S.MessageBlock(ws, n)) == BlockAt(ws, n * 16, 16)
  {
    hide NumberWord, AsNumber, BlockAt;
    var b := BlockAt(ws, n * 16, 16);
    forall i | 0 <= i < 16
      ensures NumberWord(S.MessageBlock(ws, n)[i]) == b[i]
    {
      SmallUnsigned(AsNumber(b[i]));
      WordBack(b[i]);
    }
  }

  lemma CompressSmall(v: S.Five<nat>, m: seq<nat>)
    requires |m| == 16
    ensures Small(S.Compress(v, m))
  {
    hide S.Rounds;
  }

  lemma {:induction false} FoldIs(v: S.Five<nat>, ws: seq<Word>, n: nat)
    requires Small(v)
    ensures Small(S.Fold(v, ws, n)) && AsWords(S.Fold(v, ws, n)) == Fold(AsWords(v), ws, n)
    decreases n
  {
    hide S.Compress, Compress, S.MessageBlock, AsWords, Small, MapWords, BlockAt;
    if n > 0 {
      FoldIs(v, ws, n - 1);
      BlockIs(ws, n - 1);
      CompressIs(S.Fold(v, ws, n - 1), S.MessageBlock(ws, n - 1));
      CompressSmall(S.Fold(v, ws, n - 1), S.MessageBlock(ws, n - 1));
    }
  }

  /** The digest of every message, in machine words. */
  lemma DigestIs(m: seq<Byte>)
    ensures var ws := LengthPaddings.PaddedWords(m, |m|, 16);
            var r := Fold(START, ws, |ws| / 16);
            S.Sha1(m) == [r.a, r.b, r.c, r.d, r.e]
  {
    hide NumberWord, S.Fold, Fold, LengthPaddings.PaddedWords, START;
    var ws := LengthPaddings.PaddedWords(m, |m|, 16);
    InitialPattern();
    InitialSmall();
    FoldIs(S.Words(S.INITIAL), ws, |ws| / 16);
  }

  lemma InitialSmall()
    ensures Small(S.Words(S.INITIAL))
  {
  }

  // ----- the published digest of "abc"

  const ABC: seq<Word> := [0x6162_6380, 0, 0, 0, 0, 0, 0, 0, 0, 0, 0, 0, 0, 0, 0, 24]

  // ----- its message schedule, five words at a time

  lemma Words0()
    ensures W(ABC, 0) == 0x6162_6380 && W(ABC, 1) == 0 && W(ABC, 2) == 0
    ensures W(ABC, 3) == 0 && W(ABC, 4) == 0
  {
  }

  lemma Words5()
    ensures W(ABC, 5) == 0 && W(ABC, 6) == 0 && W(ABC, 7) == 0
    ensures W(ABC, 8) == 0 && W(ABC, 9) == 0
  {
  }

  lemma Words10()
    ensures W(ABC, 10) == 0 && W(ABC, 11) == 0 && W(ABC, 12) == 0
    ensures W(ABC, 13) == 0 && W(ABC, 14) == 0
  {
  }

  lemma Words15()
    ensures W(ABC, 15) == 24 && W(ABC, 16) == 0xC2C4_C700 && W(ABC, 17) == 0
    ensures W(ABC, 18) == 48 && W(ABC, 19) == 0x8589_8E01
  {
    assert W(ABC, 15) == 24;
    hide W;
    Words0();
    Words5();
    Words10();
    NextWord(ABC, 16);
    NextWord(ABC, 17);
    NextWord(ABC, 18);
    NextWord(ABC, 19);
  }

  lemma Words20()
    ensures W(ABC, 20) == 0 && W(ABC, 21) == 96 && W(ABC, 22) == 0x0B13_1C03
    ensures W(ABC, 23) == 48 && W(ABC, 24) == 0x8589_8EC1
  {
    hide W;
    Words0();
    Words5();
    Words10();
    Words15();
    NextWord(ABC, 20);
    NextWord(ABC, 21);
    NextWord(ABC, 22);
    NextWord(ABC, 23);
    NextWord(ABC, 24);
  }

  lemma Words25()
    ensures W(ABC, 25) == 0x1626_3806 && W(ABC, 26) == 0 && W(ABC, 27) == 0x0000_0180
    ensures W(ABC, 28) == 0x2C4C_700C && W(ABC, 29) == 0x0000_00F0
  {
    hide W;
    Words5();
    Words10();
    Words15();
    Words20();
    NextWord(ABC, 25);
    NextWord(ABC, 26);
    NextWord(ABC, 27);
    NextWord(ABC, 28);
    NextWord(ABC, 29);
  }

  lemma Words30()
    ensures W(ABC, 30) == 0x93AF_B507 && W(ABC, 31) == 0x5898_E048 && W(ABC, 32) == 0x8E9A_9202
    ensures W(ABC, 33) == 0x0000_0600 && W(ABC, 34) == 0xB131_C0F0
  {
    hide W;
    Words10();
    Words15();
    Words20();
    Words25();
    NextWord(ABC, 30);
    NextWord(ABC, 31);
    NextWord(ABC, 32);
    NextWord(ABC, 33);
    NextWord(ABC, 34);
  }

  lemma Words35()
    ensures W(ABC, 35) == 0x1626_3BC6 && W(ABC, 36) == 0x4EBE_D41E && W(ABC, 37) == 0x6263_80A1
    ensures W(ABC, 38) == 0x1626_3806 && W(ABC, 39) == 0x0000_18C0
  {
    hide W;
    Words15();
    Words20();
    Words25();
    Words30();
    NextWord(ABC, 35);
    NextWord(ABC, 36);
    NextWord(ABC, 37);
    NextWord(ABC, 38);
    NextWord(ABC, 39);
  }

  lemma Words40()
    ensures W(ABC, 40) == 0xD2E1_38C4 && W(ABC, 41) == 0x0000_0F00 && W(ABC, 42) == 0x3AFB_5079
    ensures W(ABC, 43) == 0x898E_04E5 && W(ABC, 44) == 0xE2BA_3C2B
  {
    hide W;
    Words20();
    Words25();
    Words30();
    Words35();
    NextWord(ABC, 40);
    NextWord(ABC, 41);
    NextWord(ABC, 42);
    NextWord(ABC, 43);
    NextWord(ABC, 44);
  }

  lemma Words45()
    ensures W(ABC, 45) == 0x0000_60C0 && W(ABC, 46) == 0x053A_37CD && W(ABC, 47) == 0x7445_8547
    ensures W(ABC, 48) == 0xDA94_15ED && W(ABC, 49) == 0x2638_0A16
  {
    hide W;
    Words25();
    Words30();
    Words35();
    Words40();
    NextWord(ABC, 45);
    NextWord(ABC, 46);
    NextWord(ABC, 47);
    NextWord(ABC, 48);
    NextWord(ABC, 49);
  }

  lemma Words50()
    ensures W(ABC, 50) == 0x6263_83A1 && W(ABC, 51) == 0x4EBF_54DE && W(ABC, 52) == 0x3835_B44B
    ensures W(ABC, 53) == 0x0000_F600 && W(ABC, 54) == 0x1E84_C7A3
  {
    hide W;
    Words30();
    Words35();
    Words40();
    Words45();
    NextWord(ABC, 50);
    NextWord(ABC, 51);
    NextWord(ABC, 52);
    NextWord(ABC, 53);
    NextWord(ABC, 54);
  }

  lemma Words55()
    ensures W(ABC, 55) == 0x98E0_4D98 && W(ABC, 56) == 0x651D_16A0 && W(ABC, 57) == 0x6265_8CA1
    ensures W(ABC, 58) == 0x4585_44D6 && W(ABC, 59) == 0x4458_4CB7
  {
    hide W;
    Words35();
    Words40();
    Words45();
    Words50();
    NextWord(ABC, 55);
    NextWord(ABC, 56);
    NextWord(ABC, 57);
    NextWord(ABC, 58);
    NextWord(ABC, 59);
  }

  lemma Words60()
    ensures W(ABC, 60) == 0x7BA0_6619 && W(ABC, 61) == 0x6380_AEA2 && W(ABC, 62) == 0x0AE5_5269
    ensures W(ABC, 63) == 0x627B_49A1 && W(ABC, 64) == 0x7CD4_5C9D
  {
    hide W;
    Words40();
    Words45();
    Words50();
    Words55();
    NextWord(ABC, 60);
    NextWord(ABC, 61);
    NextWord(ABC, 62);
    NextWord(ABC, 63);
    NextWord(ABC, 64);
  }

  lemma Words65()
    ensures W(ABC, 65) == 0x000F_0000 && W(ABC, 66) == 0xFB50_753A && W(ABC, 67) == 0xEC67_65E8
    ensures W(ABC, 68) == 0xBA3C_2BE2 && W(ABC, 69) == 0x0060_C000
  {
    hide W;
    Words45();
    Words50();
    Words55();
    Words60();
    NextWord(ABC, 65);
    NextWord(ABC, 66);
    NextWord(ABC, 67);
    NextWord(ABC, 68);
    NextWord(ABC, 69);
  }

  lemma Words70()
    ensures W(ABC, 70) == 0x3A37_CD05 && W(ABC, 71) == 0x4585_46F4 && W(ABC, 72) == 0xB859_9DD6
    ensures W(ABC, 73) == 0x380A_1A26 && W(ABC, 74) == 0x01E0_2203
  {
    hide W;
    Words50();
    Words55();
    Words60();
    Words65();
    NextWord(ABC, 70);
    NextWord(ABC, 71);
    NextWord(ABC, 72);
    NextWord(ABC, 73);
    NextWord(ABC, 74);
  }

  lemma Words75()
    ensures W(ABC, 75) == 0xE7CC_3456 && W(ABC, 76) == 0xE6E6_0B69 && W(ABC, 77) == 0x00F6_0A00
    ensures W(ABC, 78) == 0x5795_EF4F && W(ABC, 79) == 0x822E_0879
  {
    hide W;
    Words55();
    Words60();
    Words65();
    Words70();
    NextWord(ABC, 75);
    NextWord(ABC, 76);
    NextWord(ABC, 77);
    NextWord(ABC, 78);
    NextWord(ABC, 79);
  }

  lemma FiveRounds(v: Five, m: seq<Word>, t: nat)
    requires |m| == 16
    ensures Rounds(v, m, t + 5) ==
            Round(Round(Round(Round(Round(Rounds(v, m, t), t, W(m, t)), t + 1, W(m, t + 1)), t + 2, W(m, t + 2)),
              t + 3, W(m, t + 3)), t + 4, W(m, t + 4))
  {
    hide Round, W;
    assert Rounds(v, m, t + 4) == Round(Rounds(v, m, t + 3), t + 3, W(m, t + 3));
    assert Rounds(v, m, t + 2) == Round(Rounds(v, m, t + 1), t + 1, W(m, t + 1));
  }

  lemma Rounds5()
    ensures Rounds(START, ABC, 5) == S.Five(0xCFD4_99DE, 0xCDD8_E11B, 0x284E_43C2, 0x6264_14DB, 0xC045_BF0C)
  {
    hide Rounds, W;
    Words0();
    FiveRounds(START, ABC, 0);
    NoRounds();
  }

  lemma Rounds10()
    ensures Rounds(START, ABC, 10) == S.Five(0x8351_F929, 0x4B6A_E328, 0x27A3_01F5, 0x664F_8C30, 0x0FF1_F290)
  {
    hide Rounds, W;
    Words5();
    FiveRounds(START, ABC, 5);
    Rounds5();
  }

  lemma Rounds15()
    ensures Rounds(START, ABC, 15) == S.Five(0x196B_EE77, 0x9128_F695, 0x1181_ED99, 0x18C6_23F9, 0x7EF6_A7A2)
  {
    hide Rounds, W;
    Words10();
    FiveRounds(START, ABC, 10);
    Rounds10();
  }

  lemma Rounds20()
    ensures Rounds(START, ABC, 20) == S.Five(0xFD9E_1D7D, 0xDC64_901D, 0x20AA_99CA, 0xD3A4_9608, 0xC82F_758B)
  {
    hide Rounds, W;
    Words15();
    FiveRounds(START, ABC, 15);
    Rounds15();
  }

  lemma Rounds25()
    ensures Rounds(START, ABC, 25) == S.Five(0xC756_7DC6, 0xD541_F12D, 0x884A_0D21, 0x0CE8_8EFF, 0x868D_EC32)
  {
    hide Rounds, W;
    Words20();
    FiveRounds(START, ABC, 20);
    Rounds20();
  }

  lemma Rounds30()
    ensures Rounds(START, ABC, 30) == S.Five(0xC5FB_AF5D, 0x8370_B52E, 0xD2AA_1365, 0x6F8D_7EF5, 0x1210_4EE9)
  {
    hide Rounds, W;
    Words25();
    FiveRounds(START, ABC, 25);
    Rounds25();
  }

  lemma Rounds35()
    ensures Rounds(START, ABC, 35) == S.Five(0x2179_6AD4, 0x2C0E_BC11, 0x811B_EA82, 0xCEE1_174C, 0xC499_ED01)
  {
    hide Rounds, W;
    Words30();
    FiveRounds(START, ABC, 30);
    Rounds30();
  }

  lemma Rounds40()
    ensures Rounds(START, ABC, 40) == S.Five(0x32DE_1CBA, 0x4C98_6405, 0xF718_E5CF, 0x03D4_47F6, 0xF72E_EC32)
  {
    hide Rounds, W;
    Words35();
    FiveRounds(START, ABC, 35);
    Rounds35();
  }

  lemma Rounds45()
    ensures Rounds(START, ABC, 45) == S.Five(0x40F2_8E09, 0xEE1B_1AAF, 0x5FC6_4F71, 0x25C2_8357, 0xFF21_F7B7)
  {
    hide Rounds, W;
    Words40();
    FiveRounds(START, ABC, 40);
    Rounds40();
  }

  lemma Rounds50()
    ensures Rounds(START, ABC, 50) == S.Five(0x1207_31C5, 0xBAF3_9337, 0xAFAB_40B2, 0x2806_E11B, 0x8714_787C)
  {
    hide Rounds, W;
    Words45();
    FiveRounds(START, ABC, 45);
    Rounds45();
  }

  lemma Rounds55()
    ensures Rounds(START, ABC, 55) == S.Five(0x7B71_F76D, 0x27E9_F1D8, 0x7924_10DB, 0x8E11_EB59, 0x9907_6CB3)
  {
    hide Rounds, W;
    Words50();
    FiveRounds(START, ABC, 50);
    Rounds50();
  }

  lemma Rounds60()
    ensures Rounds(START, ABC, 60) == S.Five(0x3F52_DE5A, 0x09D7_85FD, 0x3498_BFD4, 0xF211_824F, 0xD799_15AB)
  {
    hide Rounds, W;
    Words55();
    FiveRounds(START, ABC, 55);
    Rounds55();
  }

  lemma Rounds65()
    ensures Rounds(START, ABC, 65) == S.Five(0x19DF_A7AC, 0x6B61_C9E1, 0xED9B_0082, 0x9523_272C, 0xF5D5_B051)
  {
    hide Rounds, W;
    Words60();
    FiveRounds(START, ABC, 60);
    Rounds60();
  }

  lemma Rounds70()
    ensures Rounds(START, ABC, 70) == S.Five(0x3F25_88C2, 0x4970_93C0, 0xDE37_534A, 0x030F_7CAD, 0x4405_957E)
  {
    hide Rounds, W;
    Words65();
    FiveRounds(START, ABC, 65);
    Rounds65();
  }

  lemma Rounds75()
    ensures Rounds(START, ABC, 75) == S.Five(0x5EE7_6897, 0x1179_3F6F, 0x3B6D_0B79, 0xCE61_6779, 0xF066_7E31)
  {
    hide Rounds, W;
    Words70();
    FiveRounds(START, ABC, 70);
    Rounds70();
  }

  lemma Rounds80()
    ensures Rounds(START, ABC, 80) == S.Five(0x4254_1B35, 0x5738_D5E1, 0x2183_4873, 0x681E_6DF6, 0xD8FD_F6AD)
  {
    hide Rounds, W;
    Words75();
    FiveRounds(START, ABC, 75);
    Rounds75();
  }

  lemma NoRounds()
    ensures Rounds(START, ABC, 0) == START
  {
  }

  lemma AbcCompressed()
    ensures Compress(START, ABC) == S.Five(0xA999_3E36, 0x4706_816A, 0xBA3E_2571, 0x7850_C26C, 0x9CD0_D89D)
  {
    hide Rounds;
    Rounds80();
  }

  lemma AbcWord(x: seq<Byte>, i: nat)
    requires |x| == 56 && i < 14
    requires x[0] == 0x61 && x[1] == 0x62 && x[2] == 0x63 && x[3] == 0x80 && forall k :: 4 <= k < 56 ==> x[k] == 0
    ensures PackedWord(x, i) == if i == 0 then 0x6162_6380 else 0
  {
  }

  lemma AbcLength()
    ensures LengthPaddings.ZeroCount(3, 16) == 52 && LengthPaddings.LengthWords(3) == [0, 24]
  {
    hide NumberWord;
    LiteralWord(0, 0, 0, 0, 0, 0);
    LiteralWord(0, 0, 0, 24, 24, 24);
  }

  lemma AbcPadded()
    ensures LengthPaddings.PaddedWords([0x61, 0x62, 0x63], 3, 16) == ABC
  {
    hide PackedWord, LengthPaddings.ZeroCount, LengthPaddings.LengthWords;
    AbcLength();
    var x: seq<Byte> := [0x61, 0x62, 0x63] + [0x80] + Zeros(52);
    forall i: nat | i < 14
      ensures PackedWord(x, i) == if i == 0 then 0x6162_6380 else 0
    {
      AbcWord(x, i);
    }
    assert Pack(x) + [0, 24] == ABC;
  }

  lemma OneBlock(v: Five, ws: seq<Word>)
    requires |ws| == 16
    ensures Fold(v, ws, 1) == Compress(v, ws)
  {
    hide Compress;
    assert BlockAt(ws, 0, 16) == ws;
    assert Fold(v, ws, 0) == v;
  }

  /** The example of one block that FIPS 180 publishes. */
  lemma AbcDigest()
    ensures S.Sha1([0x61, 0x62, 0x63]) == [0xA999_3E36, 0x4706_816A, 0xBA3E_2571, 0x7850_C26C, 0x9CD0_D89D]
  {
    hide LengthPaddings.PaddedWords, Compress, Fold, S.Sha1;
    AbcPadded();
    DigestIs([0x61, 0x62, 0x63]);
    AbcCompressed();
    OneBlock(START, ABC);
  }
}
