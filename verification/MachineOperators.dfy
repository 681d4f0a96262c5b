/**
 The operators that `JsNumber` defines on numbers are the machine's operators on the 32-bit words behind them: `&`, `|`,
 `^`, `~`, `+`, `<<` and `>>>`.
 */
module MachineOperators {
  import opened Arithmetic
  import opened WordArrays
  import opened MachineWords
  import J = JsNumber
  import Lanes

  // ----- `&`, `|`, `^` and `~`

  function OpByte(op: J.BitOp, p: Byte, q: Byte): Byte {
    match op
    case And => p & q
    case Or => p | q
    case Xor => p ^ q
  }

  function OpWord(op: J.BitOp, v: Word, w: Word): Word {
    match op
    case And => v & w
    case Or => v | w
    case Xor => v ^ w
  }

  lemma HalfByte(p: Byte)
    ensures Num(p >> 1) == Num(p) / 2 && Num(p & 1) == Num(p) % 2 && (Num(p) == 0 <==> p == 0)
  {
  }

  lemma OpParts(op: J.BitOp, p: Byte, q: Byte)
    ensures OpByte(op, p, q) >> 1 == OpByte(op, p >> 1, q >> 1)
    ensures Num(OpByte(op, p, q) & 1) == J.BitOf(op, Num(p & 1), Num(q & 1))
    ensures OpByte(op, 0, 0) == 0
  {
  }

  lemma {:induction false} ByteBits(op: J.BitOp, p: Byte, q: Byte, n: nat)
    requires Num(p) < J.Pow2(n) && Num(q) < J.Pow2(n)
    ensures Num(OpByte(op, p, q)) == J.Bitwise(op, Num(p), Num(q), n)
    decreases n
  {
    hide Num, OpByte, J.BitOf;
    HalfByte(p);
    HalfByte(q);
    OpParts(op, p, q);
    HalfByte(OpByte(op, p, q));
    if n > 0 {
      ByteBits(op, p >> 1, q >> 1, n - 1);
    }
  }

  /** The numbers' operators, octet by octet. */
  lemma OctetsOfBits(op: J.BitOp, x: nat, y: nat)
    ensures var r := J.Bitwise(op, x, y, 32);
            && r < J.TWO32
            && r % 256 == J.Bitwise(op, x % 256, y % 256, 8)
            && r / 256 % 256 == J.Bitwise(op, x / 256 % 256, y / 256 % 256, 8)
            && r / 256 / 256 % 256 == J.Bitwise(op, x / 256 / 256 % 256, y / 256 / 256 % 256, 8)
            && r / 256 / 256 / 256 % 256 == J.Bitwise(op, x / 256 / 256 / 256 % 256, y / 256 / 256 / 256 % 256, 8)
  {
    hide J.Bitwise, J.Pow2;
    J.Pow2Values();
    LastOctet(op, x, y, 24);
    LastOctet(op, x / 256, y / 256, 16);
    LastOctet(op, x / 256 / 256, y / 256 / 256, 8);
    LastOctet(op, x / 256 / 256 / 256, y / 256 / 256 / 256, 0);
  }

  lemma LastOctet(op: J.BitOp, x: nat, y: nat, n: nat)
    ensures J.Bitwise(op, x, y, n + 8) / 256 == J.Bitwise(op, x / 256, y / 256, n)
    ensures J.Bitwise(op, x, y, n + 8) % 256 == J.Bitwise(op, x % 256, y % 256, 8)
  {
    Pow2Of8();
    hide J.Bitwise, J.Pow2;
    J.BitwiseSplit(op, x, y, n, 8);
    J.BitwiseLow(op, x, y, 8);
    QuotientUnique(J.Bitwise(op, x, y, n + 8), J.Bitwise(op, x / 256, y / 256, n), J.Bitwise(op, x, y, 8), 256);
  }

  lemma Pow2Of8()
    ensures J.Pow2(8) == 256
  {
  }

  lemma ByteOp(op: J.BitOp, x: nat, y: nat)
    ensures LowByte(J.Bitwise(op, x % 256, y % 256, 8)) == OpByte(op, LowByte(x), LowByte(y))
  {
    Pow2Of8();
    hide Num, LowByte, OpByte, J.Bitwise, J.Pow2;
    ByteOfNumber(x);
    ByteOfNumber(y);
    ByteBits(op, LowByte(x), LowByte(y), 8);
    NumberOfByte(OpByte(op, LowByte(x), LowByte(y)));
  }

  lemma AndOctets(v: Word, w: Word)
    ensures ByteOf(OpWord(J.And, v, w), 0) == OpByte(J.And, ByteOf(v, 0), ByteOf(w, 0))
    ensures ByteOf(OpWord(J.And, v, w), 1) == OpByte(J.And, ByteOf(v, 1), ByteOf(w, 1))
    ensures ByteOf(OpWord(J.And, v, w), 2) == OpByte(J.And, ByteOf(v, 2), ByteOf(w, 2))
    ensures ByteOf(OpWord(J.And, v, w), 3) == OpByte(J.And, ByteOf(v, 3), ByteOf(w, 3))
  {
  }

  lemma OrOctets(v: Word, w: Word)
    ensures ByteOf(OpWord(J.Or, v, w), 0) == OpByte(J.Or, ByteOf(v, 0), ByteOf(w, 0))
    ensures ByteOf(OpWord(J.Or, v, w), 1) == OpByte(J.Or, ByteOf(v, 1), ByteOf(w, 1))
    ensures ByteOf(OpWord(J.Or, v, w), 2) == OpByte(J.Or, ByteOf(v, 2), ByteOf(w, 2))
    ensures ByteOf(OpWord(J.Or, v, w), 3) == OpByte(J.Or, ByteOf(v, 3), ByteOf(w, 3))
  {
    hide ByteOf, OpWord, OpByte;
    UpperOr(v, w);
    LowerOr(v, w);
  }

  lemma UpperOr(v: Word, w: Word)
    ensures ByteOf(OpWord(J.Or, v, w), 0) == OpByte(J.Or, ByteOf(v, 0), ByteOf(w, 0))
    ensures ByteOf(OpWord(J.Or, v, w), 1) == OpByte(J.Or, ByteOf(v, 1), ByteOf(w, 1))
  {
  }

  lemma LowerOr(v: Word, w: Word)
    ensures ByteOf(OpWord(J.Or, v, w), 2) == OpByte(J.Or, ByteOf(v, 2), ByteOf(w, 2))
    ensures ByteOf(OpWord(J.Or, v, w), 3) == OpByte(J.Or, ByteOf(v, 3), ByteOf(w, 3))
  {
  }

  lemma XorOctets(v: Word, w: Word)
    ensures ByteOf(OpWord(J.Xor, v, w), 0) == OpByte(J.Xor, ByteOf(v, 0), ByteOf(w, 0))
    ensures ByteOf(OpWord(J.Xor, v, w), 1) == OpByte(J.Xor, ByteOf(v, 1), ByteOf(w, 1))
    ensures ByteOf(OpWord(J.Xor, v, w), 2) == OpByte(J.Xor, ByteOf(v, 2), ByteOf(w, 2))
    ensures ByteOf(OpWord(J.Xor, v, w), 3) == OpByte(J.Xor, ByteOf(v, 3), ByteOf(w, 3))
  {
  }

  lemma OpBytewise(op: J.BitOp, v: Word, w: Word, k: nat)
    requires k < 4
    ensures ByteOf(OpWord(op, v, w), k) == OpByte(op, ByteOf(v, k), ByteOf(w, k))
  {
    hide ByteOf, OpWord, OpByte;
    AndOctets(v, w);
    OrOctets(v, w);
    XorOctets(v, w);
    if k == 0 {} else if k == 1 {} else if k == 2 {} else {}
  }

  lemma WordOp(op: J.BitOp, a: Byte, b: Byte, c: Byte, d: Byte, a': Byte, b': Byte, c': Byte, d': Byte)
    ensures OpWord(op, WordOf(a, b, c, d), WordOf(a', b', c', d')) ==
            WordOf(OpByte(op, a, a'), OpByte(op, b, b'), OpByte(op, c, c'), OpByte(op, d, d'))
  {
    hide ByteOf, WordOf, OpByte, OpWord;
    var v, w := WordOf(a, b, c, d), WordOf(a', b', c', d');
    BytesOfWord(a, b, c, d);
    BytesOfWord(a', b', c', d');
    OpBytewise(op, v, w, 0);
    OpBytewise(op, v, w, 1);
    OpBytewise(op, v, w, 2);
    OpBytewise(op, v, w, 3);
    WordOfBytes(OpWord(op, v, w));
  }

  lemma BitsOp(op: J.BitOp, x: int, y: int)
    ensures NumberWord(J.Bits(op, x, y)) == OpWord(op, NumberWord(x), NumberWord(y))
  {
    hide WordOf, LowByte, OpByte, OpWord, J.Bitwise, J.Unsigned, J.Bits;
    var u, v := J.Unsigned(x), J.Unsigned(y);
    var r := J.Bitwise(op, u, v, 32);
    J.BitsUnsigned(op, x, y);
    OctetsOfBits(op, u, v);
    LowByteOf(r);
    LowByteOf(r / 256);
    LowByteOf(r / 256 / 256);
    LowByteOf(r / 256 / 256 / 256);
    ByteOp(op, u, v);
    ByteOp(op, u / 256, v / 256);
    ByteOp(op, u / 256 / 256, v / 256 / 256);
    ByteOp(op, u / 256 / 256 / 256, v / 256 / 256 / 256);
    WordOp(op, LowByte(u / 256 / 256 / 256), LowByte(u / 256 / 256), LowByte(u / 256), LowByte(u),
      LowByte(v / 256 / 256 / 256), LowByte(v / 256 / 256), LowByte(v / 256), LowByte(v));
  }

  lemma BitwiseOp(op: J.BitOp, x: nat, y: nat)
    requires x < J.TWO32 && y < J.TWO32
    ensures NumberWord(J.Bitwise(op, x, y, 32)) == OpWord(op, NumberWord(x), NumberWord(y))
  {
    hide NumberWord, OpWord, J.Bitwise, J.Signed;
    SmallUnsigned(x);
    SmallUnsigned(y);
    BitsOp(op, x, y);
    SignedWord(J.Bitwise(op, x, y, 32));
  }

  /** `&`, `|`, `^` and `~` on numbers are the machine's operators on the words behind them. */
  lemma BitOperators(x: int, y: int)
    ensures NumberWord(J.Bits(J.And, x, y)) == NumberWord(x) & NumberWord(y)
    ensures NumberWord(J.Bits(J.Or, x, y)) == NumberWord(x) | NumberWord(y)
    ensures NumberWord(J.Bits(J.Xor, x, y)) == NumberWord(x) ^ NumberWord(y)
  {
    hide NumberWord, J.Bits;
    BitsOp(J.And, x, y);
    BitsOp(J.Or, x, y);
    BitsOp(J.Xor, x, y);
  }

  // ----- sums and shifts

  lemma NextByteNumber(n: nat)
    ensures LowByte(n + 1) == LowByte(n) + 1
    ensures LowByte(n) == 0xFF <==> n % 256 == 255
    ensures LowByte(n) == 0xFF ==> LowByte(n + 1) == 0
  {
    hide LowByte, Num;
    var m := n % 256;
    ByteOfNumber(n);
    NextNum(LowByte(n));
    NumberOfByte(LowByte(n));
    LowByteOf(n + 1);
    LowByteOf(m + 1);
    NumberOfByte(LowByte(n) + 1);
  }

  lemma NextNum(b: Byte)
    ensures Num(b + 1) == (Num(b) + 1) % 256 && (b == 0xFF <==> Num(b) == 255) && (b == 0xFF ==> b + 1 == 0)
  {
  }

  function Plus(v: Word, w: Word): Word {
    v + w
  }

  function Next(w: Word): Word {
    w + 1
  }

  lemma PlusNext(v: Word, w: Word)
    ensures Plus(v, Next(w)) == Next(Plus(v, w)) && Plus(v, 0) == v && Plus(0, v) == v
  {
  }

  lemma NextWord(a: Byte, b: Byte, c: Byte, d: Byte)
    ensures Next(WordOf(a, b, c, d)) ==
            if d != 0xFF then WordOf(a, b, c, d + 1)
            else if c != 0xFF then WordOf(a, b, c + 1, 0)
            else if b != 0xFF then WordOf(a, b + 1, 0, 0)
            else WordOf(a + 1, 0, 0, 0)
  {
  }

  lemma NextQuotient(n: nat)
    ensures (n + 1) / 256 == if n % 256 == 255 then n / 256 + 1 else n / 256
  {
  }

  /** The octets of the number after `n`. */
  lemma NextOctets(n: nat)
    ensures LowByte(n) != 0xFF ==> (n + 1) / 256 == n / 256 && LowByte(n + 1) == LowByte(n) + 1
    ensures LowByte(n) == 0xFF ==> (n + 1) / 256 == n / 256 + 1 && LowByte(n + 1) == 0
  {
    hide LowByte;
    NextQuotient(n);
    NextByteNumber(n);
  }

  lemma NextNumber(u: nat)
    requires u < J.TWO32 - 1
    ensures NumberWord(u + 1) == Next(NumberWord(u))
  {
    hide WordOf, LowByte, J.Unsigned, Next;
    SmallUnsigned(u);
    SmallUnsigned(u + 1);
    NextOctets(u);
    NextOctets(u / 256);
    NextOctets(u / 256 / 256);
    NextByteNumber(u / 256 / 256 / 256);
    NextWord(LowByte(u / 256 / 256 / 256), LowByte(u / 256 / 256), LowByte(u / 256), LowByte(u));
  }

  lemma EndBytesAre()
    ensures LowByte(0) == 0 && LowByte(1) == 1 && LowByte(0xFF) == 0xFF && LowByte(0xFFFF) == 0xFF
    ensures LowByte(0xFF_FFFF) == 0xFF && LowByte(0xFFFF_FFFF) == 0xFF
  {
  }

  lemma EndWordsAre()
    ensures WordOf(0, 0, 0, 0) == 0 && WordOf(0, 0, 0, 1) == 1 && WordOf(0xFF, 0xFF, 0xFF, 0xFF) == 0xFFFF_FFFF
    ensures Next(0xFFFF_FFFF) == 0 && Next(0) == 1
  {
  }

  lemma EndWords()
    ensures NumberWord(0) == 0 && NumberWord(1) == 1 && NumberWord(J.TWO32 - 1) == 0xFFFF_FFFF
    ensures Next(0xFFFF_FFFF) == 0
  {
    hide WordOf, LowByte, Next;
    EndBytesAre();
    EndWordsAre();
  }

  lemma {:induction false} AddNumber(x: int, v: nat)
    ensures NumberWord(x + v) == Plus(NumberWord(x), NumberWord(v))
    decreases v
  {
    hide NumberWord, Plus, Next;
    EndWords();
    PlusNext(NumberWord(x), if v == 0 then 0 else NumberWord(v - 1));
    if v > 0 {
      AddNumber(x, v - 1);
      NextAny(v - 1);
      NextAny(x + v - 1);
    }
  }

  lemma NextAny(x: int)
    ensures NumberWord(x + 1) == Next(NumberWord(x))
  {
    hide NumberWord, Next;
    EndWords();
    NumberWordUnsigned(x);
    NumberWordUnsigned(x + 1);
    if J.Unsigned(x) < J.TWO32 - 1 {
      NextNumber(J.Unsigned(x));
    }
  }

  lemma PlusOf(x: int, y: int)
    ensures NumberWord(x + y) == Plus(NumberWord(x), NumberWord(y))
  {
    hide NumberWord, Plus, J.Unsigned;
    NumberWordUnsigned(y);
    J.UnsignedRest(y);
    AddNumber(x, J.Unsigned(y));
    J.UnsignedShift(x + J.Unsigned(y), y / J.TWO32);
    NumberWordUnsigned(x + y);
    NumberWordUnsigned(x + J.Unsigned(y));
  }

  /** `+` on numbers is the sum of the words behind them, however large the numbers have grown. */
  lemma Sum(x: int, y: int)
    ensures NumberWord(x + y) == NumberWord(x) + NumberWord(y)
  {
    hide NumberWord;
    PlusOf(x, y);
  }

  lemma SignedWord(x: int)
    ensures NumberWord(J.Signed(x)) == NumberWord(x)
  {
    hide NumberWord, J.Signed, J.Unsigned;
    J.SignedKeeps(x);
    NumberWordUnsigned(x);
    NumberWordUnsigned(J.Signed(x));
  }

  function Inverted(w: Word): Word {
    !w
  }

  lemma Complement(x: int)
    ensures NumberWord(J.Not(x)) == Inverted(NumberWord(x))
  {
    hide NumberWord, J.Signed, Plus, Inverted;
    SignedWord(-x - 1);
    PlusOf(x, -x - 1);
    EndWords();
    NumberWordUnsigned(-1);
    assert J.Unsigned(-1) == J.TWO32 - 1;
    OnesMinus(NumberWord(x), NumberWord(-x - 1));
  }

  lemma OnesMinus(v: Word, w: Word)
    requires Plus(v, w) == 0xFFFF_FFFF
    ensures w == Inverted(v)
  {
  }

  lemma NotWord(x: nat)
    requires x < J.TWO32
    ensures NumberWord(J.TWO32 - 1 - x) == Inverted(NumberWord(x))
  {
    hide NumberWord, Inverted;
    Complement(x);
    NumberWordUnsigned(J.Not(x));
    Lanes.NotUnsigned(x);
    SmallUnsigned(x);
  }

  function Left1(w: Word): Word {
    w << 1
  }

  function Right1(w: Word): Word {
    w >> 1
  }

  /** A word moved up by `k` bits, one at a time. */
  function Left(w: Word, k: nat): Word {
    if k == 0 then w else Left1(Left(w, k - 1))
  }

  /** A word moved down by `k` bits, one at a time. */
  function Right(w: Word, k: nat): Word {
    if k == 0 then w else Right1(Right(w, k - 1))
  }

  lemma {:induction false} MovesAdd(w: Word, j: nat, k: nat)
    ensures Left(Left(w, j), k) == Left(w, j + k) && Right(Right(w, j), k) == Right(w, j + k)
    decreases k
  {
    hide Left1, Right1;
    if k > 0 {
      MovesAdd(w, j, k - 1);
    }
  }

  lemma Moves1(w: Word)
    ensures Left(w, 0) == w == Right(w, 0) && Left(w, 1) == Left1(w) && Right(w, 1) == Right1(w)
  {
    hide Left1, Right1;
    assert Left(w, 0) == w == Right(w, 0);
  }

  function Left2(w: Word): Word { w << 2 }
  function Right2(w: Word): Word { w >> 2 }
  function Left4(w: Word): Word { w << 4 }
  function Right4(w: Word): Word { w >> 4 }
  function Left8(w: Word): Word { w << 8 }
  function Right8(w: Word): Word { w >> 8 }
  function Left16(w: Word): Word { w << 16 }
  function Right16(w: Word): Word { w >> 16 }

  lemma Twice1(w: Word)
    ensures Left1(Left1(w)) == Left2(w)
  {
  }

  lemma Back1(w: Word)
    ensures Right1(Right1(w)) == Right2(w)
  {
  }

  lemma Twice2(w: Word)
    ensures Left2(Left2(w)) == Left4(w)
  {
  }

  lemma Back2(w: Word)
    ensures Right2(Right2(w)) == Right4(w)
  {
  }

  lemma Twice4(w: Word)
    ensures Left4(Left4(w)) == Left8(w)
  {
  }

  lemma Back4(w: Word)
    ensures Right4(Right4(w)) == Right8(w)
  {
  }

  lemma Twice8(w: Word)
    ensures Left8(Left8(w)) == Left16(w)
  {
  }

  lemma Back8(w: Word)
    ensures Right8(Right8(w)) == Right16(w)
  {
  }

  lemma Moves2(w: Word)
    ensures Left(w, 2) == Left2(w) && Right(w, 2) == Right2(w)
  {
    hide Left, Right, Left1, Right1, Left2, Right2, Left4, Right4, Left8, Right8, Left16, Right16;
    Twice1(w);
    Back1(w);
    MovesAdd(w, 1, 1);
    Moves1(w);
    Moves1(Left1(w));
    Moves1(Right1(w));
  }

  lemma Moves4(w: Word)
    ensures Left(w, 4) == Left4(w) && Right(w, 4) == Right4(w)
  {
    hide Left, Right, Left1, Right1, Left2, Right2, Left4, Right4, Left8, Right8, Left16, Right16;
    Twice2(w);
    Back2(w);
    MovesAdd(w, 2, 2);
    Moves2(w);
    Moves2(Left2(w));
    Moves2(Right2(w));
  }

  lemma Moves8(w: Word)
    ensures Left(w, 8) == Left8(w) && Right(w, 8) == Right8(w)
  {
    hide Left, Right, Left1, Right1, Left2, Right2, Left4, Right4, Left8, Right8, Left16, Right16;
    Twice4(w);
    Back4(w);
    MovesAdd(w, 4, 4);
    Moves4(w);
    Moves4(Left4(w));
    Moves4(Right4(w));
  }

  lemma Moves16(w: Word)
    ensures Left(w, 16) == Left16(w) && Right(w, 16) == Right16(w)
  {
    hide Left, Right, Left1, Right1, Left2, Right2, Left4, Right4, Left8, Right8, Left16, Right16;
    Twice8(w);
    Back8(w);
    MovesAdd(w, 8, 8);
    Moves8(w);
    Moves8(Left8(w));
    Moves8(Right8(w));
  }

  // a shift by a distance below 32, by sixteen, eight, four, two and one

  function ShiftLeft(w: Word, k: nat): Word {
    if k >= 16 then Left8To1(Left16(w), k - 16) else Left8To1(w, k)
  }

  function Left8To1(w: Word, k: nat): Word {
    if k >= 8 then Left4To1(Left8(w), k - 8) else Left4To1(w, k)
  }

  function Left4To1(w: Word, k: nat): Word {
    if k >= 4 then Left2To1(Left4(w), k - 4) else Left2To1(w, k)
  }

  function Left2To1(w: Word, k: nat): Word {
    if k == 0 then w else if k == 1 then Left1(w) else if k == 2 then Left2(w) else Left1(Left2(w))
  }

  function ShiftRight(w: Word, k: nat): Word {
    if k >= 16 then Right8To1(Right16(w), k - 16) else Right8To1(w, k)
  }

  function Right8To1(w: Word, k: nat): Word {
    if k >= 8 then Right4To1(Right8(w), k - 8) else Right4To1(w, k)
  }

  function Right4To1(w: Word, k: nat): Word {
    if k >= 4 then Right2To1(Right4(w), k - 4) else Right2To1(w, k)
  }

  function Right2To1(w: Word, k: nat): Word {
    if k == 0 then w else if k == 1 then Right1(w) else if k == 2 then Right2(w) else Right1(Right2(w))
  }

  lemma ShiftsAre(w: Word, k: nat)
    requires k < 32
    ensures Left(w, k) == ShiftLeft(w, k) && Right(w, k) == ShiftRight(w, k)
  {
    hide Left, Right, Left16, Right16, Left8To1, Right8To1;
    Moves16(w);
    if k >= 16 {
      MovesAdd(w, 16, k - 16);
      ShiftsBelow16(Left16(w), k - 16);
      ShiftsBelow16(Right16(w), k - 16);
    } else {
      ShiftsBelow16(w, k);
    }
  }

  lemma ShiftsBelow16(w: Word, k: nat)
    requires k < 16
    ensures Left(w, k) == Left8To1(w, k) && Right(w, k) == Right8To1(w, k)
  {
    hide Left, Right, Left8, Right8, Left4To1, Right4To1;
    Moves8(w);
    if k >= 8 {
      MovesAdd(w, 8, k - 8);
      ShiftsBelow8(Left8(w), k - 8);
      ShiftsBelow8(Right8(w), k - 8);
    } else {
      ShiftsBelow8(w, k);
    }
  }

  lemma ShiftsBelow8(w: Word, k: nat)
    requires k < 8
    ensures Left(w, k) == Left4To1(w, k) && Right(w, k) == Right4To1(w, k)
  {
    hide Left, Right, Left4, Right4, Left2To1, Right2To1;
    Moves4(w);
    if k >= 4 {
      MovesAdd(w, 4, k - 4);
      ShiftsBelow4(Left4(w), k - 4);
      ShiftsBelow4(Right4(w), k - 4);
    } else {
      ShiftsBelow4(w, k);
    }
  }

  lemma ShiftsBelow4(w: Word, k: nat)
    requires k < 4
    ensures Left(w, k) == Left2To1(w, k) && Right(w, k) == Right2To1(w, k)
  {
    hide Left, Right, Left1, Right1, Left2, Right2;
    Moves1(w);
    Moves2(w);
    if k == 3 {
      MovesAdd(w, 2, 1);
      Moves1(Left2(w));
      Moves1(Right2(w));
    }
  }

  lemma {:induction false} UpWord(x: nat, k: nat)
    ensures NumberWord(J.Up(x, k)) == Left(NumberWord(x), k)
    decreases k
  {
    hide NumberWord, Left1, Plus, J.Up;
    if k == 0 {
      J.NoLowPart(x);
    } else {
      UpWord(x, k - 1);
      DoubleUp(x, k);
      PlusOf(J.Up(x, k - 1), J.Up(x, k - 1));
      TwiceIsShift(NumberWord(J.Up(x, k - 1)));
    }
  }

  lemma DoubleUp(x: nat, k: nat)
    requires k > 0
    ensures J.Up(x, k) == J.Up(x, k - 1) + J.Up(x, k - 1)
  {
    MulDistributes(J.Pow2(k - 1), J.Pow2(k - 1), x);
  }

  lemma TwiceIsShift(w: Word)
    ensures Plus(w, w) == Left1(w)
  {
  }

  /** `<<` and `>>>` on numbers are the machine's shifts. */
  lemma Shifts(x: int, k: nat)
    requires k < 32
    ensures NumberWord(J.Shl(x, k)) == Left(NumberWord(x), k)
    ensures NumberWord(J.Shr(x, k)) == Right(NumberWord(x), k)
  {
    hide NumberWord, J.Up, J.High, J.Unsigned, J.Signed, Left, Right;
    SignedWord(J.Up(J.Unsigned(x), k));
    UpWord(J.Unsigned(x), k);
    NumberWordUnsigned(x);
    HighWord(J.Unsigned(x), k);
  }

  lemma {:induction false} HighWord(u: nat, k: nat)
    requires u < J.TWO32
    ensures J.High(u, k) < J.TWO32 && NumberWord(J.High(u, k)) == Right(NumberWord(u), k)
    decreases k
  {
    hide NumberWord, J.High, Right1;
    if k == 0 {
      J.NoLowPart(u);
    } else {
      HighWord(u, k - 1);
      HalvedHigh(u, k);
      HalfWord(J.High(u, k - 1));
    }
  }

  lemma HalvedHigh(u: nat, k: nat)
    requires k > 0
    ensures J.High(u, k) == J.High(u, k - 1) / 2
  {
    var p := J.Pow2(k - 1);
    J.PartsAddUp(u, k - 1);
    var h := J.High(u, k - 1);
    assert h == 2 * (h / 2) + h % 2;
    J.Pow2Step(k - 1);
    hide J.Pow2, J.High, J.Low;
    MulDistributes(2 * (h / 2), h % 2, p);
    MulAssociates(h / 2, 2, p);
    J.PartsUnique(u, h / 2, h % 2 * p + J.Low(u, k - 1), k);
  }

  lemma HalfWord(u: nat)
    requires u < J.TWO32
    ensures NumberWord(u / 2) == Right1(NumberWord(u))
  {
    hide NumberWord, Plus, Right1;
    var h := u / 2;
    PlusOf(h, h);
    PlusOf(h + h, u % 2);
    EndWords();
    TopBitClear(h);
    DoubledBack(NumberWord(h), NumberWord(u % 2));
  }

  predicate TopClear(w: Word) {
    w & 0x8000_0000 == 0
  }

  lemma TopBitClear(h: nat)
    requires h < J.TWO31
    ensures TopClear(NumberWord(h))
  {
    hide LowByte, J.Unsigned, WordOf, TopClear;
    SmallUnsigned(h);
    SmallByte(h / 256 / 256 / 256);
    TopOfWord(LowByte(h / 256 / 256 / 256), LowByte(h / 256 / 256), LowByte(h / 256), LowByte(h));
  }

  lemma SmallByte(n: nat)
    requires n < 128
    ensures LowByte(n) < 0x80
  {
  }

  lemma TopOfWord(a: Byte, b: Byte, c: Byte, d: Byte)
    requires a < 0x80
    ensures TopClear(WordOf(a, b, c, d))
  {
  }

  lemma DoubledBack(h: Word, b: Word)
    requires TopClear(h) && (b == 0 || b == 1)
    ensures Right1(Plus(Plus(h, h), b)) == h
  {
    hide Plus, Right1;
    TwiceIsShift(h);
    if b == 0 {
      PlusNext(Left1(h), 0);
      ShiftedBack(h);
    } else {
      LastBit(h);
      ShiftedBack(h);
    }
  }

  lemma LastBit(h: Word)
    ensures Plus(Left1(h), 1) == Left1(h) | 1
  {
  }

  lemma ShiftedBack(h: Word)
    requires TopClear(h)
    ensures Right1(Left1(h)) == h && Right1(Left1(h) | 1) == h
  {
  }

  // ----- rotations

  /** `g >>> k | v << 32 - k` */
  function FunnelWord(g: Word, v: Word, k: nat): Word
    requires 0 < k < 32
  {
    ShiftRight(g, k) | ShiftLeft(v, 32 - k)
  }

  lemma SmallFunnel(g: nat, v: nat, k: nat)
    requires g < J.TWO32 && v < J.TWO32 && 0 < k < 32
    ensures Lanes.Funnel(g, v, k) < J.TWO32
  {
    hide Lanes.Funnel, Lanes.RotHalf, J.Unsigned;
    SmallUnsigned(g);
    SmallUnsigned(v);
    Lanes.RotHalfUnsigned(g, v, k);
  }

  /** One half of a rotation, on numbers and on words. */
  lemma FunnelIs(g: nat, v: nat, k: nat)
    requires g < J.TWO32 && v < J.TWO32 && 0 < k < 32
    ensures NumberWord(Lanes.Funnel(g, v, k)) == FunnelWord(NumberWord(g), NumberWord(v), k)
  {
    hide NumberWord, Lanes.Funnel, J.Bits, J.Shl, J.Shr, Left, Right, ShiftLeft, ShiftRight;
    SmallUnsigned(g);
    SmallUnsigned(v);
    Lanes.RotHalfUnsigned(g, v, k);
    NumberWordUnsigned(Lanes.RotHalf(g, v, k));
    BitsOp(J.Or, J.Shr(g, k), J.Shl(v, 32 - k));
    Shifts(g, k);
    Shifts(v, 32 - k);
    ShiftsAre(NumberWord(g), k);
    ShiftsAre(NumberWord(v), 32 - k);
  }
}
