/**
 The 32-bit words behind JavaScript's numbers: what bit operations keep of a number, octet by octet.
 */
module MachineWords {
  import opened Arithmetic
  import opened WordArrays
  import J = JsNumber

  function Num(b: Byte): (n: nat)
    ensures n < 256
  {
    b as int
  }

  /** The lowest octet of a number. */
  function LowByte(n: nat): Byte {
    (n % 256) as Byte
  }

  /** The bits that bit operations see. */
  function NumberWord(x: int): Word {
    var u := J.Unsigned(x);
    WordOf(LowByte(u / 256 / 256 / 256), LowByte(u / 256 / 256), LowByte(u / 256), LowByte(u))
  }

  function Placed(a: nat, b: nat, c: nat, d: nat): nat {
    ((a * 256 + b) * 256 + c) * 256 + d
  }

  /** A word as the number `>>> 0` makes of it. */
  function AsNumber(w: Word): (n: nat)
    ensures n < J.TWO32
  {
    Placed(Num(ByteOf(w, 0)), Num(ByteOf(w, 1)), Num(ByteOf(w, 2)), Num(ByteOf(w, 3)))
  }

  lemma ByteOfNumber(n: nat)
    ensures Num(LowByte(n)) == n % 256
  {
    ByteNumber(n % 256);
  }

  lemma NumberOfByte(b: Byte)
    ensures LowByte(Num(b)) == b
  {
    ByteBack(b);
  }

  lemma PlacedParts(a: nat, b: nat, c: nat, d: nat)
    requires a < 256 && b < 256 && c < 256 && d < 256
    ensures var u := Placed(a, b, c, d);
            && u < J.TWO32 && u / 256 / 256 / 256 % 256 == a && u / 256 / 256 % 256 == b && u / 256 % 256 == c && u % 256 == d
  {
    QuotientUnique(Placed(a, b, c, d), (a * 256 + b) * 256 + c, d, 256);
    QuotientUnique((a * 256 + b) * 256 + c, a * 256 + b, c, 256);
    QuotientUnique(a * 256 + b, a, b, 256);
  }

  lemma PartsPlaced(u: nat)
    requires u < J.TWO32
    ensures Placed(u / 256 / 256 / 256 % 256, u / 256 / 256 % 256, u / 256 % 256, u % 256) == u
  {
    assert u == u / 256 * 256 + u % 256;
    var v := u / 256;
    assert v == v / 256 * 256 + v % 256;
    var w := v / 256;
    assert w == w / 256 * 256 + w % 256 && w / 256 < 256;
  }

  lemma LowByteOf(n: nat)
    ensures LowByte(n % 256) == LowByte(n)
  {
  }

  /** The octets of a word made of a number. */
  lemma WordOctets(x: int)
    ensures var u, w := J.Unsigned(x), NumberWord(x);
            && Num(ByteOf(w, 0)) == u / 256 / 256 / 256 % 256 && Num(ByteOf(w, 1)) == u / 256 / 256 % 256
            && Num(ByteOf(w, 2)) == u / 256 % 256 && Num(ByteOf(w, 3)) == u % 256
  {
    hide ByteOf, WordOf, LowByte, Num, J.Unsigned;
    var u := J.Unsigned(x);
    BytesOfWord(LowByte(u / 256 / 256 / 256), LowByte(u / 256 / 256), LowByte(u / 256), LowByte(u));
    ByteOfNumber(u / 256 / 256 / 256);
    ByteOfNumber(u / 256 / 256);
    ByteOfNumber(u / 256);
    ByteOfNumber(u);
  }

  /** A number modulo 2^32 and its word determine each other. */
  lemma NumberBack(x: int)
    ensures AsNumber(NumberWord(x)) == J.Unsigned(x)
  {
    hide ByteOf, NumberWord, Num, J.Unsigned, Placed;
    WordOctets(x);
    PartsPlaced(J.Unsigned(x));
  }

  lemma WordOfParts(a: Byte, b: Byte, c: Byte, d: Byte)
    ensures NumberWord(Placed(Num(a), Num(b), Num(c), Num(d))) == WordOf(a, b, c, d)
  {
    hide WordOf, LowByte, Num, Placed, J.Unsigned;
    PlacedParts(Num(a), Num(b), Num(c), Num(d));
    var u := Placed(Num(a), Num(b), Num(c), Num(d));
    SmallUnsigned(u);
    LowByteOf(u / 256 / 256 / 256);
    LowByteOf(u / 256 / 256);
    LowByteOf(u / 256);
    LowByteOf(u);
    NumberOfByte(a);
    NumberOfByte(b);
    NumberOfByte(c);
    NumberOfByte(d);
  }

  /** A number written down octet by octet. */
  lemma LiteralWord(a: Byte, b: Byte, c: Byte, d: Byte, n: nat, w: Word)
    requires n == ((a as int * 256 + b as int) * 256 + c as int) * 256 + d as int
    requires w == WordOf(a, b, c, d)
    ensures NumberWord(n) == w
  {
    hide NumberWord;
    WordOfParts(a, b, c, d);
  }

  lemma SmallUnsigned(u: nat)
    requires u < J.TWO32
    ensures J.Unsigned(u) == u
  {
  }

  /** A word is the word of its number. */
  lemma WordBack(w: Word)
    ensures NumberWord(AsNumber(w)) == w
  {
    hide ByteOf, WordOf, Num, Placed, NumberWord;
    WordOfParts(ByteOf(w, 0), ByteOf(w, 1), ByteOf(w, 2), ByteOf(w, 3));
    WordOfBytes(w);
  }

  lemma NumberWordUnsigned(x: int)
    ensures NumberWord(J.Unsigned(x)) == NumberWord(x)
  {
    hide J.Unsigned, WordOf, LowByte;
    J.UnsignedTwice(x);
  }

  /** The four octets of the word, most significant first, make up the number modulo 2^32. */
  lemma NumberOctets(x: int)
    ensures var w := NumberWord(x);
            J.Unsigned(x) == (ByteOf(w, 0) as int) * 0x100_0000 + (ByteOf(w, 1) as int) * 0x1_0000 +
                             (ByteOf(w, 2) as int) * 0x100 + (ByteOf(w, 3) as int)
  {
    hide ByteOf, NumberWord, J.Unsigned;
    NumberBack(x);
  }
}
