/** Base64 (js/rollups/aes.js:14-15): the printer and the parser of section 4 of RFC 4648. */
module Base64s {
  import Arithmetic
  import opened WordArrays

  // ----- the alphabet

  const CAPITALS: string := "ABCDEFGHIJKLMNOPQRSTUVWXYZ"
  const SMALLS: string := "abcdefghijklmnopqrstuvwxyz"
  const OTHERS: string := "0123456789+/="
  const MAP: string := CAPITALS + SMALLS + OTHERS

  /** `charAt` of the map: the characters of Table 1 of RFC 4648, then the pad. */
  function CharOf(i: nat): char
    requires i <= 64
  {
    if i < 26 then (65 + i) as char
    else if i < 52 then (71 + i) as char
    else if i < 62 then (i - 4) as char
    else if i == 62 then '+'
    else if i == 63 then '/'
    else '='
  }

  lemma MapChars(i: nat)
    requires i <= 64
    ensures MAP[i] == CharOf(i)
  {
  }

  /** `indexOf` on the map. */
  function IndexOf(c: char): int {
    if 'A' <= c <= 'Z' then c as int - 65
    else if 'a' <= c <= 'z' then c as int - 71
    else if '0' <= c <= '9' then c as int + 4
    else if c == '+' then 62
    else if c == '/' then 63
    else if c == '=' then 64
    else -1
  }

  lemma IndexOfChar(i: nat)
    requires i <= 64
    ensures IndexOf(CharOf(i)) == i
  {
  }

  lemma CharOfIndex(c: char)
    ensures IndexOf(c) >= 0 ==> IndexOf(c) <= 64 && CharOf(IndexOf(c)) == c
  {
  }

  /** `IndexOf` is the only place of the character in the map, or -1. */
  lemma IndexOfIs(c: char, i: nat)
    requires i <= 64
    ensures MAP[i] == c <==> i == IndexOf(c)
  {
    hide CharOf, IndexOf;
    MapChars(i);
    IndexOfChar(i);
    CharOfIndex(c);
  }

  // ----- three octets as four sextets

  /** Section 4: the 6-bit groups of 24 bits. */
  function Sextet(p0: Byte, p1: Byte, p2: Byte, d: nat): Byte
    requires d < 4
  {
    if d == 0 then p0 >> 2
    else if d == 1 then ((p0 & 0x3) << 4) | (p1 >> 4)
    else if d == 2 then ((p1 & 0xF) << 2) | (p2 >> 6)
    else p2 & 0x3F
  }

  lemma SextetSmall(p0: Byte, p1: Byte, p2: Byte, d: nat)
    requires d < 4
    ensures Sextet(p0, p1, p2, d) < 64
  {
  }

  function Triple(p0: Byte, p1: Byte, p2: Byte): Word {
    ((p0 as Word) << 16) | ((p1 as Word) << 8) | (p2 as Word)
  }

  /** `b >>> 6 * (3 - d) & 63` */
  function Group(b: Word, d: nat): Byte
    requires d < 4
  {
    if d == 0 then ((b >> 18) & 63) as Byte
    else if d == 1 then ((b >> 12) & 63) as Byte
    else if d == 2 then ((b >> 6) & 63) as Byte
    else (b & 63) as Byte
  }

  lemma GroupIsSextet(p0: Byte, p1: Byte, p2: Byte, d: nat)
    requires d < 4
    ensures Group(Triple(p0, p1, p2), d) == Sextet(p0, p1, p2, d)
  {
    if d == 0 {} else if d == 1 {} else if d == 2 {} else {}
  }

  // ----- the parser's bit operations

  /** `indexOf` as the bit operations see it: -1 is all ones. */
  function IndexWord(c: char): Word {
    if 0 <= IndexOf(c) <= 64 then (IndexOf(c) as Byte) as Word else 0xFFFF_FFFF
  }

  /** `v << 2 * m | w >>> 6 - 2 * m`: nothing masks the left part. */
  function Joined(v: Word, w: Word, m: nat): Word
    requires 0 < m < 4
  {
    if m == 1 then (v << 2) | (w >> 4)
    else if m == 2 then (v << 4) | (w >> 2)
    else (v << 6) | w
  }

  /** `w | x << 24 - 8 * k` */
  function OrAt(w: Word, x: Word, k: nat): Word
    requires k < 4
  {
    if k == 0 then w | (x << 24)
    else if k == 1 then w | (x << 16)
    else if k == 2 then w | (x << 8)
    else w | x
  }

  function LowByte(x: Word): Byte {
    (x & 0xFF) as Byte
  }

  function Overflow(x: Word): Word {
    x >> 8
  }

  /** All the bits of `x` are bits of `b`. */
  predicate Within(x: Word, b: Byte) {
    x | (b as Word) == b as Word
  }

  /** Two neighbouring sextets give the octet between them; what overflows are bits of the octet before. */
  lemma JoinedSextets(p0: Byte, p1: Byte, p2: Byte, m: nat)
    requires 0 < m < 4
    ensures var x := Joined(Sextet(p0, p1, p2, m - 1) as Word, Sextet(p0, p1, p2, m) as Word, m);
            && LowByte(x) == (if m == 1 then p0 else if m == 2 then p1 else p2)
            && (if m == 1 then Overflow(x) == 0 else Within(Overflow(x), if m == 2 then p0 else p1))
  {
    if m == 1 {} else if m == 2 {} else {}
  }

  /** The overflow at the place of the octet before octet `k`. */
  function Before(o: Word, k: nat): Word
    requires k < 4
  {
    if k == 0 then 0
    else if k == 1 then o << 24
    else if k == 2 then o << 16
    else o << 8
  }

  function Or(v: Word, w: Word): Word {
    v | w
  }

  lemma OrAtParts0(w: Word, x: Word)
    ensures OrAt(w, x, 0) == OrByte(Or(w, Before(Overflow(x), 0)), LowByte(x), 0)
  {
  }

  lemma OrAtParts1(w: Word, x: Word)
    ensures OrAt(w, x, 1) == OrByte(Or(w, Before(Overflow(x), 1)), LowByte(x), 1)
  {
  }

  lemma OrAtParts2(w: Word, x: Word)
    ensures OrAt(w, x, 2) == OrByte(Or(w, Before(Overflow(x), 2)), LowByte(x), 2)
  {
  }

  lemma OrAtParts3(w: Word, x: Word)
    ensures OrAt(w, x, 3) == OrByte(Or(w, Before(Overflow(x), 3)), LowByte(x), 3)
  {
  }

  lemma AlreadySet1(w: Word, o: Word)
    requires Within(o, ByteOf(w, 0))
    ensures Or(w, Before(o, 1)) == w
  {
  }

  lemma AlreadySet2(w: Word, o: Word)
    requires Within(o, ByteOf(w, 1))
    ensures Or(w, Before(o, 2)) == w
  {
  }

  lemma AlreadySet3(w: Word, o: Word)
    requires Within(o, ByteOf(w, 2))
    ensures Or(w, Before(o, 3)) == w
  {
  }

  lemma NothingBefore(w: Word, k: nat)
    requires k < 4
    ensures Or(w, Before(0, k)) == w
  {
    if k == 0 {} else if k == 1 {} else if k == 2 {} else {}
  }

  lemma FallsOff(w: Word, o: Word)
    ensures Or(w, Before(o, 0)) == w
  {
  }

  /** Overflow that falls off the word, or onto bits already set, leaves plain appending of the low octet. */
  lemma OverflowHarmless(w: Word, x: Word, k: nat)
    requires k < 4
    requires Overflow(x) == 0 || k == 0 || Within(Overflow(x), ByteOf(w, k - 1))
    ensures OrAt(w, x, k) == OrByte(w, LowByte(x), k)
  {
    hide OrAt, OrByte, LowByte, Overflow, Before, Within, ByteOf, Or;
    OrAtParts0(w, x);
    OrAtParts1(w, x);
    OrAtParts2(w, x);
    OrAtParts3(w, x);
    if k == 0 {
      FallsOff(w, Overflow(x));
    } else if Within(Overflow(x), ByteOf(w, k - 1)) {
      if k == 1 {
        AlreadySet1(w, Overflow(x));
      } else if k == 2 {
        AlreadySet2(w, Overflow(x));
      } else {
        AlreadySet3(w, Overflow(x));
      }
    } else {
      NothingBefore(w, k);
    }
  }

  lemma SextetWord(b: Byte)
    requires b < 64
    ensures b as int < 64 && IndexWord(CharOf(b as int)) == b as Word
  {
    ByteBack(b);
    IndexOfChar(b as int);
  }

  // ----- the printer

  /** How many characters `n` octets take, without padding. */
  function Count(n: nat): nat {
    (4 * n + 2) / 3
  }

  /** The sextet behind character `j`; octets past the end are zero. */
  function SextetAt(bs: seq<Byte>, j: nat): (x: Byte)
    ensures x < 64
  {
    var i := j / 4 * 3;
    SextetSmall(ByteOr0(bs, i), ByteOr0(bs, i + 1), ByteOr0(bs, i + 2), j % 4);
    Sextet(ByteOr0(bs, i), ByteOr0(bs, i + 1), ByteOr0(bs, i + 2), j % 4)
  }

  lemma SmallByte(x: Byte)
    requires x < 64
    ensures x as int < 64
  {
  }

  function SextetChar(x: Byte): char
    requires x < 64
  {
    SmallByte(x);
    CharOf(x as int)
  }

  function Digits(bs: seq<Byte>, n: nat): (t: string)
    ensures |t| == n
  {
    seq(n, j requires 0 <= j => SextetChar(SextetAt(bs, j)))
  }

  /** Section 4 of RFC 4648: the groups, then `=` up to a multiple of four. */
  function Text(bs: seq<Byte>): string {
    var t := Digits(bs, Count(|bs|));
    t + seq((4 - |t| % 4) % 4, _ => '=')
  }

  lemma TextDigit(bs: seq<Byte>, j: nat)
    requires j < 4 * ((|bs| + 2) / 3)
    ensures |Text(bs)| == 4 * ((|bs| + 2) / 3)
    ensures Text(bs)[j] == if j < Count(|bs|) then SextetChar(SextetAt(bs, j)) else '='
  {
    hide SextetChar, SextetAt, Count;
    Filled(|bs|);
  }

  /** The pads fill up the last group. */
  lemma Filled(n: nat)
    ensures Count(n) + (4 - Count(n) % 4) % 4 == 4 * ((n + 2) / 3)
  {
    var q, r := n / 3, n % 3;
    assert n == 3 * q + r;
    var c := if r == 0 then 0 else r + 1;
    Arithmetic.QuotientUnique(4 * n + 2, 4 * q + c, 2 + 4 * r - 3 * c, 3);
    Arithmetic.QuotientUnique(n + 2, if r == 0 then q else q + 1, if r == 0 then 2 else r - 1, 3);
    Arithmetic.QuotientUnique(4 * q + c, q, c, 4);
  }

  /** The letters of a group: two for its first octet, and one more for each of the others. */
  lemma Lettered(n: nat, q: nat)
    requires 3 * q < n
    ensures 4 * q + 1 < Count(n) <= 4 * ((n + 2) / 3) && 4 * q + 4 <= 4 * ((n + 2) / 3)
    ensures 4 * q + 2 < Count(n) <==> 3 * q + 1 < n
    ensures 4 * q + 3 < Count(n) <==> 3 * q + 2 < n
  {
  }

  /** Table 1 of RFC 4648. */
  function Letter(x: Byte): char
    requires x < 64
  {
    SmallByte(x);
    var i := x as int;
    if i < 26 then "ABCDEFGHIJKLMNOPQRSTUVWXYZ"[i]
    else if i < 52 then "abcdefghijklmnopqrstuvwxyz"[i - 26]
    else "0123456789+/"[i - 52]
  }

  /**
   Section 4 of RFC 4648: three octets are four letters of six bits each, and the last group is filled up with one or two
   pads.
   */
  lemma TextGroup(bs: seq<Byte>, q: nat)
    requires 3 * q < |bs|
    ensures |Text(bs)| == 4 * ((|bs| + 2) / 3) >= 4 * q + 4
    ensures var p0, p1, p2 := bs[3 * q], ByteOr0(bs, 3 * q + 1), ByteOr0(bs, 3 * q + 2);
            && Text(bs)[4 * q] == Letter(p0 >> 2)
            && Text(bs)[4 * q + 1] == Letter(((p0 & 3) << 4) | (p1 >> 4))
            && Text(bs)[4 * q + 2] == (if 3 * q + 1 < |bs| then Letter(((p1 & 15) << 2) | (p2 >> 6)) else '=')
            && Text(bs)[4 * q + 3] == (if 3 * q + 2 < |bs| then Letter(p2 & 63) else '=')
  {
    hide Text, Count, SextetChar, Letter;
    Lettered(|bs|, q);
    var p0, p1, p2 := bs[3 * q], ByteOr0(bs, 3 * q + 1), ByteOr0(bs, 3 * q + 2);
    TextDigit(bs, 4 * q);
    TextDigit(bs, 4 * q + 1);
    TextDigit(bs, 4 * q + 2);
    TextDigit(bs, 4 * q + 3);
    LetterOf(Sextet(p0, p1, p2, 0));
    LetterOf(Sextet(p0, p1, p2, 1));
    LetterOf(Sextet(p0, p1, p2, 2));
    LetterOf(Sextet(p0, p1, p2, 3));
  }

  lemma LetterOf(x: Byte)
    ensures x < 64 ==> SextetChar(x) == Letter(x)
  {
    if x < 64 {
      SmallByte(x);
      LettersOf(x as int);
      hide CharOf;
    }
  }

  lemma LettersOf(i: nat)
    requires i < 64
    ensures i < 26 ==> CharOf(i) == "ABCDEFGHIJKLMNOPQRSTUVWXYZ"[i]
    ensures 26 <= i < 52 ==> CharOf(i) == "abcdefghijklmnopqrstuvwxyz"[i - 26]
    ensures 52 <= i ==> CharOf(i) == "0123456789+/"[i - 52]
  {
  }

  lemma NextDigit(bs: seq<Byte>, k: nat, d: nat)
    requires k % 3 == 0 && d < 4
    ensures var j := k / 3 * 4 + d;
            Digits(bs, j + 1) == Digits(bs, j) + [SextetChar(Sextet(ByteOr0(bs, k), ByteOr0(bs, k + 1), ByteOr0(bs, k + 2), d))]
  {
    hide Sextet, ByteOr0;
    SextetSmall(ByteOr0(bs, k), ByteOr0(bs, k + 1), ByteOr0(bs, k + 2), d);
    var j := k / 3 * 4 + d;
    assert j / 4 * 3 == k && j % 4 == d;
  }

  /** The inner loop of `stringify`: a character while its first bit is in the array. */
  method PrintGroup(l: seq<Word>, k: nat, p: nat, ghost bs: seq<Byte>) returns (t: string)
    requires k % 3 == 0 && k < p == |bs| && l == Pack(bs)
    ensures Digits(bs, k / 3 * 4) + t == Digits(bs, if k + 3 < p then k / 3 * 4 + 4 else Count(p))
  {
    hide ByteOf, Pack, Triple, Group, Sextet, SextetChar, SextetAt, Digits;
    var b := Triple(ByteAt(l, k), ByteAt(l, k + 1), ByteAt(l, k + 2));
    PackByteAt(bs, k);
    PackByteAt(bs, k + 1);
    PackByteAt(bs, k + 2);
    t := "";
    var d := 0;
    while d < 4 && 4 * k + 3 * d < 4 * p
      invariant d <= 4 && (d > 0 ==> 4 * k + 3 * (d - 1) < 4 * p)
      invariant Digits(bs, k / 3 * 4) + t == Digits(bs, k / 3 * 4 + d)
    {
      GroupIsSextet(ByteOr0(bs, k), ByteOr0(bs, k + 1), ByteOr0(bs, k + 2), d);
      SextetSmall(ByteOr0(bs, k), ByteOr0(bs, k + 1), ByteOr0(bs, k + 2), d);
      NextDigit(bs, k, d);
      t := t + [SextetChar(Group(b, d))];
      d := d + 1;
    }
  }

  /** `stringify`; the array it prints is clamped in place. */
  method Stringify(e: WordArray) returns (text: string)
    modifies e
    ensures text == Text(old(e.Bytes()))
    ensures e.Bytes() == old(e.Bytes()) && e.sigBytes == old(e.sigBytes) && e.Clamped()
  {
    hide ByteOf, Pack, BytesIn, SextetChar, SextetAt;
    ghost var bs := e.Bytes();
    var p := e.sigBytes;
    e.Clamp();
    var l := e.words;
    text := "";
    var k := 0;
    while k < p
      invariant k % 3 == 0 && k < p + 3 && e.words == l && e.sigBytes == p
      invariant text == Digits(bs, if k < p then k / 3 * 4 else Count(p))
    {
      var t := PrintGroup(l, k, p, bs);
      text := text + t;
      k := k + 3;
    }
    text := Padded(text);
  }

  /** The padding loop of `stringify`. */
  method Padded(digits: string) returns (text: string)
    ensures text == digits + seq((4 - |digits| % 4) % 4, _ => '=')
  {
    text := digits;
    while |text| % 4 != 0
      invariant |digits| <= |text| <= |digits| + (4 - |digits| % 4) % 4
      invariant text == digits + seq(|text| - |digits|, _ => '=')
      decreases |digits| + 3 - |text|
    {
      text := text + ['='];
    }
  }

  // ----- the parser

  /** The words and the byte count after the characters before place `b`. */
  function ParseTo(text: string, b: nat): (r: (seq<Word>, nat))
    requires b <= |text|
  {
    if b == 0 then ([], 0)
    else
      var (ws, s) := ParseTo(text, b - 1);
      if (b - 1) % 4 == 0 then (ws, s)
      else
        var x := Joined(IndexWord(text[b - 2]), IndexWord(text[b - 1]), (b - 1) % 4);
        (Put(ws, s / 4, OrAt(Get(ws, s / 4), x, s % 4)), s + 1)
  }

  /** Where the first pad character stands, or the end. */
  function End(text: string): (l: nat)
    ensures l <= |text|
    ensures forall i :: 0 <= i < l ==> text[i] != '='
    ensures l < |text| ==> text[l] == '='
  {
    if |text| == 0 || text[0] == '=' then 0 else 1 + End(text[1..])
  }

  /** `parse` */
  method Parse(text: string) returns (a: WordArray)
    ensures fresh(a) && (a.words, a.sigBytes) == ParseTo(text, End(text))
  {
    hide IndexWord, Joined, OrAt;
    var l := End(text);
    var c: seq<Word>, s := [], 0;
    for b := 0 to l
      invariant (c, s) == ParseTo(text, b)
    {
      if b % 4 != 0 {
        var x := Joined(IndexWord(text[b - 1]), IndexWord(text[b]), b % 4);
        c := Put(c, s / 4, OrAt(Get(c, s / 4), x, s % 4));
        s := s + 1;
      }
    }
    a := new WordArray(c, s);
  }

  // ----- the round trip

  /** A byte OR-ed in leaves the bytes after it alone, whatever lies above its eight bits. */
  lemma OrAtKeeps(w: Word, x: Word, k: nat, j: nat)
    requires k < j < 4
    ensures ByteOf(OrAt(w, x, k), j) == ByteOf(w, j)
  {
    if j == 1 {
    } else if j == 2 {
      if k == 0 {} else {}
    } else {
      if k == 0 {} else if k == 1 {} else {}
    }
  }

  /** Any text, of characters in the map or not, is parsed to clamped words. */
  lemma {:induction false} ParsedIsClamped(text: string, b: nat)
    requires b <= |text|
    ensures var (ws, s) := ParseTo(text, b); ws == Pack(BytesIn(ws, s))
    decreases b
  {
    hide ByteOf, OrAt, Joined, IndexWord, PackedWord, Pack, BytesIn;
    if b == 0 {
      NothingIsClamped();
    } else {
      ParsedIsClamped(text, b - 1);
      var (ws, s) := ParseTo(text, b - 1);
      if (b - 1) % 4 != 0 {
        var x := Joined(IndexWord(text[b - 2]), IndexWord(text[b - 1]), (b - 1) % 4);
        PutClamped(ws, s, x);
      }
    }
  }

  lemma NothingIsClamped()
    ensures Pack(BytesIn([], 0)) == []
  {
  }

  lemma PutClamped(ws: seq<Word>, s: nat, x: Word)
    requires ws == Pack(BytesIn(ws, s))
    ensures var r := Put(ws, s / 4, OrAt(Get(ws, s / 4), x, s % 4)); r == Pack(BytesIn(r, s + 1))
  {
    hide ByteOf, OrAt, PackedWord, Pack, BytesIn;
    var r := Put(ws, s / 4, OrAt(Get(ws, s / 4), x, s % 4));
    ClampedIff(ws, s);
    forall i: nat | s + 1 <= i < 4 * ((s + 4) / 4)
      ensures ByteAt(r, i) == 0
    {
      assert i / 4 == s / 4 && s % 4 < i % 4;
      OrAtKeeps(Get(ws, s / 4), x, s % 4, i % 4);
      assert ByteAt(r, i) == ByteAt(ws, i);
      if s % 4 == 0 {
        assert Get(ws, s / 4) == 0;
        ZeroBytes(i % 4);
      }
    }
    ClampedIff(r, s + 1);
  }

  lemma {:induction false} EndIs(text: string, n: nat)
    requires n <= |text| && (n == |text| || text[n] == '=')
    requires forall i :: 0 <= i < n ==> text[i] != '='
    ensures End(text) == n
    decreases n
  {
    if n > 0 {
      EndIs(text[1..], n - 1);
    }
  }

  lemma DigitNotPad(x: Byte)
    requires x < 64
    ensures SextetChar(x) != '='
  {
    SmallByte(x);
  }

  /** The octets that the first `b` characters complete. */
  function Complete(b: nat): nat {
    if b == 0 then 0 else (b - 1) / 4 * 3 + (b - 1) % 4
  }

  /** The step of `ParseTo` at a character that completes an octet. */
  function Added(ws: seq<Word>, s: nat, v: char, w: char, m: nat): seq<Word>
    requires 0 < m < 4
  {
    Put(ws, s / 4, OrAt(Get(ws, s / 4), Joined(IndexWord(v), IndexWord(w), m), s % 4))
  }

  lemma {:induction false} ParsedSoFar(bs: seq<Byte>, text: string, b: nat)
    requires b <= Count(|bs|) <= |text|
    requires forall j: nat :: j < Count(|bs|) ==> text[j] == SextetChar(SextetAt(bs, j))
    ensures Complete(b) <= |bs|
    ensures ParseTo(text, b) == (Pack(bs[..Complete(b)]), Complete(b))
    decreases b
  {
    hide ByteOf, Pack, SextetAt, SextetChar, Added, ParseTo, Complete, Count;
    if b == 0 {
      NothingParsed(text);
    } else {
      ParsedSoFar(bs, text, b - 1);
      ParseNext(text, b);
      CompleteNext(b);
      if (b - 1) % 4 != 0 {
        ParseStep(bs, b - 1);
      }
    }
  }

  lemma ParseNext(text: string, b: nat)
    requires 0 < b <= |text|
    ensures var (ws, s) := ParseTo(text, b - 1);
            ParseTo(text, b) == if (b - 1) % 4 == 0 then (ws, s) else (Added(ws, s, text[b - 2], text[b - 1], (b - 1) % 4), s + 1)
  {
    hide OrAt, Joined, IndexWord;
  }

  lemma NothingParsed(text: string)
    ensures Pack([]) == [] && Complete(0) == 0 && ParseTo(text, 0) == ([], 0)
  {
  }

  lemma CompleteNext(b: nat)
    requires b > 0
    ensures Complete(b) == if (b - 1) % 4 == 0 then Complete(b - 1) else Complete(b - 1) + 1
    ensures (b - 1) % 4 != 0 ==> Complete(b - 1) == (b - 1) / 4 * 3 + (b - 1) % 4 - 1
  {
  }

  /** One character of the parser appends one octet. */
  lemma ParseStep(bs: seq<Byte>, b: nat)
    requires b % 4 != 0 && b < Count(|bs|)
    ensures var s := b / 4 * 3 + b % 4 - 1;
            s < |bs| && Added(Pack(bs[..s]), s, SextetChar(SextetAt(bs, b - 1)), SextetChar(SextetAt(bs, b)), b % 4) == Pack(bs[..s + 1])
  {
    hide ByteOf, Pack, IndexWord, Joined, OrAt, OrByte, Sextet, CharOf, LowByte, Overflow, Within, Complete;
    var m, i := b % 4, b / 4 * 3;
    var s := i + m - 1;
    var x := JoinedOctets(bs, b);
    var ws := Pack(bs[..s]);
    if s % 4 > 0 {
      PackByteAt(bs[..s], s - 1);
    }
    OverflowHarmless(Get(ws, s / 4), x, s % 4);
    OrAppends(bs[..s], bs[s]);
    assert bs[..s] + [bs[s]] == bs[..s + 1];
  }

  lemma JoinedOctets(bs: seq<Byte>, b: nat) returns (x: Word)
    requires b % 4 != 0 && b < Count(|bs|)
    ensures var s := b / 4 * 3 + b % 4 - 1;
            && s < |bs|
            && x == Joined(IndexWord(SextetChar(SextetAt(bs, b - 1))), IndexWord(SextetChar(SextetAt(bs, b))), b % 4)
            && LowByte(x) == bs[s]
            && (Overflow(x) == 0 || (b % 4 > 1 && Within(Overflow(x), bs[s - 1])))
  {
    hide ByteOf, Pack, IndexWord, Joined, Sextet, CharOf, LowByte, Overflow, Within;
    var m, i := b % 4, b / 4 * 3;
    var p0, p1, p2 := ByteOr0(bs, i), ByteOr0(bs, i + 1), ByteOr0(bs, i + 2);
    SextetSmall(p0, p1, p2, m - 1);
    SextetSmall(p0, p1, p2, m);
    SextetWord(SextetAt(bs, b - 1));
    SextetWord(SextetAt(bs, b));
    JoinedSextets(p0, p1, p2, m);
    x := Joined(Sextet(p0, p1, p2, m - 1) as Word, Sextet(p0, p1, p2, m) as Word, m);
  }

  /** Parsing what was printed gives the octets back, as clamped words, for every octet string. */
  lemma RoundTrip(bs: seq<Byte>)
    ensures ParseTo(Text(bs), End(Text(bs))) == (Pack(bs), |bs|)
  {
    hide SextetChar, SextetAt, Pack, ParseTo;
    var text, n := Text(bs), Count(|bs|);
    forall i | 0 <= i < n
      ensures text[i] != '='
    {
      DigitNotPad(SextetAt(bs, i));
    }
    EndIs(text, n);
    ParsedSoFar(bs, text, n);
    assert Complete(n) == |bs| && bs[..|bs|] == bs;
  }
}
