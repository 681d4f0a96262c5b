/**
 AES octet by octet: the state is a square array of octets (section 3.4 of FIPS 197), and every octet of every
 transformation, of the two ciphers and of the key schedule is stated in the standard's own indices.
 */
module AesOctets {
  import opened WordArrays
  import opened Gf256
  import opened AesTables
  import opened AesCipher
  import opened AesObject

  /** Word `c` of the state, counted modulo 4. */
  function ColumnAt(s: Block, c: nat): Word {
    if c % 4 == 0 then s.w0 else if c % 4 == 1 then s.w1 else if c % 4 == 2 then s.w2 else s.w3
  }

  /** The octet in row `r` and column `c` of the state, both modulo 4: octet `r` of word `c`. */
  function At(s: Block, r: nat, c: nat): Byte {
    ByteOf(ColumnAt(s, c), r % 4)
  }

  // ----- the field and the S-box

  /** Bit `i`, the least significant first. */
  predicate BitAt(b: Byte, i: nat)
    requires i < 8
  {
    b & (if i == 0 then 1 else if i == 1 then 2 else if i == 2 then 4 else if i == 3 then 8
         else if i == 4 then 16 else if i == 5 then 32 else if i == 6 then 64 else 128) != 0
  }

  /** The sum of bits. */
  predicate Parity(a: bool, b: bool, c: bool, d: bool, e: bool) {
    a != (b != (c != (d != e)))
  }

  /** Section 5.1.1 of FIPS 197, bit by bit; 0x63 has the bits 0, 1, 5 and 6. */
  lemma AffineBits(b: Byte, i: nat)
    requires i < 8
    ensures BitAt(Affine(b), i) ==
            (Parity(BitAt(b, i), BitAt(b, (i + 4) % 8), BitAt(b, (i + 5) % 8), BitAt(b, (i + 6) % 8), BitAt(b, (i + 7) % 8))
             != (i == 0 || i == 1 || i == 5 || i == 6))
  {
    hide Affine, BitAt;
    if i < 4 {
      LowAffineBits(b, i);
    } else {
      HighAffineBits(b, i);
    }
  }

  lemma LowAffineBits(b: Byte, i: nat)
    requires i < 4
    ensures BitAt(Affine(b), i) ==
            (Parity(BitAt(b, i), BitAt(b, i + 4), BitAt(b, (i + 5) % 8), BitAt(b, (i + 6) % 8), BitAt(b, (i + 7) % 8)) != (i < 2))
  {
    hide Affine, BitAt;
    AffineBit0(b);
    AffineBit1(b);
    AffineBit2(b);
    AffineBit3(b);
  }

  lemma HighAffineBits(b: Byte, i: nat)
    requires 4 <= i < 8
    ensures BitAt(Affine(b), i) ==
            (Parity(BitAt(b, i), BitAt(b, i - 4), BitAt(b, i - 3), BitAt(b, i - 2), BitAt(b, i - 1)) != (i == 5 || i == 6))
  {
    hide Affine, BitAt;
    AffineBit4(b);
    AffineBit5(b);
    AffineBit6(b);
    AffineBit7(b);
  }

  lemma AffineBit0(b: Byte)
    ensures BitAt(Affine(b), 0) == (Parity(BitAt(b, 0), BitAt(b, 4), BitAt(b, 5), BitAt(b, 6), BitAt(b, 7)) != true)
  {
  }

  lemma AffineBit1(b: Byte)
    ensures BitAt(Affine(b), 1) == (Parity(BitAt(b, 1), BitAt(b, 5), BitAt(b, 6), BitAt(b, 7), BitAt(b, 0)) != true)
  {
  }

  lemma AffineBit2(b: Byte)
    ensures BitAt(Affine(b), 2) == (Parity(BitAt(b, 2), BitAt(b, 6), BitAt(b, 7), BitAt(b, 0), BitAt(b, 1)) != false)
  {
  }

  lemma AffineBit3(b: Byte)
    ensures BitAt(Affine(b), 3) == (Parity(BitAt(b, 3), BitAt(b, 7), BitAt(b, 0), BitAt(b, 1), BitAt(b, 2)) != false)
  {
  }

  lemma AffineBit4(b: Byte)
    ensures BitAt(Affine(b), 4) == (Parity(BitAt(b, 4), BitAt(b, 0), BitAt(b, 1), BitAt(b, 2), BitAt(b, 3)) != false)
  {
  }

  lemma AffineBit5(b: Byte)
    ensures BitAt(Affine(b), 5) == (Parity(BitAt(b, 5), BitAt(b, 1), BitAt(b, 2), BitAt(b, 3), BitAt(b, 4)) != true)
  {
  }

  lemma AffineBit6(b: Byte)
    ensures BitAt(Affine(b), 6) == (Parity(BitAt(b, 6), BitAt(b, 2), BitAt(b, 3), BitAt(b, 4), BitAt(b, 5)) != true)
  {
  }

  lemma AffineBit7(b: Byte)
    ensures BitAt(Affine(b), 7) == (Parity(BitAt(b, 7), BitAt(b, 3), BitAt(b, 4), BitAt(b, 5), BitAt(b, 6)) != false)
  {
  }

  /** Section 4.2 of FIPS 197: the shifted polynomial, less x^8 + x^4 + x^3 + x + 1 where it has a term in x^8. */
  lemma XtimeReduces(b: Byte)
    ensures Xtime(b) as Word == (b as Word << 1) ^ (if BitAt(b, 7) then 0x11B else 0)
  {
  }

  function If(p: bool, b: Byte): Byte {
    if p then b else 0
  }

  lemma LowBits(a: Byte, i: nat)
    requires i < 8
    ensures Odd(a) == BitAt(a, 0) && (i < 7 ==> BitAt(Half(a), i) == BitAt(a, i + 1))
  {
    if i < 4 {
      if i == 0 {} else if i == 1 {} else if i == 2 {} else {}
    } else {
      if i == 4 {} else if i == 5 {} else if i == 6 {} else {}
    }
  }

  /** The sum of the terms `b * x^i` for the terms x^i of `a`, from x^m. */
  lemma {:induction false} MulTerm(a: Byte, b: Byte, n: nat, c: bool)
    requires 0 < n <= 8
    requires c == BitAt(a, 0)
    ensures MulBits(a, b, n) == Add(If(c, b), MulBits(Half(a), Xtime(b), n - 1))
  {
    hide Xtime, Odd, Half, BitAt;
    LowBits(a, 0);
  }

  lemma ProductTerms(a: Byte, b: Byte)
    ensures var b1 := Xtime(b);
            var b2 := Xtime(b1);
            var b3 := Xtime(b2);
            var b4 := Xtime(b3);
            var b5 := Xtime(b4);
            var b6 := Xtime(b5);
            var b7 := Xtime(b6);
            Mul(a, b) == Add(If(BitAt(a, 0), b), Add(If(BitAt(a, 1), b1), Add(If(BitAt(a, 2), b2), Add(If(BitAt(a, 3), b3),
                         Add(If(BitAt(a, 4), b4), Add(If(BitAt(a, 5), b5), Add(If(BitAt(a, 6), b6), If(BitAt(a, 7), b7))))))))
  {
    hide Xtime, Odd, Half, BitAt, If, MulBits, Add;
    var a1 := Half(a);
    var a2 := Half(a1);
    var a3 := Half(a2);
    var a4 := Half(a3);
    var a5 := Half(a4);
    var a6 := Half(a5);
    var a7 := Half(a6);
    var b1 := Xtime(b);
    var b2 := Xtime(b1);
    var b3 := Xtime(b2);
    var b4 := Xtime(b3);
    var b5 := Xtime(b4);
    var b6 := Xtime(b5);
    var b7 := Xtime(b6);
    HalvedBits(a);
    HalvedBits(a1);
    HalvedBits(a2);
    HalvedBits(a3);
    HalvedBits(a4);
    HalvedBits(a5);
    HalvedBits(a6);
    MulTerm(a, b, 8, BitAt(a, 0));
    MulTerm(a1, b1, 7, BitAt(a, 1));
    MulTerm(a2, b2, 6, BitAt(a, 2));
    MulTerm(a3, b3, 5, BitAt(a, 3));
    MulTerm(a4, b4, 4, BitAt(a, 4));
    MulTerm(a5, b5, 3, BitAt(a, 5));
    MulTerm(a6, b6, 2, BitAt(a, 6));
    MulTerm(a7, b7, 1, BitAt(a, 7));
    NoTerms(Half(a7), Xtime(b7), If(BitAt(a, 7), b7));
  }

  lemma NoTerms(a: Byte, b: Byte, c: Byte)
    ensures Add(c, MulBits(a, b, 0)) == c
  {
  }

  lemma HalvedBits(a: Byte)
    ensures forall i: nat :: i < 7 ==> BitAt(Half(a), i) == BitAt(a, i + 1)
  {
    hide Half, BitAt;
    forall i: nat | i < 7 ensures BitAt(Half(a), i) == BitAt(a, i + 1) {
      LowBits(a, i);
    }
  }

  /** Section 5.1.1 of FIPS 197: the multiplicative inverse, 0 standing for its own, through the affine map. */
  lemma SubOctet(x: Byte, y: Byte)
    requires if x == 0 then y == 0 else Mul(x, y) == 1
    ensures Sub(x) == Affine(y)
  {
    hide Affine, Mul;
    InverseUnique(x, y);
  }

  // ----- the transformations, section 5.1 of FIPS 197

  lemma {:induction false} SameColumns(ws: seq<Word>)
    requires |ws| == 4
    ensures WordsOf(BlockOf(ws)) == ws
  {
  }

  /** The sums of octets and of words are exclusive ors. */
  lemma SumsAreXors(a: Byte, b: Byte, v: Word, w: Word)
    ensures Add(a, b) == a ^ b && Xor(v, w) == v ^ w
  {
  }

  /** Column `c` is word `c` of the four that a block is made of. */
  lemma Column(s: Block, c: nat)
    requires c < 4
    ensures ColumnAt(s, c) == WordsOf(s)[c]
  {
    if c == 0 {} else if c == 1 {} else if c == 2 {} else {}
  }

  lemma BlockColumn(ws: seq<Word>, c: nat)
    requires |ws| == 4 && c < 4
    ensures WordsOf(BlockOf(ws)) == ws && ColumnAt(BlockOf(ws), c) == ws[c]
  {
    SameColumns(ws);
    hide BlockOf, WordsOf, ColumnAt;
    Column(BlockOf(ws), c);
  }

  lemma KeyColumn(ks: seq<Word>, r: nat, c: nat)
    requires 4 * r + 4 <= |ks| && c < 4
    ensures ColumnAt(RoundKey(ks, r), c) == ks[4 * r + c]
  {
    if c == 0 {} else if c == 1 {} else if c == 2 {} else {}
  }

  lemma SumColumn(s: Block, k: Block, c: nat)
    ensures ColumnAt(AddRoundKey(s, k), c) == Xor(ColumnAt(s, c), ColumnAt(k, c))
  {
    hide Xor;
  }

  /** Section 5.1.4 of FIPS 197 on words: the key words of a round in their order. */
  lemma AddRoundKeyWords(s: Block, ks: seq<Word>, r: nat, c: nat)
    requires 4 * r + 4 <= |ks| && c < 4
    ensures WordsOf(AddRoundKey(s, RoundKey(ks, r)))[c] == Xor(WordsOf(s)[c], ks[4 * r + c])
  {
    hide Xor, WordsOf, ColumnAt, AddRoundKey, RoundKey;
    Column(s, c);
    Column(AddRoundKey(s, RoundKey(ks, r)), c);
    SumColumn(s, RoundKey(ks, r), c);
    KeyColumn(ks, r, c);
  }

  lemma AddRoundKeyAt(s: Block, ks: seq<Word>, n: nat, r: nat, c: nat)
    requires 4 * n + 4 <= |ks| && r < 4 && c < 4
    ensures At(AddRoundKey(s, RoundKey(ks, n)), r, c) == Add(At(s, r, c), ByteOf(ks[4 * n + c], r))
  {
    hide ByteOf, AddRoundKey, RoundKey, ColumnAt, Add, Xor;
    SumColumn(s, RoundKey(ks, n), c);
    KeyColumn(ks, n, c);
    BytesXorAsSums(ColumnAt(s, c), ks[4 * n + c], r);
  }

  /** The octets of one column. */
  lemma SubWordAt(w: Word, r: nat)
    requires r < 4
    ensures ByteOf(SubWord(w), r) == Sub(ByteOf(w, r)) && ByteOf(UnsubWord(w), r) == Unsub(ByteOf(w, r))
  {
    hide ByteOf, SubWord, UnsubWord, Sub, Unsub;
    SubWordBytes(w);
    UnsubWordBytes(w);
    if r == 0 {} else if r == 1 {} else if r == 2 {} else {}
  }

  lemma SubColumn(s: Block, c: nat)
    ensures ColumnAt(SubBytes(s), c) == SubWord(ColumnAt(s, c)) && ColumnAt(InvSubBytes(s), c) == UnsubWord(ColumnAt(s, c))
  {
    hide SubWord, UnsubWord;
  }

  lemma SubBytesAt(s: Block, r: nat, c: nat)
    ensures At(SubBytes(s), r, c) == Sub(At(s, r, c)) && At(InvSubBytes(s), r, c) == Unsub(At(s, r, c))
  {
    hide ByteOf, SubWord, UnsubWord, Sub, Unsub, ColumnAt, SubBytes, InvSubBytes;
    SubColumn(s, c);
    SubWordAt(ColumnAt(s, c), r % 4);
  }

  lemma DiagonalAt(a: Word, b: Word, c: Word, d: Word, r: nat)
    requires r < 4
    ensures ByteOf(Diagonal(a, b, c, d), r) ==
            if r == 0 then ByteOf(a, r) else if r == 1 then ByteOf(b, r) else if r == 2 then ByteOf(c, r) else ByteOf(d, r)
  {
    hide ByteOf, Diagonal;
    DiagonalBytes(a, b, c, d);
    if r == 0 {} else if r == 1 {} else if r == 2 {} else {}
  }

  lemma ShiftedColumn(s: Block, c: nat)
    requires c < 4
    ensures ColumnAt(ShiftRows(s), c) == Diagonal(ColumnAt(s, c), ColumnAt(s, c + 1), ColumnAt(s, c + 2), ColumnAt(s, c + 3))
  {
    hide Diagonal, ColumnAt;
    Columns(s);
    Columns(ShiftRows(s));
    if c == 0 {} else if c == 1 {} else if c == 2 {} else {}
  }

  lemma Columns(s: Block)
    ensures ColumnAt(s, 0) == ColumnAt(s, 4) == s.w0 && ColumnAt(s, 1) == ColumnAt(s, 5) == s.w1
    ensures ColumnAt(s, 2) == ColumnAt(s, 6) == s.w2 && ColumnAt(s, 3) == s.w3
  {
  }

  /** Section 5.1.2 of FIPS 197: row `r` of the state comes from `r` columns on. */
  lemma ShiftRowsAt(s: Block, r: nat, c: nat)
    requires c < 4
    ensures At(ShiftRows(s), r, c) == At(s, r, c + r)
  {
    hide ByteOf, Diagonal, ColumnAt, ShiftRows;
    ShiftedColumn(s, c);
    DiagonalAt(ColumnAt(s, c), ColumnAt(s, c + 1), ColumnAt(s, c + 2), ColumnAt(s, c + 3), r % 4);
    SameColumn(s, c + r, c + r % 4);
  }

  lemma SameColumn(s: Block, c: nat, d: nat)
    requires c % 4 == d % 4
    ensures ColumnAt(s, c) == ColumnAt(s, d)
  {
  }

  lemma InvShiftRowsAt(s: Block, r: nat, c: nat)
    requires c < 4
    ensures At(InvShiftRows(s), r, c + r) == At(s, r, c)
  {
    hide ShiftRows, InvShiftRows, At;
    ShiftRowsAt(InvShiftRows(s), r, c);
    ShiftsBack(s);
  }

  lemma ShiftsBack(s: Block)
    ensures ShiftRows(InvShiftRows(s)) == s
  {
    hide ByteOf, WordOf;
    DiagonalBytes(s.w0, s.w3, s.w2, s.w1);
    DiagonalBytes(s.w1, s.w0, s.w3, s.w2);
    DiagonalBytes(s.w2, s.w1, s.w0, s.w3);
    DiagonalBytes(s.w3, s.w2, s.w1, s.w0);
    WordOfBytes(s.w0);
    WordOfBytes(s.w1);
    WordOfBytes(s.w2);
    WordOfBytes(s.w3);
  }

  /** Row `r` of a matrix applied to one column. */
  function RowSum(m: Row, w: Word, r: nat): Byte {
    Add(Add(Mul(m.c0, ByteOf(w, r % 4)), Mul(m.c1, ByteOf(w, (r + 1) % 4))),
        Add(Mul(m.c2, ByteOf(w, (r + 2) % 4)), Mul(m.c3, ByteOf(w, (r + 3) % 4))))
  }

  lemma MixColumnAt(m: Row, w: Word, r: nat)
    requires r < 4
    ensures ByteOf(MixColumn(m, w), r) == RowSum(m, w, r)
  {
    hide ByteOf, MixColumn, Mul, Add;
    MixColumnBytes(m, w);
    if r == 0 {} else if r == 1 {} else if r == 2 {} else {}
  }

  lemma MixedColumn(m: Row, s: Block, c: nat)
    ensures ColumnAt(MixColumns(m, s), c) == MixColumn(m, ColumnAt(s, c))
  {
    hide MixColumn;
  }

  /** Sections 5.1.3 and 5.3.3 of FIPS 197. */
  lemma MixColumnsAt(s: Block, r: nat, c: nat)
    requires r < 4
    ensures At(MixColumns(MIX, s), r, c) ==
            Add(Add(Mul(2, At(s, r, c)), Mul(3, At(s, r + 1, c))), Add(At(s, r + 2, c), At(s, r + 3, c)))
    ensures At(MixColumns(UNMIX, s), r, c) ==
            Add(Add(Mul(14, At(s, r, c)), Mul(11, At(s, r + 1, c))), Add(Mul(13, At(s, r + 2, c)), Mul(9, At(s, r + 3, c))))
  {
    hide ByteOf, MixColumn, MixColumns, Mul, Add, ColumnAt;
    MixedColumn(MIX, s, c);
    MixedColumn(UNMIX, s, c);
    MixColumnAt(MIX, ColumnAt(s, c), r);
    MixColumnAt(UNMIX, ColumnAt(s, c), r);
    SmallMultiples(At(s, r + 2, c));
    SmallMultiples(At(s, r + 3, c));
  }

  // ----- the ciphers

  /** Section 5.1 of FIPS 197: every octet after the first key. */
  lemma FirstKeyAt(ks: seq<Word>, s: Block, r: nat, c: nat)
    requires 4 <= |ks| && r < 4 && c < 4
    ensures At(Rounds(ks, 0, s), r, c) == Add(At(s, r, c), ByteOf(ks[c], r))
  {
    hide At, ByteOf, AddRoundKey, RoundKey, Add;
    AddRoundKeyAt(s, ks, 0, r, c);
  }

  /** The octet that SubBytes and ShiftRows leave in row `r` and column `c`. */
  ghost function Shifted(p: Block, r: nat, c: nat): Byte {
    Sub(At(p, r, c + r))
  }

  /** Every octet after a full round, from the octets before it. */
  lemma RoundsAt(ks: seq<Word>, n: nat, s: Block, r: nat, c: nat)
    requires n > 0 && 4 * n + 4 <= |ks| && r < 4 && c < 4
    ensures var p := Rounds(ks, n - 1, s);
            At(Rounds(ks, n, s), r, c) ==
            Add(Add(Add(Mul(2, Shifted(p, r, c)), Mul(3, Shifted(p, r + 1, c))), Add(Shifted(p, r + 2, c), Shifted(p, r + 3, c))),
                ByteOf(ks[4 * n + c], r))
  {
    hide At, ByteOf, AddRoundKey, RoundKey, MixColumns, ShiftRows, SubBytes, Shifted, Add, Mul;
    var p := Rounds(ks, n - 1, s);
    AddRoundKeyAt(MixColumns(MIX, ShiftRows(SubBytes(p))), ks, n, r, c);
    MixColumnsAt(ShiftRows(SubBytes(p)), r, c);
    ShiftedAt(p, r, c);
    ShiftedAt(p, r + 1, c);
    ShiftedAt(p, r + 2, c);
    ShiftedAt(p, r + 3, c);
  }

  lemma ShiftedAt(p: Block, r: nat, c: nat)
    requires c < 4
    ensures At(ShiftRows(SubBytes(p)), r, c) == Shifted(p, r, c)
  {
    hide At, ShiftRows, SubBytes, InvSubBytes, Sub, Unsub;
    ShiftRowsAt(SubBytes(p), r, c);
    SubBytesAt(p, r, c + r);
  }

  /** The closing round has no MixColumns. */
  lemma CipherAt(ks: seq<Word>, nr: nat, s: Block, r: nat, c: nat)
    requires nr >= 1 && 4 * nr + 4 <= |ks| && r < 4 && c < 4
    ensures At(Cipher(ks, nr, s), r, c) == Add(Shifted(Rounds(ks, nr - 1, s), r, c), ByteOf(ks[4 * nr + c], r))
  {
    hide At, ByteOf, AddRoundKey, RoundKey, MixColumns, ShiftRows, SubBytes, Add, Shifted, Rounds;
    var p := Rounds(ks, nr - 1, s);
    AddRoundKeyAt(ShiftRows(SubBytes(p)), ks, nr, r, c);
    ShiftedAt(p, r, c);
  }

  /** One octet of a round of `InvCipher` before InvMixColumns: row `r` comes from `r` columns back. */
  ghost function Unkeyed(ks: seq<Word>, n: nat, p: Block, r: nat, c: nat): Byte
    requires 4 * n + 4 <= |ks| && c < 4
  {
    Add(Unsub(At(p, r, c + 3 * r)), ByteOf(ks[4 * n + c], r % 4))
  }

  lemma UnkeyedAt(ks: seq<Word>, n: nat, p: Block, r: nat, c: nat)
    requires 4 * n + 4 <= |ks| && c < 4
    ensures At(AddRoundKey(InvSubBytes(InvShiftRows(p)), RoundKey(ks, n)), r, c) == Unkeyed(ks, n, p, r, c)
  {
    hide At, ByteOf, AddRoundKey, RoundKey, InvShiftRows, InvSubBytes, SubBytes, Add, Sub, Unsub;
    var t := InvSubBytes(InvShiftRows(p));
    AddRoundKeyAt(t, ks, n, r % 4, c);
    SubBytesAt(InvShiftRows(p), r, c);
    BackAt(p, r, c);
    SameOctet(AddRoundKey(t, RoundKey(ks, n)), r, c, r % 4, c);
    SameOctet(t, r, c, r % 4, c);
  }

  lemma BackAt(p: Block, r: nat, c: nat)
    requires c < 4
    ensures At(InvShiftRows(p), r, c) == At(p, r, c + 3 * r)
  {
    hide At, InvShiftRows;
    var d := (c + 3 * r) % 4;
    FourTimes(c, r);
    InvShiftRowsAt(p, r, d);
    SameOctet(InvShiftRows(p), r, d + r, r, c);
    SameOctet(p, r, d, r, c + 3 * r);
  }

  lemma FourTimes(c: nat, r: nat)
    ensures ((c + 3 * r) % 4 + r) % 4 == c % 4
  {
    assert c + 3 * r == 4 * ((c + 3 * r) / 4) + (c + 3 * r) % 4;
    assert ((c + 3 * r) % 4 + r) == c + 4 * (r - (c + 3 * r) / 4);
  }

  lemma SameOctet(s: Block, r: nat, c: nat, q: nat, d: nat)
    requires r % 4 == q % 4 && c % 4 == d % 4
    ensures At(s, r, c) == At(s, q, d)
  {
    hide ByteOf, ColumnAt;
    SameColumn(s, c, d);
  }

  /** Section 5.3 of FIPS 197: the same for `InvCipher`, which takes the round keys from the last. */
  lemma InvRoundsAt(ks: seq<Word>, nr: nat, n: nat, s: Block, r: nat, c: nat)
    requires 0 < n <= nr && 4 * nr + 4 <= |ks| && r < 4 && c < 4
    ensures At(InvRounds(ks, nr, 0, s), r, c) == Add(At(s, r, c), ByteOf(ks[4 * nr + c], r))
    ensures var p := InvRounds(ks, nr, n - 1, s);
            At(InvRounds(ks, nr, n, s), r, c) ==
            Add(Add(Mul(14, Unkeyed(ks, nr - n, p, r, c)), Mul(11, Unkeyed(ks, nr - n, p, r + 1, c))),
                Add(Mul(13, Unkeyed(ks, nr - n, p, r + 2, c)), Mul(9, Unkeyed(ks, nr - n, p, r + 3, c))))
  {
    hide At, ByteOf, AddRoundKey, RoundKey, MixColumns, InvShiftRows, InvSubBytes, Add, Mul, Unkeyed;
    AddRoundKeyAt(s, ks, nr, r, c);
    var p := InvRounds(ks, nr, n - 1, s);
    MixColumnsAt(AddRoundKey(InvSubBytes(InvShiftRows(p)), RoundKey(ks, nr - n)), r, c);
    UnkeyedAt(ks, nr - n, p, r, c);
    UnkeyedAt(ks, nr - n, p, r + 1, c);
    UnkeyedAt(ks, nr - n, p, r + 2, c);
    UnkeyedAt(ks, nr - n, p, r + 3, c);
  }

  lemma InvCipherAt(ks: seq<Word>, nr: nat, s: Block, r: nat, c: nat)
    requires nr >= 1 && 4 * nr + 4 <= |ks| && r < 4 && c < 4
    ensures At(InvCipher(ks, nr, s), r, c) == Unkeyed(ks, 0, InvRounds(ks, nr, nr - 1, s), r, c)
  {
    hide At, ByteOf, AddRoundKey, RoundKey, InvShiftRows, InvSubBytes, Unkeyed, InvRounds;
    UnkeyedAt(ks, 0, InvRounds(ks, nr, nr - 1, s), r, c);
  }

  // ----- the key schedule

  /** Section 5.2 of FIPS 197, octet `r` of word `i`, for a key of 4 words and more. */
  lemma KeyWordAt(key: seq<Word>, i: nat, r: nat)
    requires |key| >= 4 && i < 4 * (|key| + 7) && r < 4
    ensures i < |key| ==> KeyWord(key, i) == key[i]
    ensures i >= |key| ==>
              var nk, temp := |key|, KeyWord(key, i - 1);
              ByteOf(KeyWord(key, i), r) ==
              Add(ByteOf(KeyWord(key, i - nk), r),
                  if i % nk == 0 then
                    RoundConstantIndex(nk, i);
                    Add(Sub(ByteOf(temp, (r + 1) % 4)),
                        if r == 0 then [1, 2, 4, 8, 16, 32, 64, 128, 27, 54][i / nk - 1] else 0)
                  else if nk > 6 && i % nk == 4 then Sub(ByteOf(temp, r))
                  else ByteOf(temp, r))
  {
    hide ByteOf, Add, Sub, Xor, Transformed, Rcon;
    if i >= |key| {
      AtLeastOnce(|key|, i);
      BytesXorAsSums(KeyWord(key, i - |key|), Transformed(KeyWord(key, i - 1), |key|, i), r);
      hide KeyWord;
      TransformedAt(KeyWord(key, i - 1), |key|, i, r);
      RoundConstantIndex(|key|, i);
      RconAt(i / |key|, r);
    }
  }

  lemma TransformedAt(temp: Word, nk: nat, i: nat, r: nat)
    requires 4 <= nk <= i && i / nk >= 1 && r < 4
    ensures ByteOf(Transformed(temp, nk, i), r) ==
            if i % nk == 0 then
              Add(Sub(ByteOf(temp, (r + 1) % 4)), ByteOf(Rcon(i / nk), r))
            else if nk > 6 && i % nk == 4 then Sub(ByteOf(temp, r))
            else ByteOf(temp, r)
  {
    hide ByteOf, Add, Sub, Xor, SubWord, RotateBytes, Rcon;
    if i % nk == 0 {
      RotatedAt(temp, r);
      SubWordAt(RotateBytes(temp, 1), r);
      BytesXorAsSums(SubWord(RotateBytes(temp, 1)), Rcon(i / nk), r);
    } else if nk > 6 && i % nk == 4 {
      SubWordAt(temp, r);
    }
  }

  lemma RotatedAt(w: Word, r: nat)
    requires r < 4
    ensures ByteOf(RotateBytes(w, 1), r) == ByteOf(w, (r + 1) % 4)
  {
    hide ByteOf, RotateBytes;
    RotatedBytes1(w);
    if r == 0 {} else if r == 1 {} else if r == 2 {} else {}
  }

  lemma RconAt(j: nat, r: nat)
    requires 1 <= j <= 10 && r < 4
    ensures ByteOf(Rcon(j), r) == if r == 0 then [1, 2, 4, 8, 16, 32, 64, 128, 27, 54][j - 1] else 0
  {
    hide ByteOf, AtByte, Rcon;
    RoundConstants(j);
    AtByteBytes(H[j], 0);
    if r == 0 {} else if r == 1 {} else if r == 2 {} else {}
  }
}
