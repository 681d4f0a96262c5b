/**
 The block cipher of js/rollups/aes.js:33-35 against sections 5.1 to 5.3 of FIPS 197.
 */
module AesCipher {
  import opened WordArrays
  import opened Gf256
  import opened AesTables

  /** The four columns of the state. */
  datatype Block = Block(w0: Word, w1: Word, w2: Word, w3: Word)

  // ----- the transformations of FIPS 197

  function AddRoundKey(s: Block, k: Block): Block {
    Block(Xor(s.w0, k.w0), Xor(s.w1, k.w1), Xor(s.w2, k.w2), Xor(s.w3, k.w3))
  }

  ghost function SubWord(w: Word): Word {
    WordOf(Sub(ByteOf(w, 0)), Sub(ByteOf(w, 1)), Sub(ByteOf(w, 2)), Sub(ByteOf(w, 3)))
  }

  ghost function SubBytes(s: Block): Block {
    Block(SubWord(s.w0), SubWord(s.w1), SubWord(s.w2), SubWord(s.w3))
  }

  /** Section 5.3.2 of FIPS 197: the inverse affine map, then the multiplicative inverse. */
  ghost function Unsub(x: Byte): Byte {
    Inverse(Unaffine(x))
  }

  ghost function UnsubWord(w: Word): Word {
    WordOf(Unsub(ByteOf(w, 0)), Unsub(ByteOf(w, 1)), Unsub(ByteOf(w, 2)), Unsub(ByteOf(w, 3)))
  }

  ghost function InvSubBytes(s: Block): Block {
    Block(UnsubWord(s.w0), UnsubWord(s.w1), UnsubWord(s.w2), UnsubWord(s.w3))
  }

  /** Row `r` of a column comes from the word given for it. */
  function Diagonal(a: Word, b: Word, c: Word, d: Word): Word {
    WordOf(ByteOf(a, 0), ByteOf(b, 1), ByteOf(c, 2), ByteOf(d, 3))
  }

  function ShiftRows(s: Block): Block {
    Block(Diagonal(s.w0, s.w1, s.w2, s.w3), Diagonal(s.w1, s.w2, s.w3, s.w0),
          Diagonal(s.w2, s.w3, s.w0, s.w1), Diagonal(s.w3, s.w0, s.w1, s.w2))
  }

  function InvShiftRows(s: Block): Block {
    Block(Diagonal(s.w0, s.w3, s.w2, s.w1), Diagonal(s.w1, s.w0, s.w3, s.w2),
          Diagonal(s.w2, s.w1, s.w0, s.w3), Diagonal(s.w3, s.w2, s.w1, s.w0))
  }

  function MixColumns(r: Row, s: Block): Block {
    Block(MixColumn(r, s.w0), MixColumn(r, s.w1), MixColumn(r, s.w2), MixColumn(r, s.w3))
  }

  function RoundKey(ks: seq<Word>, r: nat): Block
    requires 4 * r + 4 <= |ks|
  {
    Block(ks[4 * r], ks[4 * r + 1], ks[4 * r + 2], ks[4 * r + 3])
  }

  /** The state of `Cipher` (section 5.1 of FIPS 197) after `r` full rounds. */
  ghost function Rounds(ks: seq<Word>, r: nat, s: Block): Block
    requires 4 * r + 4 <= |ks|
  {
    if r == 0 then AddRoundKey(s, RoundKey(ks, 0))
    else AddRoundKey(MixColumns(MIX, ShiftRows(SubBytes(Rounds(ks, r - 1, s)))), RoundKey(ks, r))
  }

  ghost function Cipher(ks: seq<Word>, nr: nat, s: Block): Block
    requires nr >= 1 && 4 * nr + 4 <= |ks|
  {
    AddRoundKey(ShiftRows(SubBytes(Rounds(ks, nr - 1, s))), RoundKey(ks, nr))
  }

  /** The state of `InvCipher` (section 5.3 of FIPS 197) after `r` full rounds. */
  ghost function InvRounds(ks: seq<Word>, nr: nat, r: nat, s: Block): Block
    requires r <= nr && 4 * nr + 4 <= |ks|
  {
    if r == 0 then AddRoundKey(s, RoundKey(ks, nr))
    else MixColumns(UNMIX, AddRoundKey(InvSubBytes(InvShiftRows(InvRounds(ks, nr, r - 1, s))), RoundKey(ks, nr - r)))
  }

  ghost function InvCipher(ks: seq<Word>, nr: nat, s: Block): Block
    requires nr >= 1 && 4 * nr + 4 <= |ks|
  {
    AddRoundKey(InvSubBytes(InvShiftRows(InvRounds(ks, nr, nr - 1, s))), RoundKey(ks, 0))
  }

  // ----- each transformation is undone

  lemma InverseSymmetric(x: Byte)
    ensures Inverse(Inverse(x)) == x
  {
    hide Mul, Times5N, Times82N;
    if x != 0 {
      var n := WalkCovers(x);
      var y := Inverse(x);
      WalkInverse(n, y);
      WalkActs(n, x);
      WalkCancels(1, n);
      WalkNotZero(n);
      InverseUnique(y, x);
    } else {
      InverseUnique(0, 0);
    }
  }

  lemma WalkNotZero(n: nat)
    ensures Times5N(1, n) != 0
  {
    hide Mul, Times5N, Times82N;
    WalkActs(n, Times82N(1, n));
    WalkCancels(1, n);
    MulZero(Times82N(1, n), 8);
    ZeroTimes(Times82N(1, n));
  }

  lemma ZeroTimes(b: Byte)
    ensures Mul(0, b) == 0
  {
    MulZero(b, 8);
  }

  lemma AffineInverts(b: Byte)
    ensures Affine(Unaffine(b)) == b
  {
  }

  lemma UnsubInverts(x: Byte)
    ensures Unsub(Sub(x)) == x && Sub(Unsub(x)) == x
  {
    hide Affine, Unaffine;
    UnaffineInverts(Inverse(x));
    AffineInverts(x);
    InverseSymmetric(x);
    InverseSymmetric(Unaffine(x));
  }

  lemma UnsubWordInverts(w: Word)
    ensures UnsubWord(SubWord(w)) == w
  {
    hide Sub, Unsub, ByteOf, WordOf;
    var b0, b1, b2, b3 := ByteOf(w, 0), ByteOf(w, 1), ByteOf(w, 2), ByteOf(w, 3);
    BytesOfWord(Sub(b0), Sub(b1), Sub(b2), Sub(b3));
    UnsubInverts(b0);
    UnsubInverts(b1);
    UnsubInverts(b2);
    UnsubInverts(b3);
    WordOfBytes(w);
  }

  lemma InvSubBytesInverts(s: Block)
    ensures InvSubBytes(SubBytes(s)) == s
  {
    hide SubWord, UnsubWord;
    UnsubWordInverts(s.w0);
    UnsubWordInverts(s.w1);
    UnsubWordInverts(s.w2);
    UnsubWordInverts(s.w3);
  }

  lemma DiagonalBytes(a: Word, b: Word, c: Word, d: Word)
    ensures var w := Diagonal(a, b, c, d);
            && ByteOf(w, 0) == ByteOf(a, 0) && ByteOf(w, 1) == ByteOf(b, 1)
            && ByteOf(w, 2) == ByteOf(c, 2) && ByteOf(w, 3) == ByteOf(d, 3)
  {
    hide ByteOf, WordOf;
    BytesOfWord(ByteOf(a, 0), ByteOf(b, 1), ByteOf(c, 2), ByteOf(d, 3));
  }

  lemma InvShiftRowsInverts(s: Block)
    ensures InvShiftRows(ShiftRows(s)) == s
  {
    hide ByteOf, WordOf;
    DiagonalBytes(s.w0, s.w1, s.w2, s.w3);
    DiagonalBytes(s.w1, s.w2, s.w3, s.w0);
    DiagonalBytes(s.w2, s.w3, s.w0, s.w1);
    DiagonalBytes(s.w3, s.w0, s.w1, s.w2);
    WordOfBytes(s.w0);
    WordOfBytes(s.w1);
    WordOfBytes(s.w2);
    WordOfBytes(s.w3);
  }

  lemma UnmixColumns(s: Block)
    ensures MixColumns(UNMIX, MixColumns(MIX, s)) == s
  {
    hide MixColumn;
    UnmixColumn(s.w0);
    UnmixColumn(s.w1);
    UnmixColumn(s.w2);
    UnmixColumn(s.w3);
  }

  lemma AddRoundKeyCancels(s: Block, k: Block)
    ensures AddRoundKey(AddRoundKey(s, k), k) == s
  {
    hide Xor;
    XorCancels(s.w0, k.w0);
    XorCancels(s.w1, k.w1);
    XorCancels(s.w2, k.w2);
    XorCancels(s.w3, k.w3);
  }

  /** Decryption retraces encryption round by round. */
  lemma {:induction false} InvRoundsRetrace(ks: seq<Word>, nr: nat, r: nat, s: Block)
    requires r < nr && 4 * nr + 4 <= |ks|
    ensures InvRounds(ks, nr, r, Cipher(ks, nr, s)) == ShiftRows(SubBytes(Rounds(ks, nr - 1 - r, s)))
    decreases r
  {
    hide SubBytes, ShiftRows, InvSubBytes, InvShiftRows, MixColumns, AddRoundKey;
    if r == 0 {
      AddRoundKeyCancels(ShiftRows(SubBytes(Rounds(ks, nr - 1, s))), RoundKey(ks, nr));
    } else {
      InvRoundsRetrace(ks, nr, r - 1, s);
      var t := Rounds(ks, nr - r, s);
      var u := ShiftRows(SubBytes(Rounds(ks, nr - r - 1, s)));
      InvShiftRowsInverts(SubBytes(t));
      InvSubBytesInverts(t);
      AddRoundKeyCancels(MixColumns(MIX, u), RoundKey(ks, nr - r));
      UnmixColumns(u);
    }
  }

  /** For any number of rounds and any round keys, the inverse cipher inverts the cipher. */
  lemma InvCipherInverts(ks: seq<Word>, nr: nat, s: Block)
    requires nr >= 1 && 4 * nr + 4 <= |ks|
    ensures InvCipher(ks, nr, Cipher(ks, nr, s)) == s
  {
    hide SubBytes, ShiftRows, InvSubBytes, InvShiftRows, MixColumns, AddRoundKey;
    InvRoundsRetrace(ks, nr, nr - 1, s);
    var t := Rounds(ks, 0, s);
    InvShiftRowsInverts(SubBytes(t));
    InvSubBytesInverts(t);
    AddRoundKeyCancels(s, RoundKey(ks, 0));
  }

  // ----- the equivalent inverse cipher, section 5.3.5 of FIPS 197

  /** InvMixColumns of an inner round key; the outer two are used as they are. */
  function InvRoundKey(ks: seq<Word>, nr: nat, r: nat): Block
    requires r <= nr && 4 * nr + 4 <= |ks|
  {
    if r == 0 || r == nr then RoundKey(ks, nr - r) else MixColumns(UNMIX, RoundKey(ks, nr - r))
  }

  ghost function EqRounds(ks: seq<Word>, nr: nat, r: nat, s: Block): Block
    requires r < nr && 4 * nr + 4 <= |ks|
  {
    if r == 0 then AddRoundKey(s, InvRoundKey(ks, nr, 0))
    else AddRoundKey(MixColumns(UNMIX, InvShiftRows(InvSubBytes(EqRounds(ks, nr, r - 1, s)))), InvRoundKey(ks, nr, r))
  }

  lemma InvStepsCommute(s: Block)
    ensures InvSubBytes(InvShiftRows(s)) == InvShiftRows(InvSubBytes(s))
  {
    hide ByteOf, WordOf, Unsub;
    DiagonalBytes(s.w0, s.w3, s.w2, s.w1);
    DiagonalBytes(s.w1, s.w0, s.w3, s.w2);
    DiagonalBytes(s.w2, s.w1, s.w0, s.w3);
    DiagonalBytes(s.w3, s.w2, s.w1, s.w0);
    UnsubWordBytes(s.w0);
    UnsubWordBytes(s.w1);
    UnsubWordBytes(s.w2);
    UnsubWordBytes(s.w3);
  }

  lemma UnsubWordBytes(w: Word)
    ensures ByteOf(UnsubWord(w), 0) == Unsub(ByteOf(w, 0)) && ByteOf(UnsubWord(w), 1) == Unsub(ByteOf(w, 1))
    ensures ByteOf(UnsubWord(w), 2) == Unsub(ByteOf(w, 2)) && ByteOf(UnsubWord(w), 3) == Unsub(ByteOf(w, 3))
  {
    hide ByteOf, WordOf, Unsub;
    BytesOfWord(Unsub(ByteOf(w, 0)), Unsub(ByteOf(w, 1)), Unsub(ByteOf(w, 2)), Unsub(ByteOf(w, 3)));
  }

  lemma MixColumnsAdds(r: Row, s: Block, k: Block)
    ensures MixColumns(r, AddRoundKey(s, k)) == AddRoundKey(MixColumns(r, s), MixColumns(r, k))
  {
    hide MixColumn, Xor;
    MixColumnAdds(r, s.w0, k.w0);
    MixColumnAdds(r, s.w1, k.w1);
    MixColumnAdds(r, s.w2, k.w2);
    MixColumnAdds(r, s.w3, k.w3);
  }

  lemma {:induction false} EqRoundsAreInvRounds(ks: seq<Word>, nr: nat, r: nat, s: Block)
    requires r < nr && 4 * nr + 4 <= |ks|
    ensures EqRounds(ks, nr, r, s) == InvRounds(ks, nr, r, s)
    decreases r
  {
    hide SubBytes, ShiftRows, InvSubBytes, InvShiftRows, MixColumns, AddRoundKey;
    if r > 0 {
      EqRoundsAreInvRounds(ks, nr, r - 1, s);
      var t := InvRounds(ks, nr, r - 1, s);
      InvStepsCommute(t);
      MixColumnsAdds(UNMIX, InvSubBytes(InvShiftRows(t)), RoundKey(ks, nr - r));
    }
  }

  // ----- the table-driven code

  /** `_doCryptBlock`'s arguments: four round tables and a substitution table. */
  datatype Side = Side(t0: seq<Word>, t1: seq<Word>, t2: seq<Word>, t3: seq<Word>, sub: seq<Byte>)
  {
    predicate Sized() {
      |t0| == |t1| == |t2| == |t3| == |sub| == 256
    }

    /** One word of a round: `d[g >>> 24] ^ e[h >>> 16 & 255] ^ j[k >>> 8 & 255] ^ l[n & 255] ^ c[p]` */
    function Column(g: Word, h: Word, k: Word, n: Word, key: Word): Word
      requires Sized()
    {
      Xor(Xor(Xor(Xor(t0[Index(ByteOf(g, 0))], t1[Index(ByteOf(h, 1))]), t2[Index(ByteOf(k, 2))]), t3[Index(ByteOf(n, 3))]), key)
    }

    function Round(s: Block, k: Block): Block
      requires Sized()
    {
      Block(Column(s.w0, s.w1, s.w2, s.w3, k.w0), Column(s.w1, s.w2, s.w3, s.w0, k.w1),
            Column(s.w2, s.w3, s.w0, s.w1, k.w2), Column(s.w3, s.w0, s.w1, s.w2, k.w3))
    }

    /** `(f[g >>> 24] << 24 | f[h >>> 16 & 255] << 16 | f[k >>> 8 & 255] << 8 | f[n & 255]) ^ c[p]` */
    function LastColumn(g: Word, h: Word, k: Word, n: Word, key: Word): Word
      requires Sized()
    {
      Xor(WordOf(sub[Index(ByteOf(g, 0))], sub[Index(ByteOf(h, 1))], sub[Index(ByteOf(k, 2))], sub[Index(ByteOf(n, 3))]), key)
    }

    function LastRound(s: Block, k: Block): Block
      requires Sized()
    {
      Block(LastColumn(s.w0, s.w1, s.w2, s.w3, k.w0), LastColumn(s.w1, s.w2, s.w3, s.w0, k.w1),
            LastColumn(s.w2, s.w3, s.w0, s.w1, k.w2), LastColumn(s.w3, s.w0, s.w1, s.w2, k.w3))
    }

    /** The words g, h, k, n after `r` passes of the round loop. */
    function After(ks: seq<Word>, r: nat, s: Block): Block
      requires Sized() && 4 * r + 4 <= |ks|
    {
      if r == 0 then AddRoundKey(s, RoundKey(ks, 0)) else Round(After(ks, r - 1, s), RoundKey(ks, r))
    }

    function Crypt(ks: seq<Word>, nr: nat, s: Block): Block
      requires Sized() && nr >= 1 && 4 * nr + 4 <= |ks|
    {
      LastRound(After(ks, nr - 1, s), RoundKey(ks, nr))
    }
  }

  function EncSide(t: Tables): Side {
    Side(t.enc0, t.enc1, t.enc2, t.enc3, t.sub)
  }

  function DecSide(t: Tables): Side {
    Side(t.dec0, t.dec1, t.dec2, t.dec3, t.unsub)
  }

  lemma EncEntries(t: Tables, x: Byte)
    requires t.Correct()
    ensures t.Sized() && t.EncAt(Index(x), Sub(x))
  {
    hide Sub, TableWord, Index;
    assert t.CorrectAt(x);
  }

  lemma DecEntries(t: Tables, x: Byte)
    requires t.Correct()
    ensures t.Sized() && t.DecAt(Index(x), Unsub(x))
  {
    hide Sub, Unsub, TableWord, Index;
    UnsubInverts(x);
    assert t.CorrectAt(Unsub(x));
  }

  lemma EncColumn(t: Tables, g: Word, h: Word, k: Word, n: Word, key: Word)
    requires t.Correct()
    ensures EncSide(t).Column(g, h, k, n, key) == Xor(MixColumn(MIX, SubWord(Diagonal(g, h, k, n))), key)
    ensures EncSide(t).LastColumn(g, h, k, n, key) == Xor(SubWord(Diagonal(g, h, k, n)), key)
  {
    hide Sub, TableWord, Index, ByteOf, WordOf, Xor, MixColumn, Diagonal, Tables.Correct;
    TablesSized(t);
    var b0, b1, b2, b3 := ByteOf(g, 0), ByteOf(h, 1), ByteOf(k, 2), ByteOf(n, 3);
    EncEntries(t, b0);
    EncEntries(t, b1);
    EncEntries(t, b2);
    EncEntries(t, b3);
    DiagonalBytes(g, h, k, n);
    TablesMix(MIX, Sub(b0), Sub(b1), Sub(b2), Sub(b3));
  }

  lemma DecColumn(t: Tables, g: Word, h: Word, k: Word, n: Word, key: Word)
    requires t.Correct()
    ensures DecSide(t).Column(g, h, k, n, key) == Xor(MixColumn(UNMIX, UnsubWord(Diagonal(g, h, k, n))), key)
    ensures DecSide(t).LastColumn(g, h, k, n, key) == Xor(UnsubWord(Diagonal(g, h, k, n)), key)
  {
    hide Sub, Unsub, TableWord, Index, ByteOf, WordOf, Xor, MixColumn, Diagonal, Tables.Correct;
    TablesSized(t);
    var b0, b1, b2, b3 := ByteOf(g, 0), ByteOf(h, 1), ByteOf(k, 2), ByteOf(n, 3);
    DecEntries(t, b0);
    DecEntries(t, b1);
    DecEntries(t, b2);
    DecEntries(t, b3);
    DiagonalBytes(g, h, k, n);
    TablesMix(UNMIX, Unsub(b0), Unsub(b1), Unsub(b2), Unsub(b3));
  }

  lemma TablesSized(t: Tables)
    requires t.Correct()
    ensures t.Sized() && EncSide(t).Sized() && DecSide(t).Sized()
  {
  }

  lemma SubShiftCommute(a: Word, b: Word, c: Word, d: Word)
    ensures SubWord(Diagonal(a, b, c, d)) == Diagonal(SubWord(a), SubWord(b), SubWord(c), SubWord(d))
    ensures UnsubWord(Diagonal(a, b, c, d)) == Diagonal(UnsubWord(a), UnsubWord(b), UnsubWord(c), UnsubWord(d))
  {
    hide ByteOf, WordOf, Sub, Unsub;
    DiagonalBytes(a, b, c, d);
    SubWordBytes(a);
    SubWordBytes(b);
    SubWordBytes(c);
    SubWordBytes(d);
    UnsubWordBytes(a);
    UnsubWordBytes(b);
    UnsubWordBytes(c);
    UnsubWordBytes(d);
  }

  lemma SubWordBytes(w: Word)
    ensures ByteOf(SubWord(w), 0) == Sub(ByteOf(w, 0)) && ByteOf(SubWord(w), 1) == Sub(ByteOf(w, 1))
    ensures ByteOf(SubWord(w), 2) == Sub(ByteOf(w, 2)) && ByteOf(SubWord(w), 3) == Sub(ByteOf(w, 3))
  {
    hide ByteOf, WordOf, Sub;
    BytesOfWord(Sub(ByteOf(w, 0)), Sub(ByteOf(w, 1)), Sub(ByteOf(w, 2)), Sub(ByteOf(w, 3)));
  }

  lemma EncRound(t: Tables, s: Block, k: Block)
    requires t.Correct()
    ensures t.Sized() && EncSide(t).Round(s, k) == AddRoundKey(MixColumns(MIX, ShiftRows(SubBytes(s))), k)
    ensures EncSide(t).LastRound(s, k) == AddRoundKey(ShiftRows(SubBytes(s)), k)
  {
    hide Xor, MixColumn, Diagonal, SubWord, Tables.Correct, Side.Column, Side.LastColumn;
    TablesSized(t);
    EncColumn(t, s.w0, s.w1, s.w2, s.w3, k.w0);
    EncColumn(t, s.w1, s.w2, s.w3, s.w0, k.w1);
    EncColumn(t, s.w2, s.w3, s.w0, s.w1, k.w2);
    EncColumn(t, s.w3, s.w0, s.w1, s.w2, k.w3);
    SubShiftCommute(s.w0, s.w1, s.w2, s.w3);
    SubShiftCommute(s.w1, s.w2, s.w3, s.w0);
    SubShiftCommute(s.w2, s.w3, s.w0, s.w1);
    SubShiftCommute(s.w3, s.w0, s.w1, s.w2);
  }

  /** The exchange of words 1 and 3 at both ends of `decryptBlock`. */
  function Swap(s: Block): Block {
    Block(s.w0, s.w3, s.w2, s.w1)
  }

  /** On exchanged words the code's one row shift shifts the other way. */
  lemma DecRound(t: Tables, s: Block, k: Block)
    requires t.Correct()
    ensures t.Sized() && Swap(DecSide(t).Round(Swap(s), Swap(k))) == AddRoundKey(MixColumns(UNMIX, InvShiftRows(InvSubBytes(s))), k)
    ensures Swap(DecSide(t).LastRound(Swap(s), Swap(k))) == AddRoundKey(InvShiftRows(InvSubBytes(s)), k)
  {
    hide Xor, MixColumn, Diagonal, UnsubWord, Tables.Correct, Side.Column, Side.LastColumn;
    TablesSized(t);
    DecColumn(t, s.w0, s.w3, s.w2, s.w1, k.w0);
    DecColumn(t, s.w1, s.w0, s.w3, s.w2, k.w1);
    DecColumn(t, s.w2, s.w1, s.w0, s.w3, k.w2);
    DecColumn(t, s.w3, s.w2, s.w1, s.w0, k.w3);
    SubShiftCommute(s.w0, s.w3, s.w2, s.w1);
    SubShiftCommute(s.w1, s.w0, s.w3, s.w2);
    SubShiftCommute(s.w2, s.w1, s.w0, s.w3);
    SubShiftCommute(s.w3, s.w2, s.w1, s.w0);
  }

  lemma {:induction false} EncAfter(t: Tables, ks: seq<Word>, r: nat, s: Block)
    requires t.Correct() && 4 * r + 4 <= |ks|
    ensures t.Sized() && EncSide(t).After(ks, r, s) == Rounds(ks, r, s)
    decreases r
  {
    hide SubBytes, ShiftRows, MixColumns, AddRoundKey, Tables.Correct, Side.Round, EncSide;
    TablesSized(t);
    if r > 0 {
      EncAfter(t, ks, r - 1, s);
      EncRound(t, Rounds(ks, r - 1, s), RoundKey(ks, r));
    }
  }

  /** The table-driven form is the cipher of FIPS 197. */
  lemma EncCrypt(t: Tables, ks: seq<Word>, nr: nat, s: Block)
    requires t.Correct() && nr >= 1 && 4 * nr + 4 <= |ks|
    ensures t.Sized() && EncSide(t).Crypt(ks, nr, s) == Cipher(ks, nr, s)
  {
    hide SubBytes, ShiftRows, MixColumns, AddRoundKey, Tables.Correct, EncSide, Side.LastRound;
    TablesSized(t);
    EncAfter(t, ks, nr - 1, s);
    EncRound(t, Rounds(ks, nr - 1, s), RoundKey(ks, nr));
  }

  /** `_invKeySchedule`: the round keys in reverse, words 1 and 3 exchanged, the inner ones through InvMixColumns. */
  ghost predicate IsInvSchedule(inv: seq<Word>, ks: seq<Word>, nr: nat)
    requires 4 * nr + 4 <= |ks|
  {
    |inv| == 4 * nr + 4 && forall r: nat :: r <= nr ==> RoundKey(inv, r) == Swap(InvRoundKey(ks, nr, r))
  }

  lemma SwapTwice(s: Block, k: Block)
    ensures Swap(Swap(s)) == s
    ensures Swap(AddRoundKey(s, k)) == AddRoundKey(Swap(s), Swap(k))
  {
  }

  lemma {:induction false} DecAfter(t: Tables, ks: seq<Word>, inv: seq<Word>, nr: nat, r: nat, s: Block)
    requires t.Correct() && r < nr && 4 * nr + 4 <= |ks| && IsInvSchedule(inv, ks, nr)
    ensures t.Sized() && Swap(DecSide(t).After(inv, r, Swap(s))) == EqRounds(ks, nr, r, s)
    decreases r
  {
    hide InvSubBytes, InvShiftRows, MixColumns, AddRoundKey, Swap, Tables.Correct, Side.Round, DecSide, InvRoundKey;
    TablesSized(t);
    assert RoundKey(inv, r) == Swap(InvRoundKey(ks, nr, r));
    SwapTwice(s, InvRoundKey(ks, nr, r));
    SwapTwice(AddRoundKey(s, InvRoundKey(ks, nr, r)), s);
    if r > 0 {
      DecAfter(t, ks, inv, nr, r - 1, s);
      var u := EqRounds(ks, nr, r - 1, s);
      SwapTwice(DecSide(t).After(inv, r - 1, Swap(s)), s);
      DecRound(t, u, InvRoundKey(ks, nr, r));
    }
  }

  /** The table-driven form between the two exchanges is the inverse cipher of FIPS 197. */
  lemma DecCrypt(t: Tables, ks: seq<Word>, inv: seq<Word>, nr: nat, s: Block)
    requires t.Correct() && nr >= 1 && 4 * nr + 4 <= |ks| && IsInvSchedule(inv, ks, nr)
    ensures t.Sized() && Swap(DecSide(t).Crypt(inv, nr, Swap(s))) == InvCipher(ks, nr, s)
  {
    hide InvSubBytes, InvShiftRows, MixColumns, AddRoundKey, Swap, Tables.Correct, Side.LastRound, DecSide,
      InvRoundKey, Side.After;
    TablesSized(t);
    assert RoundKey(inv, nr) == Swap(InvRoundKey(ks, nr, nr));
    LastInvRoundKey(ks, nr);
    DecAfter(t, ks, inv, nr, nr - 1, s);
    EqRoundsAreInvRounds(ks, nr, nr - 1, s);
    var u := InvRounds(ks, nr, nr - 1, s);
    SwapTwice(DecSide(t).After(inv, nr - 1, Swap(s)), s);
    DecRound(t, u, RoundKey(ks, 0));
    InvStepsCommute(u);
  }

  lemma LastInvRoundKey(ks: seq<Word>, nr: nat)
    requires 4 * nr + 4 <= |ks|
    ensures InvRoundKey(ks, nr, nr) == RoundKey(ks, 0)
  {
  }
}
