/**
 The AES object: key schedules (js/rollups/aes.js:33-34) and the two block methods, which work in place on an array
 of words (js/rollups/aes.js:34-35).
 */
module AesObject {
  import Arithmetic
  import opened WordArrays
  import opened BufferedBlocks
  import opened Gf256
  import opened AesTables
  import opened AesCipher

  // ----- key expansion, section 5.2 of FIPS 197

  /** `H`, js/rollups/aes.js:32-33 */
  const H: seq<Byte> := [0, 1, 2, 4, 8, 16, 32, 64, 128, 27, 54]

  /** The round constants: powers of 2 in the field, in the first byte. */
  function Rcon(j: nat): Word
    requires j >= 1
  {
    AtByte(XtimeN(1, j - 1), 0)
  }

  lemma RoundConstants(j: nat)
    requires 1 <= j <= 10
    ensures AtByte(H[j], 0) == Rcon(j)
  {
    assert XtimeN(1, 0) == 1 && XtimeN(1, 1) == 2 && XtimeN(1, 2) == 4 && XtimeN(1, 3) == 8 && XtimeN(1, 4) == 16;
    assert XtimeN(1, 5) == 32 && XtimeN(1, 6) == 64 && XtimeN(1, 7) == 128 && XtimeN(1, 8) == 27 && XtimeN(1, 9) == 54;
    hide XtimeN, AtByte;
  }

  /** What is done to the word before word `i` of an expansion with `nk` key words. */
  ghost function Transformed(temp: Word, nk: nat, i: nat): Word
    requires 0 < nk <= i && i / nk >= 1
  {
    if i % nk == 0 then Xor(SubWord(RotateBytes(temp, 1)), Rcon(i / nk))
    else if nk > 6 && i % nk == 4 then SubWord(temp)
    else temp
  }

  ghost function KeyWord(key: seq<Word>, i: nat): Word
    requires |key| >= 4
    decreases i
  {
    var nk := |key|;
    if i < nk then key[i] else
    AtLeastOnce(nk, i);
    Xor(KeyWord(key, i - nk), Transformed(KeyWord(key, i - 1), nk, i))
  }

  lemma AtLeastOnce(nk: nat, i: nat)
    requires 0 < nk <= i
    ensures i / nk >= 1
  {
    Arithmetic.QuotientMonotone(nk, i, nk);
  }

  ghost function KeyExpansion(key: seq<Word>, n: nat): (ks: seq<Word>)
    requires |key| >= 4
    ensures |ks| == n && forall i: nat :: i < n ==> ks[i] == KeyWord(key, i)
  {
    seq(n, i requires 0 <= i => KeyWord(key, i))
  }

  /** The round constant list is long enough for every key of at least four words. */
  lemma RoundConstantIndex(nk: nat, i: nat)
    requires 4 <= nk <= i < 4 * (nk + 7)
    ensures 1 <= i / nk <= 10
  {
    var q := i / nk;
    assert i == q * nk + i % nk;
    Arithmetic.MulMonotone(11, q, nk);
    Arithmetic.MulMonotone(q, 0, nk);
  }

  /** The round constant as the code reads it: past the end of its list there is nothing. */
  function CodeConstant(j: nat): Word {
    AtByte(ByteOr0(H, j), 0)
  }

  /** It adds nothing in the first place of the list, for a key of no words, and past its end. */
  lemma NoConstant(j: nat)
    requires j == 0 || j > 10
    ensures CodeConstant(j) == 0
  {
  }

  /** What the code does to the word before word `i`, for a key of any number of words. */
  ghost function CodeTransformed(temp: Word, nk: nat, i: nat): Word {
    if nk == 0 then Xor(SubWord(RotateBytes(temp, 1)), CodeConstant(0))
    else if i % nk == 0 then Xor(SubWord(RotateBytes(temp, 1)), CodeConstant(i / nk))
    else if nk > 6 && i % nk == 4 then SubWord(temp)
    else temp
  }

  ghost function CodeKeyWord(key: seq<Word>, i: nat): Word {
    var nk := |key|;
    if i < nk then key[i] else
    Xor(if nk == 0 then 0 else CodeKeyWord(key, i - nk),
      CodeTransformed(if i == 0 then 0 else CodeKeyWord(key, i - 1), nk, i))
  }

  lemma NextCodeWord(key: seq<Word>, e: seq<Word>, i: nat)
    requires |e| == i && forall m: nat :: m < i ==> e[m] == CodeKeyWord(key, m)
    ensures CodeKeyWord(key, i) ==
            if i < |key| then key[i]
            else Xor(Get(e, i - |key|), CodeTransformed(if i == 0 then 0 else e[i - 1], |key|, i))
  {
    hide Xor, CodeTransformed;
  }

  /** The code's expansion of a key of any number of words. */
  ghost function CodeExpansion(key: seq<Word>, n: nat): (ks: seq<Word>)
    ensures |ks| == n && forall i: nat :: i < n ==> ks[i] == CodeKeyWord(key, i)
  {
    seq(n, i requires 0 <= i => CodeKeyWord(key, i))
  }

  lemma TransformedAlike(temp: Word, nk: nat, i: nat)
    requires 4 <= nk <= i < 4 * (nk + 7)
    ensures i / nk >= 1 && CodeTransformed(temp, nk, i) == Transformed(temp, nk, i)
  {
    hide Rcon, AtByte, SubWord, RotateBytes, Xor;
    RoundConstantIndex(nk, i);
    RoundConstants(i / nk);
  }

  lemma {:induction false} KeyWordsAlike(key: seq<Word>, i: nat)
    requires |key| >= 4 && i < 4 * (|key| + 7)
    ensures CodeKeyWord(key, i) == KeyWord(key, i)
    decreases i
  {
    hide CodeTransformed, Transformed, Xor;
    if i >= |key| {
      KeyWordsAlike(key, i - |key|);
      KeyWordsAlike(key, i - 1);
      TransformedAlike(KeyWord(key, i - 1), |key|, i);
    }
  }

  /** For every key of four words and more the code's expansion is that of section 5.2 of FIPS 197. */
  lemma ExpansionIsStandard(key: seq<Word>)
    requires |key| >= 4
    ensures var n := 4 * (|key| + 7);
            CodeExpansion(key, n) == KeyExpansion(key, n)
  {
    hide CodeKeyWord, KeyWord;
    forall i: nat | i < 4 * (|key| + 7)
      ensures CodeKeyWord(key, i) == KeyWord(key, i)
    {
      KeyWordsAlike(key, i);
    }
  }

  // ----- the schedule for decryption

  /** `_invKeySchedule[d]` for a schedule of `a` words. */
  function InvKeyWord(ks: seq<Word>, d: nat): Word
    requires d < |ks| && |ks| % 4 == 0
  {
    var j := |ks| - d;
    var k := if d % 4 != 0 then ks[j] else ks[j - 4];
    if 4 > d || 4 >= j then k else MixColumn(UNMIX, k)
  }

  lemma InvSchedule(inv: seq<Word>, ks: seq<Word>, nr: nat)
    requires |ks| == |inv| == 4 * nr + 4
    requires forall d: nat :: d < |ks| ==> inv[d] == InvKeyWord(ks, d)
    ensures IsInvSchedule(inv, ks, nr)
  {
    hide MixColumn;
    forall r: nat | r <= nr
      ensures RoundKey(inv, r) == Swap(InvRoundKey(ks, nr, r))
    {
      assert inv[4 * r] == InvKeyWord(ks, 4 * r);
      assert inv[4 * r + 1] == InvKeyWord(ks, 4 * r + 1);
      assert inv[4 * r + 2] == InvKeyWord(ks, 4 * r + 2);
      assert inv[4 * r + 3] == InvKeyWord(ks, 4 * r + 3);
    }
  }

  // ----- the object

  function BlockOf(ws: seq<Word>): Block
    requires |ws| == 4
  {
    Block(ws[0], ws[1], ws[2], ws[3])
  }

  function WordsOf(b: Block): (ws: seq<Word>)
    ensures |ws| == 4 && BlockOf(ws) == b
  {
    [b.w0, b.w1, b.w2, b.w3]
  }

  /** The four words at `b` may have changed; past the end the array has grown up to them. */
  ghost predicate OnlyBlock(before: seq<Word>, after: seq<Word>, b: nat) {
    && |after| == (if b + 4 <= |before| then |before| else b + 4)
    && forall i: nat :: i < b || b + 4 <= i ==> Get(after, i) == Get(before, i)
  }

  /** The same half-way, with some of the four words still to be written. */
  ghost predicate WithinBlock(before: seq<Word>, after: seq<Word>, b: nat) {
    && |before| <= |after| && (|after| <= |before| || |after| <= b + 4)
    && forall i: nat :: i < b || b + 4 <= i ==> Get(after, i) == Get(before, i)
  }

  lemma GetPut(ws: seq<Word>, i: nat, w: Word)
    ensures forall j: nat :: Get(Put(ws, i, w), j) == if j == i then w else Get(ws, j)
    ensures |Put(ws, i, w)| == if i < |ws| then |ws| else i + 1
  {
  }

  lemma PutWithin(before: seq<Word>, after: seq<Word>, b: nat, k: nat, w: Word)
    requires WithinBlock(before, after, b) && k < 4
    ensures WithinBlock(before, Put(after, b + k, w), b)
    ensures BlockAt(Put(after, b + k, w), b, 4) == BlockAt(after, b, 4)[k := w]
    ensures k == 3 ==> OnlyBlock(before, Put(after, b + k, w), b)
  {
    GetPut(after, b + k, w);
    hide Put, Get;
  }

  /** Four words written one after the other. */
  lemma PutBlock(before: seq<Word>, ws: seq<Word>, b: nat, r: seq<Word>)
    requires WithinBlock(before, ws, b) && |r| == 4
    ensures var after := Put(Put(Put(Put(ws, b, r[0]), b + 1, r[1]), b + 2, r[2]), b + 3, r[3]);
            OnlyBlock(before, after, b) && BlockAt(after, b, 4) == r
  {
    hide Put, WithinBlock, OnlyBlock, BlockAt;
    PutWithin(before, ws, b, 0, r[0]);
    PutWithin(before, Put(ws, b, r[0]), b, 1, r[1]);
    PutWithin(before, Put(Put(ws, b, r[0]), b + 1, r[1]), b, 2, r[2]);
    PutWithin(before, Put(Put(Put(ws, b, r[0]), b + 1, r[1]), b + 2, r[2]), b, 3, r[3]);
  }

  /** The second and the fourth word exchanged. */
  lemma SwapBlock(before: seq<Word>, ws: seq<Word>, b: nat)
    requires WithinBlock(before, ws, b)
    ensures var after := Put(Put(ws, b + 1, Get(ws, b + 3)), b + 3, Get(ws, b + 1));
            && WithinBlock(before, after, b) && OnlyBlock(before, after, b)
            && BlockOf(BlockAt(after, b, 4)) == Swap(BlockOf(BlockAt(ws, b, 4)))
            && BlockAt(after, b, 4) == WordsOf(Swap(BlockOf(BlockAt(ws, b, 4))))
  {
    hide Put, WithinBlock, OnlyBlock;
    PutWithin(before, ws, b, 1, Get(ws, b + 3));
    PutWithin(before, Put(ws, b + 1, Get(ws, b + 3)), b, 3, Get(ws, b + 1));
    hide Get;
    var v := BlockAt(ws, b, 4);
    assert v[1] == Get(ws, b + 1) && v[3] == Get(ws, b + 3);
    SwappedWords(v, v[1 := v[3]][3 := v[1]]);
  }

  lemma NothingWritten(ws: seq<Word>, b: nat)
    ensures WithinBlock(ws, ws, b)
  {
  }

  /** One block rewritten after another at the same place. */
  lemma ThenWithin(before: seq<Word>, mid: seq<Word>, after: seq<Word>, b: nat)
    requires WithinBlock(before, mid, b) && OnlyBlock(mid, after, b)
    ensures WithinBlock(before, after, b) && OnlyBlock(before, after, b)
  {
  }

  lemma SwappedWords(v: seq<Word>, w: seq<Word>)
    requires |v| == |w| == 4 && w == [v[0], v[3], v[2], v[1]]
    ensures BlockOf(w) == Swap(BlockOf(v)) && w == WordsOf(Swap(BlockOf(v)))
  {
  }

  class AES {
    const tables: Tables
    var nRounds: nat
    var keySchedule: seq<Word>
    var invKeySchedule: seq<Word>

    ghost predicate Valid()
      reads this
    {
      && tables.Correct()
      && nRounds >= 1 && |keySchedule| == |invKeySchedule| == 4 * nRounds + 4
      && IsInvSchedule(invKeySchedule, keySchedule, nRounds)
    }

    /** `_doReset`, for a key of any number of whole words. */
    constructor (tables: Tables, key: WordArray)
      requires tables.Correct()
      requires key.sigBytes % 4 == 0
      ensures Valid() && this.tables == tables
      ensures nRounds == key.sigBytes / 4 + 6
      ensures keySchedule == CodeExpansion(Resize(key.words, key.sigBytes / 4), 4 * (nRounds + 1))
      ensures key.sigBytes >= 16 ==> keySchedule == KeyExpansion(Resize(key.words, key.sigBytes / 4), 4 * (nRounds + 1))
    {
      hide IsInvSchedule, CodeKeyWord, KeyWord;
      this.tables := tables;
      var d := key.sigBytes / 4;
      nRounds := d + 6;
      var e := ForwardSchedule(tables, Resize(key.words, d));
      var c := InverseSchedule(tables, e);
      keySchedule, invKeySchedule := e, c;
      InvSchedule(c, e, d + 6);
      if d >= 4 {
        ExpansionIsStandard(Resize(key.words, d));
      }
    }

    /** `l[k >>> 24] << 24 | l[k >>> 16 & 255] << 16 | l[k >>> 8 & 255] << 8 | l[k & 255]` */
    static method SubstituteWord(tables: Tables, k: Word) returns (w: Word)
      requires tables.Correct()
      ensures w == SubWord(k)
    {
      hide Sub, Index, ByteOf, WordOf, SubWord, Tables.Correct;
      TablesSized(tables);
      var l := tables.sub;
      SubstitutedWord(tables, k);
      w := WordOf(l[Index(ByteOf(k, 0))], l[Index(ByteOf(k, 1))], l[Index(ByteOf(k, 2))], l[Index(ByteOf(k, 3))]);
    }

    /** The branches of the first loop of `_doReset`; a remainder by 0 is NaN, which counts as no remainder, and `NaN | 0` is 0. */
    static method Transform(tables: Tables, temp: Word, d: nat, j: nat) returns (k: Word)
      requires tables.Correct()
      ensures k == CodeTransformed(temp, d, j)
    {
      hide SubWord, AtByte, Xor, RotateBytes, Tables.Correct;
      k := temp;
      if d != 0 && j % d != 0 {
        if 6 < d && 4 == j % d {
          k := SubstituteWord(tables, k);
        }
      } else {
        k := RotateBytes(k, 1);
        k := SubstituteWord(tables, k);
        k := Xor(k, AtByte(ByteOr0(H, if d == 0 then 0 else j / d), 0));
      }
    }

    /** The first loop of `_doReset`; the words before the first and after the last count as 0. */
    static method ForwardSchedule(tables: Tables, words: seq<Word>) returns (e: seq<Word>)
      requires tables.Correct()
      ensures e == CodeExpansion(words, 4 * (|words| + 7))
    {
      hide Xor, CodeTransformed, CodeKeyWord, Tables.Correct;
      var d := |words|;
      var a := 4 * (d + 7);
      e := [];
      for j := 0 to a
        invariant |e| == j
        invariant forall i: nat :: i < j ==> e[i] == CodeKeyWord(words, i)
      {
        NextCodeWord(words, e, j);
        if j < d {
          e := e + [words[j]];
        } else {
          var k := Transform(tables, if j == 0 then 0 else e[j - 1], d, j);
          e := e + [Xor(Get(e, j - d), k)];
        }
      }
    }

    /** The second loop of `_doReset`. */
    static method InverseSchedule(tables: Tables, e: seq<Word>) returns (c: seq<Word>)
      requires tables.Correct() && |e| % 4 == 0
      ensures |c| == |e| && forall d: nat :: d < |e| ==> c[d] == InvKeyWord(e, d)
    {
      hide Index, ByteOf, Xor, MixColumn, Tables.Correct;
      TablesSized(tables);
      var l, a := tables.sub, |e|;
      c := [];
      for d := 0 to a
        invariant |c| == d
        invariant forall m: nat :: m < d ==> c[m] == InvKeyWord(e, m)
      {
        var j := a - d;
        var k := if d % 4 != 0 then e[j] else e[j - 4];
        if 4 > d || 4 >= j {
          c := c + [k];
        } else {
          UnmixedWord(tables, k);
          c := c + [Xor(Xor(Xor(tables.dec0[Index(l[Index(ByteOf(k, 0))])], tables.dec1[Index(l[Index(ByteOf(k, 1))])]),
                            tables.dec2[Index(l[Index(ByteOf(k, 2))])]), tables.dec3[Index(l[Index(ByteOf(k, 3))])])];
        }
      }
    }

    /** `encryptBlock`: the cipher of FIPS 197 on four words, in place; past the end of the array words read as 0. */
    method EncryptBlock(m: WordArray, b: nat)
      requires Valid()
      modifies m`words
      ensures Valid() && OnlyBlock(old(m.words), m.words, b)
      ensures BlockAt(m.words, b, 4) == WordsOf(Cipher(keySchedule, nRounds, BlockOf(old(BlockAt(m.words, b, 4)))))
    {
      hide Tables.Correct, Cipher, IsInvSchedule, EncSide, BlockAt, OnlyBlock;
      TablesSized(tables);
      EncCrypt(tables, keySchedule, nRounds, BlockOf(BlockAt(m.words, b, 4)));
      DoCryptBlock(m, b, keySchedule, EncSide(tables));
    }

    /** `decryptBlock`: the inverse cipher of FIPS 197 on four words, in place. */
    method DecryptBlock(m: WordArray, b: nat)
      requires Valid()
      modifies m`words
      ensures Valid() && OnlyBlock(old(m.words), m.words, b)
      ensures BlockAt(m.words, b, 4) == WordsOf(InvCipher(keySchedule, nRounds, BlockOf(old(BlockAt(m.words, b, 4)))))
    {
      hide AES.Valid, InvCipher, DecSide, Side.Crypt, Side.Sized, BlockOf, WordsOf, OnlyBlock, WithinBlock, BlockAt, Put,
        Get, Swap;
      DecryptContract();
      ghost var before := m.words;
      NothingWritten(before, b);
      SwapBlock(before, m.words, b);
      var d := Get(m.words, b + 1);
      m.words := Put(m.words, b + 1, Get(m.words, b + 3));
      m.words := Put(m.words, b + 3, d);
      ghost var swapped := m.words;
      DoCryptBlock(m, b, invKeySchedule, DecSide(tables));
      ThenWithin(before, swapped, m.words, b);
      SwapBlock(before, m.words, b);
      d := Get(m.words, b + 1);
      m.words := Put(m.words, b + 1, Get(m.words, b + 3));
      m.words := Put(m.words, b + 3, d);
    }

    lemma DecryptContract()
      requires Valid()
      ensures DecSide(tables).Sized() && nRounds >= 1 && |invKeySchedule| == |keySchedule| == 4 * nRounds + 4
      ensures forall s: Block :: Swap(DecSide(tables).Crypt(invKeySchedule, nRounds, Swap(s))) == InvCipher(keySchedule, nRounds, s)
    {
      hide Tables.Correct, InvCipher, IsInvSchedule, DecSide, Side.Crypt, Swap;
      TablesSized(tables);
      forall s: Block
        ensures Swap(DecSide(tables).Crypt(invKeySchedule, nRounds, Swap(s))) == InvCipher(keySchedule, nRounds, s)
      {
        DecCrypt(tables, keySchedule, invKeySchedule, nRounds, s);
      }
    }

    /** `_doCryptBlock` */
    method DoCryptBlock(a: WordArray, b: nat, c: seq<Word>, side: Side)
      requires nRounds >= 1 && |c| == 4 * nRounds + 4 && side.Sized()
      modifies a`words
      ensures OnlyBlock(old(a.words), a.words, b)
      ensures BlockAt(a.words, b, 4) == WordsOf(side.Crypt(c, nRounds, BlockOf(old(BlockAt(a.words, b, 4)))))
    {
      hide Xor, Side.Column, Side.LastColumn, Get, Put, WithinBlock, OnlyBlock;
      var m := nRounds;
      ghost var before, s := a.words, BlockOf(BlockAt(a.words, b, 4));
      var g, h := Xor(Get(a.words, b), c[0]), Xor(Get(a.words, b + 1), c[1]);
      var k, n := Xor(Get(a.words, b + 2), c[2]), Xor(Get(a.words, b + 3), c[3]);
      var p := 4;
      for r := 1 to m
        invariant p == 4 * r && a.words == before
        invariant Block(g, h, k, n) == side.After(c, r - 1, s)
      {
        var q := side.Column(g, h, k, n, c[p]);
        var t := side.Column(h, k, n, g, c[p + 1]);
        var u := side.Column(k, n, g, h, c[p + 2]);
        n := side.Column(n, g, h, k, c[p + 3]);
        g, h, k := q, t, u;
        p := p + 4;
      }
      WriteFour(a, b, side.LastColumn(g, h, k, n, c[p]), side.LastColumn(h, k, n, g, c[p + 1]),
        side.LastColumn(k, n, g, h, c[p + 2]), side.LastColumn(n, g, h, k, c[p + 3]));
    }

    /** The closing statements of `_doCryptBlock`. */
    static method WriteFour(a: WordArray, b: nat, q: Word, t: Word, u: Word, v: Word)
      modifies a`words
      ensures OnlyBlock(old(a.words), a.words, b) && BlockAt(a.words, b, 4) == [q, t, u, v]
    {
      hide Put, WithinBlock, OnlyBlock, BlockAt;
      NothingWritten(a.words, b);
      PutBlock(a.words, a.words, b, [q, t, u, v]);
      a.words := Put(a.words, b, q);
      a.words := Put(a.words, b + 1, t);
      a.words := Put(a.words, b + 2, u);
      a.words := Put(a.words, b + 3, v);
    }
  }

  lemma SubstitutedWord(t: Tables, k: Word)
    requires t.Correct()
    ensures t.Sized()
    ensures WordOf(t.sub[Index(ByteOf(k, 0))], t.sub[Index(ByteOf(k, 1))],
                   t.sub[Index(ByteOf(k, 2))], t.sub[Index(ByteOf(k, 3))]) == SubWord(k)
  {
    hide Sub, Index, ByteOf, WordOf, Tables.Correct, TableWord;
    EncEntries(t, ByteOf(k, 0));
    EncEntries(t, ByteOf(k, 1));
    EncEntries(t, ByteOf(k, 2));
    EncEntries(t, ByteOf(k, 3));
  }

  /** A detour through the S-box turns the inverse round tables into InvMixColumns alone. */
  lemma UnmixedWord(t: Tables, k: Word)
    requires t.Correct()
    ensures t.Sized()
    ensures Xor(Xor(Xor(t.dec0[Index(t.sub[Index(ByteOf(k, 0))])], t.dec1[Index(t.sub[Index(ByteOf(k, 1))])]),
                    t.dec2[Index(t.sub[Index(ByteOf(k, 2))])]), t.dec3[Index(t.sub[Index(ByteOf(k, 3))])])
         == MixColumn(UNMIX, k)
  {
    hide Sub, Unsub, Index, ByteOf, WordOf, Xor, MixColumn, TableWord, Tables.Correct;
    var b0, b1, b2, b3 := ByteOf(k, 0), ByteOf(k, 1), ByteOf(k, 2), ByteOf(k, 3);
    EncEntries(t, b0);
    EncEntries(t, b1);
    EncEntries(t, b2);
    EncEntries(t, b3);
    DecEntries(t, Sub(b0));
    DecEntries(t, Sub(b1));
    DecEntries(t, Sub(b2));
    DecEntries(t, Sub(b3));
    UnsubInverts(b0);
    UnsubInverts(b1);
    UnsubInverts(b2);
    UnsubInverts(b3);
    TablesMix(UNMIX, b0, b1, b2, b3);
    WordOfBytes(k);
  }
}
