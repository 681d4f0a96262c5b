/**
 HMAC and PBKDF2 octet by octet: the two padded texts of section 2 of RFC 2104, and the iterates, blocks and key octets of
 section 5.2 of RFC 8018.
 */
module HmacOctets {
  import opened WordArrays
  import opened MachineWords
  import opened Hmacs
  import opened Sha1s
  import opened Pbkdf2Sha1s

  /** `bs` are the octets of the words, the most significant of each first. */
  predicate OctetsOf(bs: seq<Byte>, ws: seq<Word>) {
    |bs| == 4 * |ws| && forall i: nat :: i < |bs| ==> bs[i] == ByteOf(ws[i / 4], i % 4)
  }

  lemma WholeOctets(ws: seq<Word>)
    ensures OctetsOf(WholeBytes(ws), ws)
  {
    hide ByteOf;
  }

  lemma SameOctets(bs: seq<Byte>, ws: seq<Word>)
    requires OctetsOf(bs, ws)
    ensures bs == WholeBytes(ws)
  {
    hide ByteOf;
    WholeOctets(ws);
  }

  /** The key, filled up with zeros, with one octet combined with each of its octets, and then the text. */
  predicate PaddedText(t: seq<Byte>, k: seq<Byte>, block: nat, pad: Byte, text: seq<Byte>) {
    && |t| == block + |text|
    && (forall i: nat :: i < block ==> t[i] == (if i < |k| then k[i] else 0) ^ pad)
    && forall i: nat :: i < |text| ==> t[block + i] == text[i]
  }

  lemma PaddedIs(t: seq<Byte>, k: seq<Byte>, block: nat, pad: Byte, text: seq<Byte>)
    requires PaddedText(t, k, block, pad, text)
    ensures t == XorAll(k, block, pad) + text
  {
    forall i: nat | i < block
      ensures t[i] == XorAll(k, block, pad)[i]
    {
    }
    assert t[block..] == text;
    assert t == t[..block] + t[block..];
  }

  /**
   Section 2 of RFC 2104 for any digest: a key longer than a block is hashed, the inner text begins with the key combined
   with 0x36, the outer one with 0x5C, and the outer text ends with the octets of the inner digest.
   */
  lemma HmacIs(d: seq<Byte> -> seq<Word>, block: nat, key: seq<Byte>, text: seq<Byte>,
               k: seq<Byte>, inner: seq<Byte>, digest: seq<Byte>, outer: seq<Byte>)
    requires if |key| > block then OctetsOf(k, d(key)) else k == key
    requires PaddedText(inner, k, block, 0x36, text)
    requires OctetsOf(digest, d(inner))
    requires PaddedText(outer, k, block, 0x5C, digest)
    ensures HmacOver(d, block, key, text) == d(outer)
  {
    hide PaddedText, OctetsOf, XorAll, WholeBytes;
    if |key| > block {
      SameOctets(k, d(key));
    }
    PaddedIs(inner, k, block, 0x36, text);
    SameOctets(digest, d(inner));
    PaddedIs(outer, k, block, 0x5C, digest);
  }

  // ----- PBKDF2-HMAC-SHA-1

  /** The first iterate takes the salt and the four octets of the block index, the most significant first. */
  lemma FirstIterate(password: seq<Byte>, salt: seq<Byte>, i: nat, index: seq<Byte>)
    requires |index| == 4 && i < 0x1_0000_0000
    requires i == (index[0] as int) * 0x100_0000 + (index[1] as int) * 0x1_0000 + (index[2] as int) * 0x100 + (index[3] as int)
    ensures U(password, salt, i, 1) == HmacOver(Sha1, 64, password, salt + index)
  {
    hide HmacOver, NumberWord, ByteOf, WordOf;
    var w := WordOf(index[0], index[1], index[2], index[3]);
    LiteralWord(index[0], index[1], index[2], index[3], i, w);
    BytesOfWord(index[0], index[1], index[2], index[3]);
    OneWord(w, index);
  }

  lemma OneWord(w: Word, bs: seq<Byte>)
    requires |bs| == 4 && bs[0] == ByteOf(w, 0) && bs[1] == ByteOf(w, 1) && bs[2] == ByteOf(w, 2) && bs[3] == ByteOf(w, 3)
    ensures WholeBytes([w]) == bs
  {
    hide ByteOf;
    assert forall i: nat :: i < 4 ==> i / 4 == 0 && i % 4 == i;
    SameOctets(bs, [w]);
  }

  /** Every further iterate takes the octets of the one before. */
  lemma NextIterate(password: seq<Byte>, salt: seq<Byte>, i: nat, j: nat, u: seq<Byte>)
    requires j > 0 && OctetsOf(u, U(password, salt, i, j))
    ensures U(password, salt, i, j + 1) == HmacOver(Sha1, 64, password, u)
  {
    hide HmacOver, OctetsOf, WholeBytes;
    SameOctets(u, U(password, salt, i, j));
  }

  /** A block is the exclusive-or of its iterates, word by word. */
  lemma BlockWord(password: seq<Byte>, salt: seq<Byte>, i: nat, c: nat, k: nat)
    requires c > 0 && k < 5
    ensures F(password, salt, i, 1) == U(password, salt, i, 1)
    ensures F(password, salt, i, c + 1)[k] == Xor(F(password, salt, i, c)[k], U(password, salt, i, c + 1)[k])
  {
    hide U, Xor;
  }

  lemma {:induction false} BlockAt(password: seq<Byte>, salt: seq<Byte>, c: nat, n: nat, w: nat)
    requires c > 0 && w < 5 * n
    ensures T(password, salt, c, n)[w] == F(password, salt, w / 5 + 1, c)[w % 5]
    decreases n
  {
    hide F;
    if w < 5 * (n - 1) {
      BlockAt(password, salt, c, n - 1, w);
    } else {
      assert w / 5 == n - 1 && w % 5 == w - 5 * (n - 1);
    }
  }

  /** Octet `i` of the derived key: the blocks follow one another from the one with index 1, and the last is cut short. */
  lemma KeyOctet(password: seq<Byte>, salt: seq<Byte>, c: nat, words: nat, i: nat)
    requires c > 0 && i < 4 * words
    ensures |DerivedKey(password, salt, c, words)| == 4 * words
    ensures DerivedKey(password, salt, c, words)[i] == ByteOf(F(password, salt, i / 20 + 1, c)[i % 20 / 4], i % 4)
  {
    hide F, T, ByteOf;
    var n := (words + 4) / 5;
    BlockAt(password, salt, c, n, i / 4);
    assert i / 4 / 5 == i / 20 && i / 4 % 5 == i % 20 / 4;
  }
}
