/**
 Cipher block chaining block by block, as section 6.2 of NIST SP 800-38A defines it: the words of every block of the output
 by the words of the input, of the initialization vector and of the block before.
 */
module CbcBlocks {
  import opened Arithmetic
  import opened WordArrays
  import opened BufferedBlocks
  import opened Cbc
  import opened Options

  /** Word `i` of a string of octets. */
  function WordIn(bs: seq<Byte>, i: nat): Word
    requires 4 * i + 4 <= |bs|
  {
    WordOf(bs[4 * i], bs[4 * i + 1], bs[4 * i + 2], bs[4 * i + 3])
  }

  // ----- runs

  lemma StartOf(n: nat, size: nat)
    requires n > 0
    ensures n * size == (n - 1) * size + size && (n - 1) * size >= 0
  {
    MulDistributes(n - 1, 1, size);
    MulMonotone(0, n - 1, size);
  }

  /** A block that has been put out stays where it is. */
  lemma OutputStays(out: seq<Word>, r: seq<Word>, i: nat, size: nat)
    requires i + size <= |out|
    ensures BlockAt(out + r, i, size) == BlockAt(out, i, size)
  {
    assert forall t: nat :: i <= t < i + size ==> Get(out + r, t) == Get(out, t);
  }

  lemma LastOutput(out: seq<Word>, r: seq<Word>)
    ensures BlockAt(out + r, |out|, |r|) == r
  {
    assert forall d: nat :: d < |r| ==> Get(out + r, |out| + d) == r[d];
  }

  lemma BlockInside(j: nat, n: nat, size: nat)
    requires j < n
    ensures j * size + size <= n * size && j * size >= 0
  {
    StartOf(j + 1, size);
    MulMonotone(j + 1, n, size);
    MulMonotone(0, j, size);
  }

  /** The mask of block `j`. */
  function MaskOf(iv: seq<Word>, blocks: seq<Word>, j: nat, size: nat): seq<Word> {
    if j == 0 then iv else BlockAt(blocks, Offset(j - 1, size), size)
  }

  function Offset(j: nat, size: nat): (i: nat)
    ensures i == j * size
  {
    MulMonotone(0, j, size);
    j * size
  }

  lemma {:induction false} EncryptorRun(k: Keyed, iv: seq<Word>, ws: seq<Word>, n: nat, j: nat)
    requires k.Valid() && Encryptor(k).Valid() && j < n
    ensures var (c, out) := Run(Encryptor(k), Chain(Some(iv), []), ws, n);
            && |out| == n * k.size && c == Chain(None, BlockAt(out, Offset(n - 1, k.size), k.size))
            && BlockAt(out, Offset(j, k.size), k.size) ==
               k.encrypt(XorBlock(BlockAt(ws, Offset(j, k.size), k.size), MaskOf(iv, out, j, k.size)))
    decreases n
  {
    hide XorBlock, BlockAt, Keyed.Valid;
    var size, c0 := k.size, Chain(Some(iv), []);
    var i := Offset(n - 1, size);
    StartOf(n, size);
    var (c1, done) := Run(Encryptor(k), c0, ws, n - 1);
    var b := BlockAt(ws, i, size);
    var r := k.encrypt(XorBlock(b, c1.Mask()));
    assert Run(Encryptor(k), c0, ws, n) == (Chain(None, r), done + r);
    SizeOfStep(k, XorBlock(b, c1.Mask()), b, c1.Mask());
    LastOutput(done, r);
    if n > 1 {
      EncryptorRun(k, iv, ws, n - 1, if j < n - 1 then j else n - 2);
      BlockInside(n - 2, n - 1, size);
      OutputStays(done, r, Offset(n - 2, size), size);
    }
    if j < n - 1 {
      BlockInside(j, n - 1, size);
      OutputStays(done, r, Offset(j, size), size);
      if j > 0 {
        BlockInside(j - 1, n - 1, size);
        OutputStays(done, r, Offset(j - 1, size), size);
      }
    }
  }

  lemma SizeOfStep(k: Keyed, x: seq<Word>, b: seq<Word>, mask: seq<Word>)
    requires k.Valid() && |b| == k.size && x == XorBlock(b, mask)
    ensures |k.encrypt(x)| == k.size
  {
  }

  lemma {:induction false} DecryptorRun(k: Keyed, iv: seq<Word>, ws: seq<Word>, n: nat, j: nat)
    requires k.Valid() && Decryptor(k).Valid() && j < n
    ensures var (c, out) := Run(Decryptor(k), Chain(Some(iv), []), ws, n);
            && |out| == n * k.size && c == Chain(None, BlockAt(ws, Offset(n - 1, k.size), k.size))
            && BlockAt(out, Offset(j, k.size), k.size) ==
               XorBlock(k.decrypt(BlockAt(ws, Offset(j, k.size), k.size)), MaskOf(iv, ws, j, k.size))
    decreases n
  {
    hide XorBlock, BlockAt, Keyed.Valid;
    var size, c0 := k.size, Chain(Some(iv), []);
    var i := Offset(n - 1, size);
    StartOf(n, size);
    var (c1, done) := Run(Decryptor(k), c0, ws, n - 1);
    var b := BlockAt(ws, i, size);
    var r := XorBlock(k.decrypt(b), c1.Mask());
    assert Run(Decryptor(k), c0, ws, n) == (Chain(None, b), done + r);
    assert |r| == size by {
      SizeOfDecryption(k, b);
      XorKeepsSize(k.decrypt(b), c1.Mask());
    }
    LastOutput(done, r);
    if n > 1 {
      DecryptorRun(k, iv, ws, n - 1, if j < n - 1 then j else n - 2);
    }
    if j < n - 1 {
      BlockInside(j, n - 1, size);
      OutputStays(done, r, Offset(j, size), size);
    }
  }

  lemma SizeOfDecryption(k: Keyed, b: seq<Word>)
    requires k.Valid() && |b| == k.size
    ensures |k.decrypt(b)| == k.size
  {
  }

  // ----- octets

  lemma PackedIn(p: seq<Byte>, i: nat)
    requires 4 * i + 4 <= |p|
    ensures Get(Pack(p), i) == WordIn(p, i)
  {
    hide WordOf;
  }

  lemma PutOutIn(out: seq<Word>, i: nat)
    requires i < |out|
    ensures |BytesIn(out, 4 * |out|)| == 4 * |out| && WordIn(BytesIn(out, 4 * |out|), i) == out[i]
  {
    hide WordOf, ByteOf;
    assert (4 * i) / 4 == i && (4 * i + 1) / 4 == i && (4 * i + 2) / 4 == i && (4 * i + 3) / 4 == i;
    WordOfBytes(out[i]);
  }

  /** `x` is block `j` of `p` with the block before of `c`, or the vector, XORed in, word by word. */
  predicate Masked(x: seq<Word>, iv: seq<Word>, p: seq<Byte>, c: seq<Byte>, j: nat, size: nat, i: nat)
    requires i == j * size && (j == 0 || i >= size) && 4 * (i + size) <= |p| && 4 * (i + size) <= |c|
  {
    && |x| == size
    && forall d: nat | d < size :: x[d] == Xor(WordIn(p, i + d), if j == 0 then Get(iv, d) else WordIn(c, i - size + d))
  }

  lemma MaskedIs(x: seq<Word>, iv: seq<Word>, p: seq<Byte>, out: seq<Word>, j: nat, size: nat, i: nat)
    requires i == j * size && (j == 0 || i >= size) && 4 * (i + size) <= |p| && i + size <= |out|
    requires |BytesIn(out, 4 * |out|)| == 4 * |out| && Masked(x, iv, p, BytesIn(out, 4 * |out|), j, size, i)
    ensures x == XorBlock(BlockAt(Pack(p), i, size), MaskOf(iv, out, j, size))
  {
    hide Xor, Pack, BytesIn, WordIn, Get;
    if j > 0 {
      MulDistributes(j, 1, size);
    }
    forall d: nat | d < size
      ensures x[d] == XorBlock(BlockAt(Pack(p), i, size), MaskOf(iv, out, j, size))[d]
    {
      PackedIn(p, i + d);
      if j > 0 {
        PutOutIn(out, i - size + d);
        InRange(out, i - size + d);
        MaskWord(iv, out, j, size, d, i - size);
      }
    }
  }

  lemma InRange(ws: seq<Word>, i: nat)
    requires i < |ws|
    ensures Get(ws, i) == ws[i]
  {
  }

  lemma MaskWord(iv: seq<Word>, blocks: seq<Word>, j: nat, size: nat, d: nat, i: nat)
    requires j > 0 && i == (j - 1) * size && d < size
    ensures Get(MaskOf(iv, blocks, j, size), d) == Get(blocks, i + d)
  {
  }

  lemma SameWords(out: seq<Word>, i: nat, size: nat, r: seq<Word>)
    requires i + size <= |out| && BlockAt(out, i, size) == r
    ensures |BytesIn(out, 4 * |out|)| == 4 * |out|
    ensures forall d: nat | d < size :: WordIn(BytesIn(out, 4 * |out|), i + d) == r[d]
  {
    hide WordIn, BytesIn;
    BytesInSize(out, 4 * |out|);
    forall d: nat | d < size
      ensures WordIn(BytesIn(out, 4 * |out|), i + d) == r[d]
    {
      PutOutIn(out, i + d);
      InRange(out, i + d);
      assert BlockAt(out, i, size)[d] == Get(out, i + d);
    }
  }

  lemma BlockNumber(j: nat, n: nat, size: nat, i: nat)
    requires i == j * size && i + size <= n * size && size > 0
    ensures j < n && (j == 0 || i >= size)
  {
    if j >= n {
      MulMonotone(n, j, size);
    }
    if j > 0 {
      MulMonotone(1, j, size);
    }
  }

  /**
   Section 6.2 of NIST SP 800-38A, for every block cipher, vector and message: block `j` of the ciphertext is the encryption
   of block `j` of the padded message with the block of the ciphertext before it, or at first the vector, XORed in.
   */
  lemma CipherBlock(k: Keyed, iv: seq<Word>, m: seq<Byte>, j: nat, i: nat, x: seq<Word>)
    requires k.Valid() && i == j * k.size && 4 * (i + k.size) <= |m + Padding(k.size, |m|)|
    ensures |Encrypted(k, iv, m)| == |m + Padding(k.size, |m|)| && (j == 0 || i >= k.size)
    ensures var p, c := m + Padding(k.size, |m|), Encrypted(k, iv, m);
            |x| == k.size &&
            (forall d: nat | d < k.size ::
               x[d] == Xor(WordIn(p, i + d), if j == 0 then Get(iv, d) else WordIn(c, i - k.size + d))) ==>
            |k.encrypt(x)| == k.size && forall d: nat | d < k.size :: WordIn(c, i + d) == k.encrypt(x)[d]
  {
    hide Xor, Pack, BytesIn, WordIn, Get, Run, Process, Keyed.Valid, Padding, PadCount, XorBlock, Append;
    AlgorithmsValid(k);
    var size, c0, p := k.size, Chain(Some(iv), []), m + Padding(k.size, |m|);
    EncryptedDecrypts(k, iv, m);
    WholeBlocksPadded(size, |m|);
    AppendToStart(iv, p);
    FlushWhole(Encryptor(k), Stream(c0, p));
    var n := |p| / (4 * size);
    var (st, out) := Run(Encryptor(k), c0, Pack(p), n);
    var c := Encrypted(k, iv, m);
    assert c == BytesIn(out, 4 * |out|);
    BlockNumber(j, n, size, i);
    if |x| == size && Masked(x, iv, p, c, j, size, i) {
      MaskedIs(x, iv, p, out, j, size, i);
      EncryptorRun(k, iv, Pack(p), n, j);
      SizeOfStep(k, x, BlockAt(Pack(p), i, size), MaskOf(iv, out, j, size));
      SameWords(out, i, size, k.encrypt(x));
    }
  }

  /** The same for decryption of any whole blocks: the block before, or the vector, is XORed into the decrypted block. */
  lemma PlainBlock(k: Keyed, iv: seq<Word>, c: seq<Byte>, j: nat, i: nat, y: seq<Word>)
    requires k.Valid() && Decryptor(k).Valid()
    requires |c| % (4 * k.size) == 0 && i == j * k.size && 4 * (i + k.size) <= |c|
    ensures |Process(Decryptor(k), Append(Start(iv), c), true).1| == |c| && (j == 0 || i >= k.size)
    ensures var p := Process(Decryptor(k), Append(Start(iv), c), true).1;
            |y| == k.size && (forall d: nat | d < k.size :: y[d] == WordIn(c, i + d)) ==>
            |k.decrypt(y)| == k.size &&
            forall d: nat | d < k.size ::
              WordIn(p, i + d) == Xor(k.decrypt(y)[d], if j == 0 then Get(iv, d) else WordIn(c, i - k.size + d))
  {
    hide Xor, Pack, BytesIn, WordIn, Get, Run, Process, Keyed.Valid, Append, XorBlock, BlockAt;
    var size, c0 := k.size, Chain(Some(iv), []);
    AlgorithmsValid(k);
    AppendToStart(iv, c);
    FlushWhole(Decryptor(k), Stream(c0, c));
    var n := |c| / (4 * size);
    var (st, out) := Run(Decryptor(k), c0, Pack(c), n);
    assert Process(Decryptor(k), Append(Start(iv), c), true).1 == BytesIn(out, 4 * |out|);
    BytesInSize(out, 4 * |out|);
    BlockNumber(j, n, size, i);
    if |y| == size && forall d: nat | d < size :: y[d] == WordIn(c, i + d) {
      DecryptorRun(k, iv, Pack(c), n, j);
      PackedBlock(c, i, size, y);
      SizeOfDecryption(k, y);
      var r := XorBlock(k.decrypt(y), MaskOf(iv, Pack(c), j, size));
      XorKeepsSize(k.decrypt(y), MaskOf(iv, Pack(c), j, size));
      SameWords(out, i, size, r);
      forall d: nat | d < size
        ensures r[d] == Xor(k.decrypt(y)[d], if j == 0 then Get(iv, d) else WordIn(c, i - size + d))
      {
        XorWord(k.decrypt(y), MaskOf(iv, Pack(c), j, size), d);
        if j > 0 {
          MulDistributes(j, 1, size);
          MaskWord(iv, Pack(c), j, size, d, i - size);
          PackedIn(c, i - size + d);
        }
      }
    }
  }

  lemma XorWord(b: seq<Word>, mask: seq<Word>, d: nat)
    requires d < |b|
    ensures XorBlock(b, mask)[d] == Xor(b[d], Get(mask, d))
  {
    hide Xor, Get;
  }

  lemma PackedBlock(c: seq<Byte>, i: nat, size: nat, y: seq<Word>)
    requires 4 * (i + size) <= |c| && |y| == size && forall d: nat | d < size :: y[d] == WordIn(c, i + d)
    ensures BlockAt(Pack(c), i, size) == y
  {
    hide Pack, Get, WordIn;
    forall d: nat | d < size
      ensures BlockAt(Pack(c), i, size)[d] == y[d]
    {
      PackedIn(c, i + d);
    }
  }

  /** An encryptor keeps an incomplete block back, a decryptor a whole block as well once there is one. */
  lemma KeptBack(k: Keyed, c: Chain, x: seq<Byte>)
    requires k.Valid() && Encryptor(k).Valid() && Decryptor(k).Valid()
    ensures var n, b := |x|, 4 * k.size;
            && |Process(Encryptor(k), Stream(c, x), false).0.pending| == n % b
            && |Process(Decryptor(k), Stream(c, x), false).0.pending| == if n < b then n else b + n % b
  {
    hide Process;
    HeldBack(Encryptor(k), Stream(c, x));
    HeldBack(Decryptor(k), Stream(c, x));
  }

  /** Section 6.3 of RFC 5652: `n` octets are filled up to whole blocks by octets that each give their own number. */
  lemma PaddingOctets(size: nat, n: nat)
    requires 0 < size < 64
    ensures var p := Padding(size, n);
            1 <= |p| <= 4 * size && (n + |p|) % (4 * size) == 0 && forall i: nat | i < |p| :: p[i] as int == |p|
  {
    hide PadCount, CountByte, Count;
    CountOfByte(PadCount(size, n));
    forall i: nat | i < |Padding(size, n)|
      ensures Count(Padding(size, n)[i]) == |Padding(size, n)|
    {
    }
    CountIs();
  }

  lemma CountIs()
    ensures forall b: Byte :: Count(b) == b as int
  {
  }
}
