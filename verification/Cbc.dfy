/**
 Cipher block chaining and PKCS #7 padding over the buffering layer (js/rollups/aes.js:25-28).
 */
module Cbc {
  import opened Arithmetic
  import opened WordArrays
  import opened BufferedBlocks
  import opened Options
  import opened Sequences

  /** A block cipher under one key: blocks of `size` words, at most 63 so that a padding count fits a byte. */
  datatype Keyed = Keyed(size: nat, encrypt: seq<Word> -> seq<Word>, decrypt: seq<Word> -> seq<Word>)
  {
    ghost predicate Valid() {
      && 0 < size < 64
      && forall b: seq<Word> | |b| == size ::
           |encrypt(b)| == size && |decrypt(b)| == size && decrypt(encrypt(b)) == b
    }
  }

  // ----- the mode

  /** `_iv` until it is used up, then `_prevBlock`. */
  datatype Chain = Chain(iv: Option<seq<Word>>, prevBlock: seq<Word>)
  {
    function Mask(): seq<Word> {
      if iv.Some? then iv.value else prevBlock
    }
  }

  function XorBlock(b: seq<Word>, mask: seq<Word>): (r: seq<Word>)
    ensures |r| == |b|
  {
    seq(|b|, d requires 0 <= d < |b| => Xor(b[d], Get(mask, d)))
  }

  /** `Encryptor.processBlock`: XOR the mask in, encrypt, keep the result as the next mask. */
  function EncryptStep(k: Keyed, c: Chain, b: seq<Word>): (Chain, seq<Word>) {
    var r := k.encrypt(XorBlock(b, c.Mask()));
    (Chain(None, r), r)
  }

  /** `Decryptor.processBlock`: keep the block as the next mask, decrypt, XOR the mask in. */
  function DecryptStep(k: Keyed, c: Chain, b: seq<Word>): (Chain, seq<Word>) {
    (Chain(None, b), XorBlock(k.decrypt(b), c.Mask()))
  }

  function Encryptor(k: Keyed): Algorithm<Chain> {
    Algorithm((c: Chain, b: seq<Word>) => EncryptStep(k, c, b), k.size, 0)
  }

  /** A decryptor holds one block back for the padding. */
  function Decryptor(k: Keyed): Algorithm<Chain> {
    Algorithm((c: Chain, b: seq<Word>) => DecryptStep(k, c, b), k.size, 1)
  }

  lemma AlgorithmsValid(k: Keyed)
    requires k.Valid()
    ensures Encryptor(k).Valid() && Decryptor(k).Valid() && 0 < k.size < 64
  {
  }

  lemma XorTwice(b: seq<Word>, mask: seq<Word>)
    ensures XorBlock(XorBlock(b, mask), mask) == b
  {
    hide Xor;
    forall d: nat | d < |b|
      ensures Xor(Xor(b[d], Get(mask, d)), Get(mask, d)) == b[d]
    {
      XorCancels(b[d], Get(mask, d));
    }
  }

  lemma StepInverts(k: Keyed, c: Chain, b: seq<Word>)
    requires k.Valid() && |b| == k.size
    ensures var (c1, r) := EncryptStep(k, c, b);
            |r| == k.size && DecryptStep(k, c, r) == (c1, b)
  {
    hide XorBlock;
    XorTwice(b, c.Mask());
    XorKeepsSize(b, c.Mask());
  }

  lemma XorKeepsSize(b: seq<Word>, mask: seq<Word>)
    ensures |XorBlock(b, mask)| == |b|
  {
  }

  /** Decrypting the encrypted blocks gives back the blocks, and both sides end with the same mask. */
  lemma {:induction false} ChainsInvert(k: Keyed, c: Chain, ws: seq<Word>, n: nat)
    requires k.Valid() && Encryptor(k).Valid() && Decryptor(k).Valid()
    ensures var (c1, out) := Run(Encryptor(k), c, ws, n);
            Run(Decryptor(k), c, out, n) == (c1, BlockAt(ws, 0, n * k.size))
    decreases n
  {
    hide EncryptStep, DecryptStep, Keyed.Valid;
    if n > 0 {
      var size := k.size;
      var done := (n - 1) * size;
      MulDistributes(n - 1, 1, size);
      var (c1, out) := Run(Encryptor(k), c, ws, n - 1);
      var b := BlockAt(ws, done, size);
      var (c2, r) := EncryptStep(k, c1, b);
      ChainsInvert(k, c, ws, n - 1);
      StepInverts(k, c1, b);
      AppendedBlock(out, r, ws, done, size);
      RunSame(Decryptor(k), c, out + r, out, n - 1);
      assert Run(Encryptor(k), c, ws, n) == (c2, out + r);
      assert Run(Decryptor(k), c, out + r, n) == (c2, BlockAt(ws, 0, done) + b);
    }
  }

  lemma AppendedBlock(out: seq<Word>, r: seq<Word>, ws: seq<Word>, done: nat, size: nat)
    requires |out| == done && |r| == size
    ensures forall i: nat | i < done :: Get(out + r, i) == Get(out, i)
    ensures BlockAt(out + r, done, size) == r
    ensures BlockAt(ws, 0, done + size) == BlockAt(ws, 0, done) + BlockAt(ws, done, size)
  {
    forall k: nat | k < size
      ensures BlockAt(out + r, done, size)[k] == r[k]
    {
      assert Get(out + r, done + k) == r[k];
    }
  }

  // ----- the padding

  /** How many padding bytes follow `n` bytes: always at least one. */
  function PadCount(size: nat, n: nat): (c: nat)
    requires size > 0
    ensures 1 <= c <= 4 * size && (n + c) % (4 * size) == 0
  {
    var c := 4 * size - n % (4 * size);
    PadCompletes(n, 4 * size);
    c
  }

  lemma PadCompletes(n: nat, b: nat)
    requires b > 0
    ensures (n + (b - n % b)) % b == 0
  {
    assert n == (n / b) * b + n % b;
    MulDistributes(n / b, 1, b);
    QuotientUnique(n + (b - n % b), n / b + 1, 0, b);
  }

  /** Section 6.3 of RFC 5652: `c` bytes of value `c`. */
  function Padding(size: nat, n: nat): (p: seq<Byte>)
    requires 0 < size < 64
    ensures |p| == PadCount(size, n)
  {
    Repeat(CountByte(PadCount(size, n)), PadCount(size, n))
  }

  function CountByte(c: nat): Byte
    requires c < 256
  {
    c as Byte
  }

  function Repeat(b: Byte, n: nat): (bs: seq<Byte>)
    ensures |bs| == n
  {
    seq(n, _ => b)
  }

  /** `c << 24 | c << 16 | c << 8 | c` */
  function PadWord(c: Byte): Word {
    WordOf(c, c, c, c)
  }

  lemma PadCountWords(size: nat, n: nat)
    requires size > 0 && n % 4 == 0
    ensures PadCount(size, n) % 4 == 0
  {
    var c := PadCount(size, n);
    var q := (n + c) / (4 * size);
    assert n + c == q * (4 * size);
    Mul4(q, size);
  }

  lemma RepeatedByte(l: seq<Word>, v: Byte, c: nat)
    requires 4 * |l| >= c && forall i: nat :: i < |l| ==> l[i] == PadWord(v)
    ensures BytesIn(l, c) == Repeat(v, c)
  {
    hide ByteOf, WordOf;
    BytesOfWord(v, v, v, v);
    forall i: nat | i < c
      ensures ByteAt(l, i) == v
    {
      assert l[i / 4] == PadWord(v);
    }
  }

  /** The words of a padding array hold the padding; they are clamped when they are all whole. */
  lemma PaddingWords(l: seq<Word>, size: nat, n: nat, c: nat, b: Byte)
    requires 0 < size < 64 && c == PadCount(size, n) && b == CountByte(c)
    requires |l| == (c + 3) / 4 && forall i: nat :: i < |l| ==> l[i] == PadWord(b)
    ensures BytesIn(l, c) == Padding(size, n)
    ensures n % 4 == 0 ==> AppendsClamped(l, c)
  {
    hide BytesIn, Pack, PadWord, PadCount, Repeat, CountByte, AppendsClamped;
    RepeatedByte(l, b, c);
    if n % 4 == 0 {
      PadCountWords(size, n);
      WholeAppends(l);
    }
  }

  /** `pad`: the padding bytes are appended as words, and the data are clamped by it. */
  method Pad(data: WordArray, size: nat)
    requires 0 < size < 64
    modifies data
    ensures data.Clamped() && data.Bytes() == old(data.Bytes()) + Padding(size, old(data.sigBytes))
  {
    hide Pack, BytesIn, PadWord, Padding, CountByte, AppendsClamped, Joined;
    var c := PadCount(size, data.sigBytes);
    var b := CountByte(c);
    var d := PadWord(b);
    var l: seq<Word> := [];
    var n := 0;
    while n < c
      invariant n == 4 * |l| && n < c + 4
      invariant forall i: nat :: i < |l| ==> l[i] == d
    {
      l := l + [d];
      n := n + 4;
    }
    var padding := new WordArray(l, c);
    PaddingWords(l, size, data.sigBytes, c, b);
    data.Concat(padding);
  }

  // ----- whole messages

  /** Where a chain starts: the words of the initialization vector. */
  function Start(iv: seq<Word>): Stream<Chain> {
    Stream(Chain(Some(iv), []), [])
  }

  /** CBC over the padded message (section 6.2 of NIST SP 800-38A). */
  ghost function Encrypted(k: Keyed, iv: seq<Word>, m: seq<Byte>): seq<Byte>
    requires k.Valid()
  {
    AlgorithmsValid(k);
    Process(Encryptor(k), Append(Start(iv), m + Padding(k.size, |m|)), true).1
  }

  /** The bytes of `unpad`: as many dropped as the last byte of the last word says, which may be too many. */
  function UnpaddedSize(words: seq<Word>, sigBytes: nat): int {
    if sigBytes == 0 then 0 else sigBytes - ByteOf(Get(words, (sigBytes - 1) / 4), 3) as int
  }

  lemma FlushWhole<S(!new)>(alg: Algorithm<S>, s: Stream<S>)
    requires alg.Valid() && |s.pending| % alg.BlockBytes() == 0
    ensures var n := |s.pending| / alg.BlockBytes();
            var (st, ws) := Run(alg, s.st, Pack(s.pending), n);
            Process(alg, s, true) == (Stream(st, []), BytesIn(ws, 4 * |ws|)) && 4 * |ws| == |s.pending|
  {
    hide Run, BytesIn, Pack;
    WholeFlush(alg, |s.pending|);
    ConsumedWords(alg, |s.pending|, true);
    assert s.pending[|s.pending|..] == [];
  }

  lemma WholeBlocksDecrypt(k: Keyed, c: Chain, p: seq<Byte>)
    requires k.Valid() && Encryptor(k).Valid() && Decryptor(k).Valid()
    requires |p| % (4 * k.size) == 0
    ensures var ct := Process(Encryptor(k), Stream(c, p), true).1;
            |ct| == |p| && Process(Decryptor(k), Stream(c, ct), true).1 == p
  {
    hide Run, BytesIn, Pack, Process, Keyed.Valid, EncryptStep, DecryptStep;
    var n := |p| / (4 * k.size);
    FlushWhole(Encryptor(k), Stream(c, p));
    var (c1, out) := Run(Encryptor(k), c, Pack(p), n);
    var ct := BytesIn(out, 4 * |out|);
    BytesInSize(out, 4 * |out|);
    PackBytesIn(out);
    FlushWhole(Decryptor(k), Stream(c, ct));
    ChainsInvert(k, c, Pack(p), n);
    WholePack(p, n * k.size);
    BytesInPack(p);
  }

  /** Decryption of a whole ciphertext at one stroke gives the padded message. */
  lemma EncryptedDecrypts(k: Keyed, iv: seq<Word>, m: seq<Byte>)
    requires k.Valid()
    ensures Decryptor(k).Valid()
    ensures Process(Decryptor(k), Append(Start(iv), Encrypted(k, iv, m)), true).1 == m + Padding(k.size, |m|)
    ensures |Encrypted(k, iv, m)| == |m| + PadCount(k.size, |m|)
  {
    hide Process, Padding, PadCount, Keyed.Valid, Encryptor, Decryptor;
    AlgorithmsValid(k);
    var p := m + Padding(k.size, |m|);
    var c := Chain(Some(iv), []);
    assert forall bs: seq<Byte> :: [] + bs == bs;
    assert k.size == Encryptor(k).blockSize == Decryptor(k).blockSize by { AlgorithmSizes(k); }
    WholeBlocksDecrypt(k, c, p);
  }

  lemma AlgorithmSizes(k: Keyed)
    ensures Encryptor(k).blockSize == Decryptor(k).blockSize == k.size
    ensures Encryptor(k).minBufferSize == 0 && Decryptor(k).minBufferSize == 1
  {
  }

  lemma WholePack(p: seq<Byte>, n: nat)
    requires |p| == 4 * n
    ensures BlockAt(Pack(p), 0, n) == Pack(p)
  {
    hide PackedWord, Pack;
    PackLength(p);
    assert forall k: nat | k < n :: BlockAt(Pack(p), 0, n)[k] == Pack(p)[k];
  }

  // ----- messages in pieces

  lemma PaddingOfPending(size: nat, n: nat, m: nat)
    requires 0 < size < 64 && m * (4 * size) <= n
    ensures Padding(size, n - m * (4 * size)) == Padding(size, n)
  {
    QuotientShift(n, m, 4 * size);
  }

  lemma AppendToStart(iv: seq<Word>, x: seq<Byte>)
    ensures Append(Start(iv), x) == Stream(Chain(Some(iv), []), x)
  {
    assert [] + x == x;
  }

  lemma PendingAfter<S(!new)>(alg: Algorithm<S>, st: S, m: seq<Byte>)
    requires alg.Valid()
    ensures var j := alg.BlocksIn(|m|, false) * alg.BlockBytes();
            j <= |m| && Process(alg, Stream(st, m), false).0.pending == m[j..]
  {
    hide Run, BytesIn, Pack;
    ConsumedSplit(alg, |m|, 0, false);
    Mul4(alg.BlocksIn(|m|, false), alg.blockSize);
  }

  /** The padding of what is pending once `last` is appended is the padding of the message. */
  lemma PendingPadding(k: Keyed, iv: seq<Word>, m: seq<Byte>, last: seq<Byte>)
    requires k.Valid() && Encryptor(k).Valid()
    ensures var s := Process(Encryptor(k), Append(Start(iv), m), false).0;
            0 < k.size < 64 && Padding(k.size, |s.pending + last|) == Padding(k.size, |m + last|)
  {
    hide Process, Padding, Keyed.Valid;
    AlgorithmsValid(k);
    AppendToStart(iv, m);
    PendingAfter(Encryptor(k), Chain(Some(iv), []), m);
    PaddingOfPending(k.size, |m + last|, Encryptor(k).BlocksIn(|m|, false));
  }

  /** Whatever has been processed before, padding and flushing the rest completes the encryption of the whole. */
  lemma EncryptionContinues(k: Keyed, iv: seq<Word>, m: seq<Byte>, last: seq<Byte>)
    requires k.Valid() && Encryptor(k).Valid() && 0 < k.size < 64
    ensures var (s, out) := Process(Encryptor(k), Append(Start(iv), m), false);
            var rest := s.pending + last;
            out + Process(Encryptor(k), Stream(s.st, rest + Padding(k.size, |rest|)), true).1 == Encrypted(k, iv, m + last)
  {
    hide Process, Padding, Keyed.Valid, Encryptor;
    PendingPadding(k, iv, m, last);
    var p := Padding(k.size, |m + last|);
    AppendToStart(iv, m);
    AppendToStart(iv, m + last + p);
    ProcessSplit(Encryptor(k), Chain(Some(iv), []), m, last + p, true);
    assert m + last + p == m + (last + p);
    var s := Process(Encryptor(k), Append(Start(iv), m), false).0;
    assert s.pending + last + p == s.pending + (last + p);
  }

  function Count(b: Byte): nat {
    b as nat
  }

  lemma CountOfByte(c: nat)
    requires c < 256
    ensures Count(CountByte(c)) == c
  {
    ByteNumber(c);
  }

  /** The bytes that `unpad` leaves of the closing call's, if the last byte counts no more than there are. */
  function Unpadded(tail: seq<Byte>): seq<Byte> {
    if |tail| == 0 || Count(tail[|tail| - 1]) > |tail| then [] else tail[..|tail| - Count(tail[|tail| - 1])]
  }

  lemma PaddingUnpads(x: seq<Byte>, tail: seq<Byte>, m: seq<Byte>, size: nat)
    requires 0 < size < 64
    requires x + tail == m + Padding(size, |m|) && |tail| >= 4 * size
    ensures x + Unpadded(tail) == m && |tail| > 0 && Count(tail[|tail| - 1]) <= |tail|
  {
    hide PadCount, Count, CountByte;
    var c := PadCount(size, |m|);
    CountOfByte(c);
    RepeatUnpads(x, tail, m, CountByte(c), c);
  }

  lemma RepeatUnpads(x: seq<Byte>, tail: seq<Byte>, m: seq<Byte>, b: Byte, c: nat)
    requires x + tail == m + Repeat(b, c) && 0 < c <= |tail| && Count(b) == c
    ensures x + Unpadded(tail) == m && Count(tail[|tail| - 1]) == c
  {
    hide Count;
    assert |m| + c == |x| + |tail|;
    assert tail[|tail| - 1] == (x + tail)[|x| + |tail| - 1] == Repeat(b, c)[c - 1];
    assert x + tail[..|tail| - c] == (x + tail)[..|x| + |tail| - c];
  }

  lemma FlushSize<S(!new)>(alg: Algorithm<S>, s: Stream<S>)
    requires alg.Valid()
    ensures |Process(alg, s, true).1| == |s.pending|
  {
    hide Run, BytesIn, Pack;
    var n := |s.pending|;
    ConsumedWords(alg, n, true);
    BytesInSize(Run(alg, s.st, Pack(s.pending), alg.BlocksIn(n, true)).1, n);
  }

  lemma DecryptorHolds(k: Keyed, c: Chain, x: seq<Byte>)
    requires k.Valid() && Decryptor(k).Valid()
    ensures var kept := |Process(Decryptor(k), Stream(c, x), false).0.pending|;
            if |x| < 4 * k.size then kept == |x| else 4 * k.size <= kept < 8 * k.size
  {
    hide Process;
    HeldBack(Decryptor(k), Stream(c, x));
  }

  /** Because a block is held back, the closing call has a whole block to unpad. */
  lemma ClosingBlock(k: Keyed, iv: seq<Word>, x: seq<Byte>, end: seq<Byte>)
    requires k.Valid() && Decryptor(k).Valid()
    requires |x + end| >= 4 * k.size
    ensures var s := Process(Decryptor(k), Append(Start(iv), x), false).0;
            |Process(Decryptor(k), Append(s, end), true).1| >= 4 * k.size
  {
    hide Process, Keyed.Valid, Decryptor;
    AppendToStart(iv, x);
    DecryptorHolds(k, Chain(Some(iv), []), x);
    FlushSize(Decryptor(k), Append(Process(Decryptor(k), Append(Start(iv), x), false).0, end));
  }

  /** Whatever has been processed before, flushing the rest of a ciphertext gives the padded message. */
  lemma DecryptionContinues(k: Keyed, iv: seq<Word>, m: seq<Byte>, x: seq<Byte>, end: seq<Byte>)
    requires k.Valid() && Decryptor(k).Valid() && 0 < k.size < 64
    requires x + end == Encrypted(k, iv, m)
    ensures var (s, out) := Process(Decryptor(k), Append(Start(iv), x), false);
            out + Process(Decryptor(k), Append(s, end), true).1 == m + Padding(k.size, |m|)
  {
    hide Process, Keyed.Valid, Decryptor, Padding, Encrypted;
    EncryptedDecrypts(k, iv, m);
    AppendToStart(iv, x);
    AppendToStart(iv, x + end);
    ProcessSplit(Decryptor(k), Chain(Some(iv), []), x, end, true);
  }

  lemma WholeBlocksPadded(size: nat, n: nat)
    requires size > 0
    ensures n + PadCount(size, n) >= 4 * size && (n + PadCount(size, n)) % (4 * size) == 0
  {
    var t, b := n + PadCount(size, n), 4 * size;
    hide PadCount;
    if t < b {
      QuotientUnique(t, 0, t, b);
    }
  }

  /** Unpadding the closing call's bytes gives the message. */
  lemma DecryptionUnpads(k: Keyed, iv: seq<Word>, m: seq<Byte>, x: seq<Byte>, end: seq<Byte>)
    requires k.Valid() && Decryptor(k).Valid() && 0 < k.size < 64
    requires x + end == Encrypted(k, iv, m)
    ensures var (s, out) := Process(Decryptor(k), Append(Start(iv), x), false);
            var tail := Process(Decryptor(k), Append(s, end), true).1;
            out + Unpadded(tail) == m && |tail| > 0 && Count(tail[|tail| - 1]) <= |tail|
  {
    hide Process, Keyed.Valid, Decryptor, Padding, PadCount, Unpadded, Encrypted, Append, Count;
    EncryptedDecrypts(k, iv, m);
    WholeBlocksPadded(k.size, |m|);
    DecryptionContinues(k, iv, m, x, end);
    ClosingBlock(k, iv, x, end);
    var (s, out) := Process(Decryptor(k), Append(Start(iv), x), false);
    PaddingUnpads(out, Process(Decryptor(k), Append(s, end), true).1, m, k.size);
  }

  // ----- messages in chunks

  /** The object's encryption: one `process` a chunk, then `finalize`, which pads what is pending. */
  ghost function EncryptChunks(k: Keyed, iv: seq<Word>, chunks: seq<seq<Byte>>, last: seq<Byte>): seq<Byte>
    requires k.Valid()
  {
    AlgorithmsValid(k);
    var (s, out) := Feed(Encryptor(k), Start(iv), chunks);
    var rest := s.pending + last;
    out + Process(Encryptor(k), Stream(s.st, rest + Padding(k.size, |rest|)), true).1
  }

  lemma FeedIsProcess<S(!new)>(alg: Algorithm<S>, st: S, chunks: seq<seq<Byte>>)
    requires alg.Valid()
    ensures Feed(alg, Stream(st, []), chunks) == Process(alg, Stream(st, Flatten(chunks)), false)
  {
    hide Feed, Process;
    ChunksDoNotMatter(alg, st, chunks, [], false);
  }

  /** However the message is cut up, the ciphertext is the same. */
  lemma EncryptChunksAgree(k: Keyed, iv: seq<Word>, chunks: seq<seq<Byte>>, last: seq<Byte>)
    requires k.Valid()
    ensures EncryptChunks(k, iv, chunks, last) == Encrypted(k, iv, Flatten(chunks) + last)
  {
    hide Process, Feed, Padding, Keyed.Valid, Encryptor, Encrypted, Append;
    AlgorithmsValid(k);
    AppendToStart(iv, Flatten(chunks));
    FeedIsProcess(Encryptor(k), Chain(Some(iv), []), chunks);
    EncryptionContinues(k, iv, Flatten(chunks), last);
  }

  /** The object's decryption. */
  ghost function DecryptChunks(k: Keyed, iv: seq<Word>, chunks: seq<seq<Byte>>, last: seq<Byte>): seq<Byte>
    requires k.Valid()
  {
    AlgorithmsValid(k);
    var (s, out) := Feed(Decryptor(k), Start(iv), chunks);
    out + Unpadded(Process(Decryptor(k), Append(s, last), true).1)
  }

  lemma DecryptChunksAgree(k: Keyed, iv: seq<Word>, m: seq<Byte>, pieces: seq<seq<Byte>>, end: seq<Byte>)
    requires k.Valid()
    requires Flatten(pieces) + end == Encrypted(k, iv, m)
    ensures DecryptChunks(k, iv, pieces, end) == m
  {
    hide Process, Feed, Keyed.Valid, Decryptor, Unpadded, Encrypted, Append, Count;
    AlgorithmsValid(k);
    AppendToStart(iv, Flatten(pieces));
    FeedIsProcess(Decryptor(k), Chain(Some(iv), []), pieces);
    DecryptionUnpads(k, iv, m, Flatten(pieces), end);
  }

  /**
   The round trip: however the message is cut up for encryption and its ciphertext for decryption, the decryptor's
   outputs join up to the message, and the ciphertext is a positive number of whole blocks.
   */
  lemma RoundTrip(k: Keyed, iv: seq<Word>, chunks: seq<seq<Byte>>, last: seq<Byte>, pieces: seq<seq<Byte>>, end: seq<Byte>)
    requires k.Valid()
    requires Flatten(pieces) + end == EncryptChunks(k, iv, chunks, last)
    ensures DecryptChunks(k, iv, pieces, end) == Flatten(chunks) + last
    ensures var n := |EncryptChunks(k, iv, chunks, last)|; n > 0 && n % (4 * k.size) == 0
  {
    hide Encrypted, EncryptChunks, DecryptChunks, Flatten, PadCount, Keyed.Valid;
    AlgorithmsValid(k);
    WholeBlocksPadded(k.size, |Flatten(chunks) + last|);
    var m := Flatten(chunks) + last;
    EncryptChunksAgree(k, iv, chunks, last);
    EncryptedDecrypts(k, iv, m);
    DecryptChunksAgree(k, iv, m, pieces, end);
  }

  // ----- the object

  lemma LastByte(words: seq<Word>, n: nat)
    requires n > 0 && n % 4 == 0
    ensures UnpaddedSize(words, n) == n - Count(BytesIn(words, n)[n - 1]) && UnpaddedSize(words, 0) == 0
  {
    hide ByteOf;
    assert (n - 1) % 4 == 3;
  }

  class BlockCipher {
    const k: Keyed
    const encrypting: bool
    const buffer: BufferedBlockAlgorithm<Chain>
    ghost const iv: seq<Word>

    ghost predicate Valid() {
      && k.Valid() && buffer.Valid()
      && buffer.alg == if encrypting then Encryptor(k) else Decryptor(k)
    }

    /** The bytes of `m` have gone in since the start, and those of `out` have come out. */
    ghost predicate Fed(m: seq<Byte>, out: seq<Byte>)
      reads this, buffer, buffer.data
    {
      Reached(buffer.alg, iv, buffer.Abs(), m, out)
    }

    /** `reset` for an encryptor or a decryptor */
    constructor (k: Keyed, encrypting: bool, iv: seq<Word>)
      requires k.Valid()
      ensures Valid() && fresh(buffer) && fresh(buffer.data) && buffer.data.Clamped()
      ensures this.k == k && this.encrypting == encrypting && this.iv == iv && Fed([], [])
    {
      hide Keyed.Valid, Encryptor, Decryptor, Process;
      this.k, this.encrypting, this.iv := k, encrypting, iv;
      AlgorithmsValid(k);
      AppendToStart(iv, []);
      NothingToProcess(if encrypting then Encryptor(k) else Decryptor(k), Chain(Some(iv), []));
      buffer := new BufferedBlockAlgorithm<Chain>(if encrypting then Encryptor(k) else Decryptor(k), Chain(Some(iv), []));
    }

    /** `process`, with any array but the buffer itself. */
    method ProcessChunk(e: WordArray) returns (out: WordArray)
      requires Valid() && e != buffer.data
      modifies buffer, buffer.data
      ensures buffer.data == old(buffer.data)
      ensures forall m, o :: old(Fed(m, o)) ==> Fed(m + old(e.Bytes()), o + out.Bytes())
    {
      hide Process, Keyed.Valid, Start, BytesIn, Pack, Joined, AppendsClamped;
      ghost var bs := e.Bytes();
      buffer.AppendData(e);
      out := buffer.ProcessData(false);
      forall m, o | old(Fed(m, o))
        ensures Fed(m + bs, o + out.Bytes())
      {
        FedMore(buffer.alg, iv, m, bs);
      }
    }

    /** `_doFinalize` of an encryptor, with `s` buffered. */
    method PadAndRun(ghost s: Stream<Chain>) returns (out: WordArray)
      requires Valid() && encrypting && 0 < k.size < 64 && s == buffer.Abs()
      modifies buffer, buffer.data
      ensures buffer.data == old(buffer.data) && buffer.alg.Valid()
      ensures out.Bytes() == Process(buffer.alg, Stream(s.st, s.pending + Padding(k.size, |s.pending|)), true).1
    {
      hide Process, Keyed.Valid, Padding, BytesIn, Pack, TailHarmless, Encryptor, Decryptor;
      Pad(buffer.data, k.size);
      ClampedHarmless(buffer.alg, buffer.data.words, buffer.data.sigBytes);
      out := buffer.ProcessData(true);
    }

    /** `_doFinalize` of a decryptor, with `s` buffered. */
    method RunAndUnpad(ghost s: Stream<Chain>) returns (out: WordArray, sigBytes: int)
      requires Valid() && !encrypting && s == buffer.Abs()
      modifies buffer, buffer.data
      ensures buffer.data == old(buffer.data) && buffer.alg.Valid()
      ensures out.sigBytes == |s.pending| && sigBytes == UnpaddedSize(out.words, out.sigBytes)
      ensures TailHarmless(buffer.alg, old(buffer.data.words), |s.pending|, true) ==> out.Bytes() == Process(buffer.alg, s, true).1
    {
      hide Process, Keyed.Valid, UnpaddedSize, BytesIn, Pack, TailHarmless, Encryptor, Decryptor;
      ConsumedWords(buffer.alg, buffer.data.sigBytes, true);
      out := buffer.ProcessData(true);
      sigBytes := UnpaddedSize(out.words, out.sigBytes);
    }

    /**
     `finalize`: an encryptor pads first, and completes the encryption of everything given. A decryptor given a whole
     ciphertext lowers the byte count to what is left of the message; given anything else, the count may be negative.
     */
    method Finalize(e: WordArray?) returns (out: WordArray, sigBytes: int)
      requires Valid() && e != buffer.data
      modifies buffer, buffer.data
      ensures buffer.data == old(buffer.data)
      ensures sigBytes == if encrypting then out.sigBytes else UnpaddedSize(out.words, out.sigBytes)
      ensures encrypting ==> forall m, o :: old(Fed(m, o)) ==>
                o + out.Bytes() == Encrypted(k, iv, m + if e == null then [] else old(e.Bytes()))
      ensures !encrypting ==> forall m, o, x ::
                old(Fed(m, o)) && Encrypted(k, iv, x) == m + (if e == null then [] else old(e.Bytes())) ==>
                  0 <= sigBytes <= out.sigBytes && o + out.Bytes()[..sigBytes] == x
    {
      hide Process, Keyed.Valid, Padding, UnpaddedSize, Encrypted, Start, BytesIn, Pack, Joined, AppendsClamped,
        TailHarmless, Encryptor, Decryptor, Reached;
      AlgorithmsValid(k);
      ghost var start, last := buffer.Abs(), if e == null then [] else e.Bytes();
      assert start.pending + [] == start.pending;
      if e != null {
        buffer.AppendData(e);
      }
      ghost var s := buffer.Abs();
      assert s == Append(start, last);
      if encrypting {
        out := PadAndRun(s);
        sigBytes := out.sigBytes;
        EncryptionCloses(k, iv, start, last, out.Bytes());
      } else {
        ghost var words := buffer.data.words;
        out, sigBytes := RunAndUnpad(s);
        DecryptionCloses(k, iv, start, last, words, out.words, out.sigBytes);
      }
    }
  }

  /** The stream `s` is what is left, and `o` what has come out, after `m` has gone in. */
  ghost predicate Reached(alg: Algorithm<Chain>, iv: seq<Word>, s: Stream<Chain>, m: seq<Byte>, o: seq<Byte>) {
    alg.Valid() && (s, o) == Process(alg, Append(Start(iv), m), false)
  }

  lemma EncryptionCloses(k: Keyed, iv: seq<Word>, s: Stream<Chain>, last: seq<Byte>, tail: seq<Byte>)
    requires k.Valid() && Encryptor(k).Valid() && 0 < k.size < 64
    requires var rest := s.pending + last;
             tail == Process(Encryptor(k), Stream(s.st, rest + Padding(k.size, |rest|)), true).1
    ensures forall m, o :: Reached(Encryptor(k), iv, s, m, o) ==> o + tail == Encrypted(k, iv, m + last)
  {
    hide Process, Keyed.Valid, Padding, Encrypted, Start, Encryptor;
    forall m, o | Reached(Encryptor(k), iv, s, m, o)
      ensures o + tail == Encrypted(k, iv, m + last)
    {
      EncryptionContinues(k, iv, m, last);
    }
  }

  lemma DecryptionCloses(k: Keyed, iv: seq<Word>, s: Stream<Chain>, last: seq<Byte>, ws: seq<Word>, out: seq<Word>, n: nat)
    requires k.Valid() && Decryptor(k).Valid() && 0 < k.size < 64
    requires n == |s.pending + last|
    requires TailHarmless(Decryptor(k), ws, n, true) ==> BytesIn(out, n) == Process(Decryptor(k), Append(s, last), true).1
    ensures forall m, o, x :: Reached(Decryptor(k), iv, s, m, o) && Encrypted(k, iv, x) == m + last ==>
              0 <= UnpaddedSize(out, n) <= n && o + BytesIn(out, n)[..UnpaddedSize(out, n)] == x
  {
    hide Process, Keyed.Valid, Encrypted, Start, Decryptor, UnpaddedSize, BytesIn, TailHarmless, Unpadded, Count;
    BytesInSize(out, n);
    forall m, o, x | Reached(Decryptor(k), iv, s, m, o) && Encrypted(k, iv, x) == m + last
      ensures 0 <= UnpaddedSize(out, n) <= n && o + BytesIn(out, n)[..UnpaddedSize(out, n)] == x
    {
      CiphertextCloses(k, iv, m, last, x, ws, n);
      DecryptionUnpads(k, iv, x, m, last);
      UnpaddedCount(out, n);
    }
  }

  lemma FedMore(alg: Algorithm<Chain>, iv: seq<Word>, m: seq<Byte>, more: seq<Byte>)
    requires alg.Valid()
    ensures var (s, o) := Process(alg, Append(Start(iv), m), false);
            var (t, out) := Process(alg, Append(s, more), false);
            Process(alg, Append(Start(iv), m + more), false) == (t, o + out)
  {
    hide Process;
    AppendToStart(iv, m);
    AppendToStart(iv, m + more);
    ProcessSplit(alg, Chain(Some(iv), []), m, more, false);
  }

  lemma ClampedHarmless<S(!new)>(alg: Algorithm<S>, ws: seq<Word>, n: nat)
    requires alg.blockSize > 0 && ws == Pack(BytesIn(ws, n))
    ensures TailHarmless(alg, ws, n, true)
  {
  }

  /** A decryptor that has been given a whole ciphertext has whole blocks pending, so that no tail can disturb it. */
  lemma CiphertextCloses(k: Keyed, iv: seq<Word>, m: seq<Byte>, last: seq<Byte>, x: seq<Byte>, ws: seq<Word>, n: nat)
    requires k.Valid() && Decryptor(k).Valid() && 0 < k.size < 64
    requires Encrypted(k, iv, x) == m + last
    requires n == |Process(Decryptor(k), Append(Start(iv), m), false).0.pending + last|
    ensures TailHarmless(Decryptor(k), ws, n, true) && n % 4 == 0
  {
    hide Process, Encrypted, Keyed.Valid, Padding, PadCount;
    EncryptedDecrypts(k, iv, x);
    AppendToStart(iv, m);
    PendingAfter(Decryptor(k), Chain(Some(iv), []), m);
    hide Decryptor;
    AlgorithmSizes(k);
    WholeBlocksPadded(k.size, |x|);
    WholeRest(|m + last|, Decryptor(k).BlocksIn(|m|, false), k.size, n);
  }

  lemma WholeRest(n: nat, t: nat, size: nat, rest: nat)
    requires size > 0 && n % (4 * size) == 0 && n == rest + t * (4 * size)
    ensures rest % (4 * size) == 0 && rest % 4 == 0
  {
    QuotientShift(n, t, 4 * size);
    var q := rest / (4 * size);
    assert rest == q * (4 * size);
    Mul4(q, size);
  }

  lemma UnpaddedCount(words: seq<Word>, n: nat)
    requires n > 0 && n % 4 == 0 && Count(BytesIn(words, n)[n - 1]) <= n
    ensures 0 <= UnpaddedSize(words, n) <= n
    ensures BytesIn(words, n)[..UnpaddedSize(words, n)] == Unpadded(BytesIn(words, n))
  {
    hide UnpaddedSize;
    LastByte(words, n);
  }
}
