/**
 The hasher objects that HMAC drives (js/rollups/pbkdf2.js:11-12), for any hash function built from blocks. Some keep
 their state in a word array and hand out that very array from `finalize` (js/rollups/pbkdf2.js:15); others make a new
 array of the state's words (js/rollups/hmac-sha512.js:23, js/sha3.js:18). `reset` leaves an array handed out to the
 caller and starts with new ones.
 */
module Hashers {
  import Arithmetic
  import opened Sequences
  import opened WordArrays
  import opened B = BufferedBlocks

  /**
   A block function and the state it starts from; the standard's closing words for the pending bytes of a message of so
   many bytes; what `_doFinalize` makes of the buffer's words, their significant bytes and the bytes of the whole message,
   and the number of pending bytes below which it pads as it should; the words it hands out and how many bytes of them
   count; and whether those words are the array in which the state is kept.
   */
  datatype HashFunction<!S(!new)> = HashFunction(
    alg: Algorithm<S>,
    initial: S,
    pad: (seq<Byte>, nat) -> seq<Word>,
    limit: nat,
    close: (seq<Word>, nat, nat) -> seq<Word>,
    output: S -> seq<Word>,
    outBytes: nat,
    live: bool)
  {
    function BlockSize(): nat {
      alg.blockSize
    }

    /** The closing words for the pending bytes `p` of a message of `n`. */
    function Pad(p: seq<Byte>, n: nat): seq<Word> {
      pad(p, n)
    }

    /** On clamped words `_doFinalize` pads, below a limit that leaves room for two blocks. */
    ghost predicate ClosesBelow() {
      && 8 * alg.blockSize < limit
      && forall p: seq<Byte>, n: nat | |p| < limit :: close(Pack(p), |p|, n) == Pad(p, n)
    }

    /** Padded messages fill whole blocks, and padding after whole blocks pads the message. */
    ghost predicate PadsBlocks() {
      && alg.blockSize > 0
      && (forall p: seq<Byte>, n: nat :: |Pad(p, n)| % alg.blockSize == 0)
      && (forall m: seq<Byte>, k: nat | 4 * (k * alg.blockSize) <= |m| ::
            Pad(m, |m|) == Pack(m[..4 * (k * alg.blockSize)]) + Pad(m[4 * (k * alg.blockSize)..], |m|))
    }

    /** Every word of the output counts. */
    ghost predicate FullWidth() {
      outBytes % 4 == 0 && forall s: S :: 4 * |output(s)| == outBytes
    }

    function Width(): nat {
      outBytes / 4
    }

    ghost predicate Valid() {
      && alg.Valid() && alg.minBufferSize == 0
      && (live ==> FullWidth())
      && PadsBlocks() && ClosesBelow()
    }

    /** A digest fits a block, so that it can be a key. */
    ghost predicate Keys() {
      Valid() && outBytes <= 4 * alg.blockSize
    }

    /** What HMAC and PBKDF2 need of a hash function. */
    ghost predicate Sound() {
      Keys() && FullWidth() && outBytes > 0
    }

    /** The state after the words of a padded message. */
    function Closed(st: S, ws: seq<Word>): S
      requires alg.Valid()
    {
      Run(alg, st, ws, |ws| / alg.blockSize).0
    }

    /** The words of the digest of a whole message. */
    function Digest(m: seq<Byte>): seq<Word>
      requires alg.Valid()
    {
      output(Closed(initial, Pad(m, |m|)))
    }

    function DigestBytes(m: seq<Byte>): (d: seq<Byte>)
      requires alg.Valid()
      ensures |d| == outBytes
    {
      BytesIn(Digest(m), outBytes)
    }
  }

  /** The state after the bytes of `m`, in whatever chunks they came. */
  function After<S(!new)>(h: HashFunction<S>, m: seq<Byte>): Stream<S>
    requires h.Valid()
  {
    Process(h.alg, Stream(h.initial, m), false).0
  }

  lemma AfterMore<S(!new)>(h: HashFunction<S>, m: seq<Byte>, more: seq<Byte>)
    requires h.Valid()
    ensures Process(h.alg, Append(After(h, m), more), false).0 == After(h, m + more)
  {
    hide Process, HashFunction.PadsBlocks;
    ProcessSplit(h.alg, h.initial, m, more, false);
  }

  lemma AfterNothing<S(!new)>(h: HashFunction<S>)
    requires h.Valid()
    ensures After(h, []) == Stream(h.initial, [])
  {
    hide Process, HashFunction.PadsBlocks;
    NothingToProcess(h.alg, h.initial);
  }

  /** Less than a block is pending after any number of bytes. */
  lemma PendingBelowBlock<S(!new)>(h: HashFunction<S>, m: seq<Byte>)
    requires h.Valid()
    ensures |After(h, m).pending| < 4 * h.BlockSize()
    ensures 8 * h.BlockSize() < h.limit
  {
    hide Process, HashFunction.PadsBlocks;
    HeldBack(h.alg, Stream(h.initial, m));
  }

  lemma PendingWithin<S(!new)>(h: HashFunction<S>, m: seq<Byte>)
    requires h.Valid()
    ensures |After(h, m).pending| <= |m|
  {
    hide Process, HashFunction.PadsBlocks, HashFunction.ClosesBelow;
    WholeBlocks(h.alg, h.initial, m);
  }

  lemma NothingPending<S(!new)>(h: HashFunction<S>, m: seq<Byte>)
    requires h.Valid() && |m| % (4 * h.BlockSize()) == 0
    ensures After(h, m).pending == []
  {
    hide Process, HashFunction.PadsBlocks, HashFunction.ClosesBelow;
    HeldBack(h.alg, Stream(h.initial, m));
  }

  lemma ClosingPads<S(!new)>(h: HashFunction<S>, p: seq<Byte>, n: nat)
    requires h.Valid() && |p| < h.limit
    ensures h.close(Pack(p), |p|, n) == h.Pad(p, n)
  {
    hide Pack, HashFunction.Pad, HashFunction.PadsBlocks;
  }

  /** Closing the state after `m` gives the digest of `m`, if the bytes still pending stay below the limit. */
  lemma ClosingGivesDigest<S(!new)>(h: HashFunction<S>, m: seq<Byte>, last: seq<Byte>)
    requires h.Valid()
    requires |Append(After(h, m), last).pending| < h.limit
    ensures var s := Append(After(h, m), last);
            h.output(h.Closed(s.st, h.close(Pack(s.pending), |s.pending|, |m + last|))) == h.Digest(m + last)
  {
    hide Process, Run, Pack, HashFunction.Pad, HashFunction.FullWidth, HashFunction.ClosesBelow;
    ClosingPads(h, Append(After(h, m), last).pending, |m + last|);
    var size := h.alg.blockSize;
    var n1, j := h.alg.BlocksIn(|m|, false), Consumed(h.alg, |m|, false);
    WholeBlocks(h.alg, h.initial, m);
    var x := m + last;
    assert x[j..] == m[j..] + last && x[..j] == m[..j];
    PadSplits(h, x, n1);
    hide HashFunction.PadsBlocks, Algorithm.BlocksIn, Consumed;
    var ws := h.Pad(x[j..], |x|);
    RunContinues(h.alg, h.initial, m, ws, |ws| / size);
  }

  /** So it is however the bytes came in chunks. */
  lemma ClosedChunks<S(!new)>(h: HashFunction<S>, chunks: seq<seq<Byte>>, last: seq<Byte>)
    requires h.Valid()
    ensures h.alg.Valid()
    ensures var s := Append(Feed(h.alg, Stream(h.initial, []), chunks).0, last);
            && s == Append(After(h, Flatten(chunks)), last)
            && (|s.pending| < h.limit ==>
                h.output(h.Closed(s.st, h.close(Pack(s.pending), |s.pending|, |Flatten(chunks) + last|))) ==
                h.Digest(Flatten(chunks) + last))
  {
    hide Process, Feed, Pack, HashFunction.Closed, HashFunction.Digest, HashFunction.PadsBlocks, HashFunction.ClosesBelow;
    ChunksDoNotMatter(h.alg, h.initial, chunks, [], false);
    if |Append(After(h, Flatten(chunks)), last).pending| < h.limit {
      ClosingGivesDigest(h, Flatten(chunks), last);
    }
  }

  /** Padding after `k` whole blocks: the words, and how many blocks they fill. */
  lemma PadSplits<S(!new)>(h: HashFunction<S>, m: seq<Byte>, k: nat)
    requires h.Valid() && 4 * (k * h.alg.blockSize) <= |m|
    ensures var j := 4 * (k * h.alg.blockSize);
            var ws := h.Pad(m[j..], |m|);
            h.Pad(m, |m|) == Pack(m[..j]) + ws && |h.Pad(m, |m|)| / h.alg.blockSize == k + |ws| / h.alg.blockSize
  {
    hide Pack, HashFunction.Pad, HashFunction.FullWidth, Algorithm.Valid;
    var j := 4 * (k * h.alg.blockSize);
    assert h.Pad(m, |m|) == Pack(m[..j]) + h.Pad(m[j..], |m|);
    hide HashFunction.PadsBlocks;
    PackLength(m[..j]);
    Arithmetic.QuotientShift(|h.Pad(m[j..], |m|)|, k, h.alg.blockSize);
  }

  lemma HashIsBuilt<S(!new)>(h: HashFunction<S>)
    requires h.Valid()
    ensures h.alg.Valid() && h.alg.minBufferSize == 0
    ensures h.live ==> h.FullWidth()
  {
  }

  lemma SoundWidth<S(!new)>(h: HashFunction<S>)
    requires h.Sound()
    ensures h.Keys() && h.Valid() && h.FullWidth() && h.Width() > 0 && 4 * h.Width() == h.outBytes <= 4 * h.BlockSize()
  {
  }

  lemma KeysFit<S(!new)>(h: HashFunction<S>)
    requires h.Keys()
    ensures h.Valid() && h.alg.Valid() && h.BlockSize() > 0 && 4 * h.BlockSize() + h.outBytes < h.limit
  {
  }

  lemma OutputWidth<S(!new)>(h: HashFunction<S>, s: S)
    requires h.FullWidth()
    ensures 4 * |h.output(s)| == h.outBytes
  {
  }

  /** How many blocks `_process` finds in whole words, and that their state is the closed one. */
  lemma WholeWordsClosed<S(!new)>(h: HashFunction<S>, st: S, ws: seq<Word>)
    requires h.alg.Valid() && h.alg.minBufferSize == 0
    ensures Run(h.alg, st, ws, h.alg.BlocksIn(4 * |ws|, false)).0 == h.Closed(st, ws)
  {
    hide Run;
    var b := h.alg.blockSize;
    var q := |ws| / b;
    assert |ws| == q * b + |ws| % b;
    Arithmetic.Mul4(q, b);
    Arithmetic.QuotientUnique(4 * |ws|, q, 4 * (|ws| % b), h.alg.BlockBytes());
  }

  class Hasher<S(!new)> {
    const h: HashFunction<S>
    const buffer: BufferedBlockAlgorithm<S>
    // the array that holds the state, if results are live
    var hash: WordArray

    ghost predicate Valid()
      reads this, buffer, hash
    {
      && h.Valid() && buffer.alg == h.alg
      && hash != buffer.data
      && (h.live ==> hash.words == h.output(buffer.state) && hash.sigBytes == h.outBytes)
    }

    ghost function Repr(): set<object>
      reads this, buffer
    {
      {this, buffer, buffer.data, hash}
    }

    /** The bytes of `m` have been fed since the last reset. */
    ghost predicate Fed(m: seq<Byte>)
      reads this, buffer, buffer.data
    {
      h.Valid() && buffer.Abs() == After(h, m) && buffer.nDataBytes == |m|
    }

    /** Once `a` is appended the buffer is clamped. */
    ghost predicate Joins(a: WordArray?)
      reads this, buffer, buffer.data, a
    {
      if a == null then buffer.data.Clamped() else buffer.data.sigBytes % 4 != 0 || AppendsClamped(a.words, a.sigBytes)
    }

    /** By then it holds so few bytes that `_doFinalize` pads them. */
    ghost predicate Closes(a: WordArray?)
      reads this, buffer, buffer.data, a
    {
      Joins(a) && buffer.data.sigBytes + (if a == null then 0 else a.sigBytes) < h.limit
    }

    /** So it is after `reset` or any updates, for anything not longer than a block. */
    lemma ClosesShort(m: seq<Byte>, a: WordArray?)
      requires Fed(m) && Joins(a) && (a == null || a.sigBytes <= 4 * h.BlockSize())
      ensures Closes(a)
    {
      hide After, BytesIn, Joins, HashFunction.Valid;
      PendingBelowBlock(h, m);
    }

    /** The buffer's words once `a` is appended. */
    function Pending(a: WordArray?): (seq<Word>, nat)
      reads this, buffer, buffer.data, a
    {
      if a == null then (buffer.data.words, buffer.data.sigBytes)
      else (Joined(buffer.data.words, buffer.data.sigBytes, a.words, a.sigBytes), buffer.data.sigBytes + a.sigBytes)
    }

    constructor (h: HashFunction<S>)
      requires h.Valid()
      ensures Valid() && fresh(Repr()) && this.h == h
      ensures Fed([]) && buffer.data.Clamped() && buffer.data.sigBytes == 0
    {
      hide HashFunction.Valid, After, HashFunction.FullWidth;
      HashIsBuilt(h);
      this.h := h;
      hash := new WordArray(h.output(h.initial), h.outBytes);
      buffer := new BufferedBlockAlgorithm<S>(h.alg, h.initial);
      new;
      AfterNothing(h);
    }

    /** `reset`: the array handed out before is left alone. */
    method Reset()
      requires Valid()
      modifies this, buffer
      ensures Valid() && fresh(hash) && fresh(buffer.data)
      ensures Fed([]) && buffer.data.Clamped() && buffer.data.sigBytes == 0
    {
      hide HashFunction.Valid, After, HashFunction.FullWidth;
      HashIsBuilt(h);
      buffer.Reset(h.initial);
      hash := new WordArray(h.output(h.initial), h.outBytes);
      AfterNothing(h);
    }

    /** `update`, with any array but the buffer itself. */
    method Update(a: WordArray)
      requires Valid() && a != buffer.data
      modifies buffer, buffer.data, hash
      ensures Valid() && buffer.data == old(buffer.data)
      ensures forall m :: old(Fed(m)) ==> Fed(m + old(a.Bytes()))
      ensures old(Joins(a)) ==> buffer.data.Clamped()
    {
      hide HashFunction.Valid, After, Process, HashFunction.FullWidth, Run, BytesIn, Joined, AppendsClamped;
      HashIsBuilt(h);
      ghost var more := a.Bytes();
      buffer.AppendData(a);
      var out := buffer.ProcessData(false);
      if h.live {
        hash.words := h.output(buffer.state);
      }
      forall m | old(Fed(m))
        ensures Fed(m + more)
      {
        AfterMore(h, m, more);
      }
    }

    /**
     `finalize`: the digest, in the array in which the hasher keeps its state or in a new one. The closing words are
     written into the buffer as it is, so the message is padded whenever the buffer is clamped by then and below the limit.
     */
    method Finalize(a: WordArray?) returns (digest: WordArray)
      requires Valid() && a != buffer.data
      modifies buffer, buffer.data, hash
      ensures Valid() && buffer.data == old(buffer.data)
      ensures if h.live then digest == hash else fresh(digest) && hash.words == old(hash.words) && hash.sigBytes == old(hash.sigBytes)
      ensures digest.sigBytes == h.outBytes && (h.FullWidth() ==> 4 * |digest.words| == h.outBytes)
      ensures var (ws, n) := old(Pending(a));
              h.alg.Valid() &&
              digest.words == h.output(h.Closed(old(buffer.state), h.close(ws, n, old(buffer.nDataBytes) + n - old(buffer.data.sigBytes))))
      ensures forall m :: old(Fed(m) && Closes(a)) ==> digest.words == h.Digest(m + if a == null then [] else old(a.Bytes()))
    {
      hide HashFunction.Valid, After, Process, Run, HashFunction.FullWidth, BytesIn, Joined, AppendsClamped, Pack,
        HashFunction.Closed;
      HashIsBuilt(h);
      ghost var start, more := buffer.Abs(), if a == null then [] else a.Bytes();
      assert start.pending + [] == start.pending;
      if a != null {
        buffer.AppendData(a);
      }
      ghost var s := buffer.Abs();
      assert s == Append(start, more) && buffer.nDataBytes == old(buffer.nDataBytes) + |more|;
      ghost var clean := buffer.data.Clamped();
      assert old(Closes(a)) ==> clean;
      var ws := h.close(buffer.data.words, buffer.data.sigBytes, buffer.nDataBytes);
      buffer.data.words := ws;
      buffer.data.sigBytes := 4 * |ws|;
      var out := buffer.ProcessData(false);
      WholeWordsClosed(h, s.st, ws);
      if h.live {
        hash.words := h.output(buffer.state);
        digest := hash;
      } else {
        digest := new WordArray(h.output(buffer.state), h.outBytes);
      }
      if h.FullWidth() {
        OutputWidth(h, buffer.state);
      }
      forall m | old(Fed(m) && Closes(a))
        ensures digest.words == h.Digest(m + more)
      {
        ClosingGivesDigest(h, m, more);
      }
    }
  }

  /** `_createHelper`: hash one message with a new object. */
  method HashOf<S(!new)>(h: HashFunction<S>, message: WordArray) returns (digest: WordArray)
    requires h.Valid()
    ensures fresh(digest) && digest.sigBytes == h.outBytes
    ensures AppendsClamped(message.words, message.sigBytes) && message.sigBytes < h.limit ==>
              digest.words == h.Digest(message.Bytes())
  {
    hide HashFunction.Valid, HashFunction.Digest, HashFunction.Closed, HashFunction.Pad, HashFunction.FullWidth,
      Hasher.Fed, BytesIn, AppendsClamped, Joined, Pack, Hasher.Pending;
    HashIsBuilt(h);
    var hasher := new Hasher<S>(h);
    digest := hasher.Finalize(message);
    assert [] + message.Bytes() == message.Bytes();
  }
}
