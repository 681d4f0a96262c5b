/**
 Rabbit as a stream cipher over the buffering layer (js/rollups/rabbit-legacy.js:11, 24-25, 36): what encryption does to
 each byte of a message, whatever the chunks it arrives in, and the cipher object.
 */
module RabbitStream {
  import opened WordArrays
  import opened BufferedBlocks
  import opened Sequences
  import opened Rabbit
  import opened RabbitCipher

  function Step(s: State, block: seq<Word>): (State, seq<Word>) {
    var t := Next(s);
    (t, if |block| == 4 then XorWords(block, Keystream(t.x)) else block)
  }

  function Encryptor(): Algorithm<State> {
    Algorithm((s: State, block: seq<Word>) => Step(s, block), 4, 0)
  }

  lemma EncryptorValid()
    ensures Encryptor().Valid()
  {
    hide Next, Keystream;
  }

  /** Octet `i` of the keystream from state `s`: octets of a block count from its least significant end. */
  function KeyByte(s: State, i: nat): Byte {
    ByteOf(KeyWord(After(s, i / 16 + 1).x, i % 16 / 4), 3 - i % 4)
  }

  /** Section 2.8 of RFC 4503: each octet is combined with the keystream octet at its position. */
  function Encrypted(s: State, m: seq<Byte>): (r: seq<Byte>)
    ensures |r| == |m|
  {
    seq(|m|, i requires 0 <= i < |m| => XorByte(m[i], KeyByte(s, i)))
  }

  function StreamWord(s: State, i: nat): Word {
    SwapBytes(KeyWord(After(s, i / 4 + 1).x, i % 4))
  }

  lemma KeystreamWord(s: State, n: nat, k: nat)
    requires k < 4
    ensures Keystream(After(s, n + 1).x)[k] == StreamWord(s, 4 * n + k)
  {
    hide After, KeyWord, SwapBytes;
    assert (4 * n + k) / 4 == n && (4 * n + k) % 4 == k;
  }

  lemma StepWords(s: State, ws: seq<Word>, n: nat)
    ensures var (t, block) := Step(After(s, n), BlockAt(ws, n * 4, 4));
            && t == After(s, n + 1) && |block| == 4
            && forall k: nat | k < 4 :: block[k] == WordArrays.Xor(Get(ws, 4 * n + k), StreamWord(s, 4 * n + k))
  {
    hide Next, WordArrays.Xor, StreamWord, Keystream;
    KeystreamWord(s, n, 0);
    KeystreamWord(s, n, 1);
    KeystreamWord(s, n, 2);
    KeystreamWord(s, n, 3);
  }

  lemma {:induction false} RunWords(s: State, ws: seq<Word>, n: nat)
    requires Encryptor().Valid()
    ensures Run(Encryptor(), s, ws, n).0 == After(s, n)
    ensures forall i: nat | i < 4 * n :: Run(Encryptor(), s, ws, n).1[i] == WordArrays.Xor(Get(ws, i), StreamWord(s, i))
    decreases n
  {
    hide Step, After, WordArrays.Xor, StreamWord;
    if n == 0 {
      Start(s);
    } else {
      RunWords(s, ws, n - 1);
      StepWords(s, ws, n - 1);
      var out := Run(Encryptor(), s, ws, n - 1).1;
      var block := Step(After(s, n - 1), BlockAt(ws, (n - 1) * 4, 4)).1;
      assert Run(Encryptor(), s, ws, n).1 == out + block;
      forall i: nat | 4 * (n - 1) <= i < 4 * n
        ensures (out + block)[i] == WordArrays.Xor(Get(ws, i), StreamWord(s, i))
      {
        assert (out + block)[i] == block[i - 4 * (n - 1)];
      }
    }
  }

  lemma Start(s: State)
    ensures After(s, 0) == s
  {
  }

  /** Whatever follows the `n` bytes in the words, a run over them combines each with its keystream octet. */
  lemma RunBytes(s: State, ws: seq<Word>, n: nat, k: nat)
    requires Encryptor().Valid() && n <= 16 * k
    ensures BytesIn(Run(Encryptor(), s, ws, k).1, n) == Encrypted(s, BytesIn(ws, n))
  {
    hide Next, WordArrays.Xor, SwapBytes, KeyWord, Run, ByteOf, XorByte, After;
    RunWords(s, ws, k);
    var out := Run(Encryptor(), s, ws, k).1;
    forall i: nat | i < n
      ensures ByteAt(out, i) == Encrypted(s, BytesIn(ws, n))[i]
    {
      assert BytesIn(ws, n)[i] == ByteAt(ws, i);
      XorBytewise(Get(ws, i / 4), StreamWord(s, i / 4), i % 4);
      SwappedByte(KeyWord(After(s, i / 4 / 4 + 1).x, i / 4 % 4), i % 4);
      assert i / 4 / 4 == i / 16 && i / 4 % 4 == i % 16 / 4;
    }
  }

  lemma FlushedBlocks(n: nat)
    requires Encryptor().Valid()
    ensures n <= 16 * Encryptor().BlocksIn(n, true) && Consumed(Encryptor(), n, true) == n
  {
    ConsumedWords(Encryptor(), n, true);
  }

  /** The closing call turns out every byte, a partial last block included. */
  lemma OneShot(s: State, m: seq<Byte>)
    requires Encryptor().Valid()
    ensures Process(Encryptor(), Stream(s, m), true).1 == Encrypted(s, m)
  {
    hide Run, Pack, BytesIn, Encrypted, Step;
    FlushedBlocks(|m|);
    BytesInPack(m);
    RunBytes(s, Pack(m), |m|, Encryptor().BlocksIn(|m|, true));
  }

  /** The bytes that come out of a run of `process` calls and a closing `finalize`. */
  function Outputs(s: State, chunks: seq<seq<Byte>>, last: seq<Byte>): seq<Byte>
    requires Encryptor().Valid()
  {
    var (st, out) := Feed(Encryptor(), Stream(s, []), chunks);
    out + Process(Encryptor(), Append(st, last), true).1
  }

  /** Chunks change nothing: every byte meets the keystream byte at its own position. */
  lemma PositionDecides(s: State, chunks: seq<seq<Byte>>, last: seq<Byte>)
    ensures Encryptor().Valid()
    ensures Outputs(s, chunks, last) == Encrypted(s, Flatten(chunks) + last)
  {
    hide Process, Feed, Encrypted, Step;
    EncryptorValid();
    ChunksDoNotMatter(Encryptor(), s, chunks, last, true);
    OneShot(s, Flatten(chunks) + last);
  }

  /** From one key and IV, encrypting what encryption gave returns the message, for every length and all chunkings. */
  lemma TwiceIsIdentity(s: State, chunks: seq<seq<Byte>>, last: seq<Byte>, chunks': seq<seq<Byte>>, last': seq<Byte>)
    ensures Encryptor().Valid()
    ensures Flatten(chunks') + last' == Outputs(s, chunks, last) ==> Outputs(s, chunks', last') == Flatten(chunks) + last
  {
    hide KeyByte, Outputs, XorByte;
    PositionDecides(s, chunks, last);
    PositionDecides(s, chunks', last');
    var m := Flatten(chunks) + last;
    forall i | 0 <= i < |m|
      ensures Encrypted(s, Encrypted(s, m))[i] == m[i]
    {
      XorByteCancels(m[i], KeyByte(s, i));
    }
    assert Encrypted(s, Encrypted(s, m)) == m;
  }

  // ----- the object

  /** The stream `s` is what is left, and `o` what has come out, after `m` has gone in. */
  ghost predicate Reached(start: State, s: Stream<State>, m: seq<Byte>, o: seq<Byte>) {
    Encryptor().Valid() && (s, o) == Process(Encryptor(), Stream(start, m), false)
  }

  lemma ReachedMore(start: State, s: Stream<State>, more: seq<Byte>)
    requires Encryptor().Valid()
    ensures var (t, out) := Process(Encryptor(), Append(s, more), false);
            forall m, o :: Reached(start, s, m, o) ==> Reached(start, t, m + more, o + out)
  {
    hide Process, Step;
    forall m, o | Reached(start, s, m, o)
      ensures var (t, out) := Process(Encryptor(), Append(s, more), false); Reached(start, t, m + more, o + out)
    {
      ProcessSplit(Encryptor(), start, m, more, false);
    }
  }

  lemma ReachedEnd(start: State, s: Stream<State>, last: seq<Byte>)
    requires Encryptor().Valid()
    ensures forall m, o :: Reached(start, s, m, o) ==> o + Encrypted(s.st, s.pending + last) == Encrypted(start, m + last)
  {
    hide Process, Encrypted, Step;
    forall m, o | Reached(start, s, m, o)
      ensures o + Encrypted(s.st, s.pending + last) == Encrypted(start, m + last)
    {
      ProcessSplit(Encryptor(), start, m, last, true);
      OneShot(start, m + last);
      OneShot(s.st, s.pending + last);
    }
  }

  /** The stream cipher object over the buffering layer; encryption and decryption are the same. */
  class StreamCipher {
    const buffer: BufferedBlockAlgorithm<State>
    ghost const start: State

    ghost predicate Valid() {
      buffer.Valid() && buffer.alg == Encryptor()
    }

    /** The bytes of `m` have gone in since the start, and those of `o` have come out. */
    ghost predicate Fed(m: seq<Byte>, o: seq<Byte>)
      reads buffer, buffer.data
    {
      Reached(start, buffer.Abs(), m, o)
    }

    constructor (key: seq<Word>, iv: Iv)
      requires |key| >= 4
      ensures Valid() && fresh(buffer) && fresh(buffer.data)
      ensures start == Setup(key, iv) && Fed([], [])
    {
      hide Process, Step, Setup;
      EncryptorValid();
      NothingToProcess(Encryptor(), Setup(key, iv));
      start := Setup(key, iv);
      buffer := new BufferedBlockAlgorithm<State>(Encryptor(), Setup(key, iv));
    }

    /** `process`, with any array but the buffer itself. */
    method ProcessChunk(e: WordArray) returns (out: WordArray)
      requires Valid() && e != buffer.data
      modifies buffer, buffer.data
      ensures buffer.data == old(buffer.data)
      ensures forall m, o :: old(Fed(m, o)) ==> Fed(m + old(e.Bytes()), o + out.Bytes())
    {
      hide Process, Step, BytesIn, Pack, Joined, AppendsClamped, Run, Reached;
      EncryptorValid();
      ghost var s, bs := buffer.Abs(), e.Bytes();
      buffer.AppendData(e);
      NoFlush(buffer.data.words, buffer.data.sigBytes);
      out := buffer.ProcessData(false);
      ReachedMore(start, s, bs);
    }

    /**
     `finalize`: every byte given comes out combined with the keystream octet at its position. A partial block is flushed
     as it is; what its words hold past the message only meets keystream that is not handed out.
     */
    method Finalize(e: WordArray?) returns (out: WordArray)
      requires Valid() && e != buffer.data
      modifies buffer, buffer.data
      ensures buffer.data == old(buffer.data)
      ensures forall m, o :: old(Fed(m, o)) ==>
                o + out.Bytes() == Encrypted(start, m + if e == null then [] else old(e.Bytes()))
    {
      hide Process, Step, BytesIn, Pack, Joined, AppendsClamped, Run, Reached, Encrypted;
      EncryptorValid();
      ghost var s, last := buffer.Abs(), if e == null then [] else e.Bytes();
      assert s.pending + [] == s.pending;
      if e != null {
        buffer.AppendData(e);
      }
      ghost var n := buffer.data.sigBytes;
      FlushedBlocks(n);
      RunBytes(buffer.state, buffer.data.words, n, Encryptor().BlocksIn(n, true));
      out := buffer.ProcessData(true);
      ReachedEnd(start, s, last);
    }
  }

  lemma NoFlush(ws: seq<Word>, n: nat)
    requires Encryptor().Valid()
    ensures TailHarmless(Encryptor(), ws, n, false)
  {
  }

  /** One call of the helper's `encrypt` or `decrypt`: the bytes of RFC 4503, whatever the tail of the message array holds. */
  method Crypt(key: seq<Word>, iv: Iv, message: WordArray) returns (out: WordArray)
    requires |key| >= 4
    ensures out.Bytes() == Encrypted(Setup(key, iv), message.Bytes())
  {
    hide Encrypted, BytesIn, Reached, Setup;
    ghost var m := message.Bytes();
    var cipher := new StreamCipher(key, iv);
    out := cipher.Finalize(message);
    assert [] + m == m && [] + out.Bytes() == out.Bytes();
  }
}
