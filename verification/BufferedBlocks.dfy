/**
 The buffering layer under every hasher and cipher (js/rollups/aes.js:11-12, 24-25). The method that each algorithm
 overrides, `_doProcessBlock`, is a function-valued field: it takes the algorithm's state and one block of words and
 gives the next state and the words it leaves in place of the block.
 */
module BufferedBlocks {
  import opened Arithmetic
  import opened Sequences
  import opened WordArrays

  datatype Algorithm<!S(!new)> = Algorithm(
    step: (S, seq<Word>) -> (S, seq<Word>),
    blockSize: nat,
    minBufferSize: nat)
  {
    /** Blocks are not empty, and a step rewrites a block in place. */
    ghost predicate Valid() {
      && blockSize > 0
      && forall s: S, block: seq<Word> | |block| == blockSize :: |step(s, block).1| == blockSize
    }

    function BlockBytes(): nat {
      4 * blockSize
    }

    /** How many blocks `_process` takes from `n` buffered bytes. */
    function BlocksIn(n: nat, flush: bool): nat
      requires blockSize > 0
    {
      if flush then (n + BlockBytes() - 1) / BlockBytes()
      else if n / BlockBytes() < minBufferSize then 0
      else n / BlockBytes() - minBufferSize
    }
  }

  /** Words `i`, ..., `i + n - 1`. */
  function BlockAt(ws: seq<Word>, i: nat, n: nat): (block: seq<Word>)
    ensures |block| == n
  {
    seq(n, k requires 0 <= k => Get(ws, i + k))
  }

  /** The state and the output words after the first `n` blocks of `ws`. */
  function Run<S(!new)>(alg: Algorithm<S>, st: S, ws: seq<Word>, n: nat): (r: (S, seq<Word>))
    requires alg.Valid()
    ensures |r.1| == n * alg.blockSize
  {
    if n == 0 then (st, []) else
    var (st1, out) := Run(alg, st, ws, n - 1);
    var (st2, block) := alg.step(st1, BlockAt(ws, (n - 1) * alg.blockSize, alg.blockSize));
    (st2, out + block)
  }

  /** What the layer stands for between calls: the algorithm's state and the bytes not yet consumed. */
  datatype Stream<S> = Stream(st: S, pending: seq<Byte>)

  function Append<S>(s: Stream<S>, bs: seq<Byte>): Stream<S> {
    s.(pending := s.pending + bs)
  }

  function Consumed<S(!new)>(alg: Algorithm<S>, n: nat, flush: bool): nat
    requires alg.Valid()
  {
    var m := alg.BlocksIn(n, flush) * alg.BlockBytes();
    if m <= n then m else n
  }

  /** `_process`: run the blocks, hand out as many bytes as were consumed, keep the rest. */
  function Process<S(!new)>(alg: Algorithm<S>, s: Stream<S>, flush: bool): (r: (Stream<S>, seq<Byte>))
    requires alg.Valid()
  {
    var n := |s.pending|;
    var (st, ws) := Run(alg, s.st, Pack(s.pending), alg.BlocksIn(n, flush));
    var j := Consumed(alg, n, flush);
    (Stream(st, s.pending[j..]), BytesIn(ws, j))
  }

  /** A run of `process` calls, one a chunk, with the outputs joined. */
  function Feed<S(!new)>(alg: Algorithm<S>, s: Stream<S>, chunks: seq<seq<Byte>>): (r: (Stream<S>, seq<Byte>))
    requires alg.Valid()
    decreases |chunks|
  {
    if |chunks| == 0 then (s, []) else
    var (s1, out1) := Process(alg, Append(s, chunks[0]), false);
    var (s2, out2) := Feed(alg, s1, chunks[1..]);
    (s2, out1 + out2)
  }

  // ----- runs of blocks

  lemma {:induction false} RunSame<S(!new)>(alg: Algorithm<S>, st: S, v: seq<Word>, w: seq<Word>, n: nat)
    requires alg.Valid()
    requires forall i: nat | i < n * alg.blockSize :: Get(v, i) == Get(w, i)
    ensures Run(alg, st, v, n) == Run(alg, st, w, n)
  {
    if n > 0 {
      assert n * alg.blockSize == (n - 1) * alg.blockSize + alg.blockSize;
      RunSame(alg, st, v, w, n - 1);
      assert BlockAt(v, (n - 1) * alg.blockSize, alg.blockSize) == BlockAt(w, (n - 1) * alg.blockSize, alg.blockSize);
    }
  }

  lemma BlockShift(ws: seq<Word>, k: nat, i: nat, b: nat)
    requires k <= |ws|
    ensures BlockAt(ws, k + i, b) == BlockAt(ws[k..], i, b)
  {
    assert forall j: nat :: Get(ws, k + j) == Get(ws[k..], j);
  }

  lemma {:induction false} RunSplit<S(!new)>(alg: Algorithm<S>, st: S, ws: seq<Word>, m: nat, n: nat)
    requires alg.Valid() && m * alg.blockSize <= |ws|
    ensures var (st1, out1) := Run(alg, st, ws, m);
            var (st2, out2) := Run(alg, st1, ws[m * alg.blockSize..], n);
            Run(alg, st, ws, m + n) == (st2, out1 + out2)
  {
    hide BlockAt;
    var b := alg.blockSize;
    var rest := ws[m * b..];
    var (st1, out1) := Run(alg, st, ws, m);
    if n == 0 {
      assert out1 + [] == out1;
    } else {
      RunSplit(alg, st, ws, m, n - 1);
      MulDistributes(m, n - 1, b);
      BlockShift(ws, m * b, (n - 1) * b, b);
      var (st2, out2) := Run(alg, st1, rest, n - 1);
      var (st3, block) := alg.step(st2, BlockAt(rest, (n - 1) * b, b));
      assert out1 + (out2 + block) == (out1 + out2) + block;
    }
  }

  // ----- splitting the input

  lemma BlocksSplit<S(!new)>(alg: Algorithm<S>, x: nat, y: nat, flush: bool)
    requires alg.Valid()
    ensures var m := alg.BlocksIn(x, false);
            && m * alg.BlockBytes() <= x
            && alg.BlocksIn(x + y, flush) == m + alg.BlocksIn(x + y - m * alg.BlockBytes(), flush)
  {
    var b := alg.BlockBytes();
    var m := alg.BlocksIn(x, false);
    assert x == (x / b) * b + x % b;
    MulMonotone(m, x / b, b);
    QuotientShift(x + y, m, b);
    QuotientShift(x + y + b - 1, m, b);
    QuotientMonotone(x, x + y, b);
  }

  lemma JoinBytes(v: seq<Word>, w: seq<Word>, n: nat)
    ensures BytesIn(v + w, 4 * |v| + n) == BytesIn(v, 4 * |v|) + BytesIn(w, n)
  {
    PackBytesIn(v);
    BytesAligned(BytesIn(v, 4 * |v|), w, n);
  }

  lemma ConsumedSplit<S(!new)>(alg: Algorithm<S>, x: nat, y: nat, flush: bool)
    requires alg.Valid()
    ensures var j := Consumed(alg, x, false);
            && j == 4 * (alg.BlocksIn(x, false) * alg.blockSize) <= x
            && Consumed(alg, x + y, flush) == j + Consumed(alg, x + y - j, flush)
  {
    BlocksSplit(alg, x, y, flush);
    hide Algorithm.BlocksIn, Algorithm.Valid;
    var m := alg.BlocksIn(x, false);
    Mul4(m, alg.blockSize);
    MulDistributes(m, alg.BlocksIn(x + y - m * alg.BlockBytes(), flush), alg.BlockBytes());
  }

  lemma RunPackSplit<S(!new)>(alg: Algorithm<S>, st: S, x: seq<Byte>, y: seq<Byte>, m: nat, n: nat, j: nat)
    requires alg.Valid() && j == 4 * (m * alg.blockSize) <= |x|
    ensures var (st1, w1) := Run(alg, st, Pack(x), m);
            var (st2, w2) := Run(alg, st1, Pack(x[j..] + y), n);
            Run(alg, st, Pack(x + y), m + n) == (st2, w1 + w2)
  {
    hide ByteOf, PackedWord, Pack, Run;
    PackSplit(x, y, j);
    PackLength(x[..j]);
    var k := m * alg.blockSize;
    assert |Pack(x[..j])| == k;
    RunSame(alg, st, Pack(x), Pack(x + y), m);
    RunSplit(alg, st, Pack(x + y), m, n);
    assert Pack(x + y)[k..] == Pack(x[j..] + y);
  }

  /** Processing what has arrived and then the rest is processing everything at once. */
  lemma ProcessSplit<S(!new)>(alg: Algorithm<S>, st: S, x: seq<Byte>, y: seq<Byte>, flush: bool)
    requires alg.Valid()
    ensures var (s1, out1) := Process(alg, Stream(st, x), false);
            var (s2, out2) := Process(alg, Append(s1, y), flush);
            Process(alg, Stream(st, x + y), flush) == (s2, out1 + out2)
  {
    hide ByteOf, PackedWord, Pack, BytesIn, Run;
    var m := alg.BlocksIn(|x|, false);
    var j := Consumed(alg, |x|, false);
    BlocksSplit(alg, |x|, |y|, flush);
    ConsumedSplit(alg, |x|, |y|, flush);
    var rest := x[j..] + y;
    var n, i := alg.BlocksIn(|rest|, flush), Consumed(alg, |rest|, flush);
    RunPackSplit(alg, st, x, y, m, n, j);
    var (st1, w1) := Run(alg, st, Pack(x), m);
    var (st2, w2) := Run(alg, st1, Pack(rest), n);
    JoinBytes(w1, w2, i);
    assert (x + y)[j + i..] == rest[i..];
  }

  lemma {:induction false} FeedFrom<S(!new)>(alg: Algorithm<S>, st: S, x: seq<Byte>, chunks: seq<seq<Byte>>)
    requires alg.Valid()
    ensures var (s1, out1) := Process(alg, Stream(st, x), false);
            var (s2, out2) := Feed(alg, s1, chunks);
            Process(alg, Stream(st, x + Flatten(chunks)), false) == (s2, out1 + out2)
    decreases |chunks|
  {
    hide Process;
    var (s1, out1) := Process(alg, Stream(st, x), false);
    if |chunks| == 0 {
      assert x + Flatten(chunks) == x && out1 + [] == out1;
    } else {
      ProcessSplit(alg, st, x, chunks[0], false);
      FeedFrom(alg, st, x + chunks[0], chunks[1..]);
      assert x + Flatten(chunks) == (x + chunks[0]) + Flatten(chunks[1..]);
      var (s2, out2) := Process(alg, Append(s1, chunks[0]), false);
      var (s3, out3) := Feed(alg, s2, chunks[1..]);
      assert out1 + (out2 + out3) == (out1 + out2) + out3;
    }
  }

  /**
   However the input is cut into chunks, the outputs of the calls and the output of the closing call join up to what
   one call on the whole input gives, and they end in the same state.
   */
  lemma ChunksDoNotMatter<S(!new)>(alg: Algorithm<S>, st: S, chunks: seq<seq<Byte>>, last: seq<Byte>, flush: bool)
    requires alg.Valid()
    ensures var (s, out) := Feed(alg, Stream(st, []), chunks);
            var (end, tail) := Process(alg, Append(s, last), flush);
            && (s, out) == Process(alg, Stream(st, Flatten(chunks)), false)
            && (end, out + tail) == Process(alg, Stream(st, Flatten(chunks) + last), flush)
  {
    hide Process, Feed;
    FeedFrom(alg, st, [], chunks);
    NothingToProcess(alg, st);
    assert [] + Flatten(chunks) == Flatten(chunks);
    var (s, out) := Feed(alg, Stream(st, []), chunks);
    assert [] + out == out;
    ProcessSplit(alg, st, Flatten(chunks), last, flush);
  }

  lemma NothingToProcess<S(!new)>(alg: Algorithm<S>, st: S)
    requires alg.Valid()
    ensures Process(alg, Stream(st, []), false) == (Stream(st, []), [])
  {
    assert alg.BlocksIn(0, false) == 0;
    assert BytesIn([], 0) == [];
    var none: seq<Byte> := [];
    assert none[0..] == [];
  }

  /** What `process` holds back: the bytes of a block not yet complete, and `minBufferSize` whole blocks once they exist. */
  lemma HeldBack<S(!new)>(alg: Algorithm<S>, s: Stream<S>)
    requires alg.Valid()
    ensures var n := |s.pending|;
            var kept := |Process(alg, s, false).0.pending|;
            var reserve := alg.minBufferSize * alg.BlockBytes();
            if n < reserve then kept == n else kept == reserve + n % alg.BlockBytes()
  {
    hide Run, BytesIn, Pack;
    var n, b, reserve := |s.pending|, alg.BlockBytes(), alg.minBufferSize;
    var q, r := n / b, n % b;
    assert n == q * b + r;
    MulDistributes(q, 1, b);
    MulDistributes(q, reserve, b);
    MulMonotone(q + 1, reserve, b);
    MulMonotone(reserve, q, b);
    assert Consumed(alg, n, false) == if q < reserve then 0 else (q - reserve) * b;
  }

  // ----- closing a hash

  /** What has been run so far, without a reserve, is the whole blocks of the input. */
  lemma WholeBlocks<S(!new)>(alg: Algorithm<S>, st: S, x: seq<Byte>)
    requires alg.Valid() && alg.minBufferSize == 0
    ensures var n, j := alg.BlocksIn(|x|, false), Consumed(alg, |x|, false);
            var s := Process(alg, Stream(st, x), false).0;
            && j == 4 * (n * alg.blockSize) <= |x|
            && s.st == Run(alg, st, Pack(x), n).0 && s.pending == x[j..]
  {
    hide Run, Pack, BytesIn;
    ConsumedSplit(alg, |x|, 0, false);
  }

  /** Closing words run after what has been consumed are the same words run after the whole blocks of the input. */
  lemma RunContinues<S(!new)>(alg: Algorithm<S>, st: S, x: seq<Byte>, rest: seq<Word>, n2: nat)
    requires alg.Valid() && alg.minBufferSize == 0
    ensures var n1, j := alg.BlocksIn(|x|, false), Consumed(alg, |x|, false);
            var s := Process(alg, Stream(st, x), false).0;
            && j <= |x| && s.pending == x[j..]
            && Run(alg, st, Pack(x[..j]) + rest, n1 + n2).0 == Run(alg, s.st, rest, n2).0
  {
    hide Run, Pack, Process, Consumed;
    WholeBlocks(alg, st, x);
    var n1, j := alg.BlocksIn(|x|, false), Consumed(alg, |x|, false);
    var k := n1 * alg.blockSize;
    var ws := Pack(x[..j]) + rest;
    PackSplit(x, [], j);
    PackLength(x[..j]);
    RunSame(alg, st, Pack(x), ws, n1);
    RunSplit(alg, st, ws, n1, n2);
    assert ws[k..] == rest;
  }

  // ----- the object

  /** One block of the array overwritten in place; past the end the array grows. */
  function WriteBlock(ws: seq<Word>, q: nat, block: seq<Word>): (r: seq<Word>)
    requires q <= |ws|
    ensures |r| == if q + |block| <= |ws| then |ws| else q + |block|
    ensures r[..q + |block|] == ws[..q] + block
    ensures forall i: nat | q + |block| <= i :: Get(r, i) == Get(ws, i)
  {
    ws[..q] + block + if q + |block| <= |ws| then ws[q + |block|..] else []
  }

  /** What `q` whole blocks leave of a clamped array. */
  lemma RestOfPack(bs: seq<Byte>, j: nat)
    requires j <= |bs| && j % 4 == 0
    ensures Pack(bs[j..]) == Pack(bs)[j / 4..]
  {
    hide ByteOf, PackedWord;
    PackSplit(bs, [], j);
    assert bs[j..] + [] == bs[j..];
    assert bs + [] == bs;
  }

  /** How far the block loop of `_process` gets. */
  lemma ConsumedWords<S(!new)>(alg: Algorithm<S>, n: nat, flush: bool)
    requires alg.Valid()
    ensures var a := alg.BlocksIn(n, flush) * alg.blockSize;
            && Consumed(alg, n, flush) == (if 4 * a <= n then 4 * a else n)
            && (!flush ==> 4 * a <= n)
            && (flush ==> n <= 4 * a)
  {
    var b := alg.BlockBytes();
    var m := alg.BlocksIn(n, flush);
    if flush {
      assert n + b - 1 == ((n + b - 1) / b) * b + (n + b - 1) % b;
    } else {
      ConsumedSplit(alg, n, 0, false);
    }
    Mul4(m, alg.blockSize);
  }

  lemma NextMultiple(m: nat, n: nat, size: nat)
    requires m <= n && size > 0
    ensures m * size < n * size <==> m < n
    ensures m * size < n * size ==> (m + 1) * size == m * size + size <= n * size
  {
    MulDistributes(m, 1, size);
    MulMonotone(m + 1, n, size);
  }

  /** Words that lie wholly within the significant bytes are those of the clamped form. */
  lemma SignificantWord(ws: seq<Word>, n: nat, i: nat)
    requires 4 * i + 4 <= n
    ensures Get(ws, i) == Get(Pack(BytesIn(ws, n)), i)
  {
    hide ByteOf, AtByte, WordOf, PackedWord;
    var bs := BytesIn(ws, n);
    forall k: nat | k < 4
      ensures ByteOf(Get(ws, i), k) == ByteOf(PackedWord(bs, i), k)
    {
      PackedByte(bs, i, k);
      assert (4 * i + k) / 4 == i && (4 * i + k) % 4 == k;
      assert bs[4 * i + k] == ByteAt(ws, 4 * i + k);
    }
    WordExt(Get(ws, i), PackedWord(bs, i));
  }

  /** Blocks of significant bytes only are not affected by what follows those bytes. */
  lemma RunSignificant<S(!new)>(alg: Algorithm<S>, st: S, ws: seq<Word>, n: nat, m: nat)
    requires alg.Valid() && 4 * (m * alg.blockSize) <= n
    ensures Run(alg, st, ws, m) == Run(alg, st, Pack(BytesIn(ws, n)), m)
  {
    hide Run, Pack, BytesIn, Get;
    forall i: nat | i < m * alg.blockSize
      ensures Get(ws, i) == Get(Pack(BytesIn(ws, n)), i)
    {
      SignificantWord(ws, n, i);
    }
    RunSame(alg, st, ws, Pack(BytesIn(ws, n)), m);
  }

  lemma WholeFlush<S(!new)>(alg: Algorithm<S>, n: nat)
    requires alg.Valid() && n % alg.BlockBytes() == 0
    ensures alg.BlocksIn(n, true) == n / alg.BlockBytes()
    ensures 4 * (alg.BlocksIn(n, true) * alg.blockSize) == n
  {
    var b := alg.BlockBytes();
    var q := n / b;
    assert n == q * b + n % b;
    QuotientUnique(n + b - 1, q, b - 1, b);
    Mul4(q, alg.blockSize);
  }

  /** The tail past the bytes handed out cannot reach a block, unless a partial block is flushed. */
  ghost predicate TailHarmless<S(!new)>(alg: Algorithm<S>, ws: seq<Word>, n: nat, flush: bool)
    requires alg.blockSize > 0
  {
    !flush || n % alg.BlockBytes() == 0 || ws == Pack(BytesIn(ws, n))
  }

  lemma HarmlessTail<S(!new)>(alg: Algorithm<S>, st: S, ws: seq<Word>, n: nat, flush: bool)
    requires alg.Valid() && TailHarmless(alg, ws, n, flush)
    ensures var m := alg.BlocksIn(n, flush);
            Run(alg, st, ws, m) == Run(alg, st, Pack(BytesIn(ws, n)), m)
  {
    hide Run, Pack, BytesIn;
    var m := alg.BlocksIn(n, flush);
    if ws != Pack(BytesIn(ws, n)) {
      if flush {
        WholeFlush(alg, n);
      } else {
        ConsumedWords(alg, n, flush);
      }
      RunSignificant(alg, st, ws, n, m);
    }
  }

  lemma SplicedBytes(ws: seq<Word>, ws': seq<Word>, n: nat, a: nat)
    requires a <= |ws'| && 4 * a <= n
    requires forall i: nat | a <= i :: Get(ws', i) == Get(ws, i)
    ensures BytesIn(ws'[a..], n - 4 * a) == BytesIn(ws, n)[4 * a..]
  {
    hide ByteOf;
    forall i: nat | i < n - 4 * a
      ensures ByteAt(ws'[a..], i) == BytesIn(ws, n)[4 * a + i]
    {
      assert (4 * a + i) / 4 == a + i / 4 && (4 * a + i) % 4 == i % 4;
      assert Get(ws'[a..], i / 4) == Get(ws', a + i / 4);
    }
  }

  lemma SplicedClamped(bs: seq<Byte>, ws': seq<Word>, a: nat)
    requires 4 * a <= |bs| && |ws'| == |Pack(bs)|
    requires forall i: nat | a <= i :: Get(ws', i) == Get(Pack(bs), i)
    ensures a <= |ws'| && ws'[a..] == Pack(bs[4 * a..])
  {
    hide PackedWord, Pack;
    var ws := Pack(bs);
    PackLength(bs);
    RestOfPack(bs, 4 * a);
    forall i: nat | a <= i < |ws|
      ensures ws'[i] == ws[i]
    {
      assert Get(ws', i) == Get(ws, i);
    }
    assert ws'[a..] == ws[a..];
  }

  /** After `a` words are spliced off, the array holds the bytes not consumed, clamped if it was clamped before. */
  lemma SplicedWords(ws: seq<Word>, ws': seq<Word>, n: nat, a: nat, j: nat)
    requires if 4 * a <= n then j == 4 * a else j == n
    requires |ws'| == if a <= |ws| then |ws| else a
    requires forall i: nat | a <= i :: Get(ws', i) == Get(ws, i)
    ensures BytesIn(ws'[a..], n - j) == BytesIn(ws, n)[j..]
    ensures ws == Pack(BytesIn(ws, n)) ==> ws'[a..] == Pack(BytesIn(ws, n)[j..])
  {
    hide ByteAt, Pack, Get;
    var bs := BytesIn(ws, n);
    PackLength(bs);
    if 4 * a <= n {
      SplicedBytes(ws, ws', n, a);
      if ws == Pack(bs) {
        SplicedClamped(bs, ws', a);
      }
    } else {
      assert bs[j..] == [] && BytesIn(ws'[a..], 0) == [];
      PackLength(bs[j..]);
      assert ws == Pack(bs) ==> ws'[a..] == [];
    }
  }

  class BufferedBlockAlgorithm<S(!new)> {
    const alg: Algorithm<S>
    var state: S
    var data: WordArray
    var nDataBytes: nat

    /** Whatever the tail of the buffer holds. */
    ghost predicate Valid() {
      alg.Valid()
    }

    ghost function Abs(): Stream<S>
      reads this, data
    {
      Stream(state, data.Bytes())
    }

    constructor (alg: Algorithm<S>, state: S)
      requires alg.Valid()
      ensures Valid() && fresh(data) && data.Clamped() && this.alg == alg
      ensures Abs() == Stream(state, []) && nDataBytes == 0
    {
      this.alg, this.state, nDataBytes := alg, state, 0;
      data := new WordArray([], 0);
    }

    /** `reset`, with the state the algorithm starts from. */
    method Reset(state: S)
      requires Valid()
      modifies this
      ensures fresh(data) && data.Clamped()
      ensures Abs() == Stream(state, []) && nDataBytes == 0
    {
      this.state, nDataBytes := state, 0;
      data := new WordArray([], 0);
    }

    /** `_append`, of any array, the buffer itself included. */
    method AppendData(a: WordArray)
      requires Valid()
      modifies this`nDataBytes, data
      ensures Abs() == Append(old(Abs()), old(a.Bytes()))
      ensures nDataBytes == old(nDataBytes) + a.sigBytes
      ensures a != data ==> a.words == old(a.words) && a.sigBytes == old(a.sigBytes)
      ensures a != data ==> data.words == Joined(old(data.words), old(data.sigBytes), old(a.words), old(a.sigBytes))
      ensures data.Clamped() <==> old(data.sigBytes) % 4 != 0 || a == data || AppendsClamped(old(a.words), old(a.sigBytes))
    {
      hide Pack, BytesIn, Joined, AppendsClamped;
      data.Concat(a);
      nDataBytes := nDataBytes + a.sigBytes;
    }

    /** `_process` */
    method ProcessData(flush: bool) returns (out: WordArray)
      requires Valid()
      modifies this`state, data
      ensures fresh(out)
      ensures (state, out.words) == Run(alg, old(state), old(data.words), alg.BlocksIn(old(data.sigBytes), flush))
      ensures out.sigBytes == Consumed(alg, old(data.sigBytes), flush) <= old(data.sigBytes)
      ensures data.Bytes() == old(data.Bytes())[out.sigBytes..]
      ensures old(data.Clamped()) ==> data.Clamped()
      ensures TailHarmless(alg, old(data.words), old(data.sigBytes), flush) ==>
                (Abs(), out.Bytes()) == Process(alg, old(Abs()), flush)
    {
      hide ByteOf, Pack, BytesIn, WriteBlock, TailHarmless;
      var n, size := data.sigBytes, alg.blockSize;
      var a := alg.BlocksIn(n, flush) * size;
      var j := if 4 * a <= n then 4 * a else n;
      ConsumedWords(alg, n, flush);
      ghost var ws, st := data.words, state;
      ghost var m := 0;
      var q := 0;
      while q < a
        invariant q == m * size && m <= alg.BlocksIn(n, flush)
        invariant data.sigBytes == n && |data.words| == if q <= |ws| then |ws| else q
        invariant (state, data.words[..q]) == Run(alg, st, ws, m)
        invariant forall i: nat | q <= i :: Get(data.words, i) == Get(ws, i)
      {
        NextMultiple(m, alg.BlocksIn(n, flush), size);
        assert BlockAt(data.words, q, size) == BlockAt(ws, q, size);
        var (next, block) := alg.step(state, BlockAt(data.words, q, size));
        data.words := WriteBlock(data.words, q, block);
        state := next;
        q := q + size;
        m := m + 1;
      }
      NextMultiple(m, alg.BlocksIn(n, flush), size);
      SplicedWords(ws, data.words, n, a, j);
      out := new WordArray(data.words[..a], j);
      data.words := data.words[a..];
      data.sigBytes := n - j;
      if TailHarmless(alg, ws, n, flush) {
        HarmlessTail(alg, st, ws, n, flush);
      }
    }
  }
}
