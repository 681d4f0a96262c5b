/**
 The padding of the SHA family (js/rollups/pbkdf2.js:15, js/rollups/hmac-sha512.js:23): sections 5.1.1 and 5.1.2 of
 FIPS 180-4 for blocks of 16 and of 32 words. The code writes the message length into two words, so that the rest of
 the 128-bit length of the larger block stays zero.
 */
module LengthPaddings {
  import opened Arithmetic
  import opened WordArrays
  import JsNumber
  import MachineWords

  predicate BlockSize(size: nat) {
    size == 16 || size == 32
  }

  /** Zero octets up to the last eight of a block. */
  function ZeroCount(n: nat, size: nat): nat
    requires BlockSize(size)
  {
    (4 * size - 1 - size / 2 - n) % (4 * size) + (size / 2 - 8)
  }

  function LengthWords(n: nat): (ws: seq<Word>)
    ensures |ws| == 2
  {
    [MachineWords.NumberWord(8 * n / JsNumber.TWO32), MachineWords.NumberWord(8 * n)]
  }

  /** The last `p` of a message of `n` octets, the octet 0x80, zeros, and the length in bits. */
  function PaddedWords(p: seq<Byte>, n: nat, size: nat): seq<Word>
    requires BlockSize(size)
  {
    Pack(p + [0x80] + Zeros(ZeroCount(|p|, size))) + LengthWords(n)
  }

  /** Where the length goes. */
  function LengthIndex(n: nat, size: nat): nat
    requires BlockSize(size)
  {
    (8 * n + 4 * size) / (32 * size) * size + size - 2
  }

  // ----- the code

  /** The index of the code: `l + 64 >>> 9 << 4` and 14, or `f + 128 >>> 10 << 5` and 30; `>>>` takes the sum modulo 2^32. */
  function CodeIndex(sigBytes: nat, size: nat): nat
    requires BlockSize(size)
  {
    JsNumber.Unsigned(8 * sigBytes + 4 * size) / (32 * size) * size + size - 2
  }

  /** The `|=` of the first octet after the message, into word `l >>> 5`. */
  function Marked(ws: seq<Word>, sigBytes: nat): seq<Word> {
    var l := 8 * sigBytes;
    var i := JsNumber.Unsigned(l) / 32;
    Put(ws, i, OrByte(Get(ws, i), 0x80, l % 32 / 8))
  }

  /** The words that `_doFinalize` leaves in the buffer. */
  function FinalWords(ws: seq<Word>, sigBytes: nat, n: nat, size: nat): seq<Word>
    requires BlockSize(size)
  {
    var k := CodeIndex(sigBytes, size);
    Put(Put(Marked(ws, sigBytes), k, LengthWords(n)[0]), k + 1, LengthWords(n)[1])
  }

  /** From so many buffered bytes on an index wraps around. */
  function Limit(size: nat): (n: nat)
    requires BlockSize(size)
    ensures 0x1FFF_FFF0 <= n < 0x2000_0000
  {
    0x2000_0000 - size / 2
  }

  // ----- the two agree

  lemma DivideBy8(x: nat, m: nat)
    requires m > 0
    ensures 8 * x / (8 * m) == x / m
  {
    var q := x / m;
    assert x == q * m + x % m;
    assert q * (8 * m) == 8 * (q * m);
    QuotientUnique(8 * x, q, 8 * (x % m), 8 * m);
  }

  lemma ZeroCountIs(n: nat, size: nat, q: nat, r: nat)
    requires BlockSize(size) && n + size / 2 == q * (4 * size) + r && r < 4 * size
    ensures ZeroCount(n, size) == 4 * size - 1 - r + (size / 2 - 8)
  {
    var b, l := 4 * size, size / 2;
    MulDistributes(0, q, b);
    QuotientUnique(b - 1 - l - n, 0 - q, b - 1 - r, b);
  }

  lemma LengthIndexIs(n: nat, size: nat, q: nat, r: nat)
    requires BlockSize(size) && n + size / 2 == q * (4 * size) + r && r < 4 * size
    ensures LengthIndex(n, size) == q * size + size - 2
  {
    DivideBy8(n + size / 2, 4 * size);
    QuotientUnique(n + size / 2, q, r, 4 * size);
  }

  lemma LengthPlace(n: nat, size: nat)
    requires BlockSize(size)
    ensures n + 1 + ZeroCount(n, size) == 4 * LengthIndex(n, size)
  {
    var b := 4 * size;
    var q, r := (n + size / 2) / b, (n + size / 2) % b;
    assert n + size / 2 == q * b + r;
    ZeroCountIs(n, size, q, r);
    LengthIndexIs(n, size, q, r);
    hide ZeroCount, LengthIndex;
    Mul4(q, size);
  }

  lemma NoWrap(n: nat, size: nat)
    requires BlockSize(size) && n < Limit(size)
    ensures JsNumber.Unsigned(8 * n) == 8 * n && CodeIndex(n, size) == LengthIndex(n, size)
  {
    JsNumber.UnsignedShift(8 * n, 0);
    JsNumber.UnsignedShift(8 * n + 4 * size, 0);
  }

  /** Past the limit the length goes to an earlier block, and the marker to no later word than it should. */
  lemma Wraps(n: nat, size: nat)
    requires BlockSize(size) && n >= Limit(size)
    ensures CodeIndex(n, size) + size <= LengthIndex(n, size)
    ensures JsNumber.Unsigned(8 * n) / 32 <= n / 4 < LengthIndex(n, size)
  {
    var x, b := 8 * n + 4 * size, 32 * size;
    BelowModulus(x);
    BelowModulus(8 * n);
    QuotientMonotone(JsNumber.Unsigned(x), x - b, b);
    QuotientShift(x, 1, b);
    MulMonotone(JsNumber.Unsigned(x) / b, x / b - 1, size);
    MulDistributes(x / b, 1, size);
    LengthPlace(n, size);
  }

  lemma BelowModulus(x: nat)
    ensures JsNumber.Unsigned(x) <= x
    ensures x >= JsNumber.TWO32 ==> JsNumber.Unsigned(x) <= x - JsNumber.TWO32
  {
  }

  /** Bytes past the message that the assignments hide: the length is overwritten, and its marker is OR-ed in anyway. */
  ghost predicate TailTolerated(ws: seq<Word>, n: nat, size: nat)
    requires BlockSize(size)
  {
    && |ws| <= LengthIndex(n, size) + 2
    && forall i: nat | n <= i < 4 * LengthIndex(n, size) :: ByteAt(ws, i) == 0 || (i == n && ByteAt(ws, i) == 0x80)
  }

  lemma MarkByte(b: Byte)
    ensures OrBytes(b, 0x80) == 0x80 <==> b == 0 || b == 0x80
  {
  }

  /** The words before the length, byte by byte. */
  lemma MarkedIs(ws: seq<Word>, n: nat, size: nat)
    requires BlockSize(size) && n < Limit(size)
    ensures var x := BytesIn(ws, n) + [0x80] + Zeros(ZeroCount(n, size));
            (forall i: nat | i < 4 * LengthIndex(n, size) :: ByteAt(Marked(ws, n), i) == ByteOr0(x, i)) <==>
            (forall i: nat | n <= i < 4 * LengthIndex(n, size) :: ByteAt(ws, i) == 0 || (i == n && ByteAt(ws, i) == 0x80))
  {
    hide ByteAt, LengthIndex, ZeroCount, OrBytes, Put, OrByte;
    LengthPlace(n, size);
    NoWrap(n, size);
    BitIndex(n);
    var x := BytesIn(ws, n) + [0x80] + Zeros(ZeroCount(n, size));
    forall i: nat | i < 4 * LengthIndex(n, size)
      ensures ByteAt(Marked(ws, n), i) == ByteOr0(x, i) <==>
              i < n || ByteAt(ws, i) == 0 || (i == n && ByteAt(ws, i) == 0x80)
    {
      OrAt(ws, n, 0x80, i);
      MarkByte(ByteAt(ws, i));
    }
  }

  /** The length words follow the words before them exactly when nothing lies beyond. */
  lemma LengthFollows(ws: seq<Word>, k: nat, v: Word, w: Word, p: seq<Word>)
    requires |p| == k
    ensures Put(Put(ws, k, v), k + 1, w) == p + [v, w] <==> |ws| <= k + 2 && Resize(ws, k) == p
  {
    var r := Put(Put(ws, k, v), k + 1, w);
    assert r[..k] == Resize(ws, k);
    assert (p + [v, w])[..k] == p;
    if |ws| <= k + 2 {
      assert r == Resize(ws, k) + [v, w];
    }
  }

  lemma ResizedIff(ws: seq<Word>, x: seq<Byte>, k: nat)
    requires |x| == 4 * k
    ensures Resize(ws, k) == Pack(x) <==> forall i: nat | i < 4 * k :: ByteAt(ws, i) == ByteOr0(x, i)
  {
    hide ByteAt, Pack;
    var r := Resize(ws, k);
    ResizedBytes(ws, k);
    SameWordsIff(r, x, k);
    assert r[..k] == r;
  }

  /** The buffer already holds the padded message but for the words that the wrapped indices name, and these come out right. */
  ghost predicate Coincides(ws: seq<Word>, sigBytes: nat, n: nat, size: nat)
    requires BlockSize(size)
  {
    var p := PaddedWords(BytesIn(ws, sigBytes), n, size);
    var i, k := JsNumber.Unsigned(8 * sigBytes) / 32, CodeIndex(sigBytes, size);
    && |ws| == |p| && k + 1 < |p| && i < |p|
    && p[k] == LengthWords(n)[0] && p[k + 1] == LengthWords(n)[1]
    && (i == k || i == k + 1 || p[i] == OrByte(ws[i], 0x80, 8 * sigBytes % 32 / 8))
    && forall j: nat | j < |p| :: j == i || j == k || j == k + 1 || ws[j] == p[j]
  }

  /** Below the limit `_doFinalize` pads the message exactly when its assignments hide what follows it in the buffer. */
  lemma ShortFinalWords(ws: seq<Word>, sigBytes: nat, n: nat, size: nat)
    requires BlockSize(size) && sigBytes < Limit(size)
    ensures FinalWords(ws, sigBytes, n, size) == PaddedWords(BytesIn(ws, sigBytes), n, size) <==>
              TailTolerated(ws, sigBytes, size)
  {
    NoWrap(sigBytes, size);
    hide ByteAt, Pack, LengthIndex, CodeIndex, ZeroCount, LengthWords, BytesIn, Marked, Put, Resize;
    var k := LengthIndex(sigBytes, size);
    var x := BytesIn(ws, sigBytes) + [0x80] + Zeros(ZeroCount(sigBytes, size));
    BytesInSize(ws, sigBytes);
    LengthPlace(sigBytes, size);
    PackLength(x);
    LengthFollows(Marked(ws, sigBytes), k, LengthWords(n)[0], LengthWords(n)[1], Pack(x));
    MarkedSize(ws, sigBytes, k);
    MarkedIs(ws, sigBytes, size);
    ResizedIff(Marked(ws, sigBytes), x, k);
    assert [LengthWords(n)[0], LengthWords(n)[1]] == LengthWords(n);
  }

  lemma PaddedLength(ws: seq<Word>, sigBytes: nat, n: nat, size: nat)
    requires BlockSize(size)
    ensures |PaddedWords(BytesIn(ws, sigBytes), n, size)| == LengthIndex(sigBytes, size) + 2
  {
    hide Pack, LengthIndex, ZeroCount, LengthWords, BytesIn;
    BytesInSize(ws, sigBytes);
    LengthPlace(sigBytes, size);
    PackLength(BytesIn(ws, sigBytes) + [0x80] + Zeros(ZeroCount(sigBytes, size)));
  }

  lemma PutLength(ws: seq<Word>, i: nat, w: Word)
    ensures |Put(ws, i, w)| == if i < |ws| then |ws| else i + 1
  {
  }

  lemma PutThree(ws: seq<Word>, i: nat, u: Word, k: nat, v: Word, w: Word, p: seq<Word>)
    requires i < |p| - 1 && k + 1 < |p| - 1
    ensures Put(Put(Put(ws, i, u), k, v), k + 1, w) == p <==>
              && |ws| == |p| && p[k] == v && p[k + 1] == w && (i == k || i == k + 1 || p[i] == u)
              && forall j: nat | j < |p| :: j == i || j == k || j == k + 1 || ws[j] == p[j]
  {
    var r := Put(Put(Put(ws, i, u), k, v), k + 1, w);
    PutLength(ws, i, u);
    PutLength(Put(ws, i, u), k, v);
    PutLength(Put(Put(ws, i, u), k, v), k + 1, w);
    assert |r| == |p| <==> |ws| == |p|;
    if |ws| == |p| {
      assert forall j: nat | j < |p| :: r[j] == if j == k + 1 then w else if j == k then v else if j == i then u else ws[j];
      assert r == p <==> forall j: nat | j < |p| :: r[j] == p[j];
    }
  }

  /** From the limit on it does so only if the buffer already held the padding. */
  lemma LongFinalWords(ws: seq<Word>, sigBytes: nat, n: nat, size: nat)
    requires BlockSize(size) && sigBytes >= Limit(size)
    ensures FinalWords(ws, sigBytes, n, size) == PaddedWords(BytesIn(ws, sigBytes), n, size) <==>
              Coincides(ws, sigBytes, n, size)
  {
    hide LengthIndex, CodeIndex, LengthWords, BytesIn, PaddedWords, OrByte;
    Wraps(sigBytes, size);
    PaddedLength(ws, sigBytes, n, size);
    var i, k := JsNumber.Unsigned(8 * sigBytes) / 32, CodeIndex(sigBytes, size);
    hide Put, JsNumber.Unsigned;
    PutThree(ws, i, OrByte(Get(ws, i), 0x80, 8 * sigBytes % 32 / 8), k, LengthWords(n)[0], LengthWords(n)[1],
      PaddedWords(BytesIn(ws, sigBytes), n, size));
  }

  /**
   `_doFinalize` pads the message exactly when, below the limit, its assignments hide what follows the message in the
   buffer, and from the limit on, the buffer already held the padding.
   */
  lemma FinalWordsIff(ws: seq<Word>, sigBytes: nat, n: nat, size: nat)
    requires BlockSize(size)
    ensures FinalWords(ws, sigBytes, n, size) == PaddedWords(BytesIn(ws, sigBytes), n, size) <==>
              if sigBytes < Limit(size) then TailTolerated(ws, sigBytes, size) else Coincides(ws, sigBytes, n, size)
  {
    hide FinalWords, PaddedWords, TailTolerated, Coincides, BytesIn;
    if sigBytes < Limit(size) {
      ShortFinalWords(ws, sigBytes, n, size);
    } else {
      LongFinalWords(ws, sigBytes, n, size);
    }
  }

  lemma MarkedSize(ws: seq<Word>, sigBytes: nat, k: nat)
    requires sigBytes < 4 * k
    ensures |Marked(ws, sigBytes)| <= k + 2 <==> |ws| <= k + 2
  {
    hide OrByte, JsNumber.Unsigned;
    BitIndex(sigBytes);
    BelowModulus(8 * sigBytes);
    QuotientMonotone(JsNumber.Unsigned(8 * sigBytes), 8 * sigBytes, 32);
  }

  lemma ResizedBytes(ws: seq<Word>, k: nat)
    ensures forall i: nat | i < 4 * k :: ByteAt(Resize(ws, k), i) == ByteAt(ws, i)
  {
    hide ByteOf;
    forall i: nat | i < 4 * k
      ensures ByteAt(Resize(ws, k), i) == ByteAt(ws, i)
    {
      assert Get(Resize(ws, k), i / 4) == Get(ws, i / 4);
    }
  }

  /** On a clamped buffer the message is padded if and only if it stays below the limit. */
  lemma FinalWordsPad(p: seq<Byte>, n: nat, size: nat)
    requires BlockSize(size)
    ensures FinalWords(Pack(p), |p|, n, size) == PaddedWords(p, n, size) <==> |p| < Limit(size)
  {
    hide ByteAt, PackedWord, Pack, LengthIndex, FinalWords, PaddedWords, Limit;
    BytesInPack(p);
    LengthPlace(|p|, size);
    PackLength(p);
    PaddedLength(Pack(p), |p|, n, size);
    forall i: nat | |p| <= i
      ensures ByteAt(Pack(p), i) == 0
    {
      PackByteAt(p, i);
    }
    FinalWordsIff(Pack(p), |p|, n, size);
  }

  lemma LongMessage(p: seq<Byte>)
    requires |p| == 0x2000_0000
    ensures CodeIndex(|p|, 16) == 14 && JsNumber.Unsigned(8 * |p|) == 0 && 8 * |p| % 32 == 0
  {
  }

  /**
   A failing input: SHA-1 given 2^29 clamped bytes in one call appends no block. The marker goes into word 0 and the length
   into words 14 and 15 of the message.
   */
  lemma MarkerWraps(p: seq<Byte>)
    requires |p| == 0x2000_0000
    ensures |Pack(p)| == 0x800_0000
    ensures FinalWords(Pack(p), |p|, |p|, 16) ==
            Pack(p)[0 := OrByte(Pack(p)[0], 0x80, 0)][14 := LengthWords(|p|)[0]][15 := LengthWords(|p|)[1]]
    ensures FinalWords(Pack(p), |p|, |p|, 16) != PaddedWords(p, |p|, 16)
    ensures AppendsClamped(Pack(p), |p|)
  {
    FinalWordsPad(p, |p|, 16);
    hide Pack, PaddedWords, OrByte, LengthWords, BytesIn;
    PackLength(p);
    LongMessage(p);
    BytesInPack(p);
    ClampedAppends(Pack(p), |p|);
  }

  // ----- padded messages

  /**
   The padding in octets: the message, 0x80, the least number of zeros that leaves the end of a block, and at that end the
   number of bits in two words, after eight more zero octets for the larger block.
   */
  lemma PaddedOctets(m: seq<Byte>, size: nat)
    requires BlockSize(size)
    ensures var ws, z := PaddedWords(m, |m|, size), ZeroCount(|m|, size);
            && |ws| >= 2 && BytesIn(ws, 4 * (|ws| - 2)) == m + [0x80] + Zeros(z)
            && (|m| + 1 + z + 8) % (4 * size) == 0 && size / 2 - 8 <= z < 4 * size + size / 2 - 8
            && 8 * |m| % (JsNumber.TWO32 * JsNumber.TWO32) ==
               MachineWords.AsNumber(ws[|ws| - 2]) * JsNumber.TWO32 + MachineWords.AsNumber(ws[|ws| - 1])
  {
    hide PaddedWords, BytesIn, ZeroCount, LengthWords, BlockSize, MachineWords.AsNumber, JsNumber.TWO32;
    PaddedEnds(m, size);
    EndOfBlock(|m|, size);
    LengthNumber(|m|);
  }

  /** The two parts of the padded message. */
  lemma PaddedEnds(m: seq<Byte>, size: nat)
    requires BlockSize(size)
    ensures var ws := PaddedWords(m, |m|, size);
            && |ws| >= 2 && ws[|ws| - 2] == LengthWords(|m|)[0] && ws[|ws| - 1] == LengthWords(|m|)[1]
            && BytesIn(ws, 4 * (|ws| - 2)) == m + [0x80] + Zeros(ZeroCount(|m|, size))
  {
    hide Pack, BytesIn, ZeroCount, LengthIndex, BlockSize, MachineWords.NumberWord;
    var x := m + [0x80] + Zeros(ZeroCount(|m|, size));
    LengthPlace(|m|, size);
    PackLength(x);
    BytesInPack(x);
    FrontBytes(Pack(x), LengthWords(|m|));
  }

  lemma LengthNumber(n: nat)
    ensures 8 * n % (JsNumber.TWO32 * JsNumber.TWO32) ==
            MachineWords.AsNumber(LengthWords(n)[0]) * JsNumber.TWO32 + MachineWords.AsNumber(LengthWords(n)[1])
  {
    hide MachineWords.NumberWord, MachineWords.AsNumber, JsNumber.Unsigned;
    MachineWords.NumberBack(8 * n / JsNumber.TWO32);
    MachineWords.NumberBack(8 * n);
    SplitLength(8 * n);
  }

  lemma EndOfBlock(n: nat, size: nat)
    requires BlockSize(size)
    ensures (n + 1 + ZeroCount(n, size) + 8) % (4 * size) == 0
    ensures size / 2 - 8 <= ZeroCount(n, size) < 4 * size + size / 2 - 8
  {
    var b := 4 * size;
    var y := b - 1 - size / 2 - n;
    assert y == y / b * b + y % b;
    QuotientUnique(n + 1 + ZeroCount(n, size) + 8, 1 - y / b, 0, b);
  }

  lemma FrontBytes(v: seq<Word>, w: seq<Word>)
    ensures BytesIn(v + w, 4 * |v|) == BytesIn(v, 4 * |v|)
  {
    hide ByteOf;
    assert forall i: nat | i < |v| :: Get(v + w, i) == Get(v, i);
  }

  lemma SplitLength(n: nat)
    ensures n % (JsNumber.TWO32 * JsNumber.TWO32) == JsNumber.Unsigned(n / JsNumber.TWO32) * JsNumber.TWO32 + JsNumber.Unsigned(n)
  {
    var h := n / JsNumber.TWO32;
    assert h == h / JsNumber.TWO32 * JsNumber.TWO32 + JsNumber.Unsigned(h) && n == h * JsNumber.TWO32 + JsNumber.Unsigned(n);
    QuotientUnique(n, h / JsNumber.TWO32, JsNumber.Unsigned(h) * JsNumber.TWO32 + JsNumber.Unsigned(n), JsNumber.TWO32 * JsNumber.TWO32);
  }

  lemma PaddedSize(p: seq<Byte>, n: nat, size: nat)
    requires BlockSize(size)
    ensures |PaddedWords(p, n, size)| == ((|p| + size / 2) / (4 * size) + 1) * size
  {
    hide PackedWord, ZeroCount;
    LengthPlace(|p|, size);
    DivideBy8(|p| + size / 2, 4 * size);
    PackLength(p + [0x80] + Zeros(ZeroCount(|p|, size)));
  }

  lemma ZeroCountShift(n: nat, k: nat, size: nat)
    requires BlockSize(size) && 4 * (k * size) <= n
    ensures ZeroCount(n - 4 * (k * size), size) == ZeroCount(n, size)
  {
    Mul4(k, size);
    QuotientShift(4 * size - 1 - size / 2 - n, k, 4 * size);
  }

  /** Padding what is left after whole blocks is padding the message. */
  lemma PaddedRest(m: seq<Byte>, n: nat, k: nat, size: nat)
    requires BlockSize(size) && 4 * (k * size) <= |m|
    ensures PaddedWords(m, n, size) == Pack(m[..4 * (k * size)]) + PaddedWords(m[4 * (k * size)..], n, size)
  {
    hide LengthWords, Pack, ZeroCount, BlockSize;
    ZeroCountShift(|m|, k, size);
    var z := [0x80] + Zeros(ZeroCount(|m|, size));
    assert forall x: seq<Byte> :: x + [0x80] + Zeros(ZeroCount(|m|, size)) == x + z;
    PackSplit(m, z, 4 * (k * size));
  }

  lemma MarkersMeet(m: seq<Byte>, m': seq<Byte>, z: nat, z': nat)
    requires m + [0x80] + Zeros(z) == m' + [0x80] + Zeros(z')
    ensures m == m'
  {
    var x, x' := m + [0x80] + Zeros(z), m' + [0x80] + Zeros(z');
    assert x[|m|] == 0x80 && x'[|m'|] == 0x80;
    assert forall i :: |m| < i < |x| ==> x[i] == 0;
    assert forall i :: |m'| < i < |x'| ==> x'[i] == 0;
    assert m == x[..|m|] && m' == x'[..|m'|];
  }

  /** Different messages have different padded forms. */
  lemma PaddingInjective(m: seq<Byte>, m': seq<Byte>, size: nat)
    requires BlockSize(size) && PaddedWords(m, |m|, size) == PaddedWords(m', |m'|, size)
    ensures m == m'
  {
    hide Pack, LengthWords, ZeroCount;
    var x, x' := m + [0x80] + Zeros(ZeroCount(|m|, size)), m' + [0x80] + Zeros(ZeroCount(|m'|, size));
    assert Pack(x) == PaddedWords(m, |m|, size)[..|PaddedWords(m, |m|, size)| - 2];
    assert Pack(x') == PaddedWords(m', |m'|, size)[..|PaddedWords(m', |m'|, size)| - 2];
    LengthPlace(|m|, size);
    LengthPlace(|m'|, size);
    PackInjective(x, x');
    MarkersMeet(m, m', ZeroCount(|m|, size), ZeroCount(|m'|, size));
  }

  // ----- digests with dropped words

  /** All that a dropped word may hold: nothing, or in the first place the marker. */
  predicate Blank(w: Word, first: bool) {
    w == 0 || (first && w == 0x8000_0000)
  }

  lemma BlankBytes(w: Word, first: bool)
    ensures Blank(w, first) <==>
            && (ByteOf(w, 0) == 0 || (first && ByteOf(w, 0) == 0x80))
            && ByteOf(w, 1) == 0 && ByteOf(w, 2) == 0 && ByteOf(w, 3) == 0
  {
    WordOfBytes(w);
  }

  lemma DroppedPlace(size: nat, keep: nat)
    requires BlockSize(size) && keep < size / 2
    ensures LengthIndex(4 * (size + keep), size) == 2 * size - 2
  {
    QuotientUnique(8 * (4 * (size + keep)) + 4 * size, 1, 32 * keep + 4 * size, 32 * size);
  }

  lemma DroppedWord(ws: seq<Word>, q: nat, i: nat)
    requires q <= i
    ensures Blank(Get(ws, i), i == q) <==>
            forall j: nat | 4 * i <= j < 4 * i + 4 :: ByteAt(ws, j) == 0 || (j == 4 * q && ByteAt(ws, j) == 0x80)
  {
    hide ByteOf, Blank;
    BlankBytes(Get(ws, i), i == q);
    assert ByteAt(ws, 4 * i) == ByteOf(Get(ws, i), 0) && ByteAt(ws, 4 * i + 1) == ByteOf(Get(ws, i), 1);
    assert ByteAt(ws, 4 * i + 2) == ByteOf(Get(ws, i), 2) && ByteAt(ws, 4 * i + 3) == ByteOf(Get(ws, i), 3);
  }

  /**
   A digest of which only the first `keep` words count is pushed whole behind the outer padded key of HMAC. The outer
   message is then padded as it should be exactly when the words that do not count happen to be blank.
   */
  lemma DroppedWordsMatter(pad: seq<Word>, inner: seq<Word>, keep: nat, n: nat, size: nat)
    requires BlockSize(size) && |pad| == size && |inner| == size / 2 && keep < |inner|
    ensures var ws := pad + inner;
            FinalWords(ws, 4 * (size + keep), n, size) == PaddedWords(BytesIn(ws, 4 * (size + keep)), n, size) <==>
            forall i: nat | keep <= i < |inner| :: Blank(inner[i], i == keep)
  {
    hide ByteAt, FinalWords, PaddedWords, LengthIndex, Blank, BytesIn;
    var ws, q := pad + inner, size + keep;
    ShortFinalWords(ws, 4 * q, n, size);
    DroppedPlace(size, keep);
    forall i: nat | q <= i < |ws|
      ensures Blank(inner[i - size], i == q) <==>
              forall j: nat | 4 * i <= j < 4 * i + 4 :: ByteAt(ws, j) == 0 || (j == 4 * q && ByteAt(ws, j) == 0x80)
    {
      DroppedWord(ws, q, i);
    }
    if forall i: nat | keep <= i < |inner| :: Blank(inner[i], i == keep) {
      forall j: nat | 4 * q <= j < 4 * (2 * size - 2)
        ensures ByteAt(ws, j) == 0 || (j == 4 * q && ByteAt(ws, j) == 0x80)
      {
        assert 4 * (j / 4) <= j < 4 * (j / 4) + 4;
        if j / 4 < |ws| {
          assert Blank(inner[j / 4 - size], j / 4 == q);
        } else {
          BeyondWords(ws, j);
        }
      }
    }
    if TailTolerated(ws, 4 * q, size) {
      forall i: nat | keep <= i < |inner|
        ensures Blank(inner[i], i == keep)
      {
        var k := size + i;
        forall j: nat | 4 * k <= j < 4 * k + 4
          ensures ByteAt(ws, j) == 0 || (j == 4 * q && ByteAt(ws, j) == 0x80)
        {
          assert 4 * q <= j < 4 * (2 * size - 2);
        }
        DroppedWord(ws, q, k);
        assert Get(ws, k) == inner[i];
      }
    }
  }

  lemma BeyondWords(ws: seq<Word>, j: nat)
    requires |ws| <= j / 4
    ensures ByteAt(ws, j) == 0
  {
    ZeroBytes(j % 4);
  }
}
