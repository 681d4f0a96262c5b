/**
 The growable word buffer (js/rollups/aes.js:8-9). A word is a JavaScript number that only bit
 operations touch, so it is kept as the 32 bits those operations see; `sigBytes` counts the
 significant bytes, most significant byte of word 0 first. A read past the end of a JavaScript
 array, or of a hole in it, is `undefined`, which every bit operation takes as 0.
 */
module WordArrays {
  type Byte = bv8
  type Word = bv32

  lemma NextByte(b: Byte)
    requires b != 255
    ensures (b + 1) as int == b as int + 1
  {
  }

  lemma EndBytes()
    ensures (0 as Byte) as int == 0 && (255 as Byte) as int == 255
  {
  }

  lemma ByteBack(b: Byte)
    ensures (b as int) as Byte == b
  {
  }

  lemma ByteNumbered(n: nat) returns (b: Byte)
    requires n < 256
    ensures b as int == n
  {
    EndBytes();
    if n == 0 {
      b := 0;
    } else {
      b := ByteNumbered(n - 1);
      NextByte(b);
      b := b + 1;
    }
  }

  lemma ByteNumber(n: nat)
    requires n < 256
    ensures (n as Byte) as int == n
  {
    var b := ByteNumbered(n);
    ByteBack(b);
  }

  /** `w >>> 24 - 8 * k & 255` */
  function ByteOf(w: Word, k: nat): Byte
    requires k < 4
  {
    if k == 0 then ((w >> 24) & 0xFF) as Byte
    else if k == 1 then ((w >> 16) & 0xFF) as Byte
    else if k == 2 then ((w >> 8) & 0xFF) as Byte
    else (w & 0xFF) as Byte
  }

  /** The octets of a word, the most significant first. */
  lemma OctetsOf(w: Word)
    ensures ByteOf(w, 0) as Word == w >> 24 && ByteOf(w, 1) as Word == (w >> 16) & 0xFF
    ensures ByteOf(w, 2) as Word == (w >> 8) & 0xFF && ByteOf(w, 3) as Word == w & 0xFF
  {
  }

  /** `b << 24 - 8 * k` */
  function AtByte(b: Byte, k: nat): Word
    requires k < 4
  {
    if k == 0 then b as Word << 24
    else if k == 1 then b as Word << 16
    else if k == 2 then b as Word << 8
    else b as Word
  }

  function WordOf(b0: Byte, b1: Byte, b2: Byte, b3: Byte): Word {
    AtByte(b0, 0) | AtByte(b1, 1) | AtByte(b2, 2) | AtByte(b3, 3)
  }

  lemma BytesOfWord(b0: Byte, b1: Byte, b2: Byte, b3: Byte)
    ensures ByteOf(WordOf(b0, b1, b2, b3), 0) == b0
    ensures ByteOf(WordOf(b0, b1, b2, b3), 1) == b1
    ensures ByteOf(WordOf(b0, b1, b2, b3), 2) == b2
    ensures ByteOf(WordOf(b0, b1, b2, b3), 3) == b3
  {
  }

  lemma WordOfBytes(w: Word)
    ensures WordOf(ByteOf(w, 0), ByteOf(w, 1), ByteOf(w, 2), ByteOf(w, 3)) == w
  {
  }

  function SwapBytes(w: Word): Word {
    WordOf(ByteOf(w, 3), ByteOf(w, 2), ByteOf(w, 1), ByteOf(w, 0))
  }

  lemma SwappedByte(w: Word, k: nat)
    requires k < 4
    ensures ByteOf(SwapBytes(w), k) == ByteOf(w, 3 - k)
  {
    BytesOfWord(ByteOf(w, 3), ByteOf(w, 2), ByteOf(w, 1), ByteOf(w, 0));
  }

  /** `(w << 8 | w >>> 24) & 16711935 | (w << 24 | w >>> 8) & 4278255360` */
  function Swapped(w: Word): Word {
    (((w << 8) | (w >> 24)) & 0x00FF_00FF) | (((w << 24) | (w >> 8)) & 0xFF00_FF00)
  }

  /** The code's byte swap. */
  lemma SwappedBytes(w: Word)
    ensures Swapped(w) == SwapBytes(w)
  {
  }

  function Xor(v: Word, w: Word): Word {
    v ^ w
  }

  lemma XorCancels(v: Word, w: Word)
    ensures Xor(Xor(v, w), w) == v
  {
  }

  function XorWords(ws: seq<Word>, ks: seq<Word>): (r: seq<Word>)
    requires |ws| == |ks|
    ensures |r| == |ws|
  {
    seq(|ws|, i requires 0 <= i < |ws| => Xor(ws[i], ks[i]))
  }

  function XorByte(a: Byte, b: Byte): Byte {
    a ^ b
  }

  lemma XorByteCancels(a: Byte, b: Byte)
    ensures XorByte(XorByte(a, b), b) == a
  {
  }

  lemma XorBytewise(v: Word, w: Word, k: nat)
    requires k < 4
    ensures ByteOf(Xor(v, w), k) == XorByte(ByteOf(v, k), ByteOf(w, k))
  {
    if k == 0 {} else if k == 1 {} else if k == 2 {} else {}
  }

  /** `w | b << 24 - 8 * k` */
  function OrByte(w: Word, b: Byte, k: nat): Word
    requires k < 4
  {
    w | AtByte(b, k)
  }

  /** `w & 4294967295 << 32 - 8 * r`; a shift count of 32 is a shift by 0. */
  function KeepBytes(w: Word, r: nat): Word
    requires r < 4
  {
    if r == 0 then w
    else if r == 1 then w & 0xFF00_0000
    else if r == 2 then w & 0xFFFF_0000
    else w & 0xFFFF_FF00
  }

  /** JavaScript array read: a missing element counts as 0. */
  function Get(ws: seq<Word>, i: nat): Word {
    if i < |ws| then ws[i] else 0
  }

  /** JavaScript array write: writing past the end grows the array. */
  function Put(ws: seq<Word>, i: nat, w: Word): seq<Word> {
    if i < |ws| then ws[i := w] else ws + seq(i - |ws|, _ => 0) + [w]
  }

  /** Assignment to `length`. */
  function Resize(ws: seq<Word>, n: nat): seq<Word> {
    if n <= |ws| then ws[..n] else ws + seq(n - |ws|, _ => 0)
  }

  /** What is cut off counts as 0 afterwards, and so does what is added. */
  lemma Resized(ws: seq<Word>, n: nat, i: nat)
    ensures |Resize(ws, n)| == n && Get(Resize(ws, n), i) == if i < n then Get(ws, i) else 0
  {
  }

  function ByteAt(ws: seq<Word>, i: nat): Byte {
    ByteOf(Get(ws, i / 4), i % 4)
  }

  /** The first `n` bytes of the words. */
  function BytesIn(ws: seq<Word>, n: nat): seq<Byte> {
    seq(n, i requires 0 <= i => ByteAt(ws, i))
  }

  function ByteOr0(bs: seq<Byte>, i: nat): Byte {
    if i < |bs| then bs[i] else 0
  }

  function PackedWord(bs: seq<Byte>, i: nat): Word {
    WordOf(ByteOr0(bs, 4 * i), ByteOr0(bs, 4 * i + 1), ByteOr0(bs, 4 * i + 2), ByteOr0(bs, 4 * i + 3))
  }

  /** The clamped words for `bs`: no word too many and every byte of the tail zero. */
  function Pack(bs: seq<Byte>): seq<Word> {
    seq((|bs| + 3) / 4, i requires 0 <= i => PackedWord(bs, i))
  }

  lemma PackedByte(bs: seq<Byte>, i: nat, k: nat)
    requires k < 4
    ensures ByteOf(PackedWord(bs, i), k) == ByteOr0(bs, 4 * i + k)
  {
    BytesOfWord(ByteOr0(bs, 4 * i), ByteOr0(bs, 4 * i + 1), ByteOr0(bs, 4 * i + 2), ByteOr0(bs, 4 * i + 3));
  }

  /** Packing loses nothing. */
  lemma BytesInPack(bs: seq<Byte>)
    ensures BytesIn(Pack(bs), |bs|) == bs
  {
    hide ByteOf, AtByte, WordOf, OrByte, KeepBytes;
    forall i: nat | i < |bs|
      ensures ByteAt(Pack(bs), i) == bs[i]
    {
      PackedByte(bs, i / 4, i % 4);
    }
  }

  lemma WordExt(v: Word, w: Word)
    requires forall k: nat | k < 4 :: ByteOf(v, k) == ByteOf(w, k)
    ensures v == w
  {
    WordOfBytes(v);
    WordOfBytes(w);
    assert ByteOf(v, 0) == ByteOf(w, 0) && ByteOf(v, 1) == ByteOf(w, 1);
    assert ByteOf(v, 2) == ByteOf(w, 2) && ByteOf(v, 3) == ByteOf(w, 3);
  }

  /** Clamped words are determined by their bytes. */
  lemma PackUnique(ws: seq<Word>, bs: seq<Byte>)
    requires |ws| == (|bs| + 3) / 4
    requires forall i: nat | i < 4 * |ws| :: ByteAt(ws, i) == ByteOr0(bs, i)
    ensures ws == Pack(bs)
  {
    hide ByteOf, AtByte, WordOf, OrByte, KeepBytes;
    forall i: nat | i < |ws|
      ensures ws[i] == PackedWord(bs, i)
    {
      forall k: nat | k < 4
        ensures ByteOf(ws[i], k) == ByteOf(PackedWord(bs, i), k)
      {
        PackedByte(bs, i, k);
        assert (4 * i + k) / 4 == i && (4 * i + k) % 4 == k;
        assert ByteAt(ws, 4 * i + k) == ByteOf(ws[i], k);
      }
      WordExt(ws[i], PackedWord(bs, i));
    }
  }

  /** Whole words are always clamped. */
  lemma PackBytesIn(ws: seq<Word>)
    ensures Pack(BytesIn(ws, 4 * |ws|)) == ws
  {
    PackUnique(ws, BytesIn(ws, 4 * |ws|));
  }

  lemma PackLength(bs: seq<Byte>)
    ensures |Pack(bs)| == (|bs| + 3) / 4
  {
  }

  lemma BytesInSize(ws: seq<Word>, n: nat)
    ensures |BytesIn(ws, n)| == n
  {
  }

  lemma PackInjective(x: seq<Byte>, x': seq<Byte>)
    requires |x| % 4 == |x'| % 4 == 0 && Pack(x) == Pack(x')
    ensures x == x'
  {
    hide Pack, BytesIn;
    PackLength(x);
    PackLength(x');
    BytesInPack(x);
    BytesInPack(x');
  }

  lemma OrBytewise(v: Word, w: Word, m: nat)
    requires m < 4
    ensures ByteOf(v | w, m) == ByteOf(v, m) | ByteOf(w, m)
  {
    if m == 0 {} else if m == 1 {} else if m == 2 {} else {}
  }

  lemma ZeroBytes(m: nat)
    requires m < 4
    ensures ByteOf(0, m) == 0
  {
  }

  lemma ByteOfAtByte(b: Byte, k: nat, m: nat)
    requires k < 4 && m < 4
    ensures ByteOf(AtByte(b, k), m) == if m == k then b else 0
  {
  }

  function OrBytes(a: Byte, b: Byte): Byte {
    a | b
  }

  lemma OrWithZero(b: Byte)
    ensures OrBytes(0, b) == b
  {
  }

  /** `|=` of one byte, whatever the word holds. */
  lemma OrByteAny(w: Word, b: Byte, k: nat, m: nat)
    requires k < 4 && m < 4
    ensures ByteOf(OrByte(w, b, k), m) == if m == k then OrBytes(ByteOf(w, m), b) else ByteOf(w, m)
  {
    OrBytewise(w, AtByte(b, k), m);
    ByteOfAtByte(b, k, m);
  }

  /** A word rewritten by `|=` at byte `n` changes that byte alone. */
  lemma OrAt(ws: seq<Word>, n: nat, b: Byte, i: nat)
    ensures ByteAt(Put(ws, n / 4, OrByte(Get(ws, n / 4), b, n % 4)), i) == if i == n then OrBytes(ByteAt(ws, i), b) else ByteAt(ws, i)
  {
    hide ByteOf, OrByte, OrBytes;
    var w := Put(ws, n / 4, OrByte(Get(ws, n / 4), b, n % 4));
    if i / 4 == n / 4 {
      OrByteAny(Get(ws, n / 4), b, n % 4, i % 4);
    } else {
      assert Get(w, i / 4) == Get(ws, i / 4);
    }
  }

  /** `|=` of one byte just past the end of clamped words appends that byte. */
  lemma OrAppends(bs: seq<Byte>, b: Byte)
    ensures var i := |bs| / 4;
            Put(Pack(bs), i, OrByte(Get(Pack(bs), i), b, |bs| % 4)) == Pack(bs + [b])
  {
    hide ByteAt, OrByte, OrBytes, Pack;
    var ws, n := Pack(bs), |bs|;
    PackLength(bs);
    var r := Put(ws, n / 4, OrByte(Get(ws, n / 4), b, n % 4));
    forall j: nat | j < 4 * |r|
      ensures ByteAt(r, j) == ByteOr0(bs + [b], j)
    {
      OrAt(ws, n, b, j);
      PackByteAt(bs, j);
      OrWithZero(b);
    }
    PackUnique(r, bs + [b]);
  }

  lemma OrAppendsNext(bs: seq<Byte>, cs: seq<Byte>, k: nat)
    requires k < |cs|
    ensures var i := (|bs| + k) / 4;
            var ws := Pack(bs + cs[..k]);
            Put(ws, i, OrByte(Get(ws, i), cs[k], (|bs| + k) % 4)) == Pack(bs + cs[..k + 1])
  {
    hide ByteOf, AtByte, WordOf, OrByte, KeepBytes, Pack;
    OrAppends(bs + cs[..k], cs[k]);
    assert bs + cs[..k + 1] == bs + cs[..k] + [cs[k]];
  }

  lemma KeepBytesKeeps(w: Word, r: nat, m: nat)
    requires 0 < r < 4 && m < 4
    ensures ByteOf(KeepBytes(w, r), m) == if m < r then ByteOf(w, m) else 0
  {
    if r == 1 {
      if m == 0 {} else if m == 1 {} else if m == 2 {} else {}
    } else if r == 2 {
      if m == 0 {} else if m == 1 {} else if m == 2 {} else {}
    } else {
      if m == 0 {} else if m == 1 {} else if m == 2 {} else {}
    }
  }

  lemma MaskedTail(ws: seq<Word>, n: nat)
    ensures Resize(Put(ws, n / 4, KeepBytes(Get(ws, n / 4), n % 4)), (n + 3) / 4) == Pack(BytesIn(ws, n))
  {
    hide ByteOf, AtByte, WordOf, OrByte, KeepBytes;
    var r := Resize(Put(ws, n / 4, KeepBytes(Get(ws, n / 4), n % 4)), (n + 3) / 4);
    forall i: nat | i < 4 * |r|
      ensures ByteAt(r, i) == ByteOr0(BytesIn(ws, n), i)
    {
      if i / 4 == n / 4 {
        KeepBytesKeeps(Get(ws, i / 4), n % 4, i % 4);
      } else {
        assert r[i / 4] == Get(ws, i / 4);
      }
    }
    PackUnique(r, BytesIn(ws, n));
  }

  function Zeros(n: nat): (z: seq<Byte>)
    ensures |z| == n
  {
    seq(n, _ => 0)
  }

  lemma PackByteAt(bs: seq<Byte>, t: nat)
    ensures ByteAt(Pack(bs), t) == ByteOr0(bs, t)
  {
    hide ByteOf, PackedWord;
    if t / 4 < |Pack(bs)| {
      PackedByte(bs, t / 4, t % 4);
    } else {
      ZeroBytes(t % 4);
    }
  }

  lemma SameWordsIff(ws: seq<Word>, bs: seq<Byte>, k: nat)
    requires |bs| == 4 * k <= 4 * |ws|
    ensures ws[..k] == Pack(bs) <==> forall i: nat | i < 4 * k :: ByteAt(ws, i) == ByteOr0(bs, i)
  {
    hide ByteOf, PackedWord;
    assert forall i: nat | i < 4 * k :: ByteAt(ws, i) == ByteAt(ws[..k], i);
    if ws[..k] == Pack(bs) {
      forall i: nat | i < 4 * k
        ensures ByteAt(ws, i) == ByteOr0(bs, i)
      {
        PackByteAt(bs, i);
      }
    }
    if forall i: nat | i < 4 * k :: ByteAt(ws, i) == ByteOr0(bs, i) {
      PackUnique(ws[..k], bs);
    }
  }

  lemma PackAligned(bs: seq<Byte>, cs: seq<Byte>)
    requires |bs| % 4 == 0
    ensures Pack(bs + cs) == Pack(bs) + Pack(cs)
  {
    hide ByteOf, AtByte, WordOf, OrByte, KeepBytes;
    var n := |bs| / 4;
    forall i: nat | i < (|cs| + 3) / 4
      ensures PackedWord(bs + cs, n + i) == PackedWord(cs, i)
    {
    }
  }

  /** Whole words at the front are packed apart. */
  lemma PackSplit(x: seq<Byte>, y: seq<Byte>, j: nat)
    requires j <= |x| && j % 4 == 0
    ensures Pack(x + y) == Pack(x[..j]) + Pack(x[j..] + y)
    ensures Pack(x) == Pack(x[..j]) + Pack(x[j..])
  {
    hide Pack;
    assert x == x[..j] + x[j..] && x + y == x[..j] + (x[j..] + y);
    PackAligned(x[..j], x[j..]);
    PackAligned(x[..j], x[j..] + y);
  }

  lemma BytesAligned(bs: seq<Byte>, ws: seq<Word>, n: nat)
    requires |bs| % 4 == 0
    ensures BytesIn(Pack(bs) + ws, |bs| + n) == bs + BytesIn(ws, n)
  {
    hide ByteOf, AtByte, WordOf, OrByte, KeepBytes, PackedWord;
    var ps := Pack(bs);
    BytesInPack(bs);
    forall i: nat | i < |bs|
      ensures ByteAt(ps + ws, i) == bs[i]
    {
      assert i / 4 < |ps|;
      assert ByteAt(ps, i) == BytesIn(ps, |bs|)[i];
    }
    forall i: nat | i < n
      ensures ByteAt(ps + ws, |bs| + i) == ByteAt(ws, i)
    {
      assert (|bs| + i) / 4 == |ps| + i / 4 && (|bs| + i) % 4 == i % 4;
      assert Get(ps + ws, |ps| + i / 4) == Get(ws, i / 4);
    }
  }

  /** Growing `this` does not disturb the bytes it started with, so an array may be appended to itself. */
  lemma SourceByte(mine: seq<Byte>, more: seq<Byte>, k: nat)
    requires k < |mine|
    ensures ByteAt(Pack(mine + more), k) == mine[k]
  {
    hide ByteOf, AtByte, WordOf, OrByte, KeepBytes, PackedWord;
    BytesInPack(mine + more);
    assert ByteAt(Pack(mine + more), k) == BytesIn(Pack(mine + more), |mine + more|)[k];
  }

  /** The words an aligned append adds: the indexed loop stops at the last significant word, the push does not. */
  function AppendedWords(ws: seq<Word>, n: nat): seq<Word> {
    if 65535 < |ws| then seq((n + 3) / 4, i requires 0 <= i => Get(ws, i)) else ws
  }

  /** The words of `n` bytes in `ws` after `k` bytes in `v` have been appended to them. */
  function Joined(ws: seq<Word>, n: nat, v: seq<Word>, k: nat): seq<Word> {
    if n % 4 != 0 then Pack(BytesIn(ws, n) + BytesIn(v, k)) else Pack(BytesIn(ws, n)) + AppendedWords(v, k)
  }

  /** No byte of the last significant word after the first `n` bytes is set. */
  ghost predicate ZeroTail(ws: seq<Word>, n: nat) {
    forall i: nat | n <= i < 4 * ((n + 3) / 4) :: ByteAt(ws, i) == 0
  }

  /** What a caller of `concat` can check of the argument: the push adds every word, the indexed loop only significant ones. */
  ghost predicate AppendsClamped(ws: seq<Word>, n: nat) {
    ZeroTail(ws, n) && (|ws| <= 65535 ==> |ws| == (n + 3) / 4)
  }

  lemma ClampedIff(ws: seq<Word>, n: nat)
    ensures ws == Pack(BytesIn(ws, n)) <==> |ws| == (n + 3) / 4 && ZeroTail(ws, n)
  {
    hide ByteOf, AtByte, WordOf, OrByte, KeepBytes, PackedWord;
    var bs := BytesIn(ws, n);
    if ws == Pack(bs) {
      forall i: nat | n <= i < 4 * ((n + 3) / 4)
        ensures ByteAt(ws, i) == 0
      {
        PackByteAt(bs, i);
      }
    }
    if |ws| == (n + 3) / 4 && ZeroTail(ws, n) {
      PackUnique(ws, bs);
    }
  }

  /** The added words are the clamped form of the argument's bytes exactly when the caller's test succeeds. */
  lemma AppendedIff(ws: seq<Word>, n: nat)
    ensures AppendedWords(ws, n) == Pack(BytesIn(ws, n)) <==> AppendsClamped(ws, n)
  {
    hide ByteOf, AtByte, WordOf, OrByte, KeepBytes, PackedWord;
    var x := AppendedWords(ws, n);
    forall i: nat | i < 4 * ((n + 3) / 4)
      ensures ByteAt(x, i) == ByteAt(ws, i)
    {
      assert i / 4 < (n + 3) / 4;
    }
    assert BytesIn(x, n) == BytesIn(ws, n);
    ClampedIff(x, n);
  }

  lemma ClampedAppends(ws: seq<Word>, n: nat)
    requires ws == Pack(BytesIn(ws, n))
    ensures AppendsClamped(ws, n)
  {
    ClampedIff(ws, n);
  }

  lemma WholeAppends(ws: seq<Word>)
    ensures AppendsClamped(ws, 4 * |ws|)
  {
    PackBytesIn(ws);
    ClampedAppends(ws, 4 * |ws|);
  }

  /** An aligned append adds the bytes whatever the argument's tail, and is clamped exactly when the caller's test succeeds. */
  lemma AppendAligned(bs: seq<Byte>, ws: seq<Word>, n: nat)
    requires |bs| % 4 == 0
    ensures BytesIn(Pack(bs) + AppendedWords(ws, n), |bs| + n) == bs + BytesIn(ws, n)
    ensures Pack(bs) + AppendedWords(ws, n) == Pack(bs + BytesIn(ws, n)) <==> AppendsClamped(ws, n)
  {
    hide ByteOf, AtByte, WordOf, OrByte, KeepBytes, PackedWord, AppendsClamped;
    var x := AppendedWords(ws, n);
    BytesAligned(bs, x, n);
    forall i: nat | i < n
      ensures ByteAt(x, i) == ByteAt(ws, i)
    {
      assert i / 4 < (n + 3) / 4;
    }
    assert BytesIn(x, n) == BytesIn(ws, n);
    PackAligned(bs, BytesIn(ws, n));
    AppendedIff(ws, n);
    if Pack(bs) + x == Pack(bs) + Pack(BytesIn(ws, n)) {
      assert x == (Pack(bs) + x)[|Pack(bs)|..];
    }
  }

  /** One significant byte of a word of ones: pushed onto an empty array it leaves three bytes that no clamped array has. */
  lemma PushKeepsTail()
    ensures var ws: seq<Word> := [0xFFFF_FFFF];
            && !AppendsClamped(ws, 1)
            && Pack([]) + AppendedWords(ws, 1) == ws
            && BytesIn(ws, 1) == [0xFF] && ws != Pack([0xFF])
  {
    var ws: seq<Word> := [0xFFFF_FFFF];
    assert ByteAt(ws, 1) == 0xFF;
    assert BytesIn(ws, 1) == [0xFF];
    ClampedIff(ws, 1);
  }

  /** The indexed loop drops the words past the significant ones, so that an unclamped argument can be appended cleanly. */
  lemma CopyDropsWords(ws: seq<Word>)
    requires 65535 < |ws|
    ensures AppendsClamped(ws, 4) && ws != Pack(BytesIn(ws, 4))
  {
    ClampedIff(ws, 4);
  }

  class WordArray {
    var words: seq<Word>
    var sigBytes: nat

    /** What the array stands for. */
    function Bytes(): (bs: seq<Byte>)
      reads this
      ensures |bs| == sigBytes
    {
      BytesIn(words, sigBytes)
    }

    ghost predicate Clamped()
      reads this
    {
      words == Pack(Bytes())
    }

    constructor (words: seq<Word>, sigBytes: nat)
      ensures this.words == words && this.sigBytes == sigBytes
    {
      this.words, this.sigBytes := words, sigBytes;
    }

    /** Whatever the tail held, clamping zeroes it and fixes the length; the bytes stay. */
    method Clamp()
      modifies this
      ensures sigBytes == old(sigBytes) && Bytes() == old(Bytes())
      ensures Clamped()
    {
      hide ByteOf, AtByte, WordOf, OrByte, KeepBytes;
      var i := sigBytes / 4;
      words := Put(words, i, KeepBytes(Get(words, i), sigBytes % 4));
      words := Resize(words, (sigBytes + 3) / 4);
      MaskedTail(old(words), sigBytes);
      BytesInPack(BytesIn(old(words), sigBytes));
    }

    /** The byte loop of `concat`. */
    method OrInBytes(a: WordArray)
      requires Clamped()
      modifies this`words
      ensures words == Pack(old(Bytes()) + old(a.Bytes()))
      ensures a != this ==> a.words == old(a.words)
    {
      hide ByteOf, AtByte, WordOf, OrByte, KeepBytes, PackedWord, Pack;
      var j, n := sigBytes, a.sigBytes;
      ghost var mine, other := Bytes(), a.Bytes();
      assert mine + other[..0] == mine;
      for k := 0 to n
        invariant a != this ==> a.words == old(a.words)
        invariant words == Pack(mine + other[..k])
      {
        if a == this {
          SourceByte(mine, other[..k], k);
        }
        var b := ByteAt(a.words, k);
        OrAppendsNext(mine, other, k);
        words := Put(words, (j + k) / 4, OrByte(Get(words, (j + k) / 4), b, (j + k) % 4));
      }
      assert other[..n] == other;
    }

    /** The indexed loop of `concat`, for long arguments. */
    method CopyWords(ws: seq<Word>, n: nat)
      requires |words| == sigBytes / 4 && sigBytes % 4 == 0
      modifies this`words
      ensures words == old(words) + seq((n + 3) / 4, i requires 0 <= i => Get(ws, i))
    {
      var k := 0;
      ghost var i := 0;
      while k < n
        invariant k == 4 * i && 0 <= i <= (n + 3) / 4
        invariant words == old(words) + seq(i, i requires 0 <= i => Get(ws, i))
      {
        words := Put(words, (sigBytes + k) / 4, Get(ws, k / 4));
        k := k + 4;
        i := i + 1;
      }
    }

    /**
     Appends the bytes of `a` (which may be this very array), whatever either tail holds. The byte loop leaves clamped
     words, and an array appended to itself has just been clamped; otherwise the result is clamped exactly when the
     words added are.
     */
    method Concat(a: WordArray)
      modifies this
      ensures Bytes() == old(Bytes()) + old(a.Bytes())
      ensures a != this ==> a.words == old(a.words) && a.sigBytes == old(a.sigBytes)
      ensures words == Joined(old(words), old(sigBytes), if a == this then Pack(old(Bytes())) else old(a.words), old(a.sigBytes))
      ensures Clamped() <==> old(sigBytes) % 4 != 0 || a == this || AppendsClamped(old(a.words), old(a.sigBytes))
    {
      hide ByteOf, AtByte, WordOf, OrByte, KeepBytes, PackedWord;
      var n := a.sigBytes;
      ghost var mine, other := Bytes(), a.Bytes();
      Clamp();
      if sigBytes % 4 != 0 {
        OrInBytes(a);
        BytesInPack(mine + other);
      } else {
        AppendAligned(mine, a.words, n);
        if a == this {
          ClampedAppends(words, n);
        }
        if 65535 < |a.words| {
          CopyWords(a.words, n);
        } else {
          words := words + a.words;
        }
      }
      sigBytes := sigBytes + n;
    }
  }
}
