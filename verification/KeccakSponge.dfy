/**
 The Keccak hash as a hash function of the hasher and HMAC objects (js/sha3.js:12-13, 15-18): absorbing, padding,
 squeezing and the digest. The padding is the multi-rate padding of section 5.1 of FIPS 202, without the two suffix bits that section 6.1
 adds for SHA-3.
 */
module KeccakSponge {
  import opened Arithmetic
  import opened WordArrays
  import opened B = BufferedBlocks
  import opened JsNumber
  import opened MachineWords
  import opened Lanes
  import Sequences
  import opened Hashers
  import opened Hmacs
  import opened Keccak
  import opened KeccakObject

  type State = a: seq<nat> | |a| == 25 witness seq(25, _ => 0)

  // ----- absorbing one block

  /** Lane `h` of a block of octets in words, least significant octet first. */
  function LaneOf(block: seq<Word>, h: nat): nat
    requires 2 * h + 1 < |block|
  {
    AsNumber(SwapBytes(block[2 * h])) + AsNumber(SwapBytes(block[2 * h + 1])) * TWO32
  }

  function Absorbed(a: State, block: seq<Word>): State {
    seq(25, h requires 0 <= h < 25 => if 2 * h + 1 < |block| then Xor64(a[h], LaneOf(block, h)) else a[h])
  }

  function Step(a: State, block: seq<Word>): (State, seq<Word>) {
    (KeccakF(Absorbed(a, block)), block)
  }

  /** The sponge with a rate of `size` words. */
  function Sponge(size: nat): Algorithm<State> {
    Algorithm((a: State, block: seq<Word>) => Step(a, block), size, 0)
  }

  lemma SpongeValid(size: nat)
    requires size > 0
    ensures Sponge(size).Valid()
  {
    hide KeccakF, Absorbed;
  }

  lemma LaneOfWords(v: Word, w: Word)
    ensures Lane(AsNumber(w), AsNumber(v)).Val() == AsNumber(v) + AsNumber(w) * TWO32
  {
    hide AsNumber;
    UnsignedSmall(AsNumber(v));
    UnsignedSmall(AsNumber(w));
  }

  /** The words that a block of `size` words at `offset` is read as: whole lanes, so one word too many of an odd size. */
  function BlockRead(m: seq<Word>, offset: nat, size: nat): seq<Word> {
    BlockAt(m, offset, 2 * ((size + 1) / 2))
  }

  /** The first loop of `_doProcessBlock`, while `h < blockSize / 2`. */
  method AbsorbInPlace(k: KeccakState, m: seq<Word>, offset: nat, size: nat)
    requires k.Valid() && size <= 50
    modifies k.lanes
    ensures k.Valid() && Vals(k.lanes[..]) == Absorbed(old(Vals(k.lanes[..])), BlockRead(m, offset, size))
  {
    hide Lane.Val, XorLane, Xor64, AsNumber, SwapBytes, Swapped, RoundConstant, Offset, PiTarget;
    ghost var v, block := Vals(k.lanes[..]), BlockRead(m, offset, size);
    var h := 0;
    while 2 * h < size
      invariant h <= (size + 1) / 2
      invariant forall i :: h <= i < 25 ==> k.lanes[i].Val() == v[i]
      invariant forall i :: 0 <= i < h ==> k.lanes[i].Val() == Xor64(v[i], LaneOf(block, i))
    {
      var l, w := Swapped(Get(m, offset + 2 * h)), Swapped(Get(m, offset + 2 * h + 1));
      assert block[2 * h] == Get(m, offset + 2 * h) && block[2 * h + 1] == Get(m, offset + 2 * h + 1);
      SwappedBytes(Get(m, offset + 2 * h));
      SwappedBytes(Get(m, offset + 2 * h + 1));
      var p := Lane(AsNumber(w), AsNumber(l));
      LaneOfWords(l, w);
      XorLaneVal(k.lanes[h], p);
      k.lanes[h] := XorLane(k.lanes[h], p);
      h := h + 1;
    }
  }

  /** `_doProcessBlock` */
  method DoProcessBlock(k: KeccakState, m: seq<Word>, offset: nat, size: nat)
    requires k.Valid() && size <= 50
    modifies k.lanes, k.temp
    ensures k.Valid() && Vals(k.lanes[..]) == Step(old(Vals(k.lanes[..])), BlockRead(m, offset, size)).0
    ensures size % 2 == 0 ==> BlockRead(m, offset, size) == BlockAt(m, offset, size)
  {
    hide Lane.Val, Absorbed, KeccakF, RoundConstant, Offset, PiTarget;
    AbsorbInPlace(k, m, offset, size);
    k.Permute();
  }

  // ----- padding

  /** One bit, zeros, one bit, up to the end of a block of `b` octets; both bits may fall into one octet. */
  function PadBytes(n: nat, b: nat): (pad: seq<Byte>)
    requires b > 0
    ensures |pad| == b - n % b
  {
    var q := b - n % b;
    if q == 1 then [0x81] else [0x01] + Zeros(q - 2) + [0x80]
  }

  lemma PadFills(n: nat, b: nat)
    requires b > 0
    ensures (n + |PadBytes(n, b)|) % b == 0
  {
    assert n == (n / b) * b + n % b;
    MulDistributes(n / b, 1, b);
    QuotientUnique(n + b - n % b, n / b + 1, 0, b);
  }

  function PaddedWords(p: seq<Byte>, size: nat): seq<Word>
    requires size > 0
  {
    Pack(p + PadBytes(|p|, 4 * size))
  }

  lemma FourDivides(q: nat, b: nat)
    requires b % 4 == 0
    ensures (q * b) % 4 == 0
  {
    Mul4(q, b / 4);
    assert b == 4 * (b / 4);
  }

  lemma WholeWordsOf(n: nat, b: nat)
    requires b > 0 && b % 4 == 0
    ensures (n + |PadBytes(n, b)|) % 4 == 0
  {
    PadFills(n, b);
    var t := n + |PadBytes(n, b)|;
    FourDivides(t / b, b);
    assert t == (t / b) * b;
  }

  /** Different messages have different padded forms. */
  lemma PaddingInjective(m: seq<Byte>, m': seq<Byte>, size: nat)
    requires size > 0 && PaddedWords(m, size) == PaddedWords(m', size)
    ensures m == m'
  {
    hide Pack, PadBytes;
    var b := 4 * size;
    WholeWordsOf(|m|, b);
    WholeWordsOf(|m'|, b);
    PackInjective(m + PadBytes(|m|, b), m' + PadBytes(|m'|, b));
    MarkersMeet(m, m', m + PadBytes(|m|, b), b);
  }

  lemma PadShape(n: nat, b: nat)
    requires b > 0
    ensures var pad := PadBytes(n, b);
            && (pad[0] == 0x01 || pad[0] == 0x81)
            && (forall i :: 0 < i < |pad| ==> pad[i] == 0 || pad[i] == 0x80)
  {
  }

  lemma MarkersMeet(m: seq<Byte>, m': seq<Byte>, x: seq<Byte>, b: nat)
    requires b > 0 && x == m + PadBytes(|m|, b) == m' + PadBytes(|m'|, b)
    ensures m == m'
  {
    hide PadBytes;
    var pad, pad' := PadBytes(|m|, b), PadBytes(|m'|, b);
    PadShape(|m|, b);
    PadShape(|m'|, b);
    assert forall i :: |m| <= i < |x| ==> x[i] == pad[i - |m|];
    assert forall i :: |m'| <= i < |x| ==> x[i] == pad'[i - |m'|];
    assert x[|m|] == pad[0] && x[|m'|] == pad'[0];
    assert |m| == |m'|;
    assert m == x[..|m|] && m' == x[..|m'|];
  }

  // ----- the padding of SHA-3

  /** Section 6.1 of FIPS 202: the suffix bits 01 before the multi-rate padding. */
  function SuffixedPadBytes(n: nat, b: nat): (pad: seq<Byte>)
    requires b > 0
    ensures |pad| == b - n % b
  {
    var q := b - n % b;
    if q == 1 then [0x86] else [0x06] + Zeros(q - 2) + [0x80]
  }

  function Sha3PaddedWords(p: seq<Byte>, size: nat): seq<Word>
    requires size > 0
  {
    Pack(p + SuffixedPadBytes(|p|, 4 * size))
  }

  lemma OneBlockUp(n: nat, b: nat)
    requires b > 0 && b % 4 == 0
    ensures |SuffixedPadBytes(n, b)| == |PadBytes(n, b)| && (n + |PadBytes(n, b)|) % 4 == 0
  {
    WholeWordsOf(n, b);
  }

  lemma SuffixShape(n: nat, b: nat)
    requires b > 0
    ensures var pad := SuffixedPadBytes(n, b);
            && (pad[0] == 0x06 || pad[0] == 0x86)
            && (forall i :: 0 < i < |pad| ==> pad[i] == 0 || pad[i] == 0x80)
  {
  }

  /** The octets differ where the later of the two paddings begins. */
  lemma PaddingsDiffer(m: seq<Byte>, m': seq<Byte>, b: nat)
    requires b > 0
    ensures m + PadBytes(|m|, b) != m' + SuffixedPadBytes(|m'|, b)
  {
    hide PadBytes, SuffixedPadBytes;
    var pad, pad' := PadBytes(|m|, b), SuffixedPadBytes(|m'|, b);
    PadShape(|m|, b);
    SuffixShape(|m'|, b);
    var x, x' := m + pad, m' + pad';
    if |x| == |x'| {
      var i := if |m| <= |m'| then |m'| else |m|;
      assert x[i] == pad[i - |m|] && x'[i] == pad'[i - |m'|];
    }
  }

  /** No padded message of the code is a padded message of the standard's SHA-3, of this message or any other. */
  lemma PaddingsNeverMeet(m: seq<Byte>, m': seq<Byte>, size: nat)
    requires size > 0
    ensures PaddedWords(m, size) != Sha3PaddedWords(m', size)
  {
    hide Pack, PadBytes, SuffixedPadBytes;
    var b := 4 * size;
    OneBlockUp(|m|, b);
    OneBlockUp(|m'|, b);
    var x, x' := m + PadBytes(|m|, b), m' + SuffixedPadBytes(|m'|, b);
    PaddingsDiffer(m, m', b);
    if Pack(x) == Pack(x') {
      PackInjective(x, x');
    }
  }

  /** The empty message. */
  lemma EmptyPaddings()
    ensures PadBytes(0, 72)[0] == 0x01 && SuffixedPadBytes(0, 72)[0] == 0x06
    ensures PaddedWords([], 18) != Sha3PaddedWords([], 18)
  {
    PaddingsNeverMeet([], [], 18);
  }

  // ----- the code's padding

  /** The words that `_doFinalize` leaves in the buffer; a property -1 is no element of the array. */
  function FinalWords(ws: seq<Word>, sigBytes: nat, size: nat): seq<Word>
    requires size > 0
  {
    var c, e := 8 * sigBytes, 32 * size;
    var i, k := Unsigned(c) / 32, Unsigned((c + 1 + e - 1) / e * e) / 32;
    var w := Put(ws, i, OrByte(Get(ws, i), 0x01, c % 32 / 8));
    if k == 0 then w else Put(w, k - 1, OrByte(Get(w, k - 1), 0x80, 3))
  }

  /** The padded message ends before 2^29 bytes, where the indices wrap around, up to so many bytes. */
  function Limit(size: nat): nat
    requires size > 0
  {
    0x1FFF_FFFF / (4 * size) * (4 * size)
  }

  /** The words of a padded message. */
  function PaddedCount(n: nat, size: nat): nat
    requires size > 0
  {
    (n / (4 * size) + 1) * size
  }

  lemma LastIndex(n: nat, size: nat)
    requires size > 0
    ensures var k := PaddedCount(n, size);
            && (8 * n + 1 + 32 * size - 1) / (32 * size) * (32 * size) == 32 * k
            && n + |PadBytes(n, 4 * size)| == 4 * k && n < 4 * k
  {
    var b := 4 * size;
    var q, r := n / b, n % b;
    assert n == q * b + r;
    MulDistributes(q, 1, b);
    Mul4(q + 1, size);
    EightTimes(q + 1, b, size);
    EightTimes(q, b, size);
    MulDistributes(q, 1, 32 * size);
    QuotientUnique(8 * n + 32 * size, q + 1, 8 * r, 32 * size);
  }

  lemma EightTimes(q: nat, b: nat, size: nat)
    requires b == 4 * size
    ensures q * (32 * size) == 8 * (q * b) == 32 * (q * size)
  {
  }

  /** The limit is where the padded message would reach 2^29 bytes. */
  lemma LimitIs(n: nat, size: nat)
    requires size > 0
    ensures n < Limit(size) <==> 4 * PaddedCount(n, size) < 0x2000_0000
  {
    var b := 4 * size;
    var q, t := n / b, 0x1FFF_FFFF / b;
    assert n == q * b + n % b && 0x1FFF_FFFF == t * b + 0x1FFF_FFFF % b;
    Mul4(q + 1, size);
    MulDistributes(q, 1, b);
    MulDistributes(t, 1, b);
    MulMonotone(q + 1, t, b);
    MulMonotone(t, q, b);
    MulMonotone(t + 1, q + 1, b);
  }

  /** The byte in which an `|=` meant for byte `i` lands. */
  function Landing(i: nat): nat {
    i % 0x2000_0000
  }

  lemma LandingSplit(i: nat)
    ensures 8 * i == 8 * Landing(i) + i / 0x2000_0000 * TWO32 && 8 * Landing(i) < TWO32 && i % 4 == Landing(i) % 4
  {
  }

  lemma LandingWord(i: nat)
    ensures Unsigned(8 * i) / 32 == Landing(i) / 4 && 8 * i % 32 / 8 == Landing(i) % 4
  {
    hide Landing, Unsigned;
    LandingSplit(i);
    UnsignedShift(8 * Landing(i), i / 0x2000_0000);
    UnsignedSmall(8 * Landing(i));
    BitIndex(Landing(i));
    BitIndex(i);
  }

  /** One for the byte after the message, one for the last byte of the block. */
  function Marks(n: nat, k: nat, i: nat): Byte
    requires k > 0
  {
    OrBytes(if i == Landing(n) then 0x01 else 0, if i + 1 == Landing(4 * k) then 0x80 else 0)
  }

  lemma OrCombines(b: Byte, x: Byte, y: Byte)
    ensures OrBytes(OrBytes(b, x), y) == OrBytes(b, OrBytes(x, y))
    ensures OrBytes(b, 0) == b && OrBytes(0, b) == b && OrBytes(0x01, 0x80) == 0x81
    ensures OrBytes(b, x) == 0 ==> b == 0
  {
  }

  lemma PutSize(ws: seq<Word>, i: nat, w: Word)
    ensures |Put(ws, i, w)| == if i < |ws| then |ws| else i + 1
  {
  }

  lemma WordEnd(k: nat)
    requires k > 0
    ensures (4 * k - 1) / 4 == k - 1 && (4 * k - 1) % 4 == 3
  {
  }

  /** The words of `_doFinalize`, byte by byte. */
  lemma FinalBytes(ws: seq<Word>, n: nat, size: nat)
    requires size > 0
    ensures var k, r := PaddedCount(n, size), FinalWords(ws, n, size);
            && k > 0 && n < 4 * k
            && (forall i: nat :: ByteAt(r, i) == OrBytes(ByteAt(ws, i), Marks(n, k, i)))
            && (|ws| > k ==> |r| == |ws|)
            && (|ws| <= k ==> |r| <= k)
  {
    hide ByteAt, OrByte, Put, Get, PadBytes, Landing, Unsigned, PaddedCount;
    var k := PaddedCount(n, size);
    LastIndex(n, size);
    LandingWord(n);
    LandingWord(4 * k);
    LandingBound(n);
    LandingBound(4 * k);
    var r, m := FinalWords(ws, n, size), Landing(n);
    var w := Put(ws, m / 4, OrByte(Get(ws, m / 4), 0x01, m % 4));
    PutSize(ws, m / 4, OrByte(Get(ws, m / 4), 0x01, m % 4));
    var l := Landing(4 * k) / 4;
    LandingWhole(k);
    assert r == if l == 0 then w else Put(w, l - 1, OrByte(Get(w, l - 1), 0x80, 3));
    if l > 0 {
      PutSize(w, l - 1, OrByte(Get(w, l - 1), 0x80, 3));
      WordEnd(l);
    }
    forall i: nat
      ensures ByteAt(r, i) == OrBytes(ByteAt(ws, i), Marks(n, k, i))
    {
      OrCombines(ByteAt(ws, i), if i == m then 0x01 else 0, if i + 1 == 4 * l then 0x80 else 0);
      OrAt(ws, m, 0x01, i);
      if l > 0 {
        OrAt(w, 4 * l - 1, 0x80, i);
      }
    }
  }

  lemma LandingBound(i: nat)
    ensures Landing(i) <= i
    ensures i < 0x2000_0000 ==> Landing(i) == i
  {
  }

  lemma LandingWhole(k: nat)
    ensures Landing(4 * k) == 4 * (Landing(4 * k) / 4)
  {
  }

  /** Nothing lies past the block, and no bit is set past the message that the padding does not set. */
  ghost predicate TailTolerated(ws: seq<Word>, n: nat, size: nat)
    requires size > 0
  {
    var pad := PadBytes(n, 4 * size);
    && 4 * |ws| <= n + |pad|
    && forall i: nat | n <= i < n + |pad| :: OrBytes(ByteAt(ws, i), pad[i - n]) == pad[i - n]
  }

  /** The buffer already holds what the two `|=` miss, and where they land they do no harm. */
  ghost predicate Coincides(ws: seq<Word>, n: nat, size: nat)
    requires size > 0
  {
    var x, k := BytesIn(ws, n) + PadBytes(n, 4 * size), PaddedCount(n, size);
    && k > 0 && |ws| <= k
    && forall i: nat | i < |x| :: OrBytes(ByteAt(ws, i), Marks(n, k, i)) == x[i]
  }

  /** Every octet of the padded message beyond the last is zero; the last is not. */
  lemma LastOctet(n: nat, b: nat)
    requires b > 0
    ensures var pad := PadBytes(n, b); pad[|pad| - 1] != 0 && OrBytes(pad[|pad| - 1], 0x80) == pad[|pad| - 1]
  {
  }

  lemma FinalIff(ws: seq<Word>, n: nat, size: nat)
    requires size > 0
    ensures FinalWords(ws, n, size) == PaddedWords(BytesIn(ws, n), size) <==> Coincides(ws, n, size)
  {
    hide ByteAt, OrBytes, PadBytes, FinalWords, Pack, BytesIn, Marks, PaddedCount;
    var x, k, r := BytesIn(ws, n) + PadBytes(n, 4 * size), PaddedCount(n, size), FinalWords(ws, n, size);
    BytesInSize(ws, n);
    LastIndex(n, size);
    FinalBytes(ws, n, size);
    PackLength(x);
    LastOctet(n, 4 * size);
    if |r| < k {
      BeyondEnd(r, 4 * k - 1);
      assert x[4 * k - 1] != 0;
    } else {
      SameWordsIff(r, x, k);
      assert |ws| <= k ==> r[..k] == r;
    }
  }

  lemma BeyondEnd(ws: seq<Word>, i: nat)
    requires 4 * |ws| <= i
    ensures ByteAt(ws, i) == 0
  {
    ZeroBytes(i % 4);
  }

  /** Below the limit the marks are the padding itself. */
  lemma MarksArePad(n: nat, size: nat, i: nat)
    requires size > 0 && n < Limit(size) && i < 4 * PaddedCount(n, size)
    ensures PaddedCount(n, size) > 0 && n + |PadBytes(n, 4 * size)| == 4 * PaddedCount(n, size)
    ensures Marks(n, PaddedCount(n, size), i) == if i < n then 0 else PadBytes(n, 4 * size)[i - n]
  {
    LastIndex(n, size);
    LimitIs(n, size);
    hide PaddedCount, Landing, Limit;
    LandingBound(n);
    LandingBound(4 * PaddedCount(n, size));
    OrCombines(0, 0, 0);
    OrCombines(0x01, 0, 0);
    OrCombines(0x80, 0, 0);
  }

  /**
   The two `|=` of `_doFinalize` pad the message exactly when, below the limit, they hide what follows it in the buffer,
   and from the limit on, the buffer already held what they miss.
   */
  lemma FinalWordsIff(ws: seq<Word>, sigBytes: nat, size: nat)
    requires size > 0
    ensures FinalWords(ws, sigBytes, size) == PaddedWords(BytesIn(ws, sigBytes), size) <==>
              if sigBytes < Limit(size) then TailTolerated(ws, sigBytes, size) else Coincides(ws, sigBytes, size)
  {
    hide ByteAt, OrBytes, PadBytes, FinalWords, PaddedWords, Pack, BytesIn, Marks, PaddedCount, Limit;
    var n, k := sigBytes, PaddedCount(sigBytes, size);
    FinalIff(ws, n, size);
    BytesInSize(ws, n);
    LastIndex(n, size);
    if n < Limit(size) {
      var pad := PadBytes(n, 4 * size);
      var x := BytesIn(ws, n) + pad;
      MarksArePad(n, size, 0);
      forall i: nat | i < |x|
        ensures OrBytes(ByteAt(ws, i), Marks(n, k, i)) == x[i] <==> i < n || OrBytes(ByteAt(ws, i), pad[i - n]) == pad[i - n]
      {
        MarksArePad(n, size, i);
        OrCombines(ByteAt(ws, i), 0, 0);
        ByteIn(ws, n, i);
      }
    }
  }

  lemma ByteIn(ws: seq<Word>, n: nat, i: nat)
    ensures i < n ==> BytesIn(ws, n)[i] == ByteAt(ws, i)
  {
  }

  /** On a clamped buffer the two `|=` leave the padded message, also where both meet in one octet, exactly below the limit. */
  lemma FinalWordsPad(p: seq<Byte>, size: nat)
    requires size > 0
    ensures FinalWords(Pack(p), |p|, size) == PaddedWords(p, size) <==> |p| < Limit(size)
  {
    hide ByteAt, Pack, FinalWords, PaddedWords, PadBytes, OrBytes, BytesIn, Limit, PaddedCount, Marks;
    BytesInPack(p);
    PackLength(p);
    LastIndex(|p|, size);
    FinalWordsIff(Pack(p), |p|, size);
    var n, k := |p|, PaddedCount(|p|, size);
    var pad := PadBytes(n, 4 * size);
    forall i: nat | n <= i
      ensures ByteAt(Pack(p), i) == 0
    {
      PackByteAt(p, i);
    }
    if n < Limit(size) {
      forall i: nat | n <= i < n + |pad|
        ensures OrBytes(ByteAt(Pack(p), i), pad[i - n]) == pad[i - n]
      {
        OrWithZero(pad[i - n]);
      }
    } else if Coincides(Pack(p), n, size) {
      LastOctet(n, 4 * size);
      OrWithZero(Marks(n, k, 4 * k - 1));
      assert Marks(n, k, 4 * k - 1) == pad[|pad| - 1];
      NoLastMark(n, size);
      assert false;
    }
  }

  lemma NoLastMark(n: nat, size: nat)
    requires size > 0 && n >= Limit(size)
    ensures var k := PaddedCount(n, size); k > 0 && OrBytes(Marks(n, k, 4 * k - 1), 0x80) != Marks(n, k, 4 * k - 1)
  {
    LimitIs(n, size);
    hide PaddedCount, Limit;
    LastIndex(n, size);
  }

  lemma LongMessage(p: seq<Byte>)
    requires |p| == 0x2000_0000
    ensures Unsigned(8 * |p|) == 0 && 8 * |p| % 32 == 0
    ensures Unsigned((8 * |p| + 1 + 576 - 1) / 576 * 576) / 32 == 10
  {
    QuotientUnique(8 * |p| + 576, 7456541, 256, 576);
  }

  /**
   A failing input: 2^29 clamped bytes given in one call with the default rate get no further block; the two marks go into
   the first and the tenth word of the message.
   */
  lemma MarksWrap(p: seq<Byte>)
    requires |p| == 0x2000_0000
    ensures |Pack(p)| == 0x800_0000
    ensures var w := Pack(p)[0 := OrByte(Pack(p)[0], 0x01, 0)];
            FinalWords(Pack(p), |p|, 18) == w[9 := OrByte(w[9], 0x80, 3)]
    ensures FinalWords(Pack(p), |p|, 18) != PaddedWords(p, 18)
    ensures AppendsClamped(Pack(p), |p|)
  {
    FinalWordsPad(p, 18);
    hide Pack, PaddedWords, OrByte, BytesIn, Unsigned;
    PackLength(p);
    LongMessage(p);
    BytesInPack(p);
    ClampedAppends(Pack(p), |p|);
  }

  lemma PaddedSize(p: seq<Byte>, size: nat)
    requires size > 0
    ensures |PaddedWords(p, size)| == (Blocks(|p|, size) + 1) * size
  {
    hide PackedWord, Pack;
    LastIndex(|p|, size);
    PackLength(p + PadBytes(|p|, 4 * size));
  }

  // ----- whole messages

  function BlockNumber(ws: seq<Word>, i: nat, size: nat): seq<Word> {
    BlockAt(ws, i * size, size)
  }

  /** The sponge of section 4: the permutation over the padded blocks. */
  function Absorb(a: State, ws: seq<Word>, size: nat, n: nat): State {
    if n == 0 then a else KeccakF(Absorbed(Absorb(a, ws, size, n - 1), BlockNumber(ws, n - 1, size)))
  }

  function Empty(): State {
    seq(25, _ => 0)
  }

  function SpongeOf(m: seq<Byte>, size: nat): State
    requires size > 0
  {
    Absorb(Empty(), PaddedWords(m, size), size, Blocks(|m|, size) + 1)
  }

  lemma {:induction false} RunAbsorbs(a: State, ws: seq<Word>, size: nat, n: nat)
    requires size > 0 && Sponge(size).Valid()
    ensures Run(Sponge(size), a, ws, n).0 == Absorb(a, ws, size, n)
    decreases n
  {
    hide KeccakF, Absorbed;
    if n > 0 {
      RunAbsorbs(a, ws, size, n - 1);
    }
  }

  /** How many whole blocks `n` bytes hold. */
  function Blocks(n: nat, size: nat): nat
    requires size > 0
  {
    Quotient(n, 4 * size)
  }

  function BlocksEnd(n: nat, size: nat): nat {
    4 * (n * size)
  }

  lemma BlocksShift(n: nat, size: nat, k: nat)
    requires size > 0 && BlocksEnd(k, size) <= n
    ensures PadBytes(n, 4 * size) == PadBytes(n - BlocksEnd(k, size), 4 * size)
    ensures Blocks(n, size) == k + Blocks(n - BlocksEnd(k, size), size)
  {
    Mul4(k, size);
    QuotientShift(n, k, 4 * size);
  }

  lemma PaddedRest(m: seq<Byte>, size: nat, n: nat)
    requires size > 0 && BlocksEnd(n, size) <= |m|
    ensures PaddedWords(m, size) == Pack(m[..BlocksEnd(n, size)]) + PaddedWords(m[BlocksEnd(n, size)..], size)
    ensures Blocks(|m|, size) == n + Blocks(|m| - BlocksEnd(n, size), size)
  {
    BlocksShift(|m|, size, n);
    assert BlocksEnd(n, size) % 4 == 0;
    hide Pack, PadBytes, BlocksEnd, Blocks;
    PackSplit(m, PadBytes(|m|, 4 * size), BlocksEnd(n, size));
  }

  // ----- the digest

  /** The octets of a lane in two words, least significant octet first. */
  function LaneWords(v: nat): seq<Word> {
    [SwapBytes(NumberWord(v)), SwapBytes(NumberWord(v / TWO32))]
  }

  /** The words of the first `n` lanes. */
  function DigestWords(a: State, n: nat): (r: seq<Word>)
    requires n <= 25
    ensures |r| == 2 * n
  {
    if n == 0 then [] else DigestWords(a, n - 1) + LaneWords(a[n - 1])
  }

  /** The output loop of `_doFinalize`: lanes while `h < outputLength / 64`. */
  method SqueezeWords(k: KeccakState, outputLength: nat) returns (e: seq<Word>)
    requires k.Valid() && outputLength <= 1600
    ensures e == DigestWords(Vals(k.lanes[..]), (outputLength + 63) / 64)
  {
    hide Lane.Val, SwapBytes, Swapped, NumberWord;
    e := [];
    var h := 0;
    while 64 * h < outputLength
      invariant h <= (outputLength + 63) / 64
      invariant e == DigestWords(Vals(k.lanes[..]), h)
    {
      var f, d := NumberWord(k.lanes[h].high), NumberWord(k.lanes[h].low);
      HalfWords(k.lanes[h]);
      SwappedBytes(f);
      SwappedBytes(d);
      e := e + [Swapped(d)] + [Swapped(f)];
      h := h + 1;
    }
  }

  // ----- the hash function

  /** `blockSize`: the words of the state that are not kept back as capacity. */
  function Rate(outputLength: nat): (size: nat)
    requires outputLength <= 768
    ensures size > 0
  {
    (1600 - 2 * outputLength) / 32
  }

  /** The object's functions; `finalize` makes a new array, of whole lanes. */
  function Hash3(outputLength: nat): HashFunction<State>
    requires outputLength % 32 == 0 && outputLength <= 768
  {
    var size := Rate(outputLength);
    HashFunction(Sponge(size), Empty(), (p: seq<Byte>, n: nat) => PaddedWords(p, size), Limit(size),
      (ws: seq<Word>, sigBytes: nat, n: nat) => FinalWords(ws, sigBytes, size),
      (a: State) => DigestWords(a, (outputLength + 63) / 64), outputLength / 8, false)
  }

  lemma ModuloProduct(q: nat, b: nat)
    requires b > 0
    ensures q * b % b == 0
  {
    QuotientUnique(q * b, q, 0, b);
  }

  lemma LimitRoom(size: nat)
    requires 0 < size <= 50
    ensures 8 * size < Limit(size)
  {
    assert 0x1FFF_FFFF == 0x1FFF_FFFF / (4 * size) * (4 * size) + 0x1FFF_FFFF % (4 * size);
  }

  /** Keccak is a hash function that the hasher objects can be built on. */
  lemma Hash3Valid(outputLength: nat)
    requires outputLength % 32 == 0 && outputLength <= 768
    ensures Hash3(outputLength).Valid()
  {
    var h, size := Hash3(outputLength), Rate(outputLength);
    LimitRoom(size);
    hide Step, PaddedWords, FinalWords, DigestWords, Rate, Blocks, BlocksEnd, Limit;
    SpongeValid(size);
    forall p: seq<Byte>, n: nat
      ensures |h.Pad(p, n)| % h.alg.blockSize == 0
      ensures |p| < h.limit ==> h.close(Pack(p), |p|, n) == h.Pad(p, n)
    {
      PaddedSize(p, size);
      ModuloProduct(Blocks(|p|, size) + 1, size);
      FinalWordsPad(p, size);
    }
    forall m: seq<Byte>, k: nat | 4 * (k * h.alg.blockSize) <= |m|
      ensures h.Pad(m, |m|) == Pack(m[..4 * (k * h.alg.blockSize)]) + h.Pad(m[4 * (k * h.alg.blockSize)..], |m|)
    {
      EndOfBlocks(k, size);
      PaddedRest(m, size, k);
    }
  }

  lemma EndOfBlocks(k: nat, size: nat)
    ensures BlocksEnd(k, size) == 4 * (k * size)
  {
  }

  /** HMAC and PBKDF2 can be built on the output lengths that fill lanes and fit a block. */
  lemma Hash3Sound(outputLength: nat)
    requires outputLength % 64 == 0 && 0 < outputLength <= 512
    ensures Hash3(outputLength).Sound()
  {
    hide HashFunction.Valid, Step, FinalWords, PaddedWords, DigestWords, Rate, Limit;
    Hash3Valid(outputLength);
    OutputFills(outputLength);
  }

  lemma OutputFills(outputLength: nat)
    requires outputLength % 64 == 0 && 0 < outputLength <= 512
    ensures 4 * (2 * ((outputLength + 63) / 64)) == outputLength / 8 && outputLength / 8 % 4 == 0
    ensures 0 < outputLength / 8 <= 4 * Rate(outputLength)
  {
  }

  // ----- squeezing

  /** The state as a string of 200 octets. */
  function StateOctets(a: State): (s: seq<Byte>)
    ensures |s| == 200
  {
    BytesIn(DigestWords(a, 25), 200)
  }

  /** The squeezing of algorithm 8 of FIPS 202: at most `r` octets of a state, then the permutation before any more. */
  function Squeezed(a: State, r: nat, n: nat): (z: seq<Byte>)
    requires 0 < r <= 200
    ensures |z| == n
    decreases n
  {
    hide KeccakF, StateOctets;
    if n <= r then StateOctets(a)[..n] else StateOctets(a)[..r] + Squeezed(KeccakF(a), r, n - r)
  }

  /** The sponge construction of section 4 of FIPS 202, with the padding of the original submission. */
  function KeccakHash(m: seq<Byte>, outputLength: nat): (d: seq<Byte>)
    requires outputLength <= 768
    ensures |d| == outputLength / 8
  {
    Squeezed(SpongeOf(m, Rate(outputLength)), 4 * Rate(outputLength), outputLength / 8)
  }

  /** The words that the code hands out: the leading lanes of the state after the last block, however many. */
  function LaneDigest(m: seq<Byte>, outputLength: nat): seq<Word>
    requires outputLength <= 768
  {
    DigestWords(SpongeOf(m, Rate(outputLength)), (outputLength + 63) / 64)
  }

  lemma {:induction false} LanesExtend(a: State, n: nat, k: nat)
    requires n <= k <= 25
    ensures DigestWords(a, n) == DigestWords(a, k)[..2 * n]
    decreases k
  {
    hide LaneWords;
    if n < k {
      LanesExtend(a, n, k - 1);
    }
  }

  /** The leading lanes hold the leading octets of the state. */
  lemma LaneOctets(a: State, lanes: nat, n: nat)
    requires lanes <= 25 && n <= 8 * lanes
    ensures BytesIn(DigestWords(a, lanes), n) == StateOctets(a)[..n]
  {
    hide ByteOf, DigestWords;
    LanesExtend(a, lanes, 25);
    forall i: nat | i < n
      ensures ByteAt(DigestWords(a, lanes), i) == StateOctets(a)[i]
    {
      assert DigestWords(a, lanes)[i / 4] == DigestWords(a, 25)[..2 * lanes][i / 4];
    }
  }

  /** The capacity happens to hold what would be squeezed after another permutation. */
  ghost predicate CapacityCoincides(a: State, r: nat, n: nat)
    requires 0 < r
  {
    r <= n <= 200 && r <= 200 && StateOctets(a)[r..n] == Squeezed(KeccakF(a), r, n - r)
  }

  /**
   The leading lanes of a state are what the sponge squeezes exactly when they stay within the rate of `r` octets, or the
   capacity, in which the code reads on without another permutation, happens to hold the same.
   */
  lemma SqueezedIff(a: State, lanes: nat, r: nat, n: nat)
    requires 0 < r <= 200 && lanes <= 25 && n <= 8 * lanes
    ensures BytesIn(DigestWords(a, lanes), n) == Squeezed(a, r, n) <==> n <= r || CapacityCoincides(a, r, n)
  {
    hide KeccakF, BytesIn, DigestWords, StateOctets;
    LaneOctets(a, lanes, n);
    var s := StateOctets(a);
    if n > r {
      assert s[..n] == s[..r] + s[r..n];
      assert Squeezed(a, r, n)[r..] == Squeezed(KeccakF(a), r, n - r);
    }
  }

  /** 544 is the first output length that exceeds its rate. */
  lemma RateExceeded(outputLength: nat)
    requires outputLength % 32 == 0 && outputLength <= 768
    ensures 4 * Rate(outputLength) <= 200 && outputLength / 8 <= 8 * ((outputLength + 63) / 64)
    ensures outputLength / 8 <= 4 * Rate(outputLength) <==> outputLength < 544
  {
  }

  /** What the code hands out is the squeezed sponge for every length up to 512, the longest that the documentation allows. */
  lemma LanesAreSqueezed(m: seq<Byte>, outputLength: nat)
    requires outputLength % 32 == 0 && outputLength <= 768
    ensures BytesIn(LaneDigest(m, outputLength), outputLength / 8) == KeccakHash(m, outputLength) <==>
              outputLength < 544 ||
              CapacityCoincides(SpongeOf(m, Rate(outputLength)), 4 * Rate(outputLength), outputLength / 8)
  {
    hide SpongeOf, Rate, BytesIn, DigestWords, Squeezed, CapacityCoincides;
    RateExceeded(outputLength);
    SqueezedIff(SpongeOf(m, Rate(outputLength)), (outputLength + 63) / 64, 4 * Rate(outputLength), outputLength / 8);
  }

  /** Whole lanes within the rate are the clamped words of the squeezed octets. */
  lemma LanesAreHash(m: seq<Byte>, lanes: nat)
    requires lanes <= 8
    ensures LaneDigest(m, 64 * lanes) == Pack(KeccakHash(m, 64 * lanes))
  {
    hide LaneDigest, KeccakHash, CapacityCoincides, SpongeOf, Rate, Pack, BytesIn;
    LanesAreSqueezed(m, 64 * lanes);
    LaneCount(m, lanes);
    PackBytesIn(LaneDigest(m, 64 * lanes));
  }

  lemma LaneCount(m: seq<Byte>, lanes: nat)
    requires lanes <= 8
    ensures |LaneDigest(m, 64 * lanes)| == 2 * lanes
  {
    hide SpongeOf, DigestWords, Rate;
  }

  lemma Hash3Digest(m: seq<Byte>, outputLength: nat)
    requires outputLength % 32 == 0 && outputLength <= 768 && Hash3(outputLength).Valid()
    ensures Hash3(outputLength).Digest(m) == LaneDigest(m, outputLength)
  {
    hide Absorb, PaddedWords, Step, Run, DigestWords, HashFunction.Valid, Rate, Blocks, Limit;
    var size := Rate(outputLength);
    HashIsBuilt(Hash3(outputLength));
    PaddedSize(m, size);
    QuotientUnique(|PaddedWords(m, size)|, Blocks(|m|, size) + 1, 0, size);
    RunAbsorbs(Empty(), PaddedWords(m, size), size, Blocks(|m|, size) + 1);
  }

  /**
   After any updates `finalize` gives the squeezed sponge over the joined input, for every output length below 544, if the
   bytes still pending stay below the limit of the closing indices.
   */
  lemma ChunksReachSponge(chunks: seq<seq<Byte>>, last: seq<Byte>, outputLength: nat)
    requires outputLength % 32 == 0 && outputLength <= 768
    ensures Hash3(outputLength).Valid()
    ensures var m, h := Sequences.Flatten(chunks) + last, Hash3(outputLength);
            var s := B.Append(Feed(h.alg, Stream(h.initial, []), chunks).0, last);
            |s.pending| < Limit(Rate(outputLength)) ==>
              var d := h.output(h.Closed(s.st, h.close(Pack(s.pending), |s.pending|, |m|)));
              d == LaneDigest(m, outputLength) && (outputLength < 544 ==> BytesIn(d, h.outBytes) == KeccakHash(m, outputLength))
  {
    hide Process, Feed, KeccakHash, LaneDigest, HashFunction.Closed, HashFunction.Valid, HashFunction.Digest,
      Step, DigestWords, Rate, FinalWords, PaddedWords, Limit, Pack, BytesIn;
    Hash3Valid(outputLength);
    var h := Hash3(outputLength);
    ClosedChunks(h, chunks, last);
    Hash3Digest(Sequences.Flatten(chunks) + last, outputLength);
    LanesAreSqueezed(Sequences.Flatten(chunks) + last, outputLength);
  }

  // ----- digests that end within a lane

  /** A word that the closing `|=` hides: empty, or the mark itself. */
  predicate Blank(w: Word) {
    w == 0 || w == 0x0100_0000
  }

  lemma BlankBytes(w: Word)
    ensures Blank(w) <==> OrBytes(ByteOf(w, 0), 0x01) == 0x01 && ByteOf(w, 1) == 0 && ByteOf(w, 2) == 0 && ByteOf(w, 3) == 0
  {
    WordOfBytes(w);
  }

  lemma TwoBlocks(size: nat, keep: nat)
    requires keep < size <= 50
    ensures PadBytes(4 * (size + keep), 4 * size) == [0x01] + Zeros(4 * (size - keep) - 2) + [0x80]
    ensures 4 * (size + keep) < Limit(size)
  {
    QuotientUnique(4 * (size + keep), 1, 4 * keep, 4 * size);
    LimitRoom(size);
  }

  /** The bytes of the word after `q`, and zeros beyond. */
  lemma LastWordBytes(ws: seq<Word>, q: nat, i: nat)
    requires |ws| == q + 1 && 4 * q <= i
    ensures ByteAt(ws, i) == if i < 4 * q + 4 then ByteOf(ws[q], i - 4 * q) else 0
  {
    hide ByteOf;
    if i < 4 * q + 4 {
      assert i / 4 == q && i % 4 == i - 4 * q;
    } else {
      BeyondEnd(ws, i);
    }
  }

  lemma DroppedByte(ws: seq<Word>, q: nat, pad: seq<Byte>, i: nat)
    requires |ws| == q + 1 && 4 * q <= i < 4 * q + |pad|
    requires |pad| > 4 && pad[0] == 0x01 && pad[1] == pad[2] == pad[3] == 0
    ensures OrBytes(ByteAt(ws, i), pad[i - 4 * q]) == pad[i - 4 * q] <==>
              || i >= 4 * q + 4
              || (if i == 4 * q then OrBytes(ByteOf(ws[q], 0), 0x01) == 0x01 else ByteOf(ws[q], i - 4 * q) == 0)
  {
    hide ByteOf, ByteAt, OrBytes;
    LastWordBytes(ws, q, i);
    OrWithZero(pad[i - 4 * q]);
    OrCombines(ByteAt(ws, i), 0, 0);
  }

  /** One more word than counts: the closing `|=` pads as it should exactly when that word happens to be blank. */
  lemma DroppedWord(ws: seq<Word>, size: nat, keep: nat)
    requires keep < size - 1 && size <= 50 && |ws| == size + keep + 1
    ensures var n := 4 * (size + keep);
            FinalWords(ws, n, size) == PaddedWords(BytesIn(ws, n), size) <==> Blank(ws[size + keep])
  {
    hide FinalWords, PaddedWords, ByteAt, ByteOf, OrBytes, Blank, PadBytes, Limit, BytesIn;
    var n, q := 4 * (size + keep), size + keep;
    var pad := PadBytes(n, 4 * size);
    FinalWordsIff(ws, n, size);
    TwoBlocks(size, keep);
    BlankBytes(ws[q]);
    assert pad[0] == 0x01 && pad[1] == pad[2] == pad[3] == 0;
    forall i: nat | n <= i < n + |pad|
      ensures OrBytes(ByteAt(ws, i), pad[i - n]) == pad[i - n] <==>
                || i >= n + 4
                || (if i == n then OrBytes(ByteOf(ws[q], 0), 0x01) == 0x01 else ByteOf(ws[q], i - n) == 0)
    {
      DroppedByte(ws, q, pad, i);
    }
    if TailTolerated(ws, n, size) {
      forall k: nat | k < 4
        ensures if k == 0 then OrBytes(ByteOf(ws[q], 0), 0x01) == 0x01 else ByteOf(ws[q], k) == 0
      {
        assert OrBytes(ByteAt(ws, n + k), pad[n + k - n]) == pad[n + k - n];
      }
    }
  }

  /** All the words of a short digest are pushed. */
  lemma OuterJoined(pad: seq<Byte>, inner: seq<Word>, n: nat)
    requires |pad| % 4 == 0 && |pad| <= 1000 && |inner| <= 1000
    ensures Joined([], 0, Joined(Pack(pad), |pad|, inner, n), |pad| + n) == Pack(pad) + inner
  {
    BytesInPack(pad);
    hide Pack, BytesIn;
    PackLength(pad);
    BytesInSize([], 0);
    PackLength(BytesIn([], 0));
  }

  lemma PushedPads(pad: seq<Byte>, inner: seq<Word>, size: nat, keep: nat)
    requires |pad| == 4 * size && size <= 50 && keep < size - 1 && |inner| == keep + 1
    ensures var n := 4 * size + 4 * keep;
            var ws := Joined([], 0, Joined(Pack(pad), 4 * size, inner, 4 * keep), n);
            FinalWords(ws, n, size) == PaddedWords(pad + BytesIn(inner, 4 * keep), size) <==> Blank(inner[keep])
  {
    hide FinalWords, PaddedWords, Blank, BytesIn, Pack, Joined;
    OuterJoined(pad, inner, 4 * keep);
    PackLength(pad);
    BytesAligned(pad, inner, 4 * keep);
    DroppedWord(Pack(pad) + inner, size, keep);
  }

  lemma EndsInLane(outputLength: nat)
    requires outputLength % 64 == 32 && outputLength <= 480
    ensures var keep := outputLength / 32;
            && 2 * ((outputLength + 63) / 64) == keep + 1 && outputLength / 8 == 4 * keep
            && keep < Rate(outputLength) - 1 && Rate(outputLength) <= 50
  {
  }

  /**
   HMAC over a digest that ends within a lane, like the documented 224 bits: the word that does not count is pushed behind
   the outer padded key, and the outer message is padded as it should exactly when that word is blank.
   */
  lemma OuterPadsIff(outputLength: nat, short: seq<Byte>, inner: seq<Word>)
    requires outputLength % 64 == 32 && outputLength <= 480 && |inner| == 2 * ((outputLength + 63) / 64)
    ensures var h := Hash3(outputLength);
            var n := 4 * h.BlockSize() + h.outBytes;
            var ws := Joined([], 0, Joined(Pack(OuterPad(h, short)), 4 * h.BlockSize(), inner, h.outBytes), n);
            h.close(ws, n, n) == h.Pad(OuterPad(h, short) + BytesIn(inner, h.outBytes), n) <==> Blank(inner[|inner| - 1])
  {
    hide Step, DigestWords, FinalWords, PaddedWords, Blank, BytesIn, Pack, XorAll, Limit, Rate, Joined;
    EndsInLane(outputLength);
    PushedPads(OuterPad(Hash3(outputLength), short), inner, Rate(outputLength), outputLength / 32);
  }

  /** `CryptoJS.SHA3` with a given `outputLength` */
  method Digest(message: WordArray, outputLength: nat) returns (digest: WordArray)
    requires outputLength % 32 == 0 && outputLength <= 768
    ensures digest.sigBytes == outputLength / 8
    ensures AppendsClamped(message.words, message.sigBytes) && message.sigBytes < Limit(Rate(outputLength)) ==>
              && digest.words == LaneDigest(message.Bytes(), outputLength)
              && (outputLength < 544 ==> digest.Bytes() == KeccakHash(message.Bytes(), outputLength))
  {
    hide LaneDigest, KeccakHash, HashFunction.Valid, HashFunction.Digest, HashFunction.Closed, Step,
      DigestWords, BytesIn, AppendsClamped, Pack, Rate, FinalWords, PaddedWords, Limit;
    Hash3Valid(outputLength);
    digest := HashOf(Hash3(outputLength), message);
    Hash3Digest(message.Bytes(), outputLength);
    LanesAreSqueezed(message.Bytes(), outputLength);
  }

  /** The default digest, of 512 bits. */
  function Keccak512(m: seq<Byte>): seq<Word> {
    Pack(KeccakHash(m, 512))
  }

  lemma DefaultDigest(m: seq<Byte>)
    requires Hash3(512).Valid()
    ensures Hash3(512).Digest(m) == Keccak512(m)
  {
    hide KeccakHash, LaneDigest, HashFunction.Valid, HashFunction.Digest, Pack;
    Hash3Digest(m, 512);
    LanesAreHash(m, 8);
  }

  /** The caller's tests of what is pushed: clamped, and below the limit of the closing indices. */
  ghost predicate Pushable(a: WordArray)
    reads a
  {
    AppendsClamped(a.words, a.sigBytes) && a.sigBytes < Limit(18)
  }

  /** HMAC over the Keccak object is section 2 of RFC 2104 over the squeezed sponge. */
  lemma HmacIsHmacKeccak(key: seq<Byte>, text: seq<Byte>)
    requires Hash3(512).Keys()
    ensures Hmac(Hash3(512), key, text) == HmacOver(Keccak512, 72, key, text)
  {
    hide Keccak512, HashFunction.Valid, HashFunction.Digest, HashFunction.FullWidth, Step, DigestWords, InnerText,
      OuterText, Hmac, HmacOver, PaddedWords, FinalWords, Limit;
    Hash3Sound(512);
    HashIsBuilt(Hash3(512));
    DefaultDigest(key);
    DefaultDigest(InnerText(Keccak512, 72, key, text));
    DefaultDigest(OuterText(Keccak512, 72, key, text));
    HmacIsOver(Hash3(512), Keccak512, key, text);
  }

  /** `CryptoJS.HmacSHA3`, with the default output length of 512 bits: section 2 of RFC 2104 over the Keccak digest. */
  method HmacDigest(message: WordArray, key: WordArray) returns (mac: WordArray)
    modifies key
    ensures mac.sigBytes == 64
    ensures old(Pushable(message) && (key.sigBytes > 72 ==> Pushable(key))) ==>
              mac.words == HmacOver(Keccak512, 72, old(key.Bytes()), old(message.Bytes()))
  {
    hide Keccak512, HashFunction.Valid, HashFunction.FullWidth, HashFunction.Digest, Hmac,
      HmacOver, Step, DigestWords, FinalWords, PaddedWords, BytesIn, AppendsClamped, Pack, Limit;
    Hash3Sound(512);
    SoundWidth(Hash3(512));
    ghost var k, m := key.Bytes(), message.Bytes();
    mac := HmacOf(Hash3(512), message, key);
    HmacIsHmacKeccak(k, m);
  }
}
