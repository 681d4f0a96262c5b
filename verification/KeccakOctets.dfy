/**
 The Keccak hash of js/sha3.js in octets: how lanes are read from and written to words (appendix B.1 of FIPS 202), the
 padding (section 5.1) and the sponge (section 4), without the operators that the code shares with the model.
 */
module KeccakOctets {
  import opened Arithmetic
  import opened WordArrays
  import opened MachineWords
  import opened BufferedBlocks
  import opened JsNumber
  import opened Lanes
  import opened Bits
  import K = Keccak
  import S = KeccakSponge

  /** The number of four octets, the least significant first. */
  function LittleEndian(a: Byte, b: Byte, c: Byte, d: Byte): nat {
    Num(a) + 0x100 * Num(b) + 0x1_0000 * Num(c) + 0x100_0000 * Num(d)
  }

  lemma SwappedNumber(w: Word)
    ensures AsNumber(SwapBytes(w)) == LittleEndian(ByteOf(w, 0), ByteOf(w, 1), ByteOf(w, 2), ByteOf(w, 3))
  {
    hide ByteOf, SwapBytes, Num;
    SwappedByte(w, 0);
    SwappedByte(w, 1);
    SwappedByte(w, 2);
    SwappedByte(w, 3);
  }

  lemma WordRead(block: seq<Word>, i: nat)
    requires i < |block|
    ensures AsNumber(SwapBytes(block[i])) ==
            LittleEndian(ByteAt(block, 4 * i), ByteAt(block, 4 * i + 1), ByteAt(block, 4 * i + 2), ByteAt(block, 4 * i + 3))
  {
    hide ByteOf, SwapBytes, LittleEndian, AsNumber;
    SwappedNumber(block[i]);
    forall k: nat | k < 4
      ensures ByteAt(block, 4 * i + k) == ByteOf(block[i], k)
    {
      assert (4 * i + k) / 4 == i && (4 * i + k) % 4 == k;
    }
  }

  /** Eight octets of a block make up a lane, the least significant first. */
  lemma LaneRead(block: seq<Word>, h: nat, i: nat)
    requires i == 8 * h && i + 7 < 4 * |block| && 2 * h + 1 < |block|
    ensures S.LaneOf(block, h) ==
            LittleEndian(ByteAt(block, i), ByteAt(block, i + 1), ByteAt(block, i + 2), ByteAt(block, i + 3)) +
            LittleEndian(ByteAt(block, i + 4), ByteAt(block, i + 5), ByteAt(block, i + 6), ByteAt(block, i + 7)) * TWO32
  {
    hide ByteAt, SwapBytes, LittleEndian, AsNumber;
    WordRead(block, 2 * h);
    WordRead(block, 2 * h + 1);
  }

  lemma SwappedTwice(w: Word)
    ensures SwapBytes(SwapBytes(w)) == w
  {
    hide ByteOf, WordOf;
    BytesOfWord(ByteOf(w, 3), ByteOf(w, 2), ByteOf(w, 1), ByteOf(w, 0));
    WordOfBytes(w);
  }

  /** A lane is written as it is read. */
  lemma LaneWritten(v: nat)
    requires v < TWO64
    ensures |S.LaneWords(v)| == 2 && S.LaneOf(S.LaneWords(v), 0) == v
  {
    hide SwapBytes, AsNumber, NumberWord;
    SwappedTwice(NumberWord(v));
    SwappedTwice(NumberWord(v / TWO32));
    NumberBack(v);
    NumberBack(v / TWO32);
    SmallUnsigned(v / TWO32);
    UnsignedIs(v);
  }

  /** The output takes the lanes in their order. */
  lemma {:induction false} LanesInOrder(a: S.State, n: nat, i: nat)
    requires i < n <= 25
    ensures S.DigestWords(a, n)[2 * i..2 * i + 2] == S.LaneWords(a[i])
    decreases n
  {
    hide S.LaneWords;
    if i < n - 1 {
      LanesInOrder(a, n - 1, i);
      assert S.DigestWords(a, n)[2 * i..2 * i + 2] == S.DigestWords(a, n - 1)[2 * i..2 * i + 2];
    }
  }

  /** Absorbing adds the lanes of the block to the first lanes of the state. */
  lemma AbsorbedBit(a: S.State, block: seq<Word>, h: nat, z: nat)
    requires h < 25 && z < 64
    ensures Bit(S.Absorbed(a, block)[h], z) == (Bit(a[h], z) + if 2 * h + 1 < |block| then Bit(S.LaneOf(block, h), z) else 0) % 2
  {
    hide Bit, Xor64, S.LaneOf;
    if 2 * h + 1 < |block| {
      Operators64(a[h], S.LaneOf(block, h), z);
    }
  }

  lemma NothingAbsorbed(a: S.State, ws: seq<Word>, size: nat)
    ensures S.Absorb(a, ws, size, 0) == a
  {
  }

  /** The sponge absorbs block after block. */
  lemma AbsorbsInOrder(a: S.State, ws: seq<Word>, size: nat, n: nat, i: nat)
    requires i == n * size
    ensures S.Absorb(a, ws, size, n + 1) == S.Step(S.Absorb(a, ws, size, n), BlockAt(ws, i, size)).0
  {
    hide K.KeccakF, S.Absorbed;
  }

  /** After each block it permutes. */
  lemma StepPermutes(a: S.State, block: seq<Word>)
    ensures S.Step(a, block).0 == K.KeccakF(S.Absorbed(a, block))
  {
    hide K.KeccakF, S.Absorbed;
  }

  /** It starts from the zero state and absorbs all blocks of the padded message. */
  lemma SpongeAbsorbs(m: seq<Byte>, size: nat)
    requires size > 0
    ensures S.SpongeOf(m, size) == S.Absorb(seq(25, _ => 0), S.PaddedWords(m, size), size, |S.PaddedWords(m, size)| / size)
  {
    hide K.KeccakF, S.Absorb, S.PaddedWords, S.Blocks;
    S.PaddedSize(m, size);
    QuotientUnique(|S.PaddedWords(m, size)|, S.Blocks(|m|, size) + 1, 0, size);
    assert S.Empty() == seq(25, _ => 0);
  }

  /** The padding: a bit 1, the least number of bits 0 and a bit 1 up to the end of a block, the first bit of an octet lowest. */
  lemma PaddedOctets(m: seq<Byte>, size: nat)
    requires size > 0
    ensures var ws := S.PaddedWords(m, size);
            var q := 4 * |ws| - |m|;
            && |ws| % size == 0 && 1 <= q <= 4 * size
            && BytesIn(ws, 4 * |ws|) == m + if q == 1 then [0x81] else [0x01] + Zeros(q - 2) + [0x80]
  {
    hide BytesIn, S.PadBytes, S.Blocks, S.PaddedWords;
    PaddedBytes(m, size);
    PadIs(|m|, 4 * size);
    S.PaddedSize(m, size);
    S.ModuloProduct(S.Blocks(|m|, size) + 1, size);
  }

  lemma PaddedBytes(m: seq<Byte>, size: nat)
    requires size > 0
    ensures var ws := S.PaddedWords(m, size);
            4 * |ws| == |m| + |S.PadBytes(|m|, 4 * size)| && BytesIn(ws, 4 * |ws|) == m + S.PadBytes(|m|, 4 * size)
  {
    hide Pack, BytesIn, S.PadBytes;
    var x := m + S.PadBytes(|m|, 4 * size);
    S.WholeWordsOf(|m|, 4 * size);
    PackLength(x);
    BytesInPack(x);
  }

  lemma PadIs(n: nat, b: nat)
    requires b > 0
    ensures var q := |S.PadBytes(n, b)|;
            1 <= q <= b && S.PadBytes(n, b) == if q == 1 then [0x81] else [0x01] + Zeros(q - 2) + [0x80]
  {
  }

  /** Rate and capacity share the 1600 bits, the capacity twice the output. */
  lemma RateBits(outputLength: nat)
    requires outputLength % 32 == 0 && outputLength <= 768
    ensures 32 * S.Rate(outputLength) + 2 * outputLength == 1600
  {
  }
}
