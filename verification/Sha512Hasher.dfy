/**
 SHA-512 as a hash function of the hasher and HMAC objects: the block function in place (js/rollups/hmac-sha512.js:19-23)
 and the digest (js/rollups/hmac-sha512.js:14, 23), over the buffering layer (js/rollups/hmac-sha512.js:11-12).
 */
module Sha512Hasher {
  import opened WordArrays
  import opened B = BufferedBlocks
  import opened JsNumber
  import opened MachineWords
  import opened Lanes
  import opened Sequences
  import opened LengthPaddings
  import opened Hashers
  import opened Hmacs
  import opened S = Sha512

  // ----- the block function in place

  function VarsOf(h: seq<Lane>): Vars<Lane>
    requires |h| == 8
  {
    Vars(h[0], h[1], h[2], h[3], h[4], h[5], h[6], h[7])
  }

  /** The hash words and the schedule array that all calls share. */
  class Compressor {
    const hash: array<Lane>
    const schedule: array<Lane>

    ghost predicate Valid() {
      hash.Length == 8 && schedule.Length == 80 && hash != schedule
    }

    constructor ()
      ensures Valid() && fresh(hash) && fresh(schedule)
      ensures hash[..] == INITIAL
    {
      hash := new Lane[8](i requires 0 <= i < 8 => INITIAL[i]);
      schedule := new Lane[80](_ => Lane(0, 0));
    }

    /** `_doProcessBlock` on block `n` of a message; every sum it makes is asserted to have room. */
    method DoProcessBlock(a: seq<int>, ghost n: nat)
      requires Valid() && |a| == 32
      requires n < BLOCKS && AllWithin(VarsOf(hash[..]), StateBound(n))
      modifies hash, schedule
      ensures VarsOf(hash[..]) == Block(VarsOf(old(hash[..])), a)
      ensures BlockRoom(VarsOf(old(hash[..])), a) && AllWithin(VarsOf(hash[..]), StateBound(n + 1))
      ensures schedule[..] == Schedule(a, 80)
    {
      hide Pass, NextWord, AddSecond, BlockLane, AllWithin, PassRoom, NextRoom, FeedRoom, StateBound, StepRoom, Block,
        BlockRoom, INITIAL;
      ghost var start := VarsOf(hash[..]);
      var v := VarsOf(hash[..]);
      BlockExact(start, a, n);
      LastSums(start, a);
      for t := 0 to 80
        invariant hash[..] == old(hash[..])
        invariant schedule[..t] == Schedule(a, t)
        invariant v == Passes(start, a, t)
      {
        ghost var ws := Schedule(a, t);
        assert forall i: nat :: i < t ==> schedule[i] == schedule[..t][i];
        if t < 16 {
          schedule[t] := BlockLane(a, t);
        } else {
          RoomFor(start, a, t);
          assert NextRoom(schedule[..t]);
          schedule[t] := NextWord(schedule[t - 15], schedule[t - 2], schedule[t - 7], schedule[t - 16]);
        }
        assert schedule[t] == ScheduleWord(ws, a);
        assert schedule[..t + 1] == schedule[..t] + [schedule[t]];
        RoomFor(start, a, t);
        assert PassRoom(v, K[t], schedule[t]);
        v := Pass(v, K[t], schedule[t]);
      }
      assert FeedRoom(VarsOf(hash[..]), v);
      hash[0], hash[1], hash[2], hash[3] :=
        AddSecond(hash[0], v.a), AddSecond(hash[1], v.b), AddSecond(hash[2], v.c), AddSecond(hash[3], v.d);
      hash[4], hash[5], hash[6], hash[7] :=
        AddSecond(hash[4], v.e), AddSecond(hash[5], v.f), AddSecond(hash[6], v.g), AddSecond(hash[7], v.h);
    }
  }

  lemma LastSums(h: Vars<Lane>, a: seq<int>)
    requires |a| == 32 && BlockRoom(h, a)
    ensures FeedRoom(h, Passes(h, a, 80)) && Block(h, a) == FeedForward(h, Passes(h, a, 80))
  {
    hide FeedRoom, StepRoom, Passes, FeedForward;
  }

  lemma RoomFor(h: Vars<Lane>, a: seq<int>, t: nat)
    requires |a| == 32 && t < 80 && BlockRoom(h, a)
    ensures PassRoom(Passes(h, a, t), K[t], ScheduleWord(Schedule(a, t), a))
    ensures t >= 16 ==> NextRoom(Schedule(a, t))
  {
    hide PassRoom, NextRoom, FeedRoom, Passes, Schedule, ScheduleWord;
    assert StepRoom(h, a, t);
  }

  // ----- the block function over the buffering layer

  function Numbers(ws: seq<Word>): (a: seq<int>)
    ensures |a| == |ws|
  {
    seq(|ws|, i requires 0 <= i < |ws| => AsNumber(ws[i]))
  }

  function Step(h: Vars<Lane>, block: seq<Word>): (Vars<Lane>, seq<Word>) {
    if |block| == 32 then (Block(h, Numbers(block)), block) else (h, block)
  }

  function Algorithm512(): Algorithm<Vars<Lane>> {
    Algorithm((h: Vars<Lane>, block: seq<Word>) => Step(h, block), 32, 0)
  }

  lemma AlgorithmValid()
    ensures Algorithm512().Valid()
  {
    hide Block;
  }

  /** The 64-bit words of block `n` of a message of 32-bit words. */
  function MessageBlock(ws: seq<Word>, n: nat): (m: seq<nat>)
    ensures |m| == 16
  {
    BlockWords(Numbers(BlockAt(ws, n * 32, 32)))
  }

  /** Section 6.4.2 of FIPS 180-4 over `n` blocks. */
  function Fold(v: Vars<nat>, ws: seq<Word>, n: nat): Vars<nat> {
    if n == 0 then v else Compress(Fold(v, ws, n - 1), MessageBlock(ws, n - 1))
  }

  lemma NextBlock(h: Vars<Lane>, ws: seq<Word>, n: nat)
    requires Algorithm512().Valid()
    ensures Run(Algorithm512(), h, ws, n + 1).0 == Block(Run(Algorithm512(), h, ws, n).0, Numbers(BlockAt(ws, n * 32, 32)))
  {
    hide Block;
  }

  lemma NoBlock(h: Vars<Lane>, ws: seq<Word>)
    requires Algorithm512().Valid()
    ensures Run(Algorithm512(), h, ws, 0).0 == h
  {
  }

  /** Up to 2^21 - 4 blocks the state stands for the fold, and stays in the range where every sum is exact. */
  lemma {:induction false} RunIsFold(h: Vars<Lane>, ws: seq<Word>, n: nat)
    requires Algorithm512().Valid() && AllWithin(h, StateBound(0)) && n <= BLOCKS
    ensures var r := Run(Algorithm512(), h, ws, n).0;
            Vals(r) == Fold(Vals(h), ws, n) && AllWithin(r, StateBound(n))
    decreases n
  {
    hide Block, BlockRoom, Step, Compress, Vals, AllWithin, BlockWords, StateBound, Numbers, BlockAt, Run, INITIAL, K;
    if n == 0 {
      NoBlock(h, ws);
    } else {
      RunIsFold(h, ws, n - 1);
      NextBlock(h, ws, n - 1);
      var r := Run(Algorithm512(), h, ws, n - 1).0;
      var a := Numbers(BlockAt(ws, (n - 1) * 32, 32));
      BlockExact(r, a, n - 1);
      BlockIsCompress(r, a);
    }
  }

  /**
   For the first 2^21 - 4 blocks of any message every sum that JavaScript makes is exact, in every pass, in the schedule and at
   the end of every block.
   */
  lemma MessageExact(ws: seq<Word>, n: nat)
    requires n < BLOCKS
    ensures Algorithm512().Valid()
    ensures var h := Run(Algorithm512(), VarsOf(INITIAL), ws, n).0;
            AllWithin(h, StateBound(n)) && BlockRoom(h, Numbers(BlockAt(ws, n * 32, 32)))
  {
    hide Run, AllWithin, BlockRoom, Step, Numbers, BlockAt, VarsOf, StateBound;
    AlgorithmValid();
    InitialWithin();
    RunIsFold(VarsOf(INITIAL), ws, n);
    BlockExact(Run(Algorithm512(), VarsOf(INITIAL), ws, n).0, Numbers(BlockAt(ws, n * 32, 32)), n);
  }

  lemma InitialWithin()
    ensures AllWithin(VarsOf(INITIAL), StateBound(0))
  {
  }

  // ----- the hash function

  /** `toX32` */
  function DigestWords(v: Vars<Lane>): (ws: seq<Word>)
    ensures |ws| == 16
  {
    [NumberWord(v.a.high), NumberWord(v.a.low), NumberWord(v.b.high), NumberWord(v.b.low),
     NumberWord(v.c.high), NumberWord(v.c.low), NumberWord(v.d.high), NumberWord(v.d.low),
     NumberWord(v.e.high), NumberWord(v.e.low), NumberWord(v.f.high), NumberWord(v.f.low),
     NumberWord(v.g.high), NumberWord(v.g.low), NumberWord(v.h.high), NumberWord(v.h.low)]
  }

  /** Eight 64-bit words as sixteen of 32 bits. */
  function Halves(w: Vars<nat>): (ws: seq<Word>)
    ensures |ws| == 16
  {
    [NumberWord(w.a / TWO32), NumberWord(w.a), NumberWord(w.b / TWO32), NumberWord(w.b),
     NumberWord(w.c / TWO32), NumberWord(w.c), NumberWord(w.d / TWO32), NumberWord(w.d),
     NumberWord(w.e / TWO32), NumberWord(w.e), NumberWord(w.f / TWO32), NumberWord(w.f),
     NumberWord(w.g / TWO32), NumberWord(w.g), NumberWord(w.h / TWO32), NumberWord(w.h)]
  }

  /** The digest words are the halves of the 64-bit words, however large the untruncated halves have grown. */
  lemma DigestWordsAreHalves(v: Vars<Lane>)
    ensures DigestWords(v) == Halves(Vals(v))
  {
    hide Lane.Val;
    HalfWords(v.a);
    HalfWords(v.b);
    HalfWords(v.c);
    HalfWords(v.d);
    HalfWords(v.e);
    HalfWords(v.f);
    HalfWords(v.g);
    HalfWords(v.h);
  }

  /** The object's functions; `finalize` makes a new array. */
  function Hash512(): HashFunction<Vars<Lane>> {
    HashFunction(Algorithm512(), VarsOf(INITIAL), (p: seq<Byte>, n: nat) => PaddedWords(p, n, 32), Limit(32),
      (ws: seq<Word>, sigBytes: nat, n: nat) => FinalWords(ws, sigBytes, n, 32), (v: Vars<Lane>) => DigestWords(v), 64, false)
  }

  /** SHA-512 is a hash function that the hasher, HMAC and PBKDF2 objects can be built on. */
  lemma Hash512Sound()
    ensures Hash512().Sound()
  {
    hide Step, PaddedWords, FinalWords, DigestWords;
    AlgorithmValid();
    var h := Hash512();
    forall p: seq<Byte>, n: nat
      ensures |h.Pad(p, n)| % h.alg.blockSize == 0
      ensures |p| < h.limit ==> h.close(Pack(p), |p|, n) == h.Pad(p, n)
    {
      PaddedSize(p, n, 32);
      FinalWordsPad(p, n, 32);
    }
    forall m: seq<Byte>, k: nat | 4 * (k * h.alg.blockSize) <= |m|
      ensures h.Pad(m, |m|) == Pack(m[..4 * (k * h.alg.blockSize)]) + h.Pad(m[4 * (k * h.alg.blockSize)..], |m|)
    {
      PaddedRest(m, |m|, k, 32);
    }
  }

  // ----- whole messages

  /** Section 6.4 of FIPS 180-4. */
  function Sha512(m: seq<Byte>): (ws: seq<Word>)
    ensures |ws| == 16
  {
    var ws := PaddedWords(m, |m|, 32);
    Halves(Fold(Vals(VarsOf(INITIAL)), ws, |ws| / 32))
  }

  /** Messages of at most 2^21 - 4 padded blocks. */
  predicate Short(m: seq<Byte>) {
    |PaddedWords(m, |m|, 32)| <= 32 * BLOCKS
  }

  /** The closing indices of such messages do not wrap. */
  lemma ShortBelowLimit(m: seq<Byte>)
    requires Short(m)
    ensures |m| < Limit(32)
  {
    hide PaddedWords;
    PaddedSize(m, |m|, 32);
  }

  lemma Hash512Digest(m: seq<Byte>)
    requires Hash512().Valid() && Short(m)
    ensures Hash512().Digest(m) == Sha512(m)
  {
    hide Fold, PaddedWords, Vals, AllWithin, Step, VarsOf, Run, DigestWords, HashFunction.Valid;
    AlgorithmValid();
    var h, ws := VarsOf(INITIAL), PaddedWords(m, |m|, 32);
    InitialWithin();
    RunIsFold(h, ws, |ws| / 32);
    DigestWordsAreHalves(Run(Algorithm512(), h, ws, |ws| / 32).0);
  }

  /**
   After any updates, `finalize` gives the digest of the joined input, and no sum on the way was rounded, for every message
   of up to 2^21 - 4 padded blocks.
   */
  lemma ChunksReachDigest(chunks: seq<seq<Byte>>, last: seq<Byte>)
    requires Short(Flatten(chunks) + last)
    ensures Hash512().Valid()
    ensures var m, h := Flatten(chunks) + last, Hash512();
            var s := B.Append(Feed(h.alg, Stream(h.initial, []), chunks).0, last);
            h.output(h.Closed(s.st, h.close(Pack(s.pending), |s.pending|, |m|))) == Sha512(m)
    ensures var ws := PaddedWords(Flatten(chunks) + last, |Flatten(chunks) + last|, 32);
            forall n: nat | n < |ws| / 32 ::
              BlockRoom(Run(Algorithm512(), VarsOf(INITIAL), ws, n).0, Numbers(BlockAt(ws, n * 32, 32)))
  {
    hide Process, Feed, Sha512, HashFunction.Closed, HashFunction.Valid, HashFunction.Digest, FinalWords,
      PaddedWords, BlockRoom, Run, Step, VarsOf, DigestWords, AllWithin, StateBound, Numbers, BlockAt, Limit;
    Hash512Sound();
    var h := Hash512();
    SoundWidth(h);
    ClosedChunks(h, chunks, last);
    PendingWithin(h, Flatten(chunks));
    ShortBelowLimit(Flatten(chunks) + last);
    Hash512Digest(Flatten(chunks) + last);
    AllExact(PaddedWords(Flatten(chunks) + last, |Flatten(chunks) + last|, 32));
  }

  lemma AllExact(ws: seq<Word>)
    requires |ws| <= 32 * BLOCKS
    ensures Algorithm512().Valid()
    ensures forall n: nat | n < |ws| / 32 ::
              BlockRoom(Run(Algorithm512(), VarsOf(INITIAL), ws, n).0, Numbers(BlockAt(ws, n * 32, 32)))
  {
    hide BlockRoom, Run, Step, VarsOf, AllWithin, StateBound, Numbers, BlockAt;
    AlgorithmValid();
    forall n: nat | n < |ws| / 32
      ensures BlockRoom(Run(Algorithm512(), VarsOf(INITIAL), ws, n).0, Numbers(BlockAt(ws, n * 32, 32)))
    {
      MessageExact(ws, n);
    }
  }

  // ----- HMAC and the helpers

  lemma ShortIsShort(m: seq<Byte>)
    requires |m| <= 192
    ensures Short(m)
  {
    hide PaddedWords;
    PaddedSize(m, |m|, 32);
  }

  /** No text that HMAC hashes is too long. */
  ghost predicate ShortTexts(key: seq<Byte>, text: seq<Byte>) {
    Short(key) && Short(InnerText(Sha512, 128, key, text))
  }

  lemma TextsBelowLimit(key: seq<Byte>, text: seq<Byte>)
    requires ShortTexts(key, text)
    ensures |key| < Limit(32) && |text| < Limit(32)
  {
    hide Short, Sha512, HashedKey;
    ShortBelowLimit(key);
    ShortBelowLimit(InnerText(Sha512, 128, key, text));
  }

  /** HMAC over the SHA-512 object is HMAC-SHA-512: section 2 of RFC 2104 over the digest of FIPS 180-4. */
  lemma HmacIsHmacSha512(key: seq<Byte>, text: seq<Byte>)
    requires Hash512().Keys() && ShortTexts(key, text)
    ensures Hmac(Hash512(), key, text) == HmacOver(Sha512, 128, key, text)
  {
    hide Sha512, HashFunction.Valid, HashFunction.Digest, HashFunction.FullWidth, Short, Step, VarsOf, DigestWords,
      InnerText, Hmac, HmacOver, HashFunction.Pad;
    Hash512Sound();
    HashIsBuilt(Hash512());
    var outer := OuterText(Sha512, 128, key, text);
    ShortIsShort(outer);
    Hash512Digest(key);
    Hash512Digest(InnerText(Sha512, 128, key, text));
    Hash512Digest(outer);
    HmacIsOver(Hash512(), Sha512, key, text);
  }

  /** `CryptoJS.SHA512` */
  method Digest(message: WordArray) returns (digest: WordArray)
    ensures digest.sigBytes == 64
    ensures AppendsClamped(message.words, message.sigBytes) && Short(message.Bytes()) ==> digest.words == Sha512(message.Bytes())
  {
    hide Sha512, HashFunction.Valid, HashFunction.Digest, HashFunction.Closed, HashFunction.Pad, Hasher.Fed, Short,
      Step, VarsOf, DigestWords, BytesIn, AppendsClamped, Joined, Pack, Hasher.Pending;
    Hash512Sound();
    SoundWidth(Hash512());
    digest := HashOf(Hash512(), message);
    if Short(message.Bytes()) {
      ShortBelowLimit(message.Bytes());
      Hash512Digest(message.Bytes());
    }
  }

  /** `CryptoJS.HmacSHA512` */
  method HmacDigest(message: WordArray, key: WordArray) returns (mac: WordArray)
    modifies key
    ensures mac.sigBytes == 64
    ensures old(AppendsClamped(message.words, message.sigBytes) && (key.sigBytes > 128 ==> AppendsClamped(key.words, key.sigBytes))) ==>
            ShortTexts(old(key.Bytes()), old(message.Bytes())) ==>
              mac.words == HmacOver(Sha512, 128, old(key.Bytes()), old(message.Bytes()))
  {
    hide HmacOver, HashFunction.Valid, HashFunction.FullWidth, Hmac, ShortTexts, Step, VarsOf, DigestWords, BytesIn,
      AppendsClamped, Pack;
    Hash512Sound();
    SoundWidth(Hash512());
    ghost var k, m := key.Bytes(), message.Bytes();
    mac := HmacOf(Hash512(), message, key);
    if ShortTexts(k, m) {
      TextsBelowLimit(k, m);
      HmacIsHmacSha512(k, m);
    }
  }
}
