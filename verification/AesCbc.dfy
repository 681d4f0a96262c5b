/**
 AES under CBC: the mode object that works in place on the word array (js/rollups/aes.js:25-27), and AES as the block
 cipher of the round trip.
 */
module AesCbc {
  import opened WordArrays
  import opened BufferedBlocks
  import opened AesTables
  import opened AesCipher
  import opened AesObject
  import opened Cbc
  import opened Options
  import Sequences

  /** A keyed AES object as a block cipher on words. */
  datatype Schedules = Schedules(tables: Tables, nRounds: nat, keySchedule: seq<Word>, invKeySchedule: seq<Word>)
  {
    predicate Sized() {
      tables.Sized() && nRounds >= 1 && |keySchedule| == |invKeySchedule| == 4 * nRounds + 4
    }

    ghost predicate Valid() {
      Sized() && tables.Correct() && IsInvSchedule(invKeySchedule, keySchedule, nRounds)
    }

    function Encrypt(ws: seq<Word>): seq<Word> {
      if Sized() && |ws| == 4 then WordsOf(EncSide(tables).Crypt(keySchedule, nRounds, BlockOf(ws))) else ws
    }

    function Decrypt(ws: seq<Word>): seq<Word> {
      if Sized() && |ws| == 4 then WordsOf(Swap(DecSide(tables).Crypt(invKeySchedule, nRounds, Swap(BlockOf(ws))))) else ws
    }

    function AsKeyed(): Keyed {
      Keyed(4, (ws: seq<Word>) => Encrypt(ws), (ws: seq<Word>) => Decrypt(ws))
    }
  }

  lemma AesMeets(s: Schedules, ws: seq<Word>)
    requires s.Valid() && |ws| == 4
    ensures s.Encrypt(ws) == WordsOf(Cipher(s.keySchedule, s.nRounds, BlockOf(ws)))
    ensures s.Decrypt(ws) == WordsOf(InvCipher(s.keySchedule, s.nRounds, BlockOf(ws)))
    ensures s.Decrypt(s.Encrypt(ws)) == ws
  {
    hide Tables.Correct, Cipher, InvCipher, IsInvSchedule, Side.Crypt, EncSide, DecSide, Swap;
    var b := BlockOf(ws);
    EncCrypt(s.tables, s.keySchedule, s.nRounds, b);
    DecCrypt(s.tables, s.keySchedule, s.invKeySchedule, s.nRounds, b);
    DecCrypt(s.tables, s.keySchedule, s.invKeySchedule, s.nRounds, Cipher(s.keySchedule, s.nRounds, b));
    InvCipherInverts(s.keySchedule, s.nRounds, b);
    assert WordsOf(b) == ws;
  }

  /** AES is a block cipher the round trip of `Cbc` applies to, for every key. */
  lemma AesIsKeyed(s: Schedules)
    requires s.Valid()
    ensures s.AsKeyed().Valid()
  {
    hide Schedules.Encrypt, Schedules.Decrypt, Schedules.Valid;
    var k := s.AsKeyed();
    forall ws: seq<Word> | |ws| == k.size
      ensures |k.encrypt(ws)| == k.size && |k.decrypt(ws)| == k.size && k.decrypt(k.encrypt(ws)) == ws
    {
      AesMeets(s, ws);
    }
  }

  function SchedulesOf(a: AES): Schedules
    reads a
  {
    Schedules(a.tables, a.nRounds, a.keySchedule, a.invKeySchedule)
  }

  /** An AES object is one of the keyed ciphers of the round trip. */
  lemma ObjectSchedules(a: AES)
    requires a.Valid()
    ensures SchedulesOf(a).Valid() && SchedulesOf(a).AsKeyed().Valid()
  {
    hide Tables.Correct, IsInvSchedule, Keyed.Valid, Schedules.Encrypt, Schedules.Decrypt;
    TablesSized(a.tables);
    AesIsKeyed(SchedulesOf(a));
  }

  /**
   The round trip of AES in CBC mode: for every AES object, whatever its key, every initialization vector, every message and
   all chunkings on both sides, decryption of the ciphertext gives the message.
   */
  lemma AesRoundTrip(a: AES, iv: seq<Word>, chunks: seq<seq<Byte>>, last: seq<Byte>, pieces: seq<seq<Byte>>, end: seq<Byte>)
    requires a.Valid()
    ensures SchedulesOf(a).AsKeyed().Valid()
    ensures var k := SchedulesOf(a).AsKeyed();
            Sequences.Flatten(pieces) + end == EncryptChunks(k, iv, chunks, last) ==>
              && DecryptChunks(k, iv, pieces, end) == Sequences.Flatten(chunks) + last
              && |Sequences.Flatten(pieces) + end| > 0 && |Sequences.Flatten(pieces) + end| % 16 == 0
  {
    hide Keyed.Valid, Schedules.Valid, Schedules.Encrypt, Schedules.Decrypt, AES.Valid, EncryptChunks, DecryptChunks,
      Sequences.Flatten;
    ObjectSchedules(a);
    var k := SchedulesOf(a).AsKeyed();
    if Sequences.Flatten(pieces) + end == EncryptChunks(k, iv, chunks, last) {
      RoundTrip(k, iv, chunks, last, pieces, end);
    }
  }

  /** `createEncryptor(key, cfg).finalize(message)` */
  method Encrypt(a: AES, iv: seq<Word>, message: WordArray) returns (ciphertext: WordArray)
    requires a.Valid()
    ensures SchedulesOf(a).AsKeyed().Valid()
    ensures ciphertext.Bytes() == Encrypted(SchedulesOf(a).AsKeyed(), iv, message.Bytes())
  {
    hide Keyed.Valid, Schedules.Valid, Schedules.Encrypt, Schedules.Decrypt, AES.Valid, Encrypted, BytesIn,
      BlockCipher.Valid, BlockCipher.Fed, UnpaddedSize;
    ObjectSchedules(a);
    var encryptor := new BlockCipher(SchedulesOf(a).AsKeyed(), true, iv);
    var n;
    ciphertext, n := encryptor.Finalize(message);
    assert [] + message.Bytes() == message.Bytes();
    assert [] + ciphertext.Bytes() == ciphertext.Bytes();
  }

  /** `createDecryptor(key, cfg).finalize(ciphertext)`: whatever was encrypted comes back. */
  method Decrypt(a: AES, iv: seq<Word>, ciphertext: WordArray) returns (message: WordArray, sigBytes: int)
    requires a.Valid()
    ensures SchedulesOf(a).AsKeyed().Valid()
    ensures forall x :: Encrypted(SchedulesOf(a).AsKeyed(), iv, x) == ciphertext.Bytes() ==>
              0 <= sigBytes <= message.sigBytes && message.Bytes()[..sigBytes] == x
  {
    hide Keyed.Valid, Schedules.Valid, Schedules.Encrypt, Schedules.Decrypt, AES.Valid, Encrypted, BytesIn,
      BlockCipher.Valid, BlockCipher.Fed, UnpaddedSize;
    ObjectSchedules(a);
    var decryptor := new BlockCipher(SchedulesOf(a).AsKeyed(), false, iv);
    message, sigBytes := decryptor.Finalize(ciphertext);
    assert [] + ciphertext.Bytes() == ciphertext.Bytes();
    assert forall bs: seq<Byte> :: [] + bs == bs;
  }

  /** The exclusive or of a block and a mask, word by word. */
  lemma MaskedWords(b: seq<Word>, mask: seq<Word>)
    requires |b| == 4
    ensures BlockOf(XorBlock(b, mask)) ==
            Block(Xor(b[0], Get(mask, 0)), Xor(b[1], Get(mask, 1)), Xor(b[2], Get(mask, 2)), Xor(b[3], Get(mask, 3)))
    ensures XorBlock(b, mask) == [Xor(b[0], Get(mask, 0)), Xor(b[1], Get(mask, 1)), Xor(b[2], Get(mask, 2)), Xor(b[3], Get(mask, 3))]
  {
    hide Xor, Get;
  }

  /** The steps of the round trip, in the words of the mode object's methods. */
  lemma StepWords(s: Schedules, iv: Option<seq<Word>>, prevBlock: seq<Word>, b: seq<Word>)
    requires s.Valid() && |b| == 4
    ensures var mask := if iv.Some? then iv.value else prevBlock;
            var x := Block(Xor(b[0], Get(mask, 0)), Xor(b[1], Get(mask, 1)), Xor(b[2], Get(mask, 2)), Xor(b[3], Get(mask, 3)));
            var r := WordsOf(Cipher(s.keySchedule, s.nRounds, x));
            EncryptStep(s.AsKeyed(), Chain(iv, prevBlock), b) == (Chain(None, r), r)
    ensures var mask := if iv.Some? then iv.value else prevBlock;
            var x := InvCipher(s.keySchedule, s.nRounds, BlockOf(b));
            DecryptStep(s.AsKeyed(), Chain(iv, prevBlock), b) ==
            (Chain(None, b), [Xor(x.w0, Get(mask, 0)), Xor(x.w1, Get(mask, 1)), Xor(x.w2, Get(mask, 2)), Xor(x.w3, Get(mask, 3))])
  {
    hide Schedules.Encrypt, Schedules.Decrypt, XorBlock, Cipher, InvCipher, Xor, Get, Tables.Correct, IsInvSchedule;
    var mask := Chain(iv, prevBlock).Mask();
    XorKeepsSize(b, mask);
    AesMeets(s, XorBlock(b, mask));
    AesMeets(s, b);
    MaskedWords(b, mask);
    MaskedWords(WordsOf(InvCipher(s.keySchedule, s.nRounds, BlockOf(b))), mask);
  }

  /** The CBC mode object over an AES object. Its methods leave the cipher, and so `Valid`, alone. */
  class Mode {
    const cipher: AES
    var iv: Option<seq<Word>>
    var prevBlock: seq<Word>

    ghost predicate Valid()
      reads this, cipher
    {
      cipher.Valid()
    }

    function TheChain(): Chain
      reads this
    {
      Chain(iv, prevBlock)
    }

    constructor (cipher: AES, iv: seq<Word>)
      requires cipher.Valid()
      ensures Valid() && this.cipher == cipher && TheChain() == Chain(Some(iv), [])
    {
      this.cipher, this.iv, prevBlock := cipher, Some(iv), [];
    }

    /** The helper shared by both directions: XOR with the vector, the first time, and with the kept block afterwards. */
    method XorMask(m: WordArray, b: nat)
      requires Valid()
      modifies this`iv, m`words
      ensures Valid()
      ensures iv == None
      ensures var v, mask := old(BlockAt(m.words, b, 4)), if old(iv).Some? then old(iv).value else old(prevBlock);
              BlockAt(m.words, b, 4) ==
              [Xor(v[0], Get(mask, 0)), Xor(v[1], Get(mask, 1)), Xor(v[2], Get(mask, 2)), Xor(v[3], Get(mask, 3))]
      ensures OnlyBlock(old(m.words), m.words, b)
    {
      hide Xor, AES.Valid, WithinBlock, OnlyBlock, Put;
      var c;
      if iv.Some? {
        c := iv.value;
        iv := None;
      } else {
        c := prevBlock;
      }
      ghost var before, block := m.words, BlockAt(m.words, b, 4);
      NothingWritten(before, b);
      for d := 0 to 4
        invariant iv == None
        invariant WithinBlock(before, m.words, b) && (d == 4 ==> OnlyBlock(before, m.words, b))
        invariant forall i :: 0 <= i < d ==> BlockAt(m.words, b, 4)[i] == Xor(block[i], Get(c, i))
        invariant forall i :: d <= i < 4 ==> BlockAt(m.words, b, 4)[i] == block[i]
      {
        assert BlockAt(m.words, b, 4)[d] == Get(m.words, b + d);
        PutWithin(before, m.words, b, d, Xor(Get(m.words, b + d), Get(c, d)));
        m.words := Put(m.words, b + d, Xor(Get(m.words, b + d), Get(c, d)));
      }
    }

    /** `Encryptor.processBlock` */
    method EncryptBlock(m: WordArray, b: nat)
      requires Valid()
      modifies this`iv, this`prevBlock, m`words
      ensures var v, mask := old(BlockAt(m.words, b, 4)), if old(iv).Some? then old(iv).value else old(prevBlock);
              var x := Block(Xor(v[0], Get(mask, 0)), Xor(v[1], Get(mask, 1)), Xor(v[2], Get(mask, 2)), Xor(v[3], Get(mask, 3)));
              BlockAt(m.words, b, 4) == WordsOf(Cipher(cipher.keySchedule, cipher.nRounds, x))
      ensures TheChain() == Chain(None, BlockAt(m.words, b, 4))
      ensures OnlyBlock(old(m.words), m.words, b)
    {
      hide Cipher, WordsOf, Xor, Get, BlockAt, WithinBlock, OnlyBlock;
      ghost var before := m.words;
      XorMask(m, b);
      ghost var masked := m.words;
      cipher.EncryptBlock(m, b);
      BlocksJoin(before, masked, m.words, b);
      prevBlock := BlockAt(m.words, b, 4);
    }

    /** `Decryptor.processBlock`; the block kept is a slice of the array, whose missing words count as 0. */
    method DecryptBlock(m: WordArray, b: nat)
      requires Valid()
      modifies this`iv, this`prevBlock, m`words
      ensures var mask := if old(iv).Some? then old(iv).value else old(prevBlock);
              var x := InvCipher(cipher.keySchedule, cipher.nRounds, BlockOf(old(BlockAt(m.words, b, 4))));
              BlockAt(m.words, b, 4) ==
              [Xor(x.w0, Get(mask, 0)), Xor(x.w1, Get(mask, 1)), Xor(x.w2, Get(mask, 2)), Xor(x.w3, Get(mask, 3))]
      ensures TheChain() == Chain(None, old(BlockAt(m.words, b, 4)))
      ensures OnlyBlock(old(m.words), m.words, b)
    {
      hide InvCipher, BlockOf, Xor, Get, BlockAt, WithinBlock, OnlyBlock;
      ghost var before := m.words;
      var d := BlockAt(m.words, b, 4);
      cipher.DecryptBlock(m, b);
      ghost var decrypted := m.words;
      XorMask(m, b);
      BlocksJoin(before, decrypted, m.words, b);
      prevBlock := d;
    }
  }

  lemma BlocksJoin(before: seq<Word>, mid: seq<Word>, after: seq<Word>, b: nat)
    requires OnlyBlock(before, mid, b) && OnlyBlock(mid, after, b)
    ensures OnlyBlock(before, after, b)
  {
  }
}
