/**
 The OpenSSL string form of a ciphertext (js/rollups/aes.js:28-29) and decryption from a string
 (js/rollups/aes.js:29-30).
 */
module OpenSsls {
  import opened WordArrays
  import BufferedBlocks
  import opened Options
  import opened Base64s
  import opened Cbc
  import Sequences

  /** `Salted__` */
  const MAGIC: seq<Byte> := [0x53, 0x61, 0x6C, 0x74, 0x65, 0x64, 0x5F, 0x5F]
  const MAGIC0: Word := 1398893684
  const MAGIC1: Word := 1701076831

  /** What `parse` puts into the cipher parameters; taking 16 from a short array makes the byte count negative. */
  datatype Params = Params(words: seq<Word>, sigBytes: int, salt: Option<seq<Byte>>)
  {
    function Ciphertext(): seq<Byte> {
      BytesIn(words, if sigBytes < 0 then 0 else sigBytes)
    }
  }

  function Envelope(ciphertext: seq<Byte>, salt: Option<seq<Byte>>): seq<Byte> {
    match salt
    case None => ciphertext
    case Some(s) => MAGIC + s + ciphertext
  }

  /** `stringify`; without a salt the ciphertext itself is clamped and printed. */
  method Stringify(ciphertext: WordArray, salt: WordArray?) returns (text: string)
    modifies ciphertext
    ensures text == Text(Envelope(old(ciphertext.Bytes()), if salt == null then None else Some(old(salt.Bytes()))))
    ensures ciphertext.Bytes() == old(ciphertext.Bytes())
  {
    hide BytesIn, Pack, Text;
    if salt == null {
      text := Base64s.Stringify(ciphertext);
    } else {
      var a := new WordArray([MAGIC0, MAGIC1], 8);
      MagicWords();
      a.Concat(salt);
      a.Concat(ciphertext);
      text := Base64s.Stringify(a);
    }
  }

  /** The magic octets spell `Salted__`. */
  lemma MagicText(i: nat)
    requires i < 8
    ensures MAGIC[i] as int == "Salted__"[i] as int
  {
  }

  lemma MagicWords()
    ensures Pack(MAGIC) == [MAGIC0, MAGIC1] && BytesIn([MAGIC0, MAGIC1], 8) == MAGIC
  {
    BytesInPack(MAGIC);
  }

  function Slice(ws: seq<Word>, i: nat, j: nat): seq<Word>
    requires i <= j
  {
    if j <= |ws| then ws[i..j] else if i <= |ws| then ws[i..] else []
  }

  /** The end of `parse`: with the magic words in front, the next two are the salt and four are cut off. */
  function Unwrapped(ws: seq<Word>, sigBytes: nat): Params {
    if Get(ws, 0) == MAGIC0 && Get(ws, 1) == MAGIC1 then
      var s := Slice(ws, 2, 4);
      Params(Slice(ws, 4, if |ws| < 4 then 4 else |ws|), sigBytes - 16, Some(BytesIn(s, 4 * |s|)))
    else
      Params(ws, sigBytes, None)
  }

  function Parsed(text: string): Params {
    var (ws, s) := ParseTo(text, End(text));
    Unwrapped(ws, s)
  }

  /** `parse` */
  method Parse(text: string) returns (p: Params)
    ensures p == Parsed(text)
  {
    hide BytesIn, ParseTo, End;
    var a := Base64s.Parse(text);
    var b := a.words;
    if Get(b, 0) == MAGIC0 && Get(b, 1) == MAGIC1 {
      var c := new WordArray(Slice(b, 2, 4), 4 * |Slice(b, 2, 4)|);
      p := Params(Slice(b, 4, if |b| < 4 then 4 else |b|), a.sigBytes - 16, Some(c.Bytes()));
    } else {
      p := Params(b, a.sigBytes, None);
    }
  }

  /** The octets that a text decodes to. */
  function Decoded(text: string): seq<Byte> {
    var (ws, n) := ParseTo(text, End(text));
    BytesIn(ws, n)
  }

  predicate StartsWithMagic(bs: seq<Byte>) {
    |bs| >= 8 && bs[..8] == MAGIC
  }

  lemma MagicInFront(bs: seq<Byte>)
    ensures Get(Pack(bs), 0) == MAGIC0 && Get(Pack(bs), 1) == MAGIC1 <==> StartsWithMagic(bs)
  {
    hide ByteOf, PackedWord, Pack;
    MagicWords();
    if StartsWithMagic(bs) {
      assert bs == MAGIC + bs[8..];
      PackAligned(MAGIC, bs[8..]);
    }
    if Get(Pack(bs), 0) == MAGIC0 && Get(Pack(bs), 1) == MAGIC1 {
      forall t: nat | t < 8
        ensures ByteOr0(bs, t) == MAGIC[t]
      {
        PackByteAt(bs, t);
        assert BytesIn([MAGIC0, MAGIC1], 8)[t] == ByteAt([MAGIC0, MAGIC1], t);
        assert Get(Pack(bs), t / 4) == Get([MAGIC0, MAGIC1], t / 4);
      }
      assert ByteOr0(bs, 7) == 0x5F;
    }
  }

  /**
   What `parse` makes of any text: with the magic in front, octets 8 to 15 are the salt and the ciphertext begins at octet
   16, unless there are fewer, which makes its count negative; all octets are ciphertext otherwise.
   */
  lemma ParsedParts(text: string)
    ensures var bs, p := Decoded(text), Parsed(text);
            && p.sigBytes == |bs| - (if StartsWithMagic(bs) then 16 else 0)
            && (p.salt.Some? <==> StartsWithMagic(bs))
            && (!StartsWithMagic(bs) ==> p.words == Pack(bs) && p.Ciphertext() == bs)
            && (StartsWithMagic(bs) && |bs| >= 16 ==>
                  p.words == Pack(bs[16..]) && p.Ciphertext() == bs[16..] && p.salt == Some(bs[8..16]))
            && (StartsWithMagic(bs) && |bs| < 16 ==> p.sigBytes < 0 && p.Ciphertext() == [])
  {
    hide PackedWord, Pack, BytesIn, ParseTo, End, ByteOf;
    var bs := Decoded(text);
    var (ws, n) := ParseTo(text, End(text));
    BytesInSize(ws, n);
    ParsedIsClamped(text, End(text));
    MagicInFront(bs);
    BytesInPack(bs);
    PackLength(bs);
    BytesInSize(Parsed(text).words, 0);
    if StartsWithMagic(bs) && |bs| >= 16 {
      BufferedBlocks.RestOfPack(bs, 16);
      BufferedBlocks.RestOfPack(bs[..16], 8);
      PackPrefix(bs, 16);
      assert bs[..16][8..] == bs[8..16];
      BytesInPack(bs[8..16]);
      BytesInPack(bs[16..]);
      PackLength(bs[8..16]);
      assert ws[2..4] == ws[..4][2..];
    }
  }

  lemma PackPrefix(bs: seq<Byte>, j: nat)
    requires j <= |bs| && j % 4 == 0
    ensures Pack(bs[..j]) == Pack(bs)[..j / 4]
  {
    hide PackedWord, Pack;
    PackSplit(bs, [], j);
    PackLength(bs[..j]);
  }

  /** When the string form can be read back. */
  predicate Readable(ciphertext: seq<Byte>, salt: Option<seq<Byte>>) {
    match salt
    case None => !StartsWithMagic(ciphertext)
    case Some(s) => |s| == 8
  }

  lemma SaltedParts(s: seq<Byte>, ciphertext: seq<Byte>)
    requires |s| == 8
    ensures Pack(MAGIC + s + ciphertext) == [MAGIC0, MAGIC1] + Pack(s) + Pack(ciphertext) && |Pack(s)| == 2
  {
    hide PackedWord, Pack;
    MagicWords();
    PackAligned(MAGIC, s + ciphertext);
    assert MAGIC + s + ciphertext == MAGIC + (s + ciphertext);
    PackAligned(s, ciphertext);
    PackLength(s);
  }

  /**
   The string form parses back to the same ciphertext and salt exactly when the salt has 8 octets, or there is none and
   the ciphertext does not begin with the magic octets.
   */
  lemma EnvelopeRoundTrip(ciphertext: seq<Byte>, salt: Option<seq<Byte>>)
    ensures Parsed(Text(Envelope(ciphertext, salt))) == Params(Pack(ciphertext), |ciphertext|, salt) <==> Readable(ciphertext, salt)
  {
    hide PackedWord, Pack, BytesIn, Text, ParseTo, End;
    var e := Envelope(ciphertext, salt);
    Base64s.RoundTrip(e);
    MagicInFront(e);
    match salt {
      case None =>
      case Some(s) =>
        assert e[..8] == MAGIC;
        if |s| == 8 {
          SaltedParts(s, ciphertext);
          BytesInPack(s);
          var ws := Pack(e);
          assert ws[2..4] == Pack(s) && ws[4..] == Pack(ciphertext);
        }
    }
  }

  /** `SerializableCipher.decrypt` of a readable string gives the plaintext that was encrypted. */
  lemma DecryptsFromString(k: Keyed, iv: seq<Word>, m: seq<Byte>, salt: Option<seq<Byte>>)
    requires k.Valid()
    ensures var c := EncryptChunks(k, iv, [], m);
            Readable(c, salt) ==> DecryptChunks(k, iv, [], Parsed(Text(Envelope(c, salt))).Ciphertext()) == m
  {
    hide EncryptChunks, DecryptChunks, Pack, BytesIn, Text, Parsed, Envelope, Readable, Keyed.Valid;
    var c := EncryptChunks(k, iv, [], m);
    EnvelopeRoundTrip(c, salt);
    BytesInPack(c);
    assert Sequences.Flatten([]) + c == c && Sequences.Flatten([]) + m == m;
    Cbc.RoundTrip(k, iv, [], m, [], c);
  }
}
