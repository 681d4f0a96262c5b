/** HMAC (js/rollups/pbkdf2.js:16-17) as section 2 of RFC 2104 defines it, over the hasher objects. */
module Hmacs {
  import Arithmetic
  import opened WordArrays
  import opened Hashers

  // ----- RFC 2104

  /** A key longer than a block is hashed first; then zeros fill up the block. */
  function ShortKey<S(!new)>(h: HashFunction<S>, key: seq<Byte>): (k: seq<Byte>)
    requires h.Keys()
    ensures |k| <= 4 * h.BlockSize()
  {
    if |key| > 4 * h.BlockSize() then h.DigestBytes(key) else key
  }

  function XorAll(k: seq<Byte>, n: nat, b: Byte): (r: seq<Byte>)
    ensures |r| == n
  {
    seq(n, i requires 0 <= i => XorByte(ByteOr0(k, i), b))
  }

  function InnerPad<S(!new)>(h: HashFunction<S>, short: seq<Byte>): seq<Byte> {
    XorAll(short, 4 * h.BlockSize(), 0x36)
  }

  function OuterPad<S(!new)>(h: HashFunction<S>, short: seq<Byte>): seq<Byte> {
    XorAll(short, 4 * h.BlockSize(), 0x5C)
  }

  /** The code for a key that has been shortened. */
  function ShortHmac<S(!new)>(h: HashFunction<S>, short: seq<Byte>, text: seq<Byte>): seq<Word>
    requires h.alg.Valid()
  {
    h.Digest(OuterPad(h, short) + h.DigestBytes(InnerPad(h, short) + text))
  }

  function Hmac<S(!new)>(h: HashFunction<S>, key: seq<Byte>, text: seq<Byte>): seq<Word>
    requires h.Keys()
  {
    ShortHmac(h, ShortKey(h, key), text)
  }

  function WholeBytes(ws: seq<Word>): (bs: seq<Byte>)
    ensures |bs| == 4 * |ws|
  {
    BytesIn(ws, 4 * |ws|)
  }

  function HashedKey(d: seq<Byte> -> seq<Word>, block: nat, key: seq<Byte>): seq<Byte> {
    if |key| > block then WholeBytes(d(key)) else key
  }

  function InnerText(d: seq<Byte> -> seq<Word>, block: nat, key: seq<Byte>, text: seq<Byte>): seq<Byte> {
    XorAll(HashedKey(d, block, key), block, 0x36) + text
  }

  function OuterText(d: seq<Byte> -> seq<Word>, block: nat, key: seq<Byte>, text: seq<Byte>): seq<Byte> {
    XorAll(HashedKey(d, block, key), block, 0x5C) + WholeBytes(d(InnerText(d, block, key, text)))
  }

  /** Section 2 of RFC 2104 over a digest with blocks of `block` octets. */
  function HmacOver(d: seq<Byte> -> seq<Word>, block: nat, key: seq<Byte>, text: seq<Byte>): seq<Word> {
    d(OuterText(d, block, key, text))
  }

  lemma DigestWidth<S(!new)>(h: HashFunction<S>, m: seq<Byte>)
    requires h.Sound()
    ensures h.alg.Valid() && 4 * |h.Digest(m)| == h.outBytes
  {
    hide HashFunction.PadsBlocks, HashFunction.Closed, HashFunction.Pad;
    OutputWidth(h, h.Closed(h.initial, h.Pad(m, |m|)));
  }

  /** The code over a hash function is the code over any digest that agrees with it on the three texts it hashes. */
  lemma HmacIsOver<S(!new)>(h: HashFunction<S>, d: seq<Byte> -> seq<Word>, key: seq<Byte>, text: seq<Byte>)
    requires h.Sound() && h.alg.Valid()
    requires |key| > 4 * h.BlockSize() ==> h.Digest(key) == d(key)
    requires h.Digest(InnerText(d, 4 * h.BlockSize(), key, text)) == d(InnerText(d, 4 * h.BlockSize(), key, text))
    requires h.Digest(OuterText(d, 4 * h.BlockSize(), key, text)) == d(OuterText(d, 4 * h.BlockSize(), key, text))
    ensures Hmac(h, key, text) == HmacOver(d, 4 * h.BlockSize(), key, text)
  {
    hide HashFunction.PadsBlocks, HashFunction.Digest, XorAll, BytesIn;
    DigestWidth(h, key);
    DigestWidth(h, InnerText(d, 4 * h.BlockSize(), key, text));
  }

  // ----- what the code hashes

  /** The outer hash: all words of the inner digest are pushed behind the padded key, also those that do not count. */
  function OuterHash<S(!new)>(h: HashFunction<S>, short: seq<Byte>, inner: seq<Word>): seq<Word>
    requires h.alg.Valid()
  {
    var n := 4 * h.BlockSize() + h.outBytes;
    var ws := Joined([], 0, Joined(Pack(OuterPad(h, short)), 4 * h.BlockSize(), inner, h.outBytes), n);
    h.output(h.Closed(h.initial, h.close(ws, n, n)))
  }

  function PushedHmac<S(!new)>(h: HashFunction<S>, short: seq<Byte>, text: seq<Byte>): seq<Word>
    requires h.alg.Valid()
  {
    OuterHash(h, short, h.Digest(InnerPad(h, short) + text))
  }

  lemma PackedJoins(m: seq<Byte>)
    ensures Joined([], 0, Pack(m), |m|) == Pack(m)
  {
    hide AppendedWords, AppendsClamped, Pack, BytesIn;
    BytesInPack(m);
    ClampedAppends(Pack(m), |m|);
    AppendedIff(Pack(m), |m|);
    BytesInSize([], 0);
    PackLength(BytesIn([], 0));
  }

  /** When every word of the digest counts, the code is that of RFC 2104. */
  lemma PushedIsHmac<S(!new)>(h: HashFunction<S>, short: seq<Byte>, text: seq<Byte>)
    requires h.Keys() && h.FullWidth() && h.alg.Valid()
    ensures PushedHmac(h, short, text) == ShortHmac(h, short, text)
  {
    hide HashFunction.Valid, HashFunction.Closed, HashFunction.Pad, Pack, BytesIn, AppendedWords, AppendsClamped, XorAll;
    KeysFit(h);
    var pad, inner := OuterPad(h, short), h.Digest(InnerPad(h, short) + text);
    var n := 4 * h.BlockSize() + h.outBytes;
    OutputWidth(h, h.Closed(h.initial, h.Pad(InnerPad(h, short) + text, |InnerPad(h, short) + text|)));
    var m := pad + BytesIn(inner, h.outBytes);
    BytesInSize(inner, h.outBytes);
    WholeAppends(inner);
    BytesInPack(pad);
    AppendAligned(pad, inner, h.outBytes);
    assert Joined(Pack(pad), 4 * h.BlockSize(), inner, h.outBytes) == Pack(m);
    PackedJoins(m);
    ClosingPads(h, m, n);
  }

  // ----- padding the key in words

  function XorFirst(ws: seq<Word>, n: nat, w: Word): (r: seq<Word>)
    ensures |r| == n
  {
    seq(n, i requires 0 <= i => Xor(Get(ws, i), w))
  }

  /** A word whose bytes are all `b`. */
  predicate AllBytes(w: Word, b: Byte) {
    forall k: nat | k < 4 :: ByteOf(w, k) == b
  }

  lemma PadWords()
    ensures AllBytes(0x3636_3636, 0x36) && AllBytes(0x5C5C_5C5C, 0x5C)
  {
  }

  lemma XorFirstBytes(k: seq<Byte>, n: nat, w: Word, b: Byte)
    requires AllBytes(w, b)
    ensures BytesIn(XorFirst(Pack(k), n, w), 4 * n) == XorAll(k, 4 * n, b)
  {
    hide ByteOf, Pack, XorByte, Xor;
    forall t: nat | t < 4 * n
      ensures ByteAt(XorFirst(Pack(k), n, w), t) == XorByte(ByteOr0(k, t), b)
    {
      XorBytewise(Get(Pack(k), t / 4), w, t % 4);
      PackByteAt(k, t);
    }
  }

  /** The key loop of `init`: words past the end of the key are holes, which read as 0 and are then filled. */
  method PadKey(a: WordArray, n: nat, w: Word, ghost b: Byte)
    requires a.Clamped() && a.sigBytes <= 4 * n && AllBytes(w, b)
    modifies a
    ensures a.Clamped() && a.Bytes() == XorAll(old(a.Bytes()), 4 * n, b)
  {
    hide ByteOf, Pack, XorByte, Xor, AllBytes;
    ghost var k := a.Bytes();
    PackLength(k);
    for i := 0 to n
      invariant |a.words| == if i <= |Pack(k)| then |Pack(k)| else i
      invariant forall j :: 0 <= j < i ==> a.words[j] == Xor(Get(Pack(k), j), w)
      invariant forall j: nat :: i <= j ==> Get(a.words, j) == Get(Pack(k), j)
    {
      a.words := Put(a.words, i, Xor(Get(a.words, i), w));
    }
    assert a.words == XorFirst(Pack(k), n, w);
    XorFirstBytes(k, n, w, b);
    a.sigBytes := 4 * n;
    PackBytesIn(a.words);
  }

  /** The caller's test of a key: one that has to be hashed must be clamped where it is pushed, and below the limit. */
  ghost predicate KeyHashes<S(!new)>(h: HashFunction<S>, key: WordArray)
    reads key
  {
    key.sigBytes > 4 * h.BlockSize() ==> AppendsClamped(key.words, key.sigBytes) && key.sigBytes < h.limit
  }

  /**
   The first statements of `init`: the short key is the caller's array, or the array that the hasher's `finalize` gives.
   The caller's array is clamped when it is the short key.
   */
  method ShortenKey<S(!new)>(hash: Hasher<S>, key: WordArray) returns (short: WordArray)
    requires hash.Valid() && hash.h.Keys() && key !in hash.Repr() && hash.Fed([]) && hash.buffer.data.Clamped()
    requires hash.buffer.data.sigBytes == 0
    modifies key, hash.buffer, hash.buffer.data, hash.hash
    ensures hash.Valid() && hash.buffer.data == old(hash.buffer.data)
    ensures short == key || short == hash.hash || fresh(short)
    ensures key.Bytes() == old(key.Bytes()) && key.sigBytes == old(key.sigBytes)
    ensures key.words == if key.sigBytes > 4 * hash.h.BlockSize() then old(key.words) else Pack(old(key.Bytes()))
    ensures short.Clamped() && short.sigBytes <= 4 * hash.h.BlockSize()
    ensures old(KeyHashes(hash.h, key)) ==> short.Bytes() == ShortKey(hash.h, old(key.Bytes()))
  {
    hide HashFunction.Valid, HashFunction.Digest, HashFunction.Closed, HashFunction.Pad, Hasher.Fed, ByteOf, Pack,
      BytesIn, AppendsClamped, Joined;
    HashIsBuilt(hash.h);
    ghost var k, w := key.Bytes(), key.words;
    if key.sigBytes > 4 * hash.h.BlockSize() {
      short := hash.Finalize(key);
      assert [] + k == k;
      ghost var ws := short.words;
      LiveIsClamped(hash, short);
      short.Clamp();
      assert short == hash.hash ==> short.words == ws;
    } else {
      short := key;
      short.Clamp();
    }
  }

  /** A live result is clamped already, so clamping it leaves the hasher's state alone. */
  lemma LiveIsClamped<S(!new)>(hash: Hasher<S>, short: WordArray)
    requires hash.Valid() && (hash.h.live ==> short == hash.hash)
    ensures hash.h.live ==> short.Clamped()
  {
    hide ByteOf, Pack, BytesIn, HashFunction.PadsBlocks;
    if hash.h.live {
      PackBytesIn(short.words);
    }
  }

  method PaddedCopy(short: WordArray, n: nat, w: Word, ghost b: Byte) returns (copy: WordArray)
    requires short.Clamped() && short.sigBytes <= 4 * n && AllBytes(w, b)
    ensures fresh(copy) && copy.Clamped() && copy.Bytes() == XorAll(short.Bytes(), 4 * n, b)
  {
    hide ByteOf, Pack, BytesIn, AllBytes, XorAll;
    copy := new WordArray(short.words, short.sigBytes);
    PadKey(copy, n, w, b);
  }

  lemma NothingLeft<S(!new)>(hash: Hasher<S>, m: seq<Byte>)
    requires hash.Fed(m) && |m| == 4 * hash.h.BlockSize()
    ensures hash.buffer.data.sigBytes == 0
  {
    hide HashFunction.Valid, After;
    HashIsBuilt(hash.h);
    Arithmetic.QuotientUnique(|m|, 1, 0, 4 * hash.h.BlockSize());
    NothingPending(hash.h, m);
  }

  lemma StartsEmpty<S(!new)>(hash: Hasher<S>)
    requires hash.Fed([]) && hash.buffer.data.Clamped()
    ensures hash.buffer.state == hash.h.initial && hash.buffer.nDataBytes == 0
    ensures hash.buffer.data.words == [] && hash.buffer.data.sigBytes == 0
  {
    hide HashFunction.Valid, After;
    AfterNothing(hash.h);
    assert hash.buffer.data.Bytes() == [];
  }

  class HMAC<S(!new)> {
    const hasher: Hasher<S>
    const iKey: WordArray
    const oKey: WordArray
    // the bytes of the short key
    ghost const short: seq<Byte>

    ghost predicate Valid()
      reads this, hasher, hasher.buffer, hasher.hash, iKey, oKey
    {
      && hasher.Valid() && hasher.h.Keys()
      && iKey != oKey && iKey !in hasher.Repr() && oKey !in hasher.Repr()
      && iKey.Clamped() && iKey.Bytes() == InnerPad(hasher.h, short)
      && oKey.Clamped() && oKey.Bytes() == OuterPad(hasher.h, short)
    }

    ghost function Repr(): set<object>
      reads this, hasher, hasher.buffer
    {
      {this, iKey, oKey} + hasher.Repr()
    }

    /** The bytes of `m` have been fed since the last reset. */
    ghost predicate Fed(m: seq<Byte>)
      reads hasher, hasher.buffer, hasher.buffer.data
    {
      hasher.h.Valid() && hasher.Fed(InnerPad(hasher.h, short) + m)
    }

    lemma ClosesShort(m: seq<Byte>, a: WordArray?)
      requires Fed(m) && hasher.Joins(a) && (a == null || a.sigBytes <= 4 * hasher.h.BlockSize())
      ensures hasher.Closes(a)
    {
      hide Hasher.Fed, Hasher.Joins, Hasher.Closes, HashFunction.Valid;
      hasher.ClosesShort(InnerPad(hasher.h, short) + m, a);
    }

    /** `init`; the key it is given is clamped in place unless it is hashed. */
    constructor (h: HashFunction<S>, key: WordArray)
      requires h.Keys()
      modifies key
      ensures Valid() && fresh(Repr()) && hasher.h == h
      ensures old(KeyHashes(h, key)) ==> short == ShortKey(h, old(key.Bytes()))
      ensures key.Bytes() == old(key.Bytes()) && key.sigBytes == old(key.sigBytes)
      ensures key.words == if key.sigBytes > 4 * h.BlockSize() then old(key.words) else Pack(old(key.Bytes()))
      ensures Fed([]) && hasher.buffer.data.Clamped() && hasher.buffer.data.sigBytes == 0
    {
      hide HashFunction.Valid, Hasher.Fed, ByteOf, Pack, BytesIn, KeyHashes, ShortKey, HashFunction.Keys,
        XorAll;
      KeysFit(h);
      var hash := new Hasher<S>(h);
      var k := ShortenKey(hash, key);
      PadWords();
      var outer := PaddedCopy(k, h.BlockSize(), 0x5C5C_5C5C, 0x5C);
      var inner := PaddedCopy(k, h.BlockSize(), 0x3636_3636, 0x36);
      hasher, iKey, oKey, short := hash, inner, outer, k.Bytes();
      new;
      Reset();
    }

    /** `update` */
    method Update(a: WordArray)
      requires Valid() && a != hasher.buffer.data
      modifies hasher.buffer, hasher.buffer.data, hasher.hash
      ensures Valid() && hasher.buffer.data == old(hasher.buffer.data)
      ensures forall m :: old(Fed(m)) ==> Fed(m + old(a.Bytes()))
      ensures old(hasher.Joins(a)) ==> hasher.buffer.data.Clamped()
    {
      hide HashFunction.Valid, Hasher.Fed, ByteOf, Pack, BytesIn, Hasher.Joins;
      ghost var pad, bs := InnerPad(hasher.h, short), a.Bytes();
      hasher.Update(a);
      forall m | old(Fed(m))
        ensures Fed(m + bs)
      {
        assert (pad + m) + bs == pad + (m + bs);
      }
    }

    /** `d.finalize(this._oKey.clone().concat(inner))`, right after a reset. */
    method CloseOuter(inner: WordArray) returns (mac: WordArray)
      requires Valid() && hasher.Fed([]) && hasher.buffer.data.Clamped()
      requires inner.sigBytes == hasher.h.outBytes
      modifies hasher.buffer, hasher.buffer.data, hasher.hash
      ensures Valid() && hasher.buffer.data == old(hasher.buffer.data)
      ensures if hasher.h.live then mac == hasher.hash else fresh(mac)
      ensures mac.sigBytes == hasher.h.outBytes && hasher.h.alg.Valid()
      ensures mac.words == OuterHash(hasher.h, short, old(inner.words))
    {
      hide HashFunction.Valid, HashFunction.Digest, HashFunction.Closed, HashFunction.Pad, HashFunction.FullWidth,
        HashFunction.Keys, ByteOf, Pack, BytesIn, AppendsClamped, Joined, After, XorAll, Hasher.Closes, Hasher.Joins;
      KeysFit(hasher.h);
      var outer := new WordArray(oKey.words, oKey.sigBytes);
      outer.Concat(inner);
      StartsEmpty(hasher);
      mac := hasher.Finalize(outer);
    }

    /**
     `finalize`: the result is the array in which the hasher keeps its state, or a new one. It is the code of RFC 2104 when
     the inner digest has no words that do not count.
     */
    method Finalize(a: WordArray?) returns (mac: WordArray)
      requires Valid() && a != hasher.buffer.data
      modifies hasher, hasher.buffer, hasher.buffer.data, hasher.hash
      ensures Valid() && fresh(hasher.hash) && fresh(hasher.buffer.data)
      ensures if hasher.h.live then mac == hasher.hash else fresh(mac)
      ensures mac.sigBytes == hasher.h.outBytes && hasher.h.alg.Valid()
      ensures forall m :: old(Fed(m) && hasher.Closes(a)) ==>
                mac.words == PushedHmac(hasher.h, short, m + if a == null then [] else old(a.Bytes()))
      ensures forall m :: old(Fed(m) && hasher.Closes(a)) && hasher.h.FullWidth() ==>
                mac.words == ShortHmac(hasher.h, short, m + if a == null then [] else old(a.Bytes()))
    {
      hide HashFunction.Valid, HashFunction.Digest, HashFunction.Closed, HashFunction.Pad, HashFunction.FullWidth,
        HashFunction.Keys, Hasher.Fed, ByteOf, Pack, BytesIn, Hasher.Closes, Hasher.Pending, OuterHash, ShortHmac;
      ghost var pad, more := InnerPad(hasher.h, short), if a == null then [] else a.Bytes();
      KeysFit(hasher.h);
      var inner := hasher.Finalize(a);
      ghost var words := inner.words;
      assert forall m :: old(Fed(m) && hasher.Closes(a)) ==> words == hasher.h.Digest(pad + m + more);
      hasher.Reset();
      mac := CloseOuter(inner);
      forall m | old(Fed(m) && hasher.Closes(a))
        ensures mac.words == PushedHmac(hasher.h, short, m + more)
        ensures hasher.h.FullWidth() ==> mac.words == ShortHmac(hasher.h, short, m + more)
      {
        assert pad + m + more == pad + (m + more);
        if hasher.h.FullWidth() {
          PushedIsHmac(hasher.h, short, m + more);
        }
      }
    }

    /** `reset` */
    method Reset()
      requires Valid()
      modifies hasher, hasher.buffer
      ensures Valid() && fresh(hasher.hash) && fresh(hasher.buffer.data)
      ensures Fed([]) && hasher.buffer.data.Clamped() && hasher.buffer.data.sigBytes == 0
    {
      hide HashFunction.Valid, Hasher.Fed, ByteOf, Pack, BytesIn, AppendsClamped;
      hasher.Reset();
      ClampedAppends(iKey.words, iKey.sigBytes);
      hasher.Update(iKey);
      assert hasher.Fed([] + iKey.Bytes());
      assert [] + iKey.Bytes() == iKey.Bytes() == iKey.Bytes() + [];
      NothingLeft(hasher, iKey.Bytes());
    }
  }

  /** `_createHmacHelper`: one code with a new object, that of RFC 2104 when every word of the digest counts. */
  method HmacOf<S(!new)>(h: HashFunction<S>, message: WordArray, key: WordArray) returns (mac: WordArray)
    requires h.Keys()
    modifies key
    ensures fresh(mac) && mac.sigBytes == h.outBytes && h.alg.Valid()
    ensures old(AppendsClamped(message.words, message.sigBytes) && message.sigBytes < h.limit && KeyHashes(h, key)) ==>
              && mac.words == PushedHmac(h, ShortKey(h, old(key.Bytes())), old(message.Bytes()))
              && (h.FullWidth() ==> mac.words == Hmac(h, old(key.Bytes()), old(message.Bytes())))
  {
    hide HashFunction.Valid, HashFunction.FullWidth, Hasher.Fed, ShortHmac, ShortKey, BytesIn, AppendsClamped, Pack,
      Hasher.Pending, KeyHashes, PushedHmac;
    KeysFit(h);
    ghost var m := message.Bytes();
    var hmac := new HMAC<S>(h, key);
    if old(AppendsClamped(message.words, message.sigBytes)) {
      if message.words != old(message.words) {
        ClampedAppends(message.words, message.sigBytes);
      }
      assert hmac.hasher.Joins(message);
    }
    mac := hmac.Finalize(message);
    assert [] + m == m;
  }
}
