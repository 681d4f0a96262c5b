/** PBKDF2 (js/rollups/pbkdf2.js:18-19) as section 5.2 of RFC 8018 defines it. */
module Pbkdf2s {
  import Arithmetic
  import opened WordArrays
  import BufferedBlocks
  import opened MachineWords
  import opened Hashers
  import opened Hmacs

  // ----- RFC 8018

  function BytesOf(ws: seq<Word>): seq<Byte> {
    BytesIn(ws, 4 * |ws|)
  }

  /** The `j`th iterate for block `i`: the pseudorandom function of the salt and the index, then of its own result. */
  function U<S(!new)>(h: HashFunction<S>, short: seq<Byte>, salt: seq<Byte>, i: nat, j: nat): (u: seq<Word>)
    requires h.Sound() && j > 0
    ensures |u| == h.Width()
    decreases j
  {
    HmacLength(h, short, if j == 1 then salt + BytesOf([NumberWord(i)]) else BytesOf(U(h, short, salt, i, j - 1)));
    ShortHmac(h, short, if j == 1 then salt + BytesOf([NumberWord(i)]) else BytesOf(U(h, short, salt, i, j - 1)))
  }

  /** Block `i` of the derived key: the exclusive-or of the first `c` iterates. */
  function F<S(!new)>(h: HashFunction<S>, short: seq<Byte>, salt: seq<Byte>, i: nat, c: nat): (f: seq<Word>)
    requires h.Sound() && c > 0
    ensures |f| == h.Width()
    decreases c
  {
    if c == 1 then U(h, short, salt, i, 1)
    else XorWords(F(h, short, salt, i, c - 1), U(h, short, salt, i, c))
  }

  /** The first `n` blocks. */
  function T<S(!new)>(h: HashFunction<S>, short: seq<Byte>, salt: seq<Byte>, c: nat, n: nat): (t: seq<Word>)
    requires h.Sound() && c > 0
    ensures |t| == n * h.Width()
    decreases n
  {
    hide HashFunction.Sound, F;
    if n == 0 then [] else T(h, short, salt, c, n - 1) + F(h, short, salt, n, c)
  }

  lemma HmacLength<S(!new)>(h: HashFunction<S>, short: seq<Byte>, text: seq<Byte>)
    requires h.Sound()
    ensures h.alg.Valid() && |ShortHmac(h, short, text)| == h.Width()
  {
    hide HashFunction.PadsBlocks, HashFunction.Closed;
    var m := OuterPad(h, short) + h.DigestBytes(InnerPad(h, short) + text);
    OutputWidth(h, h.Closed(h.initial, h.Pad(m, |m|)));
  }

  /** The least number of blocks that fill `words` words. */
  function BlockCount<S(!new)>(h: HashFunction<S>, words: nat): nat
    requires h.Sound()
  {
    SoundWidth(h);
    (words + h.Width() - 1) / h.Width()
  }

  /** The derived key of `words` words; an iteration count of 0 acts as 1. */
  function Derived<S(!new)>(h: HashFunction<S>, password: seq<Byte>, salt: seq<Byte>, iterations: nat, words: nat): seq<Byte>
    requires h.Sound()
  {
    BytesIn(T(h, ShortKey(h, password), salt, if iterations == 0 then 1 else iterations, BlockCount(h, words)), 4 * words)
  }

  lemma BlocksFill<S(!new)>(h: HashFunction<S>, words: nat, n: nat)
    requires h.Sound() && words <= n * h.Width()
    requires n == 0 || (n - 1) * h.Width() < words
    ensures n == BlockCount(h, words)
  {
    SoundWidth(h);
    var v := h.Width();
    if n > 0 {
      Arithmetic.MulDistributes(n, 1, v);
      Arithmetic.QuotientUnique(words + v - 1, n, words - 1 - (n - 1) * v, v);
    } else {
      Arithmetic.QuotientUnique(words + v - 1, 0, v - 1, v);
    }
  }

  lemma {:induction false} BlocksExtend<S(!new)>(h: HashFunction<S>, short: seq<Byte>, salt: seq<Byte>, c: nat, m: nat, n: nat)
    requires h.Sound() && c > 0 && m <= n
    ensures T(h, short, salt, c, m) <= T(h, short, salt, c, n)
    decreases n
  {
    hide HashFunction.Sound, F;
    if m < n {
      BlocksExtend(h, short, salt, c, m, n - 1);
    }
  }

  /** A shorter key is a prefix of any longer one from the same password, salt and iteration count. */
  lemma ShorterIsPrefix<S(!new)>(h: HashFunction<S>, password: seq<Byte>, salt: seq<Byte>, iterations: nat, words: nat, more: nat)
    requires h.Sound() && words <= more
    ensures Derived(h, password, salt, iterations, words) <= Derived(h, password, salt, iterations, more)
  {
    hide HashFunction.Sound, F, ByteOf, ShortKey;
    SoundWidth(h);
    var c := if iterations == 0 then 1 else iterations;
    var v, short := h.Width(), ShortKey(h, password);
    Arithmetic.QuotientMonotone(words + v - 1, more + v - 1, v);
    BlocksExtend(h, short, salt, c, BlockCount(h, words), BlockCount(h, more));
    CountFills(h, words);
    CountFills(h, more);
    var s, t := T(h, short, salt, c, BlockCount(h, words)), T(h, short, salt, c, BlockCount(h, more));
    forall i: nat | i < 4 * words
      ensures ByteAt(s, i) == ByteAt(t, i)
    {
      assert s[i / 4] == t[..|s|][i / 4];
    }
  }

  lemma CountFills<S(!new)>(h: HashFunction<S>, words: nat)
    requires h.Sound()
    ensures words <= BlockCount(h, words) * h.Width()
  {
    SoundWidth(h);
    var v := h.Width();
    assert words + v - 1 == (words + v - 1) / v * v + (words + v - 1) % v;
  }

  // ----- the object

  /** The innermost loop: `f[r] ^= x[r]`. */
  method XorInto(p: WordArray, x: WordArray)
    requires p != x && |p.words| == |x.words|
    modifies p`words
    ensures p.words == XorWords(old(p.words), x.words)
  {
    hide WordArrays.Xor;
    for r := 0 to |p.words|
      invariant |p.words| == |old(p.words)|
      invariant forall i :: 0 <= i < r ==> p.words[i] == WordArrays.Xor(old(p.words)[i], x.words[i])
      invariant forall i :: r <= i < |p.words| ==> p.words[i] == old(p.words)[i]
    {
      p.words := p.words[r := WordArrays.Xor(p.words[r], x.words[r])];
    }
  }

  /** Whole words as `finalize` hands them out. */
  ghost predicate Whole(a: WordArray, ws: seq<Word>)
    reads a
  {
    a.words == ws && a.sigBytes == 4 * |ws|
  }

  lemma WholeIsClamped(a: WordArray, ws: seq<Word>)
    requires Whole(a, ws)
    ensures a.Clamped() && a.Bytes() == BytesOf(ws)
  {
    PackBytesIn(ws);
  }

  /** A message authentication code object ready for the next message. */
  ghost predicate Ready<S(!new)>(k: HMAC<S>, h: HashFunction<S>, short: seq<Byte>)
    reads k, k.hasher, k.hasher.buffer, k.hasher.buffer.data, k.hasher.hash, k.iKey, k.oKey
  {
    h.Sound() && k.Valid() && k.hasher.h == h && k.short == short && k.Fed([]) && k.hasher.buffer.data.Clamped()
  }

  /**
   One call of `finalize` followed by `reset`. The array it gives is no longer the hasher's, so a caller may write into
   it without reaching a value still to be used.
   */
  method Mac<S(!new)>(k: HMAC<S>, a: WordArray, ghost h: HashFunction<S>, ghost short: seq<Byte>) returns (mac: WordArray)
    requires Ready(k, h, short) && a.Clamped() && a.sigBytes <= 4 * h.BlockSize() && a !in k.Repr()
    modifies k.hasher, k.hasher.buffer, k.hasher.buffer.data, k.hasher.hash
    ensures Ready(k, h, short) && fresh(k.hasher.hash) && fresh(k.hasher.buffer.data)
    ensures fresh(mac) && mac !in k.Repr() && Whole(mac, ShortHmac(h, short, old(a.Bytes())))
  {
    hide HashFunction.Sound, HashFunction.FullWidth, ShortHmac, BytesIn, Pack, Hasher.Fed, HMAC.Fed, AppendsClamped;
    ghost var bs := a.Bytes();
    SoundWidth(h);
    ClampedAppends(a.words, a.sigBytes);
    HmacLength(h, short, bs);
    k.ClosesShort([], a);
    mac := k.Finalize(a);
    assert mac.words == ShortHmac(h, short, [] + bs);
    assert [] + bs == bs;
    k.Reset();
  }

  /** The first iterate: salt and block index. */
  method FirstMac<S(!new)>(k: HMAC<S>, salt: WordArray, j: WordArray, ghost h: HashFunction<S>, ghost short: seq<Byte>, ghost i: nat)
    returns (p: WordArray)
    requires Ready(k, h, short) && salt !in k.Repr() && j !in k.Repr()
    requires Whole(j, [NumberWord(i)])
    modifies k.hasher, k.hasher.buffer, k.hasher.buffer.data, k.hasher.hash
    ensures Ready(k, h, short) && fresh(k.hasher.hash) && fresh(k.hasher.buffer.data)
    ensures fresh(p) && p !in k.Repr() && Whole(p, U(h, short, old(salt.Bytes()), i, 1))
  {
    hide HashFunction.Sound, HashFunction.FullWidth, HashFunction.Valid, ShortHmac, PushedHmac, BytesIn, Pack, Hasher.Fed,
      HMAC.Fed, NumberWord, AppendsClamped, HashFunction.Keys, XorAll, Hasher.Closes;
    ghost var bs := salt.Bytes();
    SoundWidth(h);
    k.Update(salt);
    assert k.Fed([] + bs);
    assert [] + bs == bs;
    WholeIsClamped(j, [NumberWord(i)]);
    ClampedAppends(j.words, j.sigBytes);
    k.ClosesShort(bs, j);
    p := k.Finalize(j);
    assert p.words == ShortHmac(h, short, bs + BytesOf([NumberWord(i)]));
    k.Reset();
  }

  /** The loop over `t`: each iterate is the code of the one before, and is folded into the first in place. */
  method Iterate<S(!new)>(k: HMAC<S>, p: WordArray, iterations: nat,
                 ghost h: HashFunction<S>, ghost short: seq<Byte>, ghost salt: seq<Byte>, ghost i: nat)
    requires Ready(k, h, short) && p !in k.Repr() && Whole(p, U(h, short, salt, i, 1))
    modifies k.hasher, k.hasher.buffer, k.hasher.buffer.data, k.hasher.hash, p`words
    ensures Ready(k, h, short)
    ensures k.hasher.hash == old(k.hasher.hash) || fresh(k.hasher.hash)
    ensures k.hasher.buffer.data == old(k.hasher.buffer.data) || fresh(k.hasher.buffer.data)
    ensures p !in k.Repr() && Whole(p, F(h, short, salt, i, if iterations == 0 then 1 else iterations))
  {
    hide HashFunction.Sound, ShortHmac, BytesIn, Pack, HMAC.Valid, HMAC.Fed, XorWords;
    var s := p;
    var t := 1;
    while t < iterations
      invariant t <= iterations || t == 1
      invariant Ready(k, h, short)
      invariant k.hasher.hash == old(k.hasher.hash) || fresh(k.hasher.hash)
      invariant k.hasher.buffer.data == old(k.hasher.buffer.data) || fresh(k.hasher.buffer.data)
      invariant p !in k.Repr() && s !in k.Repr() && (s == p <==> t == 1) && (s == p || fresh(s))
      invariant Whole(p, F(h, short, salt, i, t)) && Whole(s, U(h, short, salt, i, t))
    {
      WholeIsClamped(s, U(h, short, salt, i, t));
      SoundWidth(h);
      ghost var next := U(h, short, salt, i, t + 1);
      s := Mac(k, s, h, short);
      assert Whole(s, next);
      XorInto(p, s);
      t := t + 1;
    }
  }

  /** The body of the outer loop up to the concatenation. */
  method DeriveBlock<S(!new)>(k: HMAC<S>, salt: WordArray, j: WordArray, iterations: nat,
                     ghost h: HashFunction<S>, ghost short: seq<Byte>, ghost i: nat)
    returns (p: WordArray)
    requires Ready(k, h, short) && salt !in k.Repr() && j !in k.Repr()
    requires Whole(j, [NumberWord(i)])
    modifies k.hasher, k.hasher.buffer, k.hasher.buffer.data, k.hasher.hash
    ensures Ready(k, h, short)
    ensures k.hasher.hash == old(k.hasher.hash) || fresh(k.hasher.hash)
    ensures k.hasher.buffer.data == old(k.hasher.buffer.data) || fresh(k.hasher.buffer.data)
    ensures fresh(p) && p !in k.Repr()
    ensures Whole(p, F(h, short, old(salt.Bytes()), i, if iterations == 0 then 1 else iterations))
  {
    hide HashFunction.Sound, U, F, BytesIn, Pack, HMAC.Valid, HMAC.Fed;
    ghost var bs := salt.Bytes();
    p := FirstMac(k, salt, j, h, short, i);
    Iterate(k, p, iterations, h, short, bs, i);
  }

  method NewMac<S(!new)>(h: HashFunction<S>, password: WordArray) returns (k: HMAC<S>)
    requires h.Sound()
    modifies password
    ensures fresh(k.Repr()) && Ready(k, h, k.short)
    ensures old(KeyHashes(h, password)) ==> k.short == ShortKey(h, old(password.Bytes()))
    ensures password.Bytes() == old(password.Bytes())
  {
    hide HashFunction.Sound, BytesIn, Pack;
    SoundWidth(h);
    k := new HMAC<S>(h, password);
  }

  /** The body of the outer loop. */
  method NextBlock<S(!new)>(k: HMAC<S>, key: WordArray, salt: WordArray, j: WordArray, iterations: nat, index: nat,
                   ghost h: HashFunction<S>, ghost short: seq<Byte>, ghost c: nat)
    requires Ready(k, h, short) && h.Sound() && c == (if iterations == 0 then 1 else iterations)
    requires salt !in k.Repr() && key !in k.Repr() && j !in k.Repr() && key != j && key != salt && j != salt
    requires index > 0 && Whole(j, [NumberWord(index)]) && Whole(key, T(h, short, salt.Bytes(), c, index - 1))
    modifies k.hasher, k.hasher.buffer, k.hasher.buffer.data, k.hasher.hash, key, j`words
    ensures Ready(k, h, short)
    ensures k.hasher.hash == old(k.hasher.hash) || fresh(k.hasher.hash)
    ensures k.hasher.buffer.data == old(k.hasher.buffer.data) || fresh(k.hasher.buffer.data)
    ensures Whole(j, [NumberWord(index + 1)]) && Whole(key, T(h, short, salt.Bytes(), c, index))
  {
    hide HashFunction.Sound, F, BytesIn, Pack, NumberWord, Ready;
    ghost var bs := salt.Bytes();
    var p := DeriveBlock(k, salt, j, iterations, h, short, index);
    AppendWhole(key, p, T(h, short, bs, c, index - 1), F(h, short, bs, index, c));
    j.words := [NumberWord(index + 1)];
  }

  /** The outer loop: blocks until the array is long enough. */
  method Fill<S(!new)>(k: HMAC<S>, key: WordArray, salt: WordArray, j: WordArray, keySize: nat, iterations: nat,
              ghost h: HashFunction<S>, ghost short: seq<Byte>, ghost c: nat)
    requires Ready(k, h, short) && h.Sound() && c == (if iterations == 0 then 1 else iterations)
    requires salt !in k.Repr() && key !in k.Repr() && j !in k.Repr() && key != j && key != salt && j != salt
    requires Whole(j, [NumberWord(1)]) && Whole(key, [])
    modifies k.hasher, k.hasher.buffer, k.hasher.buffer.data, k.hasher.hash, key, j`words
    ensures Whole(key, T(h, short, salt.Bytes(), c, BlockCount(h, keySize)))
    ensures keySize <= |key.words|
  {
    hide HashFunction.Sound, F, T, BytesIn, Pack, NumberWord, Ready;
    SoundWidth(h);
    ghost var bs := salt.Bytes();
    var index: nat := 1;
    NoBlock(h, short, bs, c);
    while |key.words| < keySize
      invariant Ready(k, h, short)
      invariant k.hasher.hash == old(k.hasher.hash) || fresh(k.hasher.hash)
      invariant k.hasher.buffer.data == old(k.hasher.buffer.data) || fresh(k.hasher.buffer.data)
      invariant key !in k.Repr() && j !in k.Repr() && salt !in k.Repr()
      invariant index > 0 && Whole(j, [NumberWord(index)]) && Whole(key, T(h, short, bs, c, index - 1))
      invariant index == 1 || |T(h, short, bs, c, index - 2)| < keySize
      decreases keySize - |key.words|
    {
      Grows(h, short, bs, c, index - 1);
      NextBlock(k, key, salt, j, iterations, index, h, short, c);
      index := index + 1;
    }
    BlocksFill(h, keySize, index - 1);
  }

  /** `compute`, whatever the tail of the salt holds; a password to be hashed must be clamped where it is pushed. */
  method Compute<S(!new)>(h: HashFunction<S>, password: WordArray, salt: WordArray, keySize: nat, iterations: nat) returns (key: WordArray)
    requires h.Sound()
    modifies password
    ensures fresh(key) && key.sigBytes == 4 * keySize
    ensures h.Keys() && (old(KeyHashes(h, password)) ==>
              key.Bytes() == Derived(h, old(password.Bytes()), old(salt.Bytes()), iterations, keySize))
  {
    hide HashFunction.Sound, T, BytesIn, Pack, NumberWord, Ready, BlockCount;
    SoundWidth(h);
    var k := NewMac(h, password);
    key := new WordArray([], 0);
    var j := new WordArray([NumberWord(1)], 4);
    Fill(k, key, salt, j, keySize, iterations, h, k.short, if iterations == 0 then 1 else iterations);
    key.sigBytes := 4 * keySize;
  }

  lemma Grows<S(!new)>(h: HashFunction<S>, short: seq<Byte>, salt: seq<Byte>, c: nat, n: nat)
    requires h.Sound() && c > 0
    ensures |T(h, short, salt, c, n)| < |T(h, short, salt, c, n + 1)|
  {
    SoundWidth(h);
  }

  lemma NoBlock<S(!new)>(h: HashFunction<S>, short: seq<Byte>, salt: seq<Byte>, c: nat)
    requires h.Sound() && c > 0
    ensures T(h, short, salt, c, 0) == []
  {
  }

  method AppendWhole(a: WordArray, b: WordArray, ghost v: seq<Word>, ghost w: seq<Word>)
    requires a != b && Whole(a, v) && Whole(b, w)
    modifies a
    ensures Whole(a, v + w)
  {
    hide BytesIn, Pack;
    WholeIsClamped(a, v);
    WholeIsClamped(b, w);
    a.Concat(b);
    BufferedBlocks.JoinBytes(v, w, 4 * |w|);
    PackBytesIn(v + w);
  }
}
