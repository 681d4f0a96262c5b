/**
 `CryptoJS.PBKDF2` with its default hasher (js/rollups/pbkdf2.js:18-19): PBKDF2-HMAC-SHA-1, section 5.2 of RFC 8018 over
 section 2 of RFC 2104 over section 6.1 of FIPS 180-4.
 */
module Pbkdf2Sha1s {
  import opened WordArrays
  import opened MachineWords
  import LengthPaddings
  import opened Hashers
  import opened Hmacs
  import opened Sha1s
  import P = Pbkdf2s

  /** HMAC-SHA-1 */
  function Prf(password: seq<Byte>, text: seq<Byte>): (w: seq<Word>)
    ensures |w| == 5
  {
    HmacOver(Sha1, 64, password, text)
  }

  /** `U_j` for block `i` */
  function U(password: seq<Byte>, salt: seq<Byte>, i: nat, j: nat): (u: seq<Word>)
    requires j > 0
    ensures |u| == 5
    decreases j
  {
    if j == 1 then Prf(password, salt + WholeBytes([NumberWord(i)]))
    else Prf(password, WholeBytes(U(password, salt, i, j - 1)))
  }

  /** `F`: the exclusive-or of the first `c` iterates. */
  function F(password: seq<Byte>, salt: seq<Byte>, i: nat, c: nat): (f: seq<Word>)
    requires c > 0
    ensures |f| == 5
    decreases c
  {
    if c == 1 then U(password, salt, i, 1) else XorWords(F(password, salt, i, c - 1), U(password, salt, i, c))
  }

  /** The first `n` blocks. */
  function T(password: seq<Byte>, salt: seq<Byte>, c: nat, n: nat): (t: seq<Word>)
    requires c > 0
    ensures |t| == 5 * n
    decreases n
  {
    if n == 0 then [] else T(password, salt, c, n - 1) + F(password, salt, n, c)
  }

  /** The derived key of `4 * words` octets. */
  function DerivedKey(password: seq<Byte>, salt: seq<Byte>, c: nat, words: nat): seq<Byte>
    requires c > 0
  {
    BytesIn(T(password, salt, c, (words + 4) / 5), 4 * words)
  }

  // ----- the code's functions are these

  lemma PrfIs(password: seq<Byte>, text: seq<Byte>)
    requires Hash1().Keys()
    ensures Hash1().alg.Valid() && ShortHmac(Hash1(), ShortKey(Hash1(), password), text) == Prf(password, text)
  {
    hide HmacOver, ShortHmac, ShortKey, HashFunction.PadsBlocks, HashFunction.ClosesBelow;
    HmacIsHmacSha1(password, text);
  }

  lemma {:induction false} IteratesAre(password: seq<Byte>, salt: seq<Byte>, i: nat, j: nat)
    requires Hash1().Sound() && j > 0
    ensures P.U(Hash1(), ShortKey(Hash1(), password), salt, i, j) == U(password, salt, i, j)
    decreases j
  {
    hide ShortHmac, ShortKey, Prf, HashFunction.Keys, HashFunction.FullWidth, BytesIn, NumberWord;
    if j == 1 {
      PrfIs(password, salt + WholeBytes([NumberWord(i)]));
    } else {
      IteratesAre(password, salt, i, j - 1);
      PrfIs(password, WholeBytes(U(password, salt, i, j - 1)));
    }
  }

  lemma {:induction false} BlockIs(password: seq<Byte>, salt: seq<Byte>, i: nat, c: nat)
    requires Hash1().Sound() && c > 0
    ensures P.F(Hash1(), ShortKey(Hash1(), password), salt, i, c) == F(password, salt, i, c)
    decreases c
  {
    hide ShortKey, HashFunction.Sound, U, P.U, XorWords;
    IteratesAre(password, salt, i, c);
    if c > 1 {
      BlockIs(password, salt, i, c - 1);
    }
  }

  lemma {:induction false} BlocksAre(password: seq<Byte>, salt: seq<Byte>, c: nat, n: nat)
    requires Hash1().Sound() && c > 0
    ensures P.T(Hash1(), ShortKey(Hash1(), password), salt, c, n) == T(password, salt, c, n)
    decreases n
  {
    hide ShortKey, HashFunction.Sound, F, P.F;
    if n > 0 {
      BlockIs(password, salt, n, c);
      BlocksAre(password, salt, c, n - 1);
    }
  }

  /** PBKDF2 over the SHA-1 object is PBKDF2-HMAC-SHA-1, for every password, salt, iteration count and key size. */
  lemma DerivedIs(password: seq<Byte>, salt: seq<Byte>, iterations: nat, words: nat)
    requires Hash1().Sound()
    ensures P.Derived(Hash1(), password, salt, iterations, words) ==
            DerivedKey(password, salt, if iterations == 0 then 1 else iterations, words)
  {
    hide ShortKey, HashFunction.Sound, T, P.T, BytesIn;
    SoundWidth(Hash1());
    var c, n := if iterations == 0 then 1 else iterations, P.BlockCount(Hash1(), words);
    BlocksAre(password, salt, c, n);
  }

  /** `CryptoJS.PBKDF2(password, salt, {keySize, iterations})`; a password longer than a block must be clamped. */
  method Pbkdf2(password: WordArray, salt: WordArray, keySize: nat, iterations: nat) returns (key: WordArray)
    modifies password
    ensures fresh(key) && key.sigBytes == 4 * keySize
    ensures old(password.sigBytes > 64 ==>
                AppendsClamped(password.words, password.sigBytes) && password.sigBytes < LengthPaddings.Limit(16)) ==>
              key.Bytes() ==
              DerivedKey(old(password.Bytes()), old(salt.Bytes()), if iterations == 0 then 1 else iterations, keySize)
  {
    hide HashFunction.Sound, HashFunction.Keys, DerivedKey, P.Derived, BytesIn, AppendsClamped;
    Hash1Sound();
    ghost var p, s := password.Bytes(), salt.Bytes();
    key := P.Compute(Hash1(), password, salt, keySize, iterations);
    DerivedIs(p, s, iterations, keySize);
  }
}
