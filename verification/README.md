# Verification of the cryptographic, date and table-sorting code

This Dafny project models the algorithms of the bundled CryptoJS 3.1.2 sources (`js/rollups/*.js`, `js/sha3.js`), the
date printer and parser of the jQuery UI datepicker (`js/jquery-ui.js`) and the row sorting of tablesorter
(`js/jquery.tablesorter.js`), and proves what they compute. `dafny verify dfyconfig.toml` checks everything.

## How the code is modelled

**Numbers and words.** A JavaScript number that only bit operations touch is kept as the 32 bits those operations see
(`WordArrays.Word`, a `bv32`). Where sums are left untruncated, as in SHA-512, Rabbit and the 64-bit lanes, numbers are
unbounded integers; `JsNumber` gives `| 0`, `>>> 0`, `<<`, `>>>`, `&`, `^` and `~` on them,
`MachineOperators` proves these to be the machine's operators on the words behind them, and each sum or product that
JavaScript makes of them is shown to stay below 2^53 in magnitude (`Sha512Hasher.MessageExact`, `Sha1s.RunIsFold`,
`Rabbit.SquareExact`, `RabbitLegacy.MixSquares`). Byte counts are natural numbers; where the code shifts their number of
bits, it wraps around at 2^32 in the model too. Array holes and reads past the end count as 0, and a write past the end
grows the array.

**Objects.** `WordArray`, the buffering layer, the AES object, the CBC mode object, the block cipher, the SHA-1, SHA-512,
Rabbit and Keccak states, the hasher and HMAC objects and the sorted table are classes whose methods update their fields
and arrays in place; each is proved against a function of the old state. The method that every algorithm overrides,
`_doProcessBlock`, is a function-valued field of `BufferedBlocks.Algorithm`; the methods that do the same work in place
(`Compressor.DoProcessBlock`, `RabbitLegacy.DoProcessBlock`, `KeccakSponge.DoProcessBlock`, `AesCbc.Mode`) are proved
equal to the steps that those fields hold. A `Hashers.HashFunction` adds what `_doReset` and `_doFinalize` of one hash
do; SHA-1, SHA-512 and Keccak are given as such values, so that one hasher, one HMAC and one PBKDF2 serve them all.

**Files.**

| files | contents |
|---|---|
| Arithmetic, JsNumber, Lanes, Options, Sequences | quotients, JavaScript's integer operations, 64-bit words in two halves |
| MachineWords, MachineOperators, Bits | the 32-bit words behind numbers, the operators on words and on single bits |
| WordArrays, BufferedBlocks | the growable word buffer, the layer that accepts input in any chunks |
| Gf256, AesTables, AesCipher, AesObject, AesOctets | the table generator, the table-driven rounds and the key schedules against FIPS 197, every octet of it |
| Cbc, CbcBlocks, AesCbc, Base64s, OpenSsls | CBC and PKCS #7, CBC block by block, AES under CBC, Base64, the OpenSSL string form |
| Sha512, Sha512Constants, Primes, Sha512Hasher, Sha512Bits | SHA-512 on untruncated high/low pairs against FIPS 180-4, its constants, the digest and HMAC-SHA-512, its functions bit by bit |
| Rabbit, RabbitCipher, RabbitStream, RabbitBits | Rabbit against RFC 4503, its object, the stream cipher object, the equations of the RFC |
| Keccak, KeccakObject, KeccakSponge, KeccakBits, KeccakOctets | Keccak-f[1600] against FIPS 202, the permutation in place, the sponge, both bit by bit |
| Hashers, LengthPaddings, Sha1s, Sha1Machine, Hmacs, Pbkdf2s, Pbkdf2Sha1s, HmacOctets | hasher objects, the padding of the SHA family, SHA-1 against FIPS 180-4 and on machine words, HMAC against RFC 2104, PBKDF2 against RFC 8018, PBKDF2-HMAC-SHA-1, both octet by octet |
| CivilDates, DateFormats, DateParsing, DateRoundTrip, DateTokens | civil dates and ISO weeks, printing, parsing and reading back, what each token prints and takes |
| TableComparators, TableSorts | generated comparators, the row cache, sorting and putting rows back |

## Where code and documentation differ

- js/sha3.js pads without the two suffix bits of section 6.1 of FIPS 202, so its digests are those of the original
  Keccak submission and not of the standard's SHA-3: the padded inputs differ for every message and every rate
  (`PaddingsNeverMeet`, with the empty message in `EmptyPaddings`). The model follows the code. For output lengths up to
  512 bits, the longest that the documentation allows, the digest is the sponge of section 4 of FIPS 202 with that padding.
  From 544 on the output is longer than the rate (`RateExceeded`), and the code reads on in the capacity where the sponge
  would permute again (`SqueezedIff`).
- The indices at which `_doFinalize` writes its marker and the length come from `>>> 5`, `>>> 9` and `>>> 10` of a number of
  bits, which wrap around at 2^29 bytes. A hasher that is given less at a time never gets there, since less than a block is
  pending after `update`; given so much in the closing call, as the helper functions do, it pads a clamped message exactly
  below the limit that `FinalWordsPad` of `LengthPaddings` and of `KeccakSponge` state. `MarkerWraps` and `MarksWrap` are
  inputs at which it does not.
- js/rollups/rabbit-legacy.js reads the words of the key as numbers and not as octets, unlike the key layout of RFC 4503.
  The state before the first iteration is the same exactly when each of the four words equals its own byte swap
  (`KeyOrderMatters`), and `KeyOrderFails` gives a key for which it is not. The IV and the keystream are byte-swapped as the standard asks.
- `concat` does not always leave clamped words, which the `|=` of later steps rely on: the aligned copies keep what follows
  the argument's significant bytes in its last word, and the plain push also what follows in further words.
  `WordArray.Concat` states exactly when the result is clamped, `AppendsClamped` is the test a caller can make, and
  `PushKeepsTail` an input that fails it. `FinalWordsIff` of `LengthPaddings` and of `KeccakSponge` say exactly when the
  padding of a hash is right all the same.
- HMAC over SHA-384, SHA-224 and the 224-bit output of js/sha3.js appends an inner digest with words past its byte count.
  What it hashes then is `Hmacs.PushedHmac`; its outer message is padded as RFC 2104 asks exactly when those words are blank
  (`DroppedWordsMatter`, `OuterPadsIff`). For digests of full width it is the code of RFC 2104 (`PushedIsHmac`).
- The parser of dates reads `@@` and `!!` as one token where the printer prints two timestamps; the two readings of a format
  agree exactly when the parser finds no doubled timestamp in it (`SameTokensIff`, `TwoStamps`).
- Printing a date and parsing the text need not give the date back when a number narrower than the parser may read runs into
  a digit after it. For formats that set no field twice that is the exact condition (`RoundTripIff`); with `dm yy` it
  depends on the date (`UnseparatedDelimits`), and `UnseparatedIsAmbiguous` gives a date that is lost and one that is not.

## Model

| member | source | states |
|---|---|---|
| WordArrays.WordArray.Clamp | js/rollups/aes.js:8-9 | whatever the tail held, the significant bytes stay and everything past them becomes zero or goes away |
| WordArrays.WordArray.Concat | js/rollups/aes.js:8 | the bytes of the argument are appended, whatever either tail holds and also to the very same array; the result is clamped exactly when the byte loop ran, the array was appended to itself, or the caller's test of the argument succeeds |
| WordArrays.AppendedIff | js/rollups/aes.js:8 | the words an aligned append adds are clamped exactly when the last significant word has no byte set past the significant ones and, up to 65535 words, no word follows it |
| WordArrays.PushKeepsTail | js/rollups/aes.js:8 | a failing input: one significant byte of a word of ones, pushed onto an empty array, leaves three bytes that no clamped array has |
| WordArrays.CopyDropsWords | js/rollups/aes.js:8 | an unclamped argument of more than 65535 words can still be appended cleanly, since the indexed loop stops at the last significant word |
| WordArrays.WordArray.OrInBytes | js/rollups/aes.js:8 | OR-ing bytes into a clamped tail appends them, even when the array reads itself |
| WordArrays.WordArray.CopyWords | js/rollups/aes.js:8 | the indexed copy for long arguments appends exactly the significant words |
| WordArrays.OrAppends | js/rollups/aes.js:8 | a single `|=` just past the end of clamped words appends that byte |
| WordArrays.MaskedTail | js/rollups/aes.js:8-9 | the mask and the length assignment of `clamp` give the clamped form of the significant bytes |
| BufferedBlocks.BufferedBlockAlgorithm.constructor | js/rollups/aes.js:11 | a new object holds nothing |
| BufferedBlocks.BufferedBlockAlgorithm.Reset | js/rollups/aes.js:11 | reset forgets pending bytes and counts, in a new buffer object |
| BufferedBlocks.BufferedBlockAlgorithm.AppendData | js/rollups/aes.js:11 | the bytes of any array, whatever its tail, join those pending, and the count grows by their number; the buffer is clamped then exactly when `concat` leaves it so |
| BufferedBlocks.BufferedBlockAlgorithm.ProcessData | js/rollups/aes.js:11-12 | blocks rewritten in place and spliced off give the next state, the output words and exactly the bytes not consumed, for any tail; they are what the pending bytes alone give unless a partial block of unclamped words is flushed |
| BufferedBlocks.HarmlessTail | js/rollups/aes.js:11-12 | words past the significant bytes reach no block unless a partial block is flushed |
| BufferedBlocks.ProcessSplit | js/rollups/aes.js:11-12 | processing what has arrived and then the rest is processing everything at once, for any reserve and any closing flag |
| BufferedBlocks.ChunksDoNotMatter | js/rollups/aes.js:11-12 | for every split of the input, outputs and end state are those of one call, for hashers and for ciphers in both directions |
| BufferedBlocks.HeldBack | js/rollups/aes.js:11-12 | how many bytes stay pending: an incomplete block, and the reserved whole blocks once they exist |
| BufferedBlocks.RunContinues | js/rollups/aes.js:11-12 | closing words run after what was consumed are the same words run after the whole blocks of the input |
| MachineWords.NumberBack | js/rollups/rabbit-legacy.js:35-36 | a number and the word that bit operations keep of it determine each other modulo 2^32 |
| MachineWords.WordBack | js/rollups/rabbit-legacy.js:35-36 | every word is the word of the number that `>>> 0` makes of it |
| MachineWords.NumberOctets | js/rollups/pbkdf2.js:14-15 | the four octets of the word of a number, the most significant first, make up the number modulo 2^32 |
| JsNumber.BitSums | js/rollups/hmac-sha512.js:20-22 | on numbers of any width, exclusive-or and twice the and add up to the sum, and so do or and and |
| MachineOperators.BitOperators | js/rollups/hmac-sha512.js:20-22 | `&`, `|` and `^` on any two numbers are the operators on the 32-bit words behind them |
| MachineOperators.Sum | js/rollups/pbkdf2.js:14-15 | a sum of numbers, truncated or not, is the sum of their words modulo 2^32 |
| MachineOperators.Complement | js/rollups/hmac-sha512.js:22 | `~` inverts the word |
| MachineOperators.Shifts | js/rollups/hmac-sha512.js:20-22 | `<<` and `>>>` by any fixed amount are the shifts of the word |
| Bits.OperatorBits | js/sha3.js:16-17 | bit by bit, `^` adds modulo 2, `&` multiplies and `|` takes the larger |
| Bits.RotateBit | js/rollups/hmac-sha512.js:20-22 | a rotation of a 64-bit word to the right by k brings bit i + k to place i |
| Gf256.TimesCancel | js/rollups/aes.js:32 | the step of one walking value is undone by the step of the other, so the two steps are multiplications by inverse elements |
| Gf256.WalkInverse | js/rollups/aes.js:32 | at every step of the table loop the two walking values are inverse in GF(2^8), and the second is the only inverse of the first |
| Gf256.OrderIs255 | js/rollups/aes.js:32 | the walk returns to 1 after 255 steps and not before |
| Gf256.WalkCovers | js/rollups/aes.js:32 | the walk meets every non-zero byte, so that every table entry is written |
| Gf256.InverseExists | js/rollups/aes.js:32 | every byte has exactly one inverse, with 0 paired with 0 |
| Gf256.InverseInjective | js/rollups/aes.js:32 | different bytes have different inverses |
| AesTables.FoldIsAffine | js/rollups/aes.js:32 | the shift-and-fold expression of the loop is the affine map of section 5.1.1 of FIPS 197 |
| AesTables.SubInjective | js/rollups/aes.js:32 | the S-box is a permutation, so that the second table is its inverse |
| AesTables.LoopWords | js/rollups/aes.js:32 | the rotations of the two products of the loop are the rows of MixColumns and InvMixColumns times the byte |
| AesTables.TablesMix | js/rollups/aes.js:32 | XORing four table words mixes a whole column |
| AesTables.UnmixColumn | js/rollups/aes.js:32 | InvMixColumns undoes MixColumns on every column |
| AesTables.DoublingTable | js/rollups/aes.js:32 | the first loop makes the table of doubles in GF(2^8) |
| AesTables.BuildTables | js/rollups/aes.js:32 | after the 256 passes all ten tables hold the values FIPS 197 gives them, in every entry |
| AesCipher.InvCipherInverts | js/rollups/aes.js:34-35 | for any number of rounds and any round keys the inverse cipher of FIPS 197 inverts the cipher |
| AesCipher.EncCrypt | js/rollups/aes.js:34-35 | the table-driven rounds are SubBytes, ShiftRows, MixColumns and AddRoundKey of section 5.1 of FIPS 197 |
| AesCipher.EqRoundsAreInvRounds | js/rollups/aes.js:33-35 | the rounds of the equivalent inverse cipher on mixed round keys are the rounds of the inverse cipher |
| AesCipher.DecCrypt | js/rollups/aes.js:34-35 | the same table-driven rounds, with words 1 and 3 exchanged before and after and the reversed mixed schedule, are the inverse cipher |
| AesObject.AES.ForwardSchedule | js/rollups/aes.js:33-34 | the first schedule loop is the code's expansion of a key of any number of words, whose round constants come from a list of eleven |
| AesObject.ExpansionIsStandard | js/rollups/aes.js:33-34 | for every key of 4 words and more the code's expansion is the key expansion of section 5.2 of FIPS 197 |
| AesObject.InvSchedule | js/rollups/aes.js:33-34 | the second schedule is the reversed first one with words 1 and 3 swapped and InvMixColumns on the inner rounds |
| AesObject.UnmixedWord | js/rollups/aes.js:33-34 | the detour through the S-box turns the decryption tables into InvMixColumns alone |
| AesObject.AES.constructor | js/rollups/aes.js:33-34 | for a key of any number of whole words `_doReset` leaves key words + 6 rounds and a matching pair of schedules, the first being that of FIPS 197 from 4 words on |
| AesObject.AES.DoCryptBlock | js/rollups/aes.js:34-35 | the round loop rewrites four words of the array in place at any offset, growing the array where it ends, and leaves all others alone |
| AesObject.AES.EncryptBlock | js/rollups/aes.js:34 | four words in place at any offset become their FIPS 197 encryption, words past the end counting as 0, and nothing else changes |
| AesObject.AES.DecryptBlock | js/rollups/aes.js:34 | four words in place at any offset become their FIPS 197 decryption, and nothing else changes |
| AesOctets.ProductTerms | js/rollups/aes.js:32 | the field product is the sum of the shifted factor over the terms of the other, section 4.2 of FIPS 197 |
| AesOctets.XtimeReduces | js/rollups/aes.js:32 | doubling is the shift, less x^8 + x^4 + x^3 + x + 1 where it overflows |
| AesOctets.AffineBits | js/rollups/aes.js:32 | the affine map of the S-box bit by bit, as section 5.1.1 of FIPS 197 writes it |
| AesOctets.SubOctet | js/rollups/aes.js:32 | the S-box takes a byte to the affine image of its multiplicative inverse, 0 standing for its own |
| AesOctets.BlockColumn | js/rollups/aes.js:34-35 | word c of the four is column c of the state |
| AesOctets.AddRoundKeyWords | js/rollups/aes.js:34-35 | in every round word c of the state meets word 4r + c of the schedule, section 5.1.4 of FIPS 197 |
| AesOctets.FirstKeyAt | js/rollups/aes.js:34-35 | row r, column c of the state before the first round is the input octet and the key octet, section 3.4 of FIPS 197 naming both |
| AesOctets.RoundsAt | js/rollups/aes.js:34-35 | row r, column c after each full round: the coefficients 2, 3, 1, 1 on the substituted octets of rows r to r + 3, each from the column its row is shifted by, and the key octet |
| AesOctets.CipherAt | js/rollups/aes.js:34-35 | every octet of the ciphertext: the last round substitutes, shifts and adds the last key, with no mixing |
| AesOctets.InvRoundsAt | js/rollups/aes.js:34-35 | the same for the inverse cipher, with the coefficients 14, 11, 13 and 9, the opposite shift and the keys from the last |
| AesOctets.InvCipherAt | js/rollups/aes.js:34-35 | every octet of the decrypted block |
| AesOctets.KeyWordAt | js/rollups/aes.js:33-34 | every octet of the key schedule for keys of 4 words and more, with the ten round constants as numbers, section 5.2 of FIPS 197 |
| Cbc.ChainsInvert | js/rollups/aes.js:25-27 | decrypting the blocks of an encryption from the same chaining state gives the blocks back, and the chains stay together |
| Cbc.Pad | js/rollups/aes.js:27 | the padding of section 6.3 of RFC 5652 is appended, a whole block of it when the data fills blocks, and the data end up clamped whatever their tail was |
| Cbc.EncryptionContinues | js/rollups/aes.js:24-28 | whatever has been processed before, padding and running the rest completes the encryption of the whole message |
| Cbc.EncryptChunksAgree | js/rollups/aes.js:24-28 | however the message is cut up, the ciphertext is the same |
| Cbc.ClosingBlock | js/rollups/aes.js:28 | the decryptor's reserve leaves the closing call at least one whole block to unpad |
| Cbc.DecryptionUnpads | js/rollups/aes.js:24-28 | whatever part of a ciphertext has been processed before, running and unpadding the rest completes the message, and the last byte counts no more than there is |
| Cbc.RoundTrip | js/rollups/aes.js:24-28 | for every key, IV, message and chunking on both sides decryption gives the message, and the ciphertext is a positive number of whole blocks |
| Cbc.LastByte | js/rollups/aes.js:28 | `unpad` takes away as many bytes as the last byte says |
| CbcBlocks.CipherBlock | js/rollups/aes.js:25-28 | section 6.2 of NIST SP 800-38A for any block cipher: block j of the ciphertext encrypts block j of the padded message with the ciphertext block before it, or at first the vector, added word by word |
| CbcBlocks.PlainBlock | js/rollups/aes.js:25-28 | the same for decryption of any whole blocks, whether they are a ciphertext or not |
| CbcBlocks.KeptBack | js/rollups/aes.js:24-28 | between calls an encryptor keeps an incomplete block, and a decryptor a whole one too once there is one |
| CbcBlocks.PaddingOctets | js/rollups/aes.js:27 | one to a block of octets, each of which gives their number, fill up whole blocks |
| Cbc.BlockCipher.constructor | js/rollups/aes.js:28 | a fresh encryptor or decryptor starts from the IV with nothing given and nothing come out |
| Cbc.BlockCipher.ProcessChunk | js/rollups/aes.js:24 | over any run of calls, with chunks whatever their tails, what has gone in and what has come out are one `process` call on the joined chunks |
| Cbc.BlockCipher.Finalize | js/rollups/aes.js:25-28 | after any run of calls an encryptor's outputs join up to the ciphertext of everything given, and a decryptor's, given a whole ciphertext, to its message, with the byte count lowered by the padding; for chunks whatever their tails |
| AesCbc.Mode.XorMask | js/rollups/aes.js:25-26 | each of the four words at any offset meets its word of the IV, the first time, and of the kept block afterwards |
| AesCbc.Mode.EncryptBlock | js/rollups/aes.js:26 | the four words with the IV or the kept block added are encrypted by FIPS 197, and the result becomes the next mask; nothing outside the block changes but for growth at the end |
| AesCbc.Mode.DecryptBlock | js/rollups/aes.js:26-27 | the four words are decrypted by FIPS 197, then the IV or the kept block is added, and the ciphertext block becomes the next mask; nothing outside the block changes but for growth at the end |
| AesCbc.AesMeets | js/rollups/aes.js:33-35 | the table-driven AES of any key is FIPS 197 in both directions and undoes itself |
| AesCbc.AesIsKeyed | js/rollups/aes.js:28 | AES under any key meets the demands of the CBC round trip |
| AesCbc.AesRoundTrip | js/rollups/aes.js:24-35 | for every AES object, IV, message and chunking on both sides, CBC decryption of the encryption is the message |
| AesCbc.Encrypt | js/rollups/aes.js:25-29 | an encryptor object finalized with a message gives the message's CBC encryption |
| AesCbc.Decrypt | js/rollups/aes.js:25-30 | a decryptor object finalized with a ciphertext gives the message that was encrypted, whichever it was |
| AesCbc.StepWords | js/rollups/aes.js:26-27 | the steps of the round trip are what the mode object's methods do to four words |
| Base64s.IndexOfIs | js/rollups/aes.js:15 | `indexOf` on the map finds the one place of each of its 65 characters, and -1 otherwise |
| Base64s.OverflowHarmless | js/rollups/aes.js:15 | bits of the unmasked left part that pass the octet fall off the word or onto bits already set |
| Base64s.Stringify | js/rollups/aes.js:14 | the printed text is the encoding of section 4 of RFC 4648, and the array is only clamped |
| Base64s.TextGroup | js/rollups/aes.js:14-15 | three octets are four letters of Table 1 of RFC 4648, six bits each, and the last group ends in one or two pads, up to a multiple of four characters |
| Base64s.Parse | js/rollups/aes.js:14-15 | the parser loop up to the first pad character, with unknown characters as all ones |
| Base64s.ParsedIsClamped | js/rollups/aes.js:14-15 | any text, of characters in the map or not, is parsed to clamped words |
| Base64s.RoundTrip | js/rollups/aes.js:14-15 | parsing what was printed gives the octets back as clamped words, for every octet string |
| OpenSsls.Stringify | js/rollups/aes.js:28-29 | magic, salt and ciphertext are printed in that order, or the ciphertext alone without a salt |
| OpenSsls.MagicText | js/rollups/aes.js:28-29 | the magic octets spell `Salted__` |
| OpenSsls.ParsedParts | js/rollups/aes.js:29 | of any text: with the magic in front octets 8 to 15 become the salt and the ciphertext begins at octet 16, with a negative count when there are fewer; otherwise all octets are ciphertext |
| OpenSsls.EnvelopeRoundTrip | js/rollups/aes.js:28-29 | the string parses back to the same ciphertext and salt exactly when the salt has 8 octets, or there is none and the ciphertext does not begin with the magic |
| OpenSsls.DecryptsFromString | js/rollups/aes.js:29-30 | decryption of a readable string gives the plaintext that was encrypted |
| Lanes.RotateLaneVal | js/rollups/hmac-sha512.js:20-22 | the split rotation of two halves is the rotation of the 64-bit word, below and above 32 |
| Lanes.ShiftLaneVal | js/rollups/hmac-sha512.js:20-21 | the split shift is the shift of the 64-bit word |
| Lanes.CarrySum | js/rollups/hmac-sha512.js:21-23 | comparing the `>>> 0` value of an untruncated sum with an addend finds the true carry |
| Sha512.PassExact | js/rollups/hmac-sha512.js:22-23 | every sum of a pass is below 2^53 in magnitude when twice the bound of the two values it adds leaves room for the schedule word |
| Sha512.PassIsRound | js/rollups/hmac-sha512.js:22-23 | a round on high/low pairs is the round of section 6.4.2 of FIPS 180-4 |
| Sha512.NextWordExact | js/rollups/hmac-sha512.js:20-21 | schedule halves are never truncated and still every sum is exact |
| Sha512.ScheduleExact | js/rollups/hmac-sha512.js:20-21 | through all 80 words the schedule halves stay below 2^40 in magnitude |
| Sha512.ScheduleIsW | js/rollups/hmac-sha512.js:20-21 | the schedule stands for the message schedule of FIPS 180-4 |
| Sha512.BlockExact | js/rollups/hmac-sha512.js:19-23 | for the first 2^21 - 4 blocks every sum of the schedule, of the eighty passes and of the closing additions is exact, although the hash halves are never truncated |
| Sha512.RangeEnds | js/rollups/hmac-sha512.js:22-23 | the bound is exact for the range: from block 2^21 - 4 on there are a state that has grown no further than the blocks before allow and a block of which the first pass rounds a sum |
| Sha512.BlockIsCompress | js/rollups/hmac-sha512.js:19-23 | the block function on pairs is the compression of section 6.4.2 of FIPS 180-4 modulo 2^64 |
| Sha512Constants.RoundConstantsAreCubeRoots | js/rollups/hmac-sha512.js:15-19 | constant t is the first 64 bits of the fraction of the cube root of prime t, section 4.2.3 of FIPS 180-4 |
| Primes.AreConsecutive | js/rollups/hmac-sha512.js:15-19 | the table of primes behind the constants begins with 2, lists primes only and leaves none out |
| Sha512Constants.InitialWordsAreSquareRoots | js/rollups/hmac-sha512.js:19 | the initial hash words come from the square roots of the first eight primes, section 5.3.5 of FIPS 180-4 |
| Sha512Hasher.Compressor.DoProcessBlock | js/rollups/hmac-sha512.js:19-23 | at block n < 2^21 - 4 the 80-step loop rewrites the shared schedule and the hash words in place to the block function's value, no sum it makes is rounded, and the state is in the range of block n + 1 |
| Sha512Hasher.RunIsFold | js/rollups/hmac-sha512.js:11-12 | up to 2^21 - 4 blocks the state stands for the fold of the compression and stays in range |
| Sha512Hasher.MessageExact | js/rollups/hmac-sha512.js:19-23 | at each of the first 2^21 - 4 blocks of any message the state is in range and every sum of the block is exact |
| Sha512Hasher.ChunksReachDigest | js/rollups/hmac-sha512.js:11-12 | after any updates `finalize` gives the FIPS 180-4 digest of the joined input, for messages of at most 2^21 - 4 padded blocks, and no sum at any block on the way is rounded |
| Sha512Hasher.DigestWordsAreHalves | js/rollups/hmac-sha512.js:14 | the digest words are the halves of the 64-bit values however far the untruncated halves have grown |
| Sha512Bits.SigmaBits | js/rollups/hmac-sha512.js:20-22 | the four sigma functions of section 4.1.3 of FIPS 180-4 bit by bit |
| Sha512Bits.ChoiceBits | js/rollups/hmac-sha512.js:22 | so are choice and majority |
| Sha512Bits.RoundSums | js/rollups/hmac-sha512.js:22-23 | the eight variables after a round as sums modulo 2^64 |
| Sha512Bits.ScheduleSums | js/rollups/hmac-sha512.js:20-21 | every word of the message schedule as a sum modulo 2^64 |
| Sha512Bits.BlockSums | js/rollups/hmac-sha512.js:19-23 | a block starts from the chaining value, runs the rounds in order and adds the chaining value |
| Sha512Bits.MessageWord | js/rollups/hmac-sha512.js:20 | message word t is made of words 2t and 2t + 1, the upper half first |
| Sha512Bits.DigestWords | js/rollups/hmac-sha512.js:14 | the digest is the eight chaining values, the upper half of each first |
| Sha512Bits.DigestFolds | js/rollups/hmac-sha512.js:11-14 | the digest starts from the initial words and takes every block of the padded message |
| Sha512Bits.FoldsInOrder | js/rollups/hmac-sha512.js:11-12 | block after block, each compressed into what the ones before have left |
| Sha512Hasher.Hash512Sound | js/rollups/hmac-sha512.js:11-12 | with its padding, block function and 16 fresh output words SHA-512 is a hash function that the hasher, HMAC and PBKDF2 objects can be built on |
| Sha512Hasher.HmacIsHmacSha512 | js/rollups/hmac-sha512.js:24-25 | HMAC over it is section 2 of RFC 2104 over the FIPS 180-4 digest |
| Sha512Hasher.Digest | js/rollups/hmac-sha512.js:12-23 | `CryptoJS.SHA512` gives the FIPS 180-4 digest of any message that the caller's test admits |
| Sha512Hasher.HmacDigest | js/rollups/hmac-sha512.js:13-25 | `CryptoJS.HmacSHA512` gives HMAC-SHA-512 of any key and message that the caller's test admits |
| Rabbit.StepIsAddition | js/rollups/rabbit-legacy.js:32 | one counter step adds the constant and the old carry to the 256-bit counter, and the new carry is bit 256 |
| Rabbit.CounterSystem | js/rollups/rabbit-legacy.js:32 | after n steps counter plus carry has grown by n times the constant modulo 2^256 - 1, the counter system of section 2.5 of RFC 4503 |
| Rabbit.SquareExact | js/rollups/rabbit-legacy.js:32-33 | no intermediate of the half-word squaring loses exactness; the large product is 2^16 times an exact number |
| Rabbit.SquareIsG | js/rollups/rabbit-legacy.js:32-33 | the half-word expression is the g-function of section 2.6 of RFC 4503: the two halves of the 64-bit square XORed |
| RabbitCipher.CarryFound | js/rollups/rabbit-legacy.js:32 | each `>>> 0` comparison is the carry of the 32-bit addition |
| RabbitCipher.MixIs | js/rollups/rabbit-legacy.js:33 | the closing sums of rotations are those of section 2.6 of RFC 4503 modulo 2^32 |
| RabbitCipher.IvWords | js/rollups/rabbit-legacy.js:34-35 | the swapped and recombined IV words are those of section 2.4 of RFC 4503 |
| RabbitCipher.KeyOrderMatters | js/rollups/rabbit-legacy.js:34 | before the four iterations the state is the one that RFC 4503 expands the octets of the key to exactly when each of the four words equals its own byte swap |
| RabbitCipher.KeyOrderFails | js/rollups/rabbit-legacy.js:34 | a failing input: the key whose only set bit is the lowest of its first word is expanded differently |
| RabbitCipher.RabbitLegacy.AdvanceCounters | js/rollups/rabbit-legacy.js:32 | the eight counter statements update the counters and the carry in place to the next counter state |
| RabbitCipher.RabbitLegacy.Squares | js/rollups/rabbit-legacy.js:32-33 | the squaring loop fills the scratch array with the g-values, and none of its numbers is rounded |
| RabbitCipher.RabbitLegacy.MixSquares | js/rollups/rabbit-legacy.js:33 | the closing statements of `q` write the mixed words of section 2.6 of RFC 4503 in place, and none of their sums is rounded |
| RabbitCipher.RabbitLegacy.Q | js/rollups/rabbit-legacy.js:32-33 | `q` is one step of the state of RFC 4503, in place on the object's arrays |
| RabbitCipher.RabbitLegacy.constructor | js/rollups/rabbit-legacy.js:34-35 | key setup, and IV setup when there is an IV, as in sections 2.3 and 2.4 of RFC 4503 |
| RabbitCipher.RabbitLegacy.DoProcessBlock | js/rollups/rabbit-legacy.js:35-36 | one step, and the 128 keystream bits of section 2.7 XORed into one block, growing the array where it ends |
| RabbitBits.Constants | js/rollups/rabbit-legacy.js:32 | the eight constants of section 2.5 of RFC 4503 |
| RabbitBits.SquareBits | js/rollups/rabbit-legacy.js:32-33 | bit i of the g-function adds bits i and i + 32 of the square |
| RabbitBits.StepEquations | js/rollups/rabbit-legacy.js:33 | the eight equations of section 2.6 of RFC 4503 |
| RabbitBits.ExpandedKey | js/rollups/rabbit-legacy.js:34 | which halves of the key words go into each state variable and counter, section 2.3 of RFC 4503 on words |
| RabbitBits.KeySetupIs | js/rollups/rabbit-legacy.js:34 | four iterations, and then every counter is combined with the state variable four places on |
| RabbitBits.IvBits | js/rollups/rabbit-legacy.js:34-35 | each counter is combined with its part of the IV, octets least significant first |
| RabbitBits.SetupIs | js/rollups/rabbit-legacy.js:34-35 | with an IV four more iterations follow, without one none |
| RabbitBits.KeyWordIs | js/rollups/rabbit-legacy.js:35-36 | each keystream word combines a state variable with halves of two others, section 2.7 of RFC 4503 |
| RabbitBits.KeptBack | js/rollups/rabbit-legacy.js:11 | between calls less than a block is kept |
| RabbitBits.OctetIs | js/rollups/rabbit-legacy.js:35-36 | octet i of a message meets octet i of the keystream blocks, each block from its least significant end |
| RabbitStream.OneShot | js/rollups/rabbit-legacy.js:11 | encryption in one call combines every byte, a partial last block included, with the keystream byte at its position |
| RabbitStream.PositionDecides | js/rollups/rabbit-legacy.js:11 | under any chunking each byte meets the keystream byte at its own position, section 2.8 of RFC 4503 |
| RabbitStream.TwiceIsIdentity | js/rollups/rabbit-legacy.js:25 | from one key and IV encrypting twice is the identity for every length and any chunkings |
| RabbitStream.RunBytes | js/rollups/rabbit-legacy.js:11 | whatever follows the message's bytes in the words, a run over them, a partial last block included, combines each byte with its keystream octet |
| RabbitStream.StreamCipher.constructor | js/rollups/rabbit-legacy.js:24-25 | a fresh cipher object starts from the key and IV setup with nothing given and nothing come out |
| RabbitStream.StreamCipher.ProcessChunk | js/rollups/rabbit-legacy.js:24 | over any run of calls, with chunks whatever their tails, what has gone in and what has come out are one `process` call on the joined chunks |
| RabbitStream.StreamCipher.Finalize | js/rollups/rabbit-legacy.js:24-25 | after any run of calls the outputs join up to the encryption of everything given by section 2.8 of RFC 4503, although the partial block is flushed unclamped |
| RabbitStream.Crypt | js/rollups/rabbit-legacy.js:24-25 | one call encrypts, or decrypts, any message array, whatever its tail |
| Keccak.BuildOffsets | js/sha3.js:15 | the walk fills every lane but lane 0 with the offset of section 3.2.2 of FIPS 202 |
| Keccak.BuildTargets | js/sha3.js:15 | every lane gets its destination under the permutation of lanes |
| Keccak.PiTargetInverts | js/sha3.js:15 | the destinations are a permutation, inverse to the step mapping of section 3.2.3 of FIPS 202 |
| Keccak.RegisterSteps | js/sha3.js:15 | the low 8 bits of the unmasked register follow Algorithm 5 of FIPS 202, and the test looks at the right bit |
| Keccak.BuildRoundConstants | js/sha3.js:15 | the generated pairs stand for the 24 round constants of section 3.2.5 of FIPS 202 |
| Keccak.RotateSplitRight | js/sha3.js:17 | the two-way rotation is right for every lane exactly when the offset is not a multiple of 32 |
| Keccak.OffsetsAvoid32 | js/sha3.js:15 | no offset of lanes 1 to 24 is 0 or 32 |
| KeccakObject.KeccakState.ThetaInPlace | js/sha3.js:16-17 | the parity and effect loops are the step mapping theta on 64-bit lanes |
| KeccakObject.KeccakState.RhoPi | js/sha3.js:17 | rotated lanes written to their targets are the step mappings rho and pi; no lane is overwritten |
| KeccakObject.KeccakState.ChiInPlace | js/sha3.js:17 | the nested loop is the step mapping chi |
| KeccakObject.KeccakState.Permute | js/sha3.js:16-17 | the 24 rounds on split lanes are Keccak-f[1600] of section 3.3 of FIPS 202 |
| KeccakBits.ThetaBit | js/sha3.js:16-17 | the step mapping theta bit by bit, section 3.2.1 of FIPS 202 |
| KeccakBits.RhoBit | js/sha3.js:17 | rho bit by bit, with the offsets of Table 2 of FIPS 202 |
| KeccakBits.PiBit | js/sha3.js:17 | pi bit by bit |
| KeccakBits.ChiBit | js/sha3.js:17 | chi bit by bit |
| KeccakBits.IotaBit | js/sha3.js:17 | iota changes lane (0, 0) by the round constant and nothing else |
| KeccakBits.RegisterBit | js/sha3.js:15 | the feedback register of Algorithm 5 of FIPS 202 bit by bit |
| KeccakBits.ConstantBit | js/sha3.js:15 | the bits of the round constants: only the places 2^j - 1, each from the register |
| KeccakBits.RoundsInOrder | js/sha3.js:16-17 | the five step mappings in their order, for round after round |
| KeccakSponge.AbsorbInPlace | js/sha3.js:16 | byte-swapped words from any offset are XORed into the lanes of the rate; a rate of an odd number of words reads one word more |
| KeccakSponge.DoProcessBlock | js/sha3.js:16-17 | one block at any offset is absorbed and the state permuted in place, the step of the sponge for rates of whole lanes |
| KeccakSponge.FinalWordsPad | js/sha3.js:17-18 | on a clamped buffer the two `|=` of `_doFinalize` give the multi-rate padding of section 5.1 of FIPS 202, also when both meet in one octet, if and only if the padded message ends before 2^29 bytes |
| KeccakSponge.FinalWordsIff | js/sha3.js:17-18 | on any buffer they do so exactly when, below that limit, nothing lies past the block and no bit is set after the message that the padding does not set, and from the limit on, where the indices wrap, the buffer already held what they miss |
| KeccakSponge.MarksWrap | js/sha3.js:17-18 | a failing input: of 2^29 clamped bytes in one call the first and the tenth word are marked, and no block is added |
| KeccakSponge.PaddingInjective | js/sha3.js:17-18 | distinct messages have distinct padded inputs |
| KeccakSponge.PaddingsNeverMeet | js/sha3.js:17-18 | no padded message of the code is a padded message of SHA-3 by section 6.1 of FIPS 202, for the same message or any other, at any rate |
| KeccakSponge.EmptyPaddings | js/sha3.js:17-18 | an input: the empty message at the rate of 512-bit digests |
| KeccakSponge.ChunksReachSponge | js/sha3.js:12 | after any updates `finalize` gives the squeezed sponge of section 4 of FIPS 202 over the joined input for output lengths below 544, and the leading lanes of the state for longer ones, if the bytes still pending are below the limit of the closing indices |
| KeccakSponge.SqueezeWords | js/sha3.js:18 | the output loop gives the lanes least significant octet first |
| KeccakSponge.SqueezedIff | js/sha3.js:18 | the leading lanes of any state are what algorithm 8 of FIPS 202 squeezes exactly when they stay within the rate, or the capacity read in their place happens to hold what another permutation would give |
| KeccakSponge.RateExceeded | js/sha3.js:16-18 | of the output lengths that are multiples of 32 bits, 544 is the first whose output is longer than its rate |
| KeccakSponge.LanesAreSqueezed | js/sha3.js:15-18 | for every message the octets handed out are the squeezed sponge for all output lengths up to 512, and beyond exactly when the capacity coincides |
| KeccakSponge.LanesAreHash | js/sha3.js:18 | for whole lanes up to 512 bits the words handed out are the clamped words of the squeezed octets |
| KeccakOctets.AbsorbedBit | js/sha3.js:16 | every bit of the state after a block of the message has been added |
| KeccakOctets.AbsorbsInOrder | js/sha3.js:16-17 | one block is absorbed after another |
| KeccakOctets.LaneRead | js/sha3.js:16 | eight octets of a block make up a lane, the least significant first |
| KeccakOctets.LaneWritten | js/sha3.js:18 | a lane is written as it is read |
| KeccakOctets.LanesInOrder | js/sha3.js:18 | the words handed out are those of the lanes in their order |
| KeccakOctets.StepPermutes | js/sha3.js:16-17 | after each block the state is permuted |
| KeccakOctets.SpongeAbsorbs | js/sha3.js:15-17 | the sponge starts from zeros and absorbs every block of the padded message |
| KeccakOctets.PaddedOctets | js/sha3.js:17-18 | the padding in octets: 0x01, zeros and 0x80, or 0x81 alone, the fewest that fill the block |
| KeccakOctets.RateBits | js/sha3.js:15-16 | rate and twice the output share the 1600 bits |
| KeccakSponge.Hash3Valid | js/sha3.js:15-18 | with its padding, permutation and fresh output words Keccak is a hash function that the hasher objects can be built on |
| KeccakSponge.Digest | js/sha3.js:12-19 | `CryptoJS.SHA3` gives the squeezed sponge for output lengths below 544, and the leading lanes of the state for longer ones, of any message that the caller's tests admit: clamped where it is pushed, and below the limit of the closing indices |
| KeccakSponge.OuterPadsIff | js/sha3.js:17-18 | of an output that ends within a lane, like the documented 224 bits, HMAC pushes a word that does not count, and pads its outer message as it should exactly when that word is zero or the marker |
| KeccakSponge.HmacIsHmacKeccak | js/sha3.js:15-19 | HMAC over the object with 512 bits of output is section 2 of RFC 2104 over the squeezed sponge |
| KeccakSponge.HmacDigest | js/sha3.js:13-19 | `CryptoJS.HmacSHA3` is section 2 of RFC 2104 over the 512-bit sponge, for every key and message that the caller's tests admit |
| Hashers.ClosingGivesDigest | js/rollups/pbkdf2.js:11-12 | closing the state after any bytes, with the words that `_doFinalize` writes, gives the digest of all of them if the bytes pending stay below the limit of its indices |
| Hashers.PendingBelowBlock | js/rollups/pbkdf2.js:12 | after any updates less than a block is pending, so that closing without further bytes is below the limit |
| Hashers.ClosedChunks | js/rollups/pbkdf2.js:11-12 | so it is however the bytes came in chunks |
| Hashers.Hasher.Reset | js/rollups/pbkdf2.js:12 | reset starts a new message in new arrays and leaves the array handed out before alone |
| Hashers.Hasher.Update | js/rollups/pbkdf2.js:12 | the bytes of any array, whatever its tail, join those fed since the last reset |
| Hashers.Hasher.Finalize | js/rollups/pbkdf2.js:12-15 | the result holds the digest of everything fed if the buffer is clamped once the last bytes are in and holds fewer bytes than the limit of the closing indices, and in any case that of the closing words as written; it is the array in which the hasher keeps its state, or a new one |
| Hashers.HashOf | js/rollups/pbkdf2.js:12 | the helper function of a hasher hashes one message with a new object, if it is clamped where it is pushed and below the limit |
| LengthPaddings.FinalWordsPad | js/rollups/pbkdf2.js:15 | on a clamped buffer the assignments of `_doFinalize` give the padding of sections 5.1.1 and 5.1.2 of FIPS 180-4, for SHA-1 and SHA-512 alike, if and only if it holds fewer than 2^29 - 8 or 2^29 - 16 bytes, where `>>> 9` and `>>> 10` wrap |
| LengthPaddings.PaddedOctets | js/rollups/pbkdf2.js:15 | the padding in octets: 0x80, the fewest zeros that leave the end of a block, and the number of bits there, sections 5.1.1 and 5.1.2 of FIPS 180-4 |
| LengthPaddings.FinalWordsIff | js/rollups/pbkdf2.js:15 | on any buffer they do so exactly when, below that limit, nothing lies past the block and the bytes between message and length are zero but for the marker, and from the limit on the buffer already held the padding |
| LengthPaddings.MarkerWraps | js/rollups/pbkdf2.js:15 | a failing input: 2^29 clamped bytes in one call get no further block, the marker goes into the first word and the length into words 14 and 15 |
| LengthPaddings.PaddingInjective | js/rollups/pbkdf2.js:15 | distinct messages have distinct padded inputs |
| LengthPaddings.DroppedWordsMatter | js/rollups/hmac-sha384.js:24-27 | a digest of which some words do not count, as in SHA-384 and SHA-224, pads the outer message of HMAC rightly exactly when those words are zero or the first of them is the marker |
| Sha1s.BlockExact | js/rollups/pbkdf2.js:14-15 | every sum of every block of SHA-1 is exact, and the state is in range again |
| Sha1s.PassIsRound | js/rollups/pbkdf2.js:14-15 | a pass on numbers, with `|` where the standard has exclusive-or, is the round of section 6.1.2 of FIPS 180-4 |
| Sha1s.BlockIsCompress | js/rollups/pbkdf2.js:14-15 | the block function is the compression of section 6.1.2 of FIPS 180-4 |
| Sha1s.Compressor.DoProcessBlock | js/rollups/pbkdf2.js:14-15 | the 80-step loop rewrites the shared schedule and the hash words in place to the block function's value, and no sum it makes is rounded |
| Sha1s.RunIsFold | js/rollups/pbkdf2.js:11-15 | at every block of any message the state stands for the fold of the compression and the next sums are exact |
| Sha1s.Hash1Sound | js/rollups/pbkdf2.js:14-15 | SHA-1 is a hash function that the hasher, HMAC and PBKDF2 objects can be built on, with live results |
| Sha1s.Hash1Digest | js/rollups/pbkdf2.js:11-15 | its digest of the padded message is that of section 6.1 of FIPS 180-4 for messages of any length, since no block rounds a sum |
| Sha1Machine.InitialPattern | js/rollups/pbkdf2.js:14 | the initial words of section 5.3.1 of FIPS 180-4 run through the octets 01 23 45 .. 32 10 and F0 E1 D2 C3 |
| Sha1Machine.RoundIs | js/rollups/pbkdf2.js:14-15 | a round on numbers is the round on 32-bit machine words with `+`, `&`, `|`, `^`, `~` and shifts |
| Sha1Machine.DigestIs | js/rollups/pbkdf2.js:11-15 | the digest of every message is that of SHA-1 computed on machine words throughout |
| Sha1Machine.AbcDigest | js/rollups/pbkdf2.js:12-15 | the digest of the octets of "abc" is a9993e36 4706816a ba3e2571 7850c26c 9cd0d89d |
| Sha1s.HmacIsHmacSha1 | js/rollups/pbkdf2.js:14-17 | HMAC over it is section 2 of RFC 2104 over the FIPS 180-4 digest, for every key and text |
| Sha1s.Digest | js/rollups/pbkdf2.js:12-15 | `CryptoJS.SHA1` gives the FIPS 180-4 digest of any message clamped where it is pushed and below the limit of the closing indices |
| Sha1s.HmacDigest | js/rollups/pbkdf2.js:13-17 | `CryptoJS.HmacSHA1` gives HMAC-SHA-1 of every key and message that pass these tests |
| Hmacs.PadKey | js/rollups/pbkdf2.js:16-17 | the key loop fills up a block with zeros and XORs every byte with the pad byte |
| Hmacs.ShortenKey | js/rollups/pbkdf2.js:16 | a key longer than a block is replaced by its digest, in the array that the hasher gives out, if the caller's tests of it succeed; a shorter key is the caller's own array, clamped |
| Hmacs.HMAC.constructor | js/rollups/pbkdf2.js:16-17 | the object keeps the inner and outer padded keys of section 2 of RFC 2104, for every key not longer than a block and every longer one that the caller's tests admit, and is ready for a message |
| Hmacs.HMAC.Update | js/rollups/pbkdf2.js:16 | the bytes of any array, whatever its tail, join those fed since the last reset |
| Hmacs.HMAC.Finalize | js/rollups/pbkdf2.js:16-17 | after a reset and any updates the result is the hash of the outer padded key with all words of the inner digest pushed behind it, which is HMAC of the joined message when the digest is of full width; the buffer must be clamped and below the limit once the last bytes are in; the result is the hasher's live array, or a new one |
| Hmacs.PushedIsHmac | js/rollups/pbkdf2.js:16-17 | when every word of the digest counts, what the code hashes is HMAC by section 2 of RFC 2104 |
| HmacOctets.HmacIs | js/rollups/pbkdf2.js:16-17 | section 2 of RFC 2104 octet by octet for any digest: the inner text begins with the key and 0x36, the outer one with the key and 0x5C, and a key longer than a block is hashed first |
| Hmacs.HMAC.Reset | js/rollups/pbkdf2.js:16 | the hasher starts again with the inner padded key, in new arrays |
| Hmacs.HmacOf | js/rollups/pbkdf2.js:13-17 | the helper function computes one code with a new object, for every hash function whose digest fits a block: that of RFC 2104 when the digest is of full width, and otherwise over all its words |
| Pbkdf2s.Mac | js/rollups/pbkdf2.js:18 | after `finalize` and `reset` the result is an array that the object no longer uses |
| Pbkdf2s.XorInto | js/rollups/pbkdf2.js:18 | the innermost loop XORs one array into another in place |
| Pbkdf2s.Iterate | js/rollups/pbkdf2.js:18 | the loop over iterations folds the iterates into the first one in place, with no write reaching an array still in use |
| Pbkdf2s.Compute | js/rollups/pbkdf2.js:18-19 | the derived key of section 5.2 of RFC 8018 for every iteration count, key size and salt, whatever the salt's tail, and every password that need not be hashed or that the caller's test admits; the loop ends |
| Pbkdf2s.ShorterIsPrefix | js/rollups/pbkdf2.js:18-19 | a key is a prefix of every longer key from the same inputs |
| Pbkdf2Sha1s.DerivedIs | js/rollups/pbkdf2.js:14-19 | over the SHA-1 object the derived key is PBKDF2-HMAC-SHA-1, section 5.2 of RFC 8018 over section 2 of RFC 2104 over section 6.1 of FIPS 180-4, for every password, salt, iteration count and key size |
| HmacOctets.FirstIterate | js/rollups/pbkdf2.js:18 | the first iterate is HMAC-SHA-1 of the salt and the four octets of the block index, the most significant first |
| HmacOctets.NextIterate | js/rollups/pbkdf2.js:18 | each further iterate is HMAC-SHA-1 of the octets of the one before |
| HmacOctets.BlockWord | js/rollups/pbkdf2.js:18 | every word of a block is the exclusive-or of the words of its iterates |
| HmacOctets.KeyOctet | js/rollups/pbkdf2.js:18-19 | octet i of the derived key comes from the block with index i / 20 + 1 |
| Pbkdf2Sha1s.Pbkdf2 | js/rollups/pbkdf2.js:19 | `CryptoJS.PBKDF2` with its default hasher gives that key, for every salt, whatever its tail, and every password of at most a block or that the caller's tests admit |
| CivilDates.DaysInMonthRight | js/jquery-ui.js:9482-9484 | 32 minus the day on which the 32nd of a month falls is the length of the month, for any year and month number |
| CivilDates.DaysInjective | js/jquery-ui.js:8645-8656 | different dates are different days, so that date differences determine dates |
| CivilDates.DayNumber | js/jquery-ui.js:8645-8656 | the number of days from 1 January 1970 to any date, by the formulas of sections 21.4.1.3 and 21.4.1.4 of ECMA-262 |
| CivilDates.WeekdayFrom1970 | js/jquery-ui.js:8645-8656 | 1 January 1970 was a Thursday, and day n after or before it has weekday (4 + n) mod 7 |
| CivilDates.Iso8601Week | js/jquery-ui.js:8645-8656 | the mutated date gives the week number of the week's Thursday in its year |
| CivilDates.WeekConstant | js/jquery-ui.js:8645-8656 | the number is the same from Monday to Sunday |
| CivilDates.NumberedByThursdays | js/jquery-ui.js:8645-8656 | week n lies n - 1 weeks after the week of the year's first Thursday, section 2.2.10 of ISO 8601:2004 |
| CivilDates.FirstThursdayOf | js/jquery-ui.js:8645-8656 | every year has a first Thursday in its first seven days |
| CivilDates.DayOfYearLoop | js/jquery-ui.js:8814-8825 | the loop of `parseDate` ends with the month and day it splits the number into |
| CivilDates.DayOfYearInverts | js/jquery-ui.js:8814-8830 | the loop and the closing test accept exactly the days the year has, and give the date with that day of the year |
| CivilDates.PrintedDayOfYear | js/jquery-ui.js:8930-8933 | the printed day of the year is the date's, and the loop turns it back into the date |
| CivilDates.ConfirmedIsValid | js/jquery-ui.js:8827-8830 | the closing test accepts exactly the dates of the calendar |
| DateFormats.FormatNumber | js/jquery-ui.js:8898-8906 | leading zeros fill a doubled field up to its width |
| DateFormats.FormatField | js/jquery-ui.js:8908-8950 | what every letter prints: the long name when doubled and the short one when not, decimal numerals of the day, the month, the day of the year and the year, of fixed width when doubled, and two digits of the year, after "0-" when it lies before 1900 |
| DateFormats.FormatDate | js/jquery-ui.js:8879-8964 | the cursor loop prints the tokens of the format, quotes and doubled letters included |
| DateTokens.FieldSyntax | js/jquery-ui.js:8879-8964 | a field letter stands for a field, twice for one doubled field, and timestamps are doubled for the parser alone |
| DateTokens.PlainSyntax | js/jquery-ui.js:8879-8964 | every other character stands for itself, and two quotes for one |
| DateTokens.QuotedSyntax | js/jquery-ui.js:8879-8964 | a quoted text of any characters stands for them, with its quotes doubled |
| DateFormats.DecimalRead | js/jquery-ui.js:8705-8716 | the digits of a printed number read back as the number |
| DateParsing.ParseDate | js/jquery-ui.js:8671-8832 | the cursor loop runs the tokens of the format over the value and stops with the first exception |
| DateTokens.NumberTaken | js/jquery-ui.js:8705-8716 | a number is the longest run of digits up to the size of its field, and an exception tells where there is none |
| DateTokens.FieldSizes | js/jquery-ui.js:8705-8716 | the sizes 14, 20, 4, 3 and 2, and which field each letter sets |
| DateTokens.NameTaken | js/jquery-ui.js:8718-8739 | a name is a longest one that stands there, whatever the case, and an exception tells where none does |
| DateTokens.FieldNames | js/jquery-ui.js:8718-8739 | a letter takes a name of its short list, doubled of its long one |
| DateTokens.CenturyOf | js/jquery-ui.js:8807-8812 | a year below 100 keeps its two digits and lies in this century exactly when it does not exceed the cutoff |
| DateTokens.DateOf | js/jquery-ui.js:8826-8827 | what `new Date` makes of a year, a month number and a day number, the years 0 to 99 included |
| DateParsing.FinishAccepts | js/jquery-ui.js:8800-8831 | the end of `parseDate` gives a date exactly when the value is used up or goes on with a space and the fields, or the day of the year, name a calendar date, and then that date |
| DateParsing.ParseAccepts | js/jquery-ui.js:8671-8832 | `parseDate` gives a date exactly when the tokens take the value up to its end and the fields they set name that date |
| DateRoundTrip.NumberReads | js/jquery-ui.js:8705-8716 | a printed number followed by no digit, or of full width, is read back whole |
| DateRoundTrip.NameReads | js/jquery-ui.js:8718-8739 | the longest-first search finds a name, in whatever case it is written, when no other name of the list begins alike |
| DateRoundTrip.SortDoesNotMatter | js/jquery-ui.js:8718-8739 | however the sort arranges names of equal length, the same name is found, when no two names of the list are equal up to case |
| DateRoundTrip.StepReads | js/jquery-ui.js:8757-8797 | each readable token with no digit running into it takes exactly the text it printed and sets its field |
| DateRoundTrip.StepReadsIff | js/jquery-ui.js:8757-8797 | a readable token takes exactly the text it printed if and only if its number has all the digits the parser may read or no digit follows |
| DateRoundTrip.StepMisreads | js/jquery-ui.js:8705-8716 | a narrower number followed by a digit is read as a larger one |
| DateRoundTrip.SameTokensIff | js/jquery-ui.js:8690-8716 | printer and parser read a format as the same tokens exactly when the parser finds no doubled timestamp in it |
| DateRoundTrip.TwoStamps | js/jquery-ui.js:8690-8716 | a failing input: `@@` prints two timestamps and is read as one |
| DateRoundTrip.RoundTrip | js/jquery-ui.js:8671-8832 | parsing the printed text gives the date for every four-digit year and every format that fixes the date, when no printed number runs into a digit after it |
| DateRoundTrip.RoundTripIff | js/jquery-ui.js:8671-8832 | for formats that set no field twice this holds if and only if no printed number runs into a digit after it |
| DateRoundTrip.SafeRoundTrip | js/jquery-ui.js:8671-8832 | a test of the format alone that makes the round trip hold for every date |
| DateRoundTrip.UnseparatedDelimits | js/jquery-ui.js:8898-8906 | for the format `dm yy` the exact condition on a date is a day of two digits |
| DateRoundTrip.UnseparatedIsAmbiguous | js/jquery-ui.js:8898-8906 | a failing input: with `dm yy` 1 November 2013 prints as 11 January 2013 does and is read as that, while 11 November 2013 reads back |
| TableComparators.WriteComparator | js/jquery.tablesorter.js:586-622 | the writing loops nest one test for each key around the comparison of positions |
| TableComparators.TextLessIff | js/jquery.tablesorter.js:636-641 | one text is below another exactly when it is a proper prefix of it or has the smaller character at the first place where they differ |
| TableComparators.KeyMeans | js/jquery.tablesorter.js:636-648 | each generated expression is zero for equal cells and otherwise the sign of the column's order, nulls last both ways |
| TableComparators.BeforeIff | js/jquery.tablesorter.js:580-622 | a row comes before another exactly when the first key in whose column they differ puts it there, or there is none and it stood before the other in the document |
| TableComparators.ComparatorMeans | js/jquery.tablesorter.js:580-648 | for every sort list the generated comparator is the lexicographic order with ties by position |
| TableComparators.BeforeTotal | js/jquery.tablesorter.js:580-648 | of two rows at different positions exactly one comes first |
| TableComparators.BeforeTransitive | js/jquery.tablesorter.js:580-648 | the order is transitive on typed columns |
| TableSorts.BuildCache | js/jquery.tablesorter.js:248-292 | rows are grouped with the child rows after them, in document order, each with its cells and position; it throws exactly when the first row is a child row |
| TableSorts.Multisort | js/jquery.tablesorter.js:580-634 | the sorted cache is the only rearrangement in which no row compares less than an earlier one; it throws exactly on an empty cache |
| TableSorts.SortIsUnique | js/jquery.tablesorter.js:629 | a rearrangement is in order exactly when it is the one result |
| TableSorts.EarlierSortsDoNotMatter | js/jquery.tablesorter.js:629 | the result does not depend on the order left by earlier sorts |
| TableSorts.Table.AppendToTable | js/jquery.tablesorter.js:322-352 | the nodes of the groups are moved to the end in sorted order; it throws exactly on an empty cache, with nothing moved |
| TableSorts.SortedTable | js/jquery.tablesorter.js:322-352 | whatever earlier sorts left, the table ends as the sorted groups, each row followed by its child rows, every row exactly once |

## Left out

- Inheritance and virtual dispatch: prototypes and `extend` are not modelled; the overridden block function is a function-valued field.
- Aliasing of inner arrays: a `words` array is a value of its `WordArray`, so two objects sharing one array are not modelled; sharing of `WordArray` objects themselves is.
- Byte counts of 2^32 and more: `>>> 2` on byte counts and `| 0` on block counts are exact division, and counts that reach their wrap-around, like message lengths of 2^50 bytes, whose number of bits is no exact number, are not modelled.
- AesObject.AES.constructor: keys of a byte count that is no multiple of 4 are not modelled; the code would make fractional round counts of them.
- RabbitCipher.RabbitLegacy.constructor: keys of fewer than 4 words are not modelled; the code would compute with `undefined`.
- Sha512Hasher.Compressor.DoProcessBlock: stated for the first 2^21 - 4 blocks of a message; whether a message drives the untruncated sums out of the exact range after that, as `RangeEnds` shows a state may, is open.
- Sha512Hasher.ChunksReachDigest: stated for messages of at most 2^21 - 4 padded blocks, for the same reason.
- KeccakSponge.Hash3Valid: output lengths that are no multiple of 32 bits or exceed 768 are not modelled; they make fractional block sizes, rates of half a lane, whose blocks overlap, or no rate. The documented lengths are 224, 256, 384 and 512.
- KeccakSponge.Digest: the same output lengths are left out.
- SHA-224 and SHA-384 themselves: they are SHA-256 and SHA-512 with other initial words; of HMAC over them only the padding of the outer message is modelled.
- Pbkdf2s.Compute: stated for digests of full width; others feed the words that do not count into every next iterate. The block index is a number stored into its word, so past 2^32 blocks it wraps as the word does.
- DateParsing.ParseDate: the sort by length is the one that keeps the order of names of equal length; `SortDoesNotMatter` shows that any other reads the same unless two names are equal up to case.
- Utf8, Latin1 and Hex text forms, random words, key derivation from passwords with `EvpKDF`, and the password-based cipher.
- Other rollups (MD5, SHA-256, RIPEMD-160, TripleDES, RC4 and the current Rabbit) and cipher modes other than CBC.
- Daylight saving and times of day: dates are civil days, and `Math.round` of an exact number of days is that number.
- DateRoundTrip.RoundTripIff: formats that set a field twice, or have a day of the year beside a day or a month, are one way only (`RoundTrip`), since a later field may put right one that was misread.
- DateRoundTrip.RoundTrip: formats with `y`, `@` or `!` are left out of the round trip, since they depend on the current year or on timestamps; the texts and dates of `@` and `!` are parameters of the printer and the parser.
- Characters are Unicode scalar values and `toLowerCase` works character by character; JavaScript's code units and length-changing lower-casing are not modelled.
- Values other than strings given to `parseDate`, and missing formats.
- Columns with NaN or infinite numbers, cells whose type is not their column's, and JavaScript's coercions between them.
- The floating-point rounding of differences of cell values, of which only the sign is used.
- `Array.prototype.sort` itself: it is any function that puts rows into an order in which no row compares less than an earlier one; an insertion sort stands for it, and all such results are shown equal.
- The `appender` function, parsers, text extraction, headers and widgets of tablesorter, and everything else that is DOM.
- Other JavaScript and Java files of the repository: interface code over libraries, pass-throughs and empty classes.
