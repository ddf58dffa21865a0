# Deoxys-II-256-128 in Dafny

This project models deoxysii.js, a JavaScript implementation of the
Deoxys-II-256-128 authenticated encryption mode and of the Deoxys-BC-384
tweakable block cipher it is built on (section 2 of the Deoxys v1.41 CAESAR
submission). The model is imperative wherever the source is: the byte
buffers are Dafny arrays, updated in loops, and each method is proved
against a pure specification function. The properties of the scheme are then
proved about those functions.

Modules, in dependency order:

- `Bytes` (bytes.dfy): byte strings, XOR, and `xorBytes` on subarray views.
  A view is an array together with an offset.
- `Tweakey` (tweakey.dfy): the TWEAKEY schedule.
  - The permutation `h`, `lfsr2`, `lfsr3` and `xorRC`.
  - The per-key K contributions, `stkDeriveK`.
  - The per-tweak sub-tweak keys, `deriveSubTweakKeys`.
  - The source's arrays of 17 `Uint8Array` rows are one 272-byte array here.
    Row i starts at byte 16 * i.
- `Cipher` (cipher.dfy): Deoxys-BC-384 as whitening plus 16 rounds, and the
  four backend operations `bcEncrypt`, `bcKeystreamx2`, `bcTagx1` and
  `bcTagx2`.
  - The keyless AES round (SubBytes, ShiftRows, MixColumns of FIPS 197
    section 5.1) comes from the bsaes library. It is the parameter
    `aes: Block -> Block`.
  - AddRoundKey is modelled.
- `Aead` (aead.dfy): the mode on values.
  - The tweak encoders.
  - The items an input is split into.
  - The accumulator (`Fold`) and its order-free reference (`Sum`).
  - `Tag`, the keystream, `Crypt`, `Seal` and `Open`.
  - The round trip, the lemma that only sealed ciphertexts open
    (`OpenOnlySealed`), and the coverage and domain-separation lemmas.
- `Pipeline` (pipeline.dfy): `encodeTagTweak`, `encodeEncTweak`, and the
  loops of `e` and `d` on arrays.
  - `AuthData` holds the three authentication loops.
  - `CryptData` holds the three keystream loops.
  - Each loop body is a separate method.
- `Construction` (construction.dfy): `e` and `d` themselves.
- `Api` (api.dfy): the `AEAD` class, with its constructor, `encrypt` and
  `decrypt`, their argument checks and the errors they throw.
  - JavaScript `null` is `Option.None`.
  - A thrown error string is `Result.Failure` over the datatype `Error`.
  - The constructor's key-size check is the method `NewAEAD`, because a
    Dafny constructor cannot fail.

Where the source and the prose description of the system disagree, the model
follows the code:

- `decrypt` of a ciphertext shorter than 16 bytes throws `ErrOpen`, as
  deoxysii.js:684-686 does. There is no separate error for a short
  ciphertext.
- The 32-bit block counter is written with `DataView.setUint32`, which
  converts with ToUint32. The model therefore writes the counter modulo 2^32
  (`BE32`), rather than bounding input lengths.
- The constructor overwrites the caller's key in place with the final TK3
  and TK2 (deoxysii.js:123-124, 130-133, 649); the constructor and `NewAEAD`
  state that overwrite rather than leaving the key unchanged.
- The counter distinctness of the items (`AuthTweaksDistinct`) is proved for
  inputs shorter than 2^32 blocks.

## Model

| member | source | states |
|---|---|---|
| Bytes.XorCancel | deoxysii.js:51-55 | XOR-ing the same string twice gives back the original |
| Bytes.XorAssoc | deoxysii.js:51-55 | XOR of byte strings is associative |
| Bytes.XorComm | deoxysii.js:51-55 | XOR of byte strings is commutative |
| Bytes.XorZero | deoxysii.js:51-55 | zeros are the unit of XOR |
| Bytes.XorBytes | deoxysii.js:51-55 | on views: exactly bytes dOff..dOff+n of dst change, to the XOR of the two source ranges as they were before the call; dst may be the same view as a source |
| Tweakey.HPowStep | deoxysii.js:150-153 | h^(i+1)(t) is h applied once more to h^i(t) |
| Tweakey.HPermInverse | deoxysii.js:70-75 | the table of h has an inverse permutation, both ways round |
| Tweakey.HOrderEight | deoxysii.js:70-75 | h^8 is the identity |
| Tweakey.Lfsr2Truncates | deoxysii.js:84-86 | storing the 9-bit result of lfsr2 into a Uint8Array keeps the 8-bit left shift with feedback bit x7 ^ x5 in bit 0 |
| Tweakey.Lfsr3InvertsLfsr2 | deoxysii.js:80-101 | lfsr3 and lfsr2 are inverse on every byte |
| Tweakey.XorRCLayout | deoxysii.js:107-116 | xorRC XORs bytes 0..3 with 1, 2, 4, 8 and bytes 4..7 with rcons[i], and leaves bytes 8..15 alone |
| Tweakey.DeriveK | deoxysii.js:122-138 | 17 K contributions, and K[0] = key[16..32] ^ key[0..16] ^ RC(0) |
| Tweakey.DeriveKRow | deoxysii.js:129-137 | K[r] is TK2 and TK3 advanced r times by h∘lfsr2 and h∘lfsr3, XOR-ed, XOR RC(r) |
| Tweakey.KRowStep | deoxysii.js:129-137 | for i = 1..16: K[i] ^ RC(i) = h(lfsr2(TK2 of round i-1)) ^ h(lfsr3(TK3 of round i-1)) |
| Tweakey.StkRow | deoxysii.js:145-154 | STK[r] = K[r] ^ h^r(T) |
| Tweakey.StkSchedule | deoxysii.js:145-154 | STK[0] = K[0] ^ T, and STK[i] ^ K[i] = h(STK[i-1] ^ K[i-1]) for i = 1..16 |
| Tweakey.StkInjective | deoxysii.js:145-154 | different tweaks give different sub-tweak-key schedules under the same key |
| Tweakey.H | deoxysii.js:70-75 | h permutes the 16 bytes of the view in place by the fixed table and changes nothing else |
| Tweakey.Lfsr2InPlace | deoxysii.js:80-88 | each byte of the view becomes lfsr2 of itself; nothing else changes |
| Tweakey.Lfsr3InPlace | deoxysii.js:93-101 | each byte of the view becomes lfsr3 of itself; nothing else changes |
| Tweakey.XorRCInPlace | deoxysii.js:107-116 | the view is XOR-ed with the round constant of round i; nothing else changes |
| Tweakey.NewStks | deoxysii.js:156-162 | a fresh table of 17 zeroed 16-byte rows |
| Tweakey.StkDeriveK | deoxysii.js:122-138 | the table holds DeriveK of the original key; the key buffer is left holding TK3 and TK2 after 16 rounds, because the subarray views at lines 123-124 alias it |
| Tweakey.WriteKRow | deoxysii.js:135-136 | row i becomes K[i] and no other byte of the table changes |
| Tweakey.AdvanceTks | deoxysii.js:130-133 | the two key halves step from round i-1 to round i of TK2 and TK3 |
| Tweakey.XorStkRow | deoxysii.js:152 | row i of stks becomes K[i] ^ tk1; no other row changes |
| Tweakey.DeriveSubTweakKeys | deoxysii.js:145-154 | the table holds Stk(K, tweak); the caller's tweak is not modified |
| Cipher.StateInjective | deoxysii.js:180-191 | if the AES round is injective, then the whitening and any number of rounds are injective in the block |
| Cipher.PermuteInjective | deoxysii.js:175-194 | if the AES round is injective, BC under a fixed key and tweak is injective |
| Cipher.AesRoundInPlace | deoxysii.js:185-187 | the state becomes the AES round of itself |
| Cipher.AddRoundKey | deoxysii.js:189-190 | the state is XOR-ed with row i of the sub-tweak keys |
| Cipher.EncryptState | deoxysii.js:179-193 | the state becomes BC under the given sub-tweak keys: whitening with STK[0], then 16 rounds |
| Cipher.PermuteState | deoxysii.js:175-194 | the state becomes Deoxys-BC of itself under K and the tweak |
| Cipher.BcEncrypt | deoxysii.js:317-343 | the 16-byte output view becomes BC(K, tweak, input), computed from the input as it was; output and input may be the same buffer; nothing else changes |
| Cipher.BcKeystreamX2 | deoxysii.js:350-353 | the 32-byte output is BC(t0, nonce) followed by BC(t1, nonce) |
| Cipher.BcTagX1 | deoxysii.js:360-364 | acc ^= BC(t, b) |
| Cipher.BcTagX2 | deoxysii.js:371-377 | acc ^= BC(t0, b0) ^ BC(t1, b1) |
| Aead.BE32RoundTrip | deoxysii.js:391 | the four bytes setUint32 writes, read back big-endian, give the counter modulo 2^32 |
| Aead.BE32Injective | deoxysii.js:391 | two counters have the same encoding exactly when they agree modulo 2^32 |
| Aead.TagTweakLayout | deoxysii.js:389-393 | the tweak is prefix << 4, then eleven zero bytes, then the big-endian counter |
| Aead.EncTweakLayout | deoxysii.js:400-408 | the tweak is tag[0] OR 0x80, then tag[1..12], then tag[12..16] ^ big-endian(n), so XOR-ing the tag back out recovers the counter |
| Aead.TagTweakInjective | deoxysii.js:389-393 | for prefixes below 16, two tag tweaks are equal exactly when the prefixes are equal and the counters agree modulo 2^32 |
| Aead.TweaksSeparated | deoxysii.js:389-408 | encryption tweaks have bit 7 of byte 0 set and the authentication and tag tweaks do not, so no encryption or authentication tweak equals a tag tweak (that block and final tweaks differ is `TagTweakInjective`) |
| Aead.PadLayout | deoxysii.js:449-451 | the padded tail is the tail, then 0x80, then zeros up to 16 bytes |
| Aead.PadInjective | deoxysii.js:449-451 | different tails pad to different blocks |
| Aead.AuthItemsCover | deoxysii.js:433-454 | there are ceil(len/16) items; byte p of the input sits at position p % 16 of item p / 16, whose tweak has counter p / 16 and the block prefix for a full block or the final prefix for the tail |
| Aead.AuthItemsEmpty | deoxysii.js:446 | an empty input contributes no item |
| Aead.AuthTweaksDistinct | deoxysii.js:430-479 | for inputs shorter than 2^32 blocks, no two authenticated items of the AD and the message share a tweak |
| Aead.FoldAppend | deoxysii.js:456-479 | folding the message after the AD continues from the AD's accumulator |
| Aead.FoldIsSum | deoxysii.js:360-377 | the accumulator is its start value XOR the XOR-sum of BC over the items |
| Aead.SumAppend | deoxysii.js:360-377 | the XOR-sum over two item lists is the XOR of their sums |
| Aead.FoldSwap | deoxysii.js:433-445 | swapping the two halves of an item list leaves the accumulator unchanged |
| Aead.KeystreamAt | deoxysii.js:488-512 | byte m of keystream block j is at position 16 * j + m of the keystream |
| Aead.CryptAt | deoxysii.js:496-511 | byte 16 * j + m of the output is that input byte XOR byte m of BC(encTweak(tag, j), 0 ‖ nonce); a partial last block uses only its own bytes |
| Aead.CryptInvolutive | deoxysii.js:488-559 | decryption under the same tag undoes encryption |
| Aead.SealLayout | deoxysii.js:669-672 | the output is the plaintext length plus 16 bytes: the ciphertext first, the tag in the last 16 bytes |
| Aead.OpenSeal | test/test.js:44-55 | opening a sealed message with the same nonce and AD gives back the plaintext |
| Aead.OpenOnlySealed | deoxysii.js:526-629 | opening succeeds with msg exactly when the ciphertext is the sealing of msg |
| Aead.OpenShort | deoxysii.js:684-686 | a ciphertext shorter than 16 bytes fails with ErrOpen |
| Pipeline.EncodeTagTweakInto | deoxysii.js:389-393 | the output buffer holds the tag tweak of the prefix and counter |
| Pipeline.EncodeEncTweakInto | deoxysii.js:400-408 | the output buffer holds the encryption tweak of the tag view and counter |
| Pipeline.CopyMarkedTag | deoxysii.js:404-405 | out is the tag with bit 7 of byte 0 set |
| Pipeline.FoldFullStep | deoxysii.js:440-445 | folding one more full block XORs BC of that block, under the block prefix and its index, into the accumulator |
| Pipeline.FoldAuthItems | deoxysii.js:446-454 | the items are the full blocks, then the padded tail under the final prefix and counter floor(len/16) if the length is not a multiple of 16 |
| Pipeline.FoldFullItems | deoxysii.js:433-445 | the fold over the first n full blocks equals block-by-block accumulation |
| Pipeline.AuthPair | deoxysii.js:433-439 | one pass of the pair loop: the tweak buffers hold the tweaks of blocks i and i+1, and both blocks are XOR-ed into the accumulator |
| Pipeline.AuthSingle | deoxysii.js:440-445 | one pass of the single loop: block i is XOR-ed into the accumulator |
| Pipeline.AuthTail | deoxysii.js:446-454 | the last r bytes, padded, are XOR-ed in under the final prefix and counter i |
| Pipeline.AuthFullBlocks | deoxysii.js:433-445 | after the two loops fewer than 16 bytes remain, and every full block has been folded in order |
| Pipeline.AuthData | deoxysii.js:430-454 | the accumulator becomes the fold of all items of the input |
| Pipeline.XorKeystream | deoxysii.js:496 | len more bytes of dst are the source XOR keystream; the rest of dst is untouched |
| Pipeline.KeystreamPair | deoxysii.js:492-495 | the 32-byte block buffer holds keystream blocks j and j+1 |
| Pipeline.KeystreamOne | deoxysii.js:501-502 | the first 16 bytes of the block buffer hold keystream block j |
| Pipeline.CryptPair | deoxysii.js:491-499 | one pass of the pair loop: 32 more bytes of dst are correct |
| Pipeline.CryptBlock | deoxysii.js:500-512 | one single-block pass or the tail: len more bytes of dst are correct |
| Pipeline.CryptData | deoxysii.js:487-512 | dst[0..n] becomes Crypt of src[0..n] under the tag; its other bytes are untouched |
| Construction.Authenticate | deoxysii.js:430-479 | a fresh 16-byte accumulator, the AD folded into it and then the message |
| Construction.NonceBlock | deoxysii.js:482-483 | a fresh block: a zero byte, then the nonce |
| Construction.FinalizeTag | deoxysii.js:482-485 | byte 0 of the nonce block becomes the tag prefix, and the accumulator is encrypted in place under that tweak |
| Construction.ComputeTag | deoxysii.js:430-485 | a fresh buffer holding Tag(nonce, ad, msg) |
| Construction.E | deoxysii.js:426-516 | dst holds Seal(nonce, ad, msg) |
| Construction.EncryptAppend | deoxysii.js:487-515 | dst holds the message encrypted under the tag, followed by the tag |
| Construction.CopyTag | deoxysii.js:515 | the tag is copied into the last 16 bytes and the bytes before are kept |
| Construction.TagsEqual | deoxysii.js:622-628 | true exactly when all 16 bytes are equal, computed by AND-ing every byte comparison with no early exit |
| Construction.D | deoxysii.js:526-629 | dst holds the ciphertext decrypted under the received tag, and the result is true exactly when the tag recomputed over that plaintext equals the received tag |
| Api.OrEmpty | deoxysii.js:662-667 | null becomes a fresh empty buffer; a given buffer is used as it is |
| Api.Wipe | deoxysii.js:694 | every byte of the buffer becomes zero |
| Api.AEAD.constructor | deoxysii.js:641-650 | for a 32-byte key: the K table is DeriveK of the key, the backend is as chosen, and the caller's key buffer is overwritten with TK3 and TK2 |
| Api.NewAEAD | deoxysii.js:641-650 | ErrKeySize, with the key untouched, unless the key is 32 bytes; otherwise a fresh AEAD as the constructor describes, with the key overwritten by the final TK3 and TK2 as the constructor does |
| Api.AEAD.Encrypt | deoxysii.js:657-673 | ErrNonceSize unless the nonce is 15 bytes; otherwise a fresh buffer holding Seal of the plaintext and AD, with null meaning empty |
| Api.AEAD.Decrypt | deoxysii.js:680-699 | ErrNonceSize unless the nonce is 15 bytes; otherwise success or failure as Open says: a fresh buffer with the plaintext, or ErrOpen for a short or forged ciphertext |

## Left out

- The AES round (bsaes `subBytes`, `shiftRows`, `mixColumns`, and
  `unsafe.aesencVartime`) is foreign code. It is the parameter `aes`. The
  injectivity lemmas assume only that it is injective.
- The bit-sliced word layout of the constant-time backend is not modelled:
  `load4xU32`/`load8xU32`, `ortho`, `rkeyOrtho`, `store*`, and its fused
  two-block functions (deoxysii.js:196-306). Both backends compute with the
  one functional cipher. `Api.AEAD.impl` records the choice, and no
  operation depends on it.
- That the two backends agree bit for bit is left out. It could only be
  stated as an assumption about the foreign library.
- Constant-time and side-channel behaviour are not expressible here. This
  includes the timing-safe comparison comment at deoxysii.js:618.
  `TagsEqual` models only that the loop runs over all bytes with no early
  exit.
- Api.AEAD.Decrypt: the output is zeroed on failure. `Wipe` does this before
  `ErrOpen` is returned, but Decrypt's contract cannot mention it, because
  the buffer is local and is never returned.
- The check `auth.length != tag.length` (deoxysii.js:619-621) can never
  fire, since both are 16 bytes. `TagsEqual` requires both lengths.
- `newTweaks` (deoxysii.js:410-416) is left out as an operation. The
  model's methods take the two tweak buffers as arguments, and each phase
  allocates its own.
- `xorBytes` is modelled with the aliasing every caller uses. Its
  destination either is a different buffer from the sources or is the very
  same view. Overlapping views at different offsets are not modelled.
- Security claims, the known-answer vectors, the fixture decoding and the
  tamper tests of test/test.js:57-72 are left out. They depend on the real
  AES.
- bench/bench.js and deoxysii.d.ts have no behaviour to model.
- String-valued exceptions are the datatype `Error`. The optional
  `plaintext` and `associatedData` arguments are `Option`.
- NewAEAD: the default `useUnsafeVartime = false` of deoxysii.js:641 is not
  modelled; the flag is a required argument.
