/** The functions `encodeTagTweak`, `encodeEncTweak`, `e` and `d` of
    deoxysii.js, on arrays, proved against the definitions of module Aead.
    The three phases that `e` and `d` both run (folding one input into the
    accumulator, and XOR-ing a keystream over a buffer) are the methods
    AuthData and CryptData, each built from one method per loop body. */
module Pipeline {
  import opened Bytes
  import opened Tweakey
  import opened Cipher
  import opened Aead

  /** `encodeTagTweak(out, prefix, blockNr)`: twelve zero bytes, the
      big-endian counter in bytes 12..15, then the prefix in byte 0. */
  method EncodeTagTweakInto(out: array<bv8>, prefix: bv8, blockNr: nat)
    requires out.Length == 16
    modifies out
    ensures out[..] == EncodeTagTweak(prefix, blockNr)
  {
    var w := BE32(blockNr);
    forall k | 0 <= k < 12 {
      out[k] := 0;
    }
    forall k | 12 <= k < 16 {
      out[k] := w[k - 12];
    }
    out[0] := prefix << PrefixShift;
    assert forall k :: 0 <= k < 16 ==> out[k] == EncodeTagTweak(prefix, blockNr)[k];
  }

  /** `encodeEncTweak(out, tag, blockNr)` for the 16-byte view of tag at
      tagOff: the tag, the top bit of byte 0 set, the big-endian counter XOR-ed
      into bytes 12..15. */
  method EncodeEncTweakInto(out: array<bv8>, tag: array<bv8>, tagOff: nat, blockNr: nat)
    requires out.Length == 16 && tagOff + 16 <= tag.Length && out != tag
    modifies out
    ensures out[..] == EncodeEncTweak(tag[tagOff..tagOff + 16], blockNr)
  {
    var w := BE32(blockNr);
    var tmp := new bv8[4](_ => 0);
    forall k | 0 <= k < 4 {
      tmp[k] := w[k];
    }
    assert tmp[..] == w;
    ghost var t: Block := tag[tagOff..tagOff + 16];
    CopyMarkedTag(out, tag, tagOff);
    ghost var was := out[..];
    assert forall k :: 12 <= k < 16 ==> was[k] == t[k];
    assert was[12..16] == t[12..16] && tmp[0..4] == w;
    XorBytes(out, 12, out, 12, tmp, 0, 4);
    ghost var x := Xor(t[12..16], w);
    assert out[..] == Splice(was, 12, x);
    ghost var e := EncodeEncTweak(t, blockNr);
    EncTweakBytes(t, blockNr);
    forall k | 0 <= k < 16
      ensures out[k] == e[k]
    {
      if k >= 12 {
        assert out[k] == x[k - 12];
      } else if k > 0 {
        assert out[k] == was[k];
      }
    }
    assert out[..] == e;
  }

  /** `out.set(tag); out[0] |= 0x80`. */
  method CopyMarkedTag(out: array<bv8>, tag: array<bv8>, tagOff: nat)
    requires out.Length == 16 && tagOff + 16 <= tag.Length && out != tag
    modifies out
    ensures out[0] == tag[tagOff] | 0x80
    ensures forall k :: 0 < k < 16 ==> out[k] == tag[tagOff + k]
  {
    forall k | 0 <= k < 16 {
      out[k] := tag[tagOff + k];
    }
    out[0] := out[0] | 0x80;
  }

  /** The bytes of an encryption tweak one by one. */
  lemma EncTweakBytes(t: Block, n: nat)
    ensures EncodeEncTweak(t, n)[0] == t[0] | 0x80
    ensures forall k :: 1 <= k < 12 ==> EncodeEncTweak(t, n)[k] == t[k]
    ensures forall k :: 12 <= k < 16 ==> EncodeEncTweak(t, n)[k] == t[k] ^ BE32(n)[k - 12]
  {
  }

  // ---------------------------------------------------------------------
  // Folding one input into the accumulator

  lemma BlockIndex(j: nat, m: nat)
    requires m < 16
    ensures (16 * j + m) / 16 == j && (16 * j + m) % 16 == m
  {
  }

  /** The items of the first i + 1 blocks are those of the first i and then
      block i, so the accumulator gains exactly BC of block i. */
  lemma FoldFullStep(aes: AesRound, ks: seq<Block>, acc: Block, prefix: bv8, data: seq<bv8>, i: nat)
    requires |ks| == StkCount && 16 * (i + 1) <= |data|
    ensures Fold(aes, ks, acc, FullItems(prefix, data, i + 1))
         == Xor(Fold(aes, ks, acc, FullItems(prefix, data, i)),
                AuthBlock(aes, ks, prefix, data, i))
  {
    var items := FullItems(prefix, data, i + 1);
    var init := FullItems(prefix, data, i);
    assert items[..i] == init by {
      assert forall k :: 0 <= k < i ==> items[k] == init[k];
    }
    var last := items[i];
    assert last == Item(EncodeTagTweak(prefix, i), data[16 * i..16 * i + 16]);
    var p := AuthBlock(aes, ks, prefix, data, i);
    assert p == Permute(aes, ks, last.tweak, last.block);
    assert Fold(aes, ks, acc, items) == Xor(Fold(aes, ks, acc, init), p);
  }

  /** The accumulator after every item of an input: its full blocks, then
      its padded tail if there is one. */
  lemma FoldAuthItems(aes: AesRound, ks: seq<Block>, acc: Block, pBlock: bv8, pFinal: bv8, data: seq<bv8>)
    requires |ks| == StkCount
    ensures |data| % 16 == 0 ==>
              Fold(aes, ks, acc, AuthItems(pBlock, pFinal, data))
              == Fold(aes, ks, acc, FullItems(pBlock, data, |data| / 16))
    ensures |data| % 16 != 0 ==>
              Fold(aes, ks, acc, AuthItems(pBlock, pFinal, data))
              == Xor(Fold(aes, ks, acc, FullItems(pBlock, data, |data| / 16)),
                     Permute(aes, ks, EncodeTagTweak(pFinal, |data| / 16), Pad(data[|data| - |data| % 16..])))
  {
    var full := FullItems(pBlock, data, |data| / 16);
    var items := AuthItems(pBlock, pFinal, data);
    if |data| % 16 == 0 {
      assert items == full + [];
      assert full + [] == full;
    } else {
      assert items[..|items| - 1] == full;
    }
  }

  /** What block j of d adds to the accumulator: BC under the tweak for
      prefix and counter j. */
  ghost function AuthBlock(aes: AesRound, ks: seq<Block>, prefix: bv8, d: seq<bv8>, j: nat): Block
    requires |ks| == StkCount && 16 * (j + 1) <= |d|
  {
    Permute(aes, ks, EncodeTagTweak(prefix, j), d[16 * j..16 * j + 16])
  }

  /** The accumulator after the first n full blocks of d, block by block,
      as the loops of `e` and `d` build it. */
  ghost function FullAuth(aes: AesRound, ks: seq<Block>, acc: Block, prefix: bv8, d: seq<bv8>, n: nat): Block
    requires |ks| == StkCount && 16 * n <= |d|
  {
    if n == 0 then acc
    else Xor(FullAuth(aes, ks, acc, prefix, d, n - 1),
             AuthBlock(aes, ks, prefix, d, n - 1))
  }

  lemma FullAuthStep(aes: AesRound, ks: seq<Block>, acc: Block, prefix: bv8, d: seq<bv8>, n: nat)
    requires |ks| == StkCount && 16 * (n + 1) <= |d|
    ensures FullAuth(aes, ks, acc, prefix, d, n + 1)
         == Xor(FullAuth(aes, ks, acc, prefix, d, n), AuthBlock(aes, ks, prefix, d, n))
  {
  }

  /** An accumulator x for n blocks that gains block n becomes the one for n + 1. */
  lemma FullAuthNext(aes: AesRound, ks: seq<Block>, acc: Block, prefix: bv8, d: seq<bv8>, n: nat, x: Block, y: Block)
    requires |ks| == StkCount && 16 * (n + 1) <= |d| && x == FullAuth(aes, ks, acc, prefix, d, n)
    requires y == Xor(x, AuthBlock(aes, ks, prefix, d, n))
    ensures y == FullAuth(aes, ks, acc, prefix, d, n + 1)
  {
    FullAuthStep(aes, ks, acc, prefix, d, n);
  }

  /** An accumulator x for n blocks that gains blocks n and n + 1 becomes the one for n + 2. */
  lemma FullAuthNextPair(aes: AesRound, ks: seq<Block>, acc: Block, prefix: bv8, d: seq<bv8>, n: nat, x: Block, y: Block)
    requires |ks| == StkCount && 16 * (n + 2) <= |d| && x == FullAuth(aes, ks, acc, prefix, d, n)
    requires y == Xor(Xor(x, AuthBlock(aes, ks, prefix, d, n)),
                      AuthBlock(aes, ks, prefix, d, n + 1))
    ensures y == FullAuth(aes, ks, acc, prefix, d, n + 2)
  {
    var z := Xor(x, AuthBlock(aes, ks, prefix, d, n));
    FullAuthNext(aes, ks, acc, prefix, d, n, x, z);
    FullAuthNext(aes, ks, acc, prefix, d, n + 1, z, y);
  }

  /** Block by block is the fold over the items of the full blocks. */
  lemma {:induction false} FoldFullItems(aes: AesRound, ks: seq<Block>, acc: Block, prefix: bv8, d: seq<bv8>, n: nat)
    requires |ks| == StkCount && 16 * n <= |d|
    ensures Fold(aes, ks, acc, FullItems(prefix, d, n)) == FullAuth(aes, ks, acc, prefix, d, n)
  {
    if n == 0 {
      assert FullItems(prefix, d, 0) == [];
    } else {
      var m := n - 1;
      var p := AuthBlock(aes, ks, prefix, d, m);
      var f := Fold(aes, ks, acc, FullItems(prefix, d, m));
      var a := FullAuth(aes, ks, acc, prefix, d, m);
      assert Fold(aes, ks, acc, FullItems(prefix, d, m + 1)) == Xor(f, p) by {
        FoldFullStep(aes, ks, acc, prefix, d, m);
      }
      assert f == a by {
        FoldFullItems(aes, ks, acc, prefix, d, m);
      }
      assert FullAuth(aes, ks, acc, prefix, d, m + 1) == Xor(a, p) by {
        FullAuthStep(aes, ks, acc, prefix, d, m);
      }
    }
  }

  /** One pass of the pair loop: blocks i and i + 1 with `bcTagx2`. */
  method AuthPair(aes: AesRound, auth: array<bv8>, derivedKs: array<bv8>, t0: array<bv8>, t1: array<bv8>,
                  data: array<bv8>, prefix: bv8, i: nat, ghost ks: seq<Block>, ghost d: seq<bv8>)
    requires auth.Length == 16 && derivedKs.Length == StksBytes && t0.Length == 16 && t1.Length == 16
    requires 16 * (i + 2) <= data.Length
    requires auth != derivedKs && auth != t0 && auth != t1 && t0 != t1 && auth != data
    requires t0 != derivedKs && t1 != derivedKs && t0 != data && t1 != data
    requires ks == Rows(derivedKs[..]) && d == data[..]
    modifies auth, t0, t1
    ensures auth[..] == Xor(Xor(old(auth[..]),
      AuthBlock(aes, ks, prefix, d, i)),
      AuthBlock(aes, ks, prefix, d, i + 1))
    ensures t0[..] == EncodeTagTweak(prefix, i) && t1[..] == EncodeTagTweak(prefix, i + 1)
  {
    EncodeTagTweakInto(t0, prefix, i);
    EncodeTagTweakInto(t1, prefix, i + 1);
    assert derivedKs[..] == old(derivedKs[..]) && data[..] == d;
    ghost var a := auth[..];
    ghost var p0 := AuthBlock(aes, ks, prefix, d, i);
    ghost var p1 := AuthBlock(aes, ks, prefix, d, i + 1);
    assert p0 == Permute(aes, ks, t0[..], data[16 * i..16 * i + 16]);
    assert p1 == Permute(aes, ks, t1[..], data[16 * i + 16..16 * i + 32]) by {
      assert data[16 * i + 16..16 * i + 32] == d[16 * (i + 1)..16 * (i + 1) + 16];
    }
    BcTagX2(aes, auth, derivedKs, t0, t1, data, 16 * i);
    assert auth[..] == Xor(Xor(a, p0), p1);
  }

  /** One pass of the single-block loop: block i with `bcTagx1`. */
  method AuthSingle(aes: AesRound, auth: array<bv8>, derivedKs: array<bv8>, t0: array<bv8>,
                    data: array<bv8>, prefix: bv8, i: nat, ghost ks: seq<Block>, ghost d: seq<bv8>)
    requires auth.Length == 16 && derivedKs.Length == StksBytes && t0.Length == 16
    requires 16 * (i + 1) <= data.Length
    requires auth != derivedKs && auth != t0 && auth != data && t0 != derivedKs && t0 != data
    requires ks == Rows(derivedKs[..]) && d == data[..]
    modifies auth, t0
    ensures auth[..] == Xor(old(auth[..]), AuthBlock(aes, ks, prefix, d, i))
    ensures t0[..] == EncodeTagTweak(prefix, i)
  {
    EncodeTagTweakInto(t0, prefix, i);
    assert derivedKs[..] == old(derivedKs[..]) && data[..] == d;
    BcTagX1(aes, auth, derivedKs, t0, data, 16 * i);
  }

  /** The tail of r = 1..15 bytes: copied into a zeroed block, 0x80 after
      it, folded under the final prefix and counter i. */
  method AuthTail(aes: AesRound, auth: array<bv8>, derivedKs: array<bv8>, t0: array<bv8>,
                  data: array<bv8>, prefix: bv8, i: nat, r: nat)
    requires auth.Length == 16 && derivedKs.Length == StksBytes && t0.Length == 16
    requires 0 < r < 16 && r <= data.Length
    requires auth != derivedKs && auth != t0 && auth != data && t0 != derivedKs && t0 != data
    modifies auth, t0
    ensures auth[..] == Xor(old(auth[..]),
      Permute(aes, Rows(derivedKs[..]), EncodeTagTweak(prefix, i), Pad(data[data.Length - r..])))
    ensures t0[..] == EncodeTagTweak(prefix, i)
  {
    ghost var ks := Rows(derivedKs[..]);
    EncodeTagTweakInto(t0, prefix, i);
    var star := new bv8[16](_ => 0);
    forall k | 0 <= k < r {
      star[k] := data[data.Length - r + k];
    }
    assert derivedKs[..] == old(derivedKs[..]);
    star[r] := 0x80;
    assert star[..] == Pad(data[data.Length - r..]) by {
      assert forall k :: 0 <= k < 16 ==> star[k] == Pad(data[data.Length - r..])[k];
    }
    assert Rows(derivedKs[..]) == ks;
    ghost var a := auth[..];
    assert a == old(auth[..]);
    ghost var tw := EncodeTagTweak(prefix, i);
    ghost var pad := Pad(data[data.Length - r..]);
    assert star[0..16] == pad && t0[..] == tw;
    BcTagX1(aes, auth, derivedKs, t0, star, 0);
    assert auth[..] == Xor(a, Permute(aes, ks, tw, pad));
  }

  /** The pair loop and the single-block loop over one input: afterwards
      fewer than 16 bytes remain and every full block has been folded. */
  method AuthFullBlocks(aes: AesRound, auth: array<bv8>, derivedKs: array<bv8>, data: array<bv8>,
                        pBlock: bv8, t0: array<bv8>, t1: array<bv8>) returns (i: nat, len: nat)
    requires auth.Length == 16 && derivedKs.Length == StksBytes && t0.Length == 16 && t1.Length == 16
    requires auth != derivedKs && auth != t0 && auth != t1 && t0 != t1 && auth != data
    requires t0 != derivedKs && t1 != derivedKs && t0 != data && t1 != data
    modifies auth, t0, t1
    ensures len < BlockSize && 16 * i + len == data.Length
    ensures auth[..] == FullAuth(aes, Rows(derivedKs[..]), old(auth[..]), pBlock, data[..], i)
  {
    ghost var ks := Rows(derivedKs[..]);
    ghost var d := data[..];
    ghost var acc: Block := auth[..];
    len := data.Length;
    i := 0;
    while len >= 2 * BlockSize
      invariant 16 * i + len == data.Length
      invariant auth[..] == FullAuth(aes, ks, acc, pBlock, d, i)
      invariant Rows(derivedKs[..]) == ks && data[..] == d
    {
      ghost var x := auth[..];
      AuthPair(aes, auth, derivedKs, t0, t1, data, pBlock, i, ks, d);
      FullAuthNextPair(aes, ks, acc, pBlock, d, i, x, auth[..]);
      assert derivedKs[..] == old(derivedKs[..]) && data[..] == d;
      len := len - 2 * BlockSize;
      i := i + 2;
    }
    while len >= BlockSize
      invariant 16 * i + len == data.Length
      invariant auth[..] == FullAuth(aes, ks, acc, pBlock, d, i)
      invariant Rows(derivedKs[..]) == ks && data[..] == d
    {
      ghost var x := auth[..];
      AuthSingle(aes, auth, derivedKs, t0, data, pBlock, i, ks, d);
      FullAuthNext(aes, ks, acc, pBlock, d, i, x, auth[..]);
      assert derivedKs[..] == old(derivedKs[..]) && data[..] == d;
      len := len - BlockSize;
      i := i + 1;
    }
  }

  /** The three loops of `e` and `d` over one input: pairs of full blocks
      with `bcTagx2`, then a remaining full block with `bcTagx1`, then the
      padded tail.  The accumulator gains BC of every item of the input. */
  method AuthData(aes: AesRound, auth: array<bv8>, derivedKs: array<bv8>, data: array<bv8>,
                  pBlock: bv8, pFinal: bv8)
    requires auth.Length == 16 && derivedKs.Length == StksBytes
    requires auth != derivedKs && auth != data
    modifies auth
    ensures auth[..] == Fold(aes, Rows(derivedKs[..]), old(auth[..]), AuthItems(pBlock, pFinal, data[..]))
  {
    ghost var ks := Rows(derivedKs[..]);
    ghost var d := data[..];
    ghost var acc: Block := auth[..];
    var t0 := new bv8[16](_ => 0);
    var t1 := new bv8[16](_ => 0);
    var i, len := AuthFullBlocks(aes, auth, derivedKs, data, pBlock, t0, t1);
    assert data[..] == d && derivedKs[..] == old(derivedKs[..]);
    assert i == |d| / 16 && len == |d| % 16 by {
      BlockIndex(i, len);
    }
    ghost var full := Fold(aes, ks, acc, FullItems(pBlock, d, i));
    assert auth[..] == full by {
      FoldFullItems(aes, ks, acc, pBlock, d, i);
    }
    if len > 0 {
      AuthTail(aes, auth, derivedKs, t0, data, pFinal, i, len);
      assert data[data.Length - len..] == d[|d| - |d| % 16..];
      assert auth[..] == Xor(full, Permute(aes, ks, EncodeTagTweak(pFinal, i), Pad(d[|d| - |d| % 16..])));
    }
    FoldAuthItems(aes, ks, acc, pBlock, pFinal, d);
  }

  // ---------------------------------------------------------------------
  // XOR-ing the keystream

  /** Bytes below m of d are those of want, bytes from m on those of was. */
  ghost predicate CryptedUpTo(d: seq<bv8>, was: seq<bv8>, want: seq<bv8>, m: nat) {
    |d| == |was| && m <= |want| <= |d|
    && (forall k :: 0 <= k < m ==> d[k] == want[k])
    && (forall k :: m <= k < |d| ==> d[k] == was[k])
  }

  lemma CryptedExtend(d: seq<bv8>, was: seq<bv8>, want: seq<bv8>, m: nat, x: seq<bv8>)
    requires CryptedUpTo(d, was, want, m) && m + |x| <= |want|
    requires forall k :: 0 <= k < |x| ==> x[k] == want[m + k]
    ensures CryptedUpTo(Splice(d, m, x), was, want, m + |x|)
  {
    var e := Splice(d, m, x);
    forall k | 0 <= k < m + |x|
      ensures e[k] == want[k]
    {
      if k >= m {
        assert e[k] == x[k - m];
      }
    }
  }

  /** Once every byte of want is in place, d is was with want spliced in at 0. */
  lemma CryptedAll(d: seq<bv8>, was: seq<bv8>, want: seq<bv8>)
    requires CryptedUpTo(d, was, want, |want|)
    ensures d == Splice(was, 0, want)
  {
    assert forall k :: 0 <= k < |d| ==> d[k] == Splice(was, 0, want)[k];
  }

  /** want is src XOR-ed with the keystream, byte m of block j at a time. */
  ghost predicate Crypted(aes: AesRound, ks: seq<Block>, nonce: seq<bv8>, tag: Block, src: seq<bv8>, want: seq<bv8>)
    requires |ks| == StkCount && |nonce| == NonceSize
  {
    |want| == |src|
    && forall j: nat, m: nat :: m < 16 && 16 * j + m < |src| ==>
         want[16 * j + m] == src[16 * j + m] ^ KeystreamBlock(aes, ks, nonce, tag, j)[m]
  }

  lemma CryptCrypted(aes: AesRound, ks: seq<Block>, nonce: seq<bv8>, tag: Block, src: seq<bv8>)
    requires |ks| == StkCount && |nonce| == NonceSize
    ensures Crypted(aes, ks, nonce, tag, src, Crypt(aes, ks, nonce, tag, src))
  {
    forall j: nat, m: nat | m < 16 && 16 * j + m < |src|
      ensures Crypt(aes, ks, nonce, tag, src)[16 * j + m] == src[16 * j + m] ^ KeystreamBlock(aes, ks, nonce, tag, j)[m]
    {
      CryptAt(aes, ks, nonce, tag, src, j, m);
    }
  }

  /** Where the first len <= 16 bytes of b are keystream block j, src XOR-ed
      with them from 16 * j on gives the bytes of the specification there. */
  lemma CryptBlockBytes(aes: AesRound, ks: seq<Block>, nonce: seq<bv8>, tag: Block, src: seq<bv8>,
                        want: seq<bv8>, j: nat, len: nat, b: seq<bv8>)
    requires |ks| == StkCount && |nonce| == NonceSize && Crypted(aes, ks, nonce, tag, src, want)
    requires len <= 16 && 16 * j + len <= |src| && len <= |b|
    requires forall k :: 0 <= k < len ==> b[k] == KeystreamBlock(aes, ks, nonce, tag, j)[k]
    ensures forall k :: 0 <= k < len ==> want[16 * j + k] == src[16 * j + k] ^ b[k]
  {
    forall k | 0 <= k < len
      ensures want[16 * j + k] == src[16 * j + k] ^ b[k]
    {
      assert b[k] == KeystreamBlock(aes, ks, nonce, tag, j)[k];
    }
  }

  /** Where b is keystream blocks j and j + 1, src XOR-ed with b from 16 * j
      on gives the 32 bytes of the specification there. */
  lemma CryptPairBytes(aes: AesRound, ks: seq<Block>, nonce: seq<bv8>, tag: Block, src: seq<bv8>,
                       want: seq<bv8>, j: nat, b: seq<bv8>)
    requires |ks| == StkCount && |nonce| == NonceSize && Crypted(aes, ks, nonce, tag, src, want)
    requires 16 * (j + 2) <= |src|
    requires b == KeystreamBlock(aes, ks, nonce, tag, j) + KeystreamBlock(aes, ks, nonce, tag, j + 1)
    ensures forall k :: 0 <= k < 32 ==> want[16 * j + k] == src[16 * j + k] ^ b[k]
  {
    forall k | 0 <= k < 32
      ensures want[16 * j + k] == src[16 * j + k] ^ b[k]
    {
      if k < 16 {
        assert b[k] == KeystreamBlock(aes, ks, nonce, tag, j)[k];
      } else {
        assert b[k] == KeystreamBlock(aes, ks, nonce, tag, j + 1)[k - 16];
        assert 16 * j + k == 16 * (j + 1) + (k - 16);
      }
    }
  }

  /** `xorBytes` of len keystream bytes over src into dst from 16 * j on,
      where those keystream bytes are the ones that the specification want
      expects at that place. */
  method XorKeystream(dst: array<bv8>, src: array<bv8>, blks: array<bv8>, j: nat, len: nat, n: nat,
                      ghost s: seq<bv8>, ghost want: seq<bv8>, ghost was: seq<bv8>)
    requires 16 * j + len <= n <= src.Length && n <= dst.Length && len <= blks.Length
    requires dst != src && dst != blks && s == src[..n] && |want| == n
    requires forall k :: 0 <= k < len ==> want[16 * j + k] == s[16 * j + k] ^ blks[k]
    requires CryptedUpTo(dst[..], was, want, 16 * j)
    modifies dst
    ensures CryptedUpTo(dst[..], was, want, 16 * j + len)
  {
    ghost var d := dst[..];
    XorBytes(dst, 16 * j, src, 16 * j, blks, 0, len);
    ghost var x := Xor(src[16 * j..16 * j + len], blks[0..len]);
    assert forall k :: 0 <= k < len ==> x[k] == want[16 * j + k];
    CryptedExtend(d, was, want, 16 * j, x);
  }

  /** Keystream blocks j and j + 1 with `bcKeystreamx2`, into blks. */
  method KeystreamPair(aes: AesRound, blks: array<bv8>, derivedKs: array<bv8>, tag: array<bv8>, tagOff: nat,
                       ksIn: array<bv8>, j: nat, t0: array<bv8>, t1: array<bv8>,
                       ghost ks: seq<Block>, ghost nonce: seq<bv8>, ghost t: Block)
    requires derivedKs.Length == StksBytes && tagOff + 16 <= tag.Length && |nonce| == NonceSize
    requires ksIn.Length == 16 && t0.Length == 16 && t1.Length == 16 && blks.Length == 32
    requires t0 != tag && t1 != tag && t0 != t1 && blks != tag
    requires t0 != derivedKs && t1 != derivedKs && blks != derivedKs
    requires t0 != ksIn && t1 != ksIn && blks != ksIn && blks != t0 && blks != t1
    requires ks == Rows(derivedKs[..]) && ksIn[..] == KeystreamInput(nonce) && t == tag[tagOff..tagOff + 16]
    modifies blks, t0, t1
    ensures t0[..] == EncodeEncTweak(t, j) && t1[..] == EncodeEncTweak(t, j + 1)
    ensures blks[..] == KeystreamBlock(aes, ks, nonce, t, j) + KeystreamBlock(aes, ks, nonce, t, j + 1)
  {
    ghost var tw0 := EncodeEncTweak(t, j);
    ghost var tw1 := EncodeEncTweak(t, j + 1);
    EncodeEncTweakInto(t0, tag, tagOff, j);
    assert derivedKs[..] == old(derivedKs[..]) && tag[..] == old(tag[..]) && ksIn[..] == old(ksIn[..]);
    EncodeEncTweakInto(t1, tag, tagOff, j + 1);
    assert derivedKs[..] == old(derivedKs[..]) && tag[..] == old(tag[..]) && ksIn[..] == old(ksIn[..]);
    assert t0[..] == tw0 && t1[..] == tw1;
    BcKeystreamX2(aes, blks, derivedKs, t0, t1, ksIn);
  }

  /** Keystream block j with `bcEncrypt`, into the first 16 bytes of blks. */
  method KeystreamOne(aes: AesRound, blks: array<bv8>, derivedKs: array<bv8>, tag: array<bv8>, tagOff: nat,
                      ksIn: array<bv8>, j: nat, t0: array<bv8>,
                      ghost ks: seq<Block>, ghost nonce: seq<bv8>, ghost t: Block)
    requires derivedKs.Length == StksBytes && tagOff + 16 <= tag.Length && |nonce| == NonceSize
    requires ksIn.Length == 16 && t0.Length == 16 && blks.Length == 32
    requires t0 != tag && blks != tag && t0 != derivedKs && blks != derivedKs
    requires t0 != ksIn && blks != ksIn && blks != t0
    requires ks == Rows(derivedKs[..]) && ksIn[..] == KeystreamInput(nonce) && t == tag[tagOff..tagOff + 16]
    modifies blks, t0
    ensures t0[..] == EncodeEncTweak(t, j)
    ensures blks[..] == Splice(old(blks[..]), 0, KeystreamBlock(aes, ks, nonce, t, j))
  {
    ghost var tw := EncodeEncTweak(t, j);
    EncodeEncTweakInto(t0, tag, tagOff, j);
    assert derivedKs[..] == old(derivedKs[..]) && ksIn[..] == old(ksIn[..]) && blks[..] == old(blks[..]);
    assert t0[..] == tw && ksIn[0..16] == KeystreamInput(nonce);
    BcEncrypt(aes, blks, 0, derivedKs, t0, ksIn, 0);
  }

  /** One pass of the pair loop: keystream blocks j and j + 1, XOR-ed over
      32 bytes of src into dst. */
  method CryptPair(aes: AesRound, dst: array<bv8>, src: array<bv8>, derivedKs: array<bv8>,
                   tag: array<bv8>, tagOff: nat, ksIn: array<bv8>, j: nat, n: nat,
                   t0: array<bv8>, t1: array<bv8>, blks: array<bv8>,
                   ghost ks: seq<Block>, ghost nonce: seq<bv8>, ghost t: Block, ghost s: seq<bv8>,
                   ghost want: seq<bv8>, ghost was: seq<bv8>)
    requires derivedKs.Length == StksBytes && tagOff + 16 <= tag.Length && |nonce| == NonceSize
    requires ksIn.Length == 16 && t0.Length == 16 && t1.Length == 16 && blks.Length == 32
    requires 16 * (j + 2) <= n <= src.Length && n <= dst.Length
    requires dst != src && dst != derivedKs && dst != tag && dst != ksIn
    requires dst != t0 && dst != t1 && dst != blks
    requires t0 != tag && t1 != tag && t0 != t1 && blks != tag
    requires t0 != derivedKs && t1 != derivedKs && blks != derivedKs
    requires t0 != ksIn && t1 != ksIn && blks != ksIn && t0 != src && t1 != src && blks != src
    requires blks != t0 && blks != t1
    requires ks == Rows(derivedKs[..]) && ksIn[..] == KeystreamInput(nonce) && t == tag[tagOff..tagOff + 16]
    requires s == src[..n] && Crypted(aes, ks, nonce, t, s, want)
    requires CryptedUpTo(dst[..], was, want, 16 * j)
    modifies dst, t0, t1, blks
    ensures CryptedUpTo(dst[..], was, want, 16 * (j + 2))
    ensures t0[..] == EncodeEncTweak(t, j) && t1[..] == EncodeEncTweak(t, j + 1)
    ensures blks[..] == KeystreamBlock(aes, ks, nonce, t, j) + KeystreamBlock(aes, ks, nonce, t, j + 1)
  {
    KeystreamPair(aes, blks, derivedKs, tag, tagOff, ksIn, j, t0, t1, ks, nonce, t);
    ghost var b := blks[..];
    assert forall k :: 0 <= k < 32 ==> want[16 * j + k] == s[16 * j + k] ^ b[k] by {
      CryptPairBytes(aes, ks, nonce, t, s, want, j, b);
    }
    assert dst[..] == old(dst[..]) && src[..] == old(src[..]);
    XorKeystream(dst, src, blks, j, 32, n, s, want, was);
  }

  /** One keystream block j, XOR-ed over len <= 16 bytes of src into dst: a
      full block of the single loop, or the tail. */
  method CryptBlock(aes: AesRound, dst: array<bv8>, src: array<bv8>, derivedKs: array<bv8>,
                    tag: array<bv8>, tagOff: nat, ksIn: array<bv8>, j: nat, len: nat, n: nat,
                    t0: array<bv8>, blks: array<bv8>,
                    ghost ks: seq<Block>, ghost nonce: seq<bv8>, ghost t: Block, ghost s: seq<bv8>,
                    ghost want: seq<bv8>, ghost was: seq<bv8>)
    requires derivedKs.Length == StksBytes && tagOff + 16 <= tag.Length && |nonce| == NonceSize
    requires ksIn.Length == 16 && t0.Length == 16 && blks.Length == 32 && len <= 16
    requires 16 * j + len <= n <= src.Length && n <= dst.Length
    requires dst != src && dst != derivedKs && dst != tag && dst != ksIn && dst != t0 && dst != blks
    requires t0 != tag && blks != tag && t0 != derivedKs && blks != derivedKs
    requires t0 != ksIn && blks != ksIn && t0 != src && blks != src && blks != t0
    requires ks == Rows(derivedKs[..]) && ksIn[..] == KeystreamInput(nonce) && t == tag[tagOff..tagOff + 16]
    requires s == src[..n] && Crypted(aes, ks, nonce, t, s, want)
    requires CryptedUpTo(dst[..], was, want, 16 * j)
    modifies dst, t0, blks
    ensures CryptedUpTo(dst[..], was, want, 16 * j + len)
    ensures t0[..] == EncodeEncTweak(t, j)
    ensures blks[..] == Splice(old(blks[..]), 0, KeystreamBlock(aes, ks, nonce, t, j))
  {
    KeystreamOne(aes, blks, derivedKs, tag, tagOff, ksIn, j, t0, ks, nonce, t);
    ghost var b := blks[..];
    assert forall k :: 0 <= k < len ==> want[16 * j + k] == s[16 * j + k] ^ b[k] by {
      CryptBlockBytes(aes, ks, nonce, t, s, want, j, len, b);
    }
    assert dst[..] == old(dst[..]) && src[..] == old(src[..]);
    XorKeystream(dst, src, blks, j, len, n, s, want, was);
  }

  /** The three encryption loops of `e` (and the decryption loops of `d`):
      the first n bytes of src XOR-ed with the keystream for the 16-byte tag
      at tagOff, written to the first n bytes of dst; the rest of dst is left
      alone. */
  method CryptData(aes: AesRound, dst: array<bv8>, src: array<bv8>, n: nat, derivedKs: array<bv8>,
                   tag: array<bv8>, tagOff: nat, ksIn: array<bv8>, ghost nonce: seq<bv8>)
    requires derivedKs.Length == StksBytes && tagOff + 16 <= tag.Length && |nonce| == NonceSize
    requires ksIn.Length == 16 && ksIn[..] == KeystreamInput(nonce)
    requires n <= src.Length && n <= dst.Length
    requires dst != src && dst != derivedKs && dst != tag && dst != ksIn
    modifies dst
    ensures dst[..] == Splice(old(dst[..]), 0,
      Crypt(aes, Rows(derivedKs[..]), nonce, tag[tagOff..tagOff + 16], src[..n]))
  {
    ghost var ks := Rows(derivedKs[..]);
    ghost var t: Block := tag[tagOff..tagOff + 16];
    ghost var s := src[..n];
    ghost var want := Crypt(aes, ks, nonce, t, s);
    CryptCrypted(aes, ks, nonce, t, s);
    ghost var was := dst[..];
    var t0 := new bv8[16](_ => 0);
    var t1 := new bv8[16](_ => 0);
    var blks := new bv8[32](_ => 0);
    var len := n;
    var j := 0;
    while len >= 2 * BlockSize
      invariant 0 <= len && 16 * j + len == n
      invariant CryptedUpTo(dst[..], was, want, 16 * j)
      invariant ks == Rows(derivedKs[..]) && ksIn[..] == KeystreamInput(nonce) && t == tag[tagOff..tagOff + 16]
      invariant s == src[..n]
    {
      CryptPair(aes, dst, src, derivedKs, tag, tagOff, ksIn, j, n, t0, t1, blks, ks, nonce, t, s, want, was);
      len := len - 2 * BlockSize;
      j := j + 2;
    }
    while len >= BlockSize
      invariant 0 <= len && 16 * j + len == n
      invariant CryptedUpTo(dst[..], was, want, 16 * j)
      invariant ks == Rows(derivedKs[..]) && ksIn[..] == KeystreamInput(nonce) && t == tag[tagOff..tagOff + 16]
      invariant s == src[..n]
    {
      CryptBlock(aes, dst, src, derivedKs, tag, tagOff, ksIn, j, BlockSize, n, t0, blks, ks, nonce, t, s, want, was);
      len := len - BlockSize;
      j := j + 1;
    }
    if len > 0 {
      CryptBlock(aes, dst, src, derivedKs, tag, tagOff, ksIn, j, len, n, t0, blks, ks, nonce, t, s, want, was);
    }
    CryptedAll(dst[..], was, want);
  }
}
