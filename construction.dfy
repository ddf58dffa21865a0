/** The functions `e` and `d` of deoxysii.js: the Deoxys-II encryption and
    decryption of one message, on arrays, proved against Seal, Tag and
    Crypt of module Aead. */
module Construction {
  import opened Bytes
  import opened Tweakey
  import opened Cipher
  import opened Aead
  import opened Pipeline

  /** The authentication half shared by `e` and `d`: a zeroed accumulator,
      the associated data folded in under the AD prefixes, then the message
      under the message prefixes. */
  method Authenticate(aes: AesRound, derivedKs: array<bv8>, ad: array<bv8>, msg: array<bv8>)
      returns (auth: array<bv8>)
    requires derivedKs.Length == StksBytes
    ensures fresh(auth) && auth.Length == TagSize
    ensures auth[..] == Auth(aes, Rows(derivedKs[..]), ad[..], msg[..])
  {
    ghost var ks := Rows(derivedKs[..]);
    auth := new bv8[TagSize](_ => 0);
    ghost var adItems := AuthItems(PrefixADBlock, PrefixADFinal, ad[..]);
    ghost var msgItems := AuthItems(PrefixMsgBlock, PrefixMsgFinal, msg[..]);
    assert auth[..] == Zeros(16);
    AuthData(aes, auth, derivedKs, ad, PrefixADBlock, PrefixADFinal);
    ghost var a := auth[..];
    assert a == Fold(aes, ks, Zeros(16), adItems);
    AuthData(aes, auth, derivedKs, msg, PrefixMsgBlock, PrefixMsgFinal);
    assert auth[..] == Fold(aes, ks, a, msgItems);
    FoldAppend(aes, ks, Zeros(16), adItems, msgItems);
  }

  /** A fresh 16-byte block holding the nonce from byte 1 on, byte 0 zero:
      `encNonce.set(nonce, 1)` and `decNonce.set(nonce, 1)`. */
  method NonceBlock(nonce: array<bv8>) returns (blk: array<bv8>)
    requires nonce.Length == NonceSize
    ensures fresh(blk) && blk[..] == KeystreamInput(nonce[..])
  {
    blk := new bv8[BlockSize](_ => 0);
    forall k | 0 <= k < NonceSize {
      blk[k + 1] := nonce[k];
    }
    assert forall k :: 0 <= k < 16 ==> blk[k] == KeystreamInput(nonce[..])[k];
  }

  /** Finalisation of the tag in place: BC of the accumulator under the tweak
      `prefixTag << prefixShift` followed by the nonce. */
  method FinalizeTag(aes: AesRound, auth: array<bv8>, derivedKs: array<bv8>, blk: array<bv8>,
                     ghost nonce: seq<bv8>)
    requires auth.Length == TagSize && derivedKs.Length == StksBytes && blk.Length == BlockSize
    requires |nonce| == NonceSize && blk[..] == KeystreamInput(nonce)
    requires auth != derivedKs && auth != blk && blk != derivedKs
    modifies auth, blk
    ensures blk[..] == TagTweak(nonce)
    ensures auth[..] == Permute(aes, Rows(derivedKs[..]), TagTweak(nonce), old(auth[..]))
  {
    blk[0] := PrefixTag << PrefixShift;
    assert blk[..] == TagTweak(nonce) by {
      assert forall k :: 0 <= k < 16 ==> blk[k] == TagTweak(nonce)[k];
    }
    ghost var a: Block := auth[..];
    ghost var ks := Rows(derivedKs[..]);
    assert auth[0..16] == a;
    BcEncrypt(aes, auth, 0, derivedKs, blk, auth, 0);
    assert derivedKs[..] == old(derivedKs[..]);
    ghost var p := Permute(aes, ks, TagTweak(nonce), a);
    assert auth[..] == Splice(a, 0, p);
    SpliceWhole(a, p);
  }

  /** The tag of `e` and `d`: the accumulator over ad and msg, finalised
      with blk, which holds the nonce, as tweak. */
  method ComputeTag(aes: AesRound, derivedKs: array<bv8>, blk: array<bv8>, ghost nonce: seq<bv8>,
                    ad: array<bv8>, msg: array<bv8>) returns (auth: array<bv8>)
    requires derivedKs.Length == StksBytes && blk.Length == BlockSize
    requires blk != derivedKs && blk != ad && blk != msg
    requires |nonce| == NonceSize && blk[..] == KeystreamInput(nonce)
    modifies blk
    ensures fresh(auth) && auth.Length == TagSize
    ensures blk[..] == TagTweak(nonce)
    ensures auth[..] == Tag(aes, Rows(derivedKs[..]), nonce, ad[..], msg[..])
  {
    ghost var ks := Rows(derivedKs[..]);
    auth := Authenticate(aes, derivedKs, ad, msg);
    ghost var a: Block := auth[..];
    FinalizeTag(aes, auth, derivedKs, blk, nonce);
    assert derivedKs[..] == old(derivedKs[..]) && ad[..] == old(ad[..]) && msg[..] == old(msg[..]);
    assert auth[..] == Permute(aes, ks, TagTweak(nonce), a);
  }

  /** What `e` writes is Seal: the ciphertext under the tag, then the tag. */
  lemma SealParts(aes: AesRound, ks: seq<Block>, nonce: seq<bv8>, ad: seq<bv8>, msg: seq<bv8>,
                  tag: Block, body: seq<bv8>)
    requires |ks| == StkCount && |nonce| == NonceSize
    requires tag == Tag(aes, ks, nonce, ad, msg) && body == Crypt(aes, ks, nonce, tag, msg)
    ensures Seal(aes, ks, nonce, ad, msg) == body + tag
  {
  }

  /** `e(impl, derivedKs, nonce, dst, ad, msg)`: dst receives the encryption
      of msg followed by the tag. */
  method E(aes: AesRound, derivedKs: array<bv8>, nonce: array<bv8>, dst: array<bv8>,
           ad: array<bv8>, msg: array<bv8>)
    requires derivedKs.Length == StksBytes && nonce.Length == NonceSize
    requires dst.Length == msg.Length + TagSize
    requires dst != derivedKs && dst != nonce && dst != ad && dst != msg
    modifies dst
    ensures dst[..] == Seal(aes, Rows(derivedKs[..]), nonce[..], ad[..], msg[..])
  {
    ghost var ks := Rows(derivedKs[..]);
    var encNonce := NonceBlock(nonce);
    var auth := ComputeTag(aes, derivedKs, encNonce, nonce[..], ad, msg);
    ghost var tag: Block := auth[..];
    encNonce[0] := 0;
    assert encNonce[..] == KeystreamInput(nonce[..]) by {
      assert forall k :: 0 <= k < 16 ==> encNonce[k] == KeystreamInput(nonce[..])[k];
    }
    EncryptAppend(aes, dst, msg, derivedKs, auth, encNonce, nonce[..]);
    SealParts(aes, ks, nonce[..], ad[..], msg[..], tag, Crypt(aes, ks, nonce[..], tag, msg[..]));
  }

  /** The encryption loops of `e` and the copy of the tag after the
      ciphertext. */
  method EncryptAppend(aes: AesRound, dst: array<bv8>, msg: array<bv8>, derivedKs: array<bv8>,
                       auth: array<bv8>, ksIn: array<bv8>, ghost nonce: seq<bv8>)
    requires derivedKs.Length == StksBytes && auth.Length == TagSize && |nonce| == NonceSize
    requires ksIn.Length == 16 && ksIn[..] == KeystreamInput(nonce)
    requires dst.Length == msg.Length + TagSize
    requires dst != msg && dst != derivedKs && dst != auth && dst != ksIn
    modifies dst
    ensures dst[..] == Crypt(aes, Rows(derivedKs[..]), nonce, auth[..], msg[..]) + auth[..]
  {
    ghost var was := dst[..];
    CryptData(aes, dst, msg, msg.Length, derivedKs, auth, 0, ksIn, nonce);
    assert msg[..msg.Length] == msg[..] && auth[0..16] == auth[..];
    ghost var body := Crypt(aes, Rows(derivedKs[..]), nonce, auth[..], msg[..]);
    assert dst[..] == Splice(was, 0, body);
    assert dst[..msg.Length] == body;
    CopyTag(dst, auth, msg.Length);
  }

  /** `dst.set(auth, off)` for the last 16 bytes of dst. */
  method CopyTag(dst: array<bv8>, auth: array<bv8>, off: nat)
    requires auth.Length == TagSize && dst.Length == off + TagSize && dst != auth
    modifies dst
    ensures dst[..] == old(dst[..off]) + auth[..]
  {
    forall k | 0 <= k < TagSize {
      dst[off + k] := auth[k];
    }
    assert forall k :: 0 <= k < dst.Length ==> dst[k] == (old(dst[..off]) + auth[..])[k];
  }

  /** The comparison at the end of `d`: every byte pair is XOR-ed and the
      results are and-ed together, without stopping at the first difference. */
  method TagsEqual(auth: array<bv8>, ct: array<bv8>, off: nat) returns (ok: bool)
    requires auth.Length == TagSize && off + TagSize <= ct.Length
    ensures ok <==> auth[..] == ct[off..off + TagSize]
  {
    var eql: bv8 := 1;
    var i := 0;
    while i < TagSize
      invariant 0 <= i <= TagSize
      invariant eql == 0 || eql == 1
      invariant eql == 1 <==> auth[..i] == ct[off..off + i]
    {
      eql := eql & (if auth[i] ^ ct[off + i] == 0 then 1 else 0);
      assert auth[..i + 1] == auth[..i] + [auth[i]];
      assert ct[off..off + i + 1] == ct[off..off + i] + [ct[off + i]];
      i := i + 1;
    }
    assert auth[..TagSize] == auth[..];
    ok := eql == 1;
  }

  /** `d(impl, derivedKs, nonce, dst, ad, ct)`: dst receives the first
      |ct| - 16 bytes of ct decrypted under the last 16, and the result says
      whether the tag recomputed over ad and dst equals those 16 bytes. */
  method D(aes: AesRound, derivedKs: array<bv8>, nonce: array<bv8>, dst: array<bv8>,
           ad: array<bv8>, ct: array<bv8>) returns (ok: bool)
    requires derivedKs.Length == StksBytes && nonce.Length == NonceSize
    requires ct.Length >= TagSize && dst.Length == ct.Length - TagSize
    requires dst != derivedKs && dst != nonce && dst != ad && dst != ct
    modifies dst
    ensures dst[..] == Crypt(aes, Rows(derivedKs[..]), nonce[..], ct[ct.Length - TagSize..], ct[..ct.Length - TagSize])
    ensures ok <==> Tag(aes, Rows(derivedKs[..]), nonce[..], ad[..], dst[..]) == ct[ct.Length - TagSize..]
  {
    var ctLen := ct.Length - TagSize;
    var decNonce := NonceBlock(nonce);
    ghost var was := dst[..];
    CryptData(aes, dst, ct, ctLen, derivedKs, ct, ctLen, decNonce, nonce[..]);
    assert ct[ctLen..ctLen + 16] == ct[ctLen..] && derivedKs[..] == old(derivedKs[..]);
    SpliceWhole(was, Crypt(aes, Rows(derivedKs[..]), nonce[..], ct[ctLen..], ct[..ctLen]));
    var auth := ComputeTag(aes, derivedKs, decNonce, nonce[..], ad, dst);
    ok := TagsEqual(auth, ct, ctLen);
  }

  /** What D computes decides Open: the decrypted bytes when the tags agree,
      ErrOpen otherwise. */
  lemma OpenOfD(aes: AesRound, ks: seq<Block>, nonce: seq<bv8>, ad: seq<bv8>, ct: seq<bv8>, msg: seq<bv8>, ok: bool)
    requires |ks| == StkCount && |nonce| == NonceSize && |ct| >= TagSize
    requires msg == Crypt(aes, ks, nonce, ct[|ct| - TagSize..], ct[..|ct| - TagSize])
    requires ok <==> Tag(aes, ks, nonce, ad, msg) == ct[|ct| - TagSize..]
    ensures Open(aes, ks, nonce, ad, ct) == if ok then Success(msg) else Failure(ErrOpen)
  {
  }
}
