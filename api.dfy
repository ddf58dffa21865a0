/** The exported `AEAD` class of deoxysii.js: key schedule at construction,
    then `encrypt` and `decrypt` with argument checks and the errors they
    throw, on top of the methods E and D of module Construction. */
module Api {
  import opened Bytes
  import opened Tweakey
  import opened Cipher
  import opened Aead
  import opened Construction

  /** `implCt32` or `implUnsafeVartime`: two implementations of the same
      block cipher that differ only in timing behaviour, so both compute
      with the one AES round of the model. */
  datatype Backend = Ct32 | UnsafeVartime

  /** An optional buffer: JavaScript's `null` or a `Uint8Array`. */
  datatype Option<T> = None | Some(value: T)

  /** The bytes of an optional buffer; `null` reads as the empty buffer
      `zeroBuffer`. */
  ghost function Contents(b: Option<array<bv8>>): seq<bv8>
    reads if b.Some? then {b.value} else {}
  {
    if b.Some? then b.value[..] else []
  }

  /** `null` replaced by a fresh empty buffer. */
  method OrEmpty(b: Option<array<bv8>>) returns (r: array<bv8>)
    ensures b.Some? ==> r == b.value
    ensures b.None? ==> fresh(r)
    ensures r[..] == Contents(b)
  {
    if b.Some? {
      r := b.value;
    } else {
      r := new bv8[0];
    }
  }

  /** `dst.set(new Uint8Array(dst.length))`. */
  method Wipe(dst: array<bv8>)
    modifies dst
    ensures dst[..] == Zeros(dst.Length)
  {
    forall k | 0 <= k < dst.Length {
      dst[k] := 0;
    }
  }

  class AEAD {
    const impl: Backend
    /** The keyless AES round both backends compute. */
    const aes: AesRound
    /** The 17 K contributions of the sub-tweak keys, 16 bytes each. */
    const derivedKs: array<bv8>

    ghost predicate Valid() {
      derivedKs.Length == StksBytes
    }

    /** The K contributions as blocks. */
    ghost function Ks(): (ks: seq<Block>)
      reads derivedKs
      requires Valid()
      ensures |ks| == StkCount
    {
      Rows(derivedKs[..])
    }

    /** `new AEAD(key, useUnsafeVartime)` once the key is 32 bytes long.  As
        `stkDeriveK` runs the LFSRs on the key in place, the caller's key
        buffer ends up holding TK3 and TK2 after 16 rounds. */
    constructor (aes: AesRound, key: array<bv8>, useUnsafeVartime: bool)
      requires key.Length == KeySize
      modifies key
      ensures Valid() && fresh(derivedKs) && this.aes == aes
      ensures impl == if useUnsafeVartime then UnsafeVartime else Ct32
      ensures Ks() == DeriveK(old(key[..]))
      ensures key[0..16] == Tk3At(old(key[0..16]), Rounds)
      ensures key[16..32] == Tk2At(old(key[16..32]), Rounds)
    {
      this.impl := if useUnsafeVartime then UnsafeVartime else Ct32;
      this.aes := aes;
      var stks := NewStks();
      this.derivedKs := stks;
      new;
      StkDeriveK(key, derivedKs);
    }

    /** `encrypt(nonce, plaintext, associatedData)`: ErrNonceSize unless the
        nonce is 15 bytes long, otherwise a fresh buffer holding Seal. */
    method Encrypt(nonce: array<bv8>, plaintext: Option<array<bv8>>, associatedData: Option<array<bv8>>)
        returns (r: Result<array<bv8>>)
      requires Valid()
      ensures nonce.Length != NonceSize ==> r == Failure(ErrNonceSize)
      ensures nonce.Length == NonceSize ==>
                r.Success? && fresh(r.value)
                && r.value[..] == Seal(aes, Ks(), nonce[..], Contents(associatedData), Contents(plaintext))
    {
      if nonce.Length != NonceSize {
        return Failure(ErrNonceSize);
      }
      var msg := OrEmpty(plaintext);
      var ad := OrEmpty(associatedData);
      var dst := new bv8[msg.Length + TagSize](_ => 0);
      E(aes, derivedKs, nonce, dst, ad, msg);
      r := Success(dst);
    }

    /** `decrypt(nonce, ciphertext, associatedData)`: ErrNonceSize unless the
        nonce is 15 bytes long, otherwise what Open gives, in a fresh buffer.
        On an authentication failure the decrypted bytes are wiped before the
        error is thrown. */
    method Decrypt(nonce: array<bv8>, ciphertext: array<bv8>, associatedData: Option<array<bv8>>)
        returns (r: Result<array<bv8>>)
      requires Valid()
      ensures nonce.Length != NonceSize ==> r == Failure(ErrNonceSize)
      ensures nonce.Length == NonceSize ==>
                var o := Open(aes, Ks(), nonce[..], Contents(associatedData), ciphertext[..]);
                (r.Success? <==> o.Success?)
                && (r.Success? ==> fresh(r.value) && r.value[..] == o.value)
                && (r.Failure? ==> r.error == o.error)
    {
      if nonce.Length != NonceSize {
        return Failure(ErrNonceSize);
      }
      ghost var ks := Ks();
      ghost var c := ciphertext[..];
      ghost var a := Contents(associatedData);
      ghost var n := nonce[..];
      if ciphertext.Length < TagSize {
        OpenShort(aes, ks, n, a, c);
        return Failure(ErrOpen);
      }
      var ad := OrEmpty(associatedData);
      var dst := new bv8[ciphertext.Length - TagSize](_ => 0);
      var ok := D(aes, derivedKs, nonce, dst, ad, ciphertext);
      ghost var m := dst[..];
      assert derivedKs[..] == old(derivedKs[..]) && ad[..] == a && nonce[..] == n && ciphertext[..] == c;
      assert c[|c| - TagSize..] == ciphertext[ciphertext.Length - TagSize..];
      assert c[..|c| - TagSize] == ciphertext[..ciphertext.Length - TagSize];
      OpenOfD(aes, ks, n, a, c, m, ok);
      if !ok {
        Wipe(dst);
        return Failure(ErrOpen);
      }
      r := Success(dst);
    }
  }

  /** `new AEAD(key, useUnsafeVartime)`: ErrKeySize for a key that is not 32
      bytes long, which is then left alone. */
  method NewAEAD(aes: AesRound, key: array<bv8>, useUnsafeVartime: bool) returns (r: Result<AEAD>)
    modifies key
    ensures key.Length != KeySize ==> r == Failure(ErrKeySize) && key[..] == old(key[..])
    ensures key.Length == KeySize ==>
              r.Success? && fresh(r.value) && fresh(r.value.derivedKs) && r.value.Valid()
              && r.value.aes == aes && r.value.Ks() == DeriveK(old(key[..]))
              && r.value.impl == (if useUnsafeVartime then UnsafeVartime else Ct32)
              && key[0..16] == Tk3At(old(key[0..16]), Rounds)
              && key[16..32] == Tk2At(old(key[16..32]), Rounds)
  {
    if key.Length != KeySize {
      return Failure(ErrKeySize);
    }
    var a := new AEAD(aes, key, useUnsafeVartime);
    r := Success(a);
  }
}
