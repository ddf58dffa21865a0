/** Deoxys-BC-384, the tweakable block cipher, and the four operations each
    backend of deoxysii.js offers (`bcEncrypt`, `bcKeystreamx2`, `bcTagx1`,
    `bcTagx2`).

    The AES round itself (SubBytes, ShiftRows and MixColumns of FIPS 197
    section 5.1) lives in the bsaes library, which is not part of this model:
    it enters as the parameter `aes`, an arbitrary function from blocks to
    blocks.  AddRoundKey is the XOR of a sub-tweak key, which the model does
    state.  The fused two-block operations are modelled as the variable-time
    backend defines them, by two single-block calls. */
module Cipher {
  import opened Bytes
  import opened Tweakey

  /** SubBytes, ShiftRows and MixColumns of one AES round. */
  type AesRound = Block -> Block

  /** The cipher state after the whitening with STK[0] and i further rounds,
      round j ending with AddRoundKey(STK[j]). */
  function State(aes: AesRound, stks: seq<Block>, b: Block, i: nat): Block
    requires |stks| == StkCount && i <= Rounds
  {
    if i == 0 then Xor(b, stks[0]) else Xor(aes(State(aes, stks, b, i - 1)), stks[i])
  }

  /** The 17-round Deoxys-BC permutation under the given sub-tweak keys. */
  function BC(aes: AesRound, stks: seq<Block>, b: Block): Block
    requires |stks| == StkCount
  {
    State(aes, stks, b, Rounds)
  }

  /** Deoxys-BC-384 under K contributions ks and a tweak. */
  function Permute(aes: AesRound, ks: seq<Block>, tweak: Block, b: Block): Block
    requires |ks| == StkCount
  {
    BC(aes, Stk(ks, tweak), b)
  }

  ghost predicate Injective(aes: AesRound) {
    forall x: Block, y: Block :: aes(x) == aes(y) ==> x == y
  }

  /** When the AES round is injective, so is every round count of the cipher:
      Deoxys-BC is a permutation of blocks for each sub-tweak-key schedule. */
  lemma {:induction false} StateInjective(aes: AesRound, stks: seq<Block>, b1: Block, b2: Block, i: nat)
    requires Injective(aes) && |stks| == StkCount && i <= Rounds
    requires State(aes, stks, b1, i) == State(aes, stks, b2, i)
    ensures b1 == b2
  {
    if i == 0 {
      XorCancel(b1, stks[0]);
      XorCancel(b2, stks[0]);
    } else {
      var s1 := State(aes, stks, b1, i - 1);
      var s2 := State(aes, stks, b2, i - 1);
      XorCancel(aes(s1), stks[i]);
      XorCancel(aes(s2), stks[i]);
      assert aes(s1) == aes(s2);
      StateInjective(aes, stks, b1, b2, i - 1);
    }
  }

  lemma PermuteInjective(aes: AesRound, ks: seq<Block>, tweak: Block, b1: Block, b2: Block)
    requires Injective(aes) && |ks| == StkCount
    requires Permute(aes, ks, tweak, b1) == Permute(aes, ks, tweak, b2)
    ensures b1 == b2
  {
    StateInjective(aes, Stk(ks, tweak), b1, b2, Rounds);
  }

  // ---------------------------------------------------------------------
  // The backend operations

  /** One AES round without AddRoundKey, in place. */
  method AesRoundInPlace(aes: AesRound, q: array<bv8>)
    requires q.Length == 16
    modifies q
    ensures q[..] == aes(old(q[..]))
  {
    var r := aes(q[..]);
    forall k | 0 <= k < 16 {
      q[k] := r[k];
    }
  }

  /** AddRoundKey: q ^= STK[i], row i of the sub-tweak-key table. */
  method AddRoundKey(q: array<bv8>, stks: array<bv8>, i: nat)
    requires q.Length == 16 && stks.Length == StksBytes && q != stks && i < StkCount
    modifies q
    ensures q[..] == Xor(old(q[..]), Rows(stks[..])[i])
  {
    ghost var a := q[..];
    assert stks[16 * i..16 * i + 16] == Rows(stks[..])[i] by {
      RowAt(stks[..], i);
    }
    XorBytes(q, 0, q, 0, stks, 16 * i, StkSize);
    assert a[0..16] == a;
    SpliceWhole(a, Xor(a, Rows(stks[..])[i]));
  }

  /** The whitening and the 16 rounds of `bcEncrypt`, in place on the
      16-byte state q under the sub-tweak keys in stks. */
  method EncryptState(aes: AesRound, q: array<bv8>, stks: array<bv8>)
    requires q.Length == 16 && stks.Length == StksBytes && q != stks
    modifies q
    ensures q[..] == BC(aes, Rows(stks[..]), old(q[..]))
  {
    ghost var s := Rows(stks[..]);
    ghost var b: Block := q[..];
    AddRoundKey(q, stks, 0);
    for i := 1 to Rounds + 1
      invariant q[..] == State(aes, s, b, i - 1)
    {
      AesRoundInPlace(aes, q);
      AddRoundKey(q, stks, i);
    }
  }

  /** Deoxys-BC-384 in place on the 16-byte state q: the sub-tweak keys are
      derived into a fresh table, then the rounds run. */
  method PermuteState(aes: AesRound, q: array<bv8>, derivedKs: array<bv8>, tweak: array<bv8>)
    requires q.Length == 16 && derivedKs.Length == StksBytes && tweak.Length == 16
    requires q != derivedKs && q != tweak
    modifies q
    ensures q[..] == Permute(aes, Rows(derivedKs[..]), tweak[..], old(q[..]))
  {
    var stks := NewStks();
    DeriveSubTweakKeys(stks, derivedKs, tweak);
    EncryptState(aes, q, stks);
  }

  /** `bcEncrypt(ciphertext, derivedKs, tweak, plaintext)`: whitening with
      STK[0], then 16 rounds, the output written to the 16-byte view of ct at
      ctOff.  The input is loaded before anything is stored, so ct and pt may
      be the same buffer (the tag finalisation does that). */
  method BcEncrypt(aes: AesRound, ct: array<bv8>, ctOff: nat, derivedKs: array<bv8>, tweak: array<bv8>,
                   pt: array<bv8>, ptOff: nat)
    requires ctOff + 16 <= ct.Length && ptOff + 16 <= pt.Length
    requires derivedKs.Length == StksBytes && tweak.Length == 16
    requires ct != derivedKs && ct != tweak
    modifies ct
    ensures ct[..] == Splice(old(ct[..]), ctOff,
      Permute(aes, Rows(derivedKs[..]), old(tweak[..]), old(pt[ptOff..ptOff + 16])))
  {
    ghost var ks := Rows(derivedKs[..]);
    ghost var p := Permute(aes, ks, tweak[..], pt[ptOff..ptOff + 16]);
    var q := new bv8[16](_ => 0);
    forall k | 0 <= k < 16 {
      q[k] := pt[ptOff + k];
    }
    assert q[..] == pt[ptOff..ptOff + 16];
    PermuteState(aes, q, derivedKs, tweak);
    assert derivedKs[..] == old(derivedKs[..]) && tweak[..] == old(tweak[..]);
    ghost var b: Block := pt[ptOff..ptOff + 16];
    ghost var tw: Block := tweak[..];
    ghost var ks2 := Rows(derivedKs[..]);
    assert q[..] == Permute(aes, ks2, tw, b);
    assert ks2 == ks;
    assert tw == old(tweak[..]);
    assert b == old(pt[ptOff..ptOff + 16]);
    assert q[..] == p;
    ghost var was := ct[..];
    forall k | 0 <= k < 16 {
      ct[ctOff + k] := q[k];
    }
    assert ct[..] == Splice(was, ctOff, p) by {
      assert forall k :: 0 <= k < ct.Length ==> ct[k] == Splice(was, ctOff, p)[k];
    }
    assert derivedKs[..] == old(derivedKs[..]);
  }

  /** `bcKeystreamx2`: two keystream blocks for the same input under two
      tweaks, written to the two halves of ct. */
  method BcKeystreamX2(aes: AesRound, ct: array<bv8>, derivedKs: array<bv8>, t0: array<bv8>, t1: array<bv8>,
                       nonce: array<bv8>)
    requires ct.Length == 32 && derivedKs.Length == StksBytes
    requires t0.Length == 16 && t1.Length == 16 && nonce.Length == 16
    requires ct != derivedKs && ct != t0 && ct != t1 && ct != nonce
    modifies ct
    ensures ct[..] == Permute(aes, Rows(derivedKs[..]), t0[..], nonce[..])
                    + Permute(aes, Rows(derivedKs[..]), t1[..], nonce[..])
  {
    ghost var ks := Rows(derivedKs[..]);
    ghost var k0 := Permute(aes, ks, t0[..], nonce[..]);
    ghost var k1 := Permute(aes, ks, t1[..], nonce[..]);
    ghost var c0 := ct[..];
    assert nonce[0..16] == nonce[..];
    BcEncrypt(aes, ct, 0, derivedKs, t0, nonce, 0);
    ghost var c1 := ct[..];
    BcEncrypt(aes, ct, 16, derivedKs, t1, nonce, 0);
    assert ct[0..16] == k0 && ct[16..32] == k1 by {
      SpliceSlice(c0, 0, k0, 0, 16);
      SpliceSlice(c1, 16, k1, 0, 16);
      SpliceSlice(c1, 16, k1, 16, 32);
    }
    assert ct[..] == ct[0..16] + ct[16..32];
  }

  /** `bcTagx1`: tag ^= BC(tweak, block). */
  method BcTagX1(aes: AesRound, tag: array<bv8>, derivedKs: array<bv8>, tweak: array<bv8>,
                 pt: array<bv8>, ptOff: nat)
    requires tag.Length == 16 && derivedKs.Length == StksBytes && tweak.Length == 16
    requires ptOff + 16 <= pt.Length
    requires tag != derivedKs && tag != tweak
    modifies tag
    ensures tag[..] == Xor(old(tag[..]), Permute(aes, Rows(derivedKs[..]), tweak[..], old(pt[ptOff..ptOff + 16])))
  {
    ghost var p := Permute(aes, Rows(derivedKs[..]), tweak[..], pt[ptOff..ptOff + 16]);
    ghost var was := tag[..];
    var tmp := new bv8[16](_ => 0);
    BcEncrypt(aes, tmp, 0, derivedKs, tweak, pt, ptOff);
    assert tmp[..] == p by {
      SpliceWhole(Zeros(0) + tmp[..], p);
    }
    XorBytes(tag, 0, tag, 0, tmp, 0, 16);
    assert tag[..] == Xor(was, p) by {
      assert was[0..16] == was && tmp[0..16] == tmp[..];
      SpliceWhole(was, Xor(was, p));
    }
  }

  /** `bcTagx2`: tag ^= BC(t0, block0) ^ BC(t1, block1) for the two blocks of
      the 32-byte view of pt at ptOff. */
  method BcTagX2(aes: AesRound, tag: array<bv8>, derivedKs: array<bv8>, t0: array<bv8>, t1: array<bv8>,
                 pt: array<bv8>, ptOff: nat)
    requires tag.Length == 16 && derivedKs.Length == StksBytes && t0.Length == 16 && t1.Length == 16
    requires ptOff + 32 <= pt.Length
    requires tag != derivedKs && tag != t0 && tag != t1
    modifies tag
    ensures tag[..] == Xor(Xor(old(tag[..]),
      Permute(aes, Rows(derivedKs[..]), t0[..], old(pt[ptOff..ptOff + 16]))),
      Permute(aes, Rows(derivedKs[..]), t1[..], old(pt[ptOff + 16..ptOff + 32])))
  {
    ghost var ks := Rows(derivedKs[..]);
    ghost var p0 := Permute(aes, ks, t0[..], pt[ptOff..ptOff + 16]);
    ghost var p1 := Permute(aes, ks, t1[..], pt[ptOff + 16..ptOff + 32]);
    ghost var was := tag[..];
    var tmp := new bv8[32](_ => 0);
    ghost var m0 := tmp[..];
    BcEncrypt(aes, tmp, 0, derivedKs, t0, pt, ptOff);
    ghost var m1 := tmp[..];
    BcEncrypt(aes, tmp, 16, derivedKs, t1, pt, ptOff + 16);
    assert tmp[0..16] == p0 && tmp[16..32] == p1 by {
      SpliceSlice(m0, 0, p0, 0, 16);
      SpliceSlice(m1, 16, p1, 0, 16);
      SpliceSlice(m1, 16, p1, 16, 32);
    }
    XorBytes(tag, 0, tag, 0, tmp, 0, 16);
    ghost var mid := tag[..];
    assert mid == Xor(was, p0) by {
      assert was[0..16] == was;
      SpliceWhole(was, Xor(was, p0));
    }
    XorBytes(tag, 0, tag, 0, tmp, 16, 16);
    assert tag[..] == Xor(mid, p1) by {
      assert mid[0..16] == mid;
      SpliceWhole(mid, Xor(mid, p1));
    }
  }
}
