/** The TWEAKEY schedule of Deoxys-BC-384 as deoxysii.js computes it: the
    byte permutation h, the two LFSRs, the round constants, the per-key
    K contributions (`stkDeriveK`) and the per-tweak sub-tweak keys
    (`deriveSubTweakKeys`).

    The source keeps the 17 K contributions (and the 17 sub-tweak keys) as a
    JavaScript array of 17 separate 16-byte `Uint8Array`s.  The model keeps
    them in one `array<bv8>` of 17 * 16 bytes, row i starting at 16 * i. */
module Tweakey {
  import opened Bytes

  const Rounds: nat := 16
  const StkCount: nat := 17
  const StkSize: nat := 16
  /** Bytes of a flattened table of 17 rows. */
  const StksBytes: nat := 272

  /** The round constants `rcons`, one per sub-tweak key. */
  const RCons: seq<bv8> := [
    0x2f, 0x5e, 0xbc, 0x63, 0xc6, 0x97, 0x35, 0x6a,
    0xd4, 0xb3, 0x7d, 0xfa, 0xef, 0xc5, 0x91, 0x39,
    0x72
  ]

  /** Byte k of h(t) is byte HTable[k] of t. */
  const HTable: seq<nat> := [1, 6, 11, 12, 5, 10, 15, 0, 9, 14, 3, 4, 13, 2, 7, 8]
  /** The inverse permutation: byte k of t lands at position HInvTable[k] of h(t). */
  const HInvTable: seq<nat> := [7, 0, 13, 10, 11, 4, 1, 14, 15, 8, 5, 2, 3, 12, 9, 6]

  // ---------------------------------------------------------------------
  // Specification functions

  function HPerm(t: Block): Block {
    seq(16, k requires 0 <= k < 16 => t[HTable[k]])
  }

  function HInvPerm(t: Block): Block {
    seq(16, k requires 0 <= k < 16 => t[HInvTable[k]])
  }

  /** h applied i times. */
  function HPow(t: Block, i: nat): Block
    decreases i
  {
    if i == 0 then t else HPow(HPerm(t), i - 1)
  }

  /** One more application of h is h applied to the result. */
  lemma {:induction false} HPowStep(t: Block, i: nat)
    ensures HPow(t, i + 1) == HPerm(HPow(t, i))
    decreases i
  {
    if i > 0 {
      HPowStep(HPerm(t), i - 1);
    }
  }

  /** One byte of `lfsr2`: shift left by one, feedback bit x7 ^ x5 in bit 0.
      JavaScript computes `x << 1` on a number (up to 9 bits); storing it into the
      `Uint8Array` keeps the low 8 bits, which is the mask below. */
  function Lfsr2Byte(x: bv8): bv8 {
    var wide: bv16 := ((x as bv16) << 1) | (((x >> 7) ^ ((x >> 5) & 1)) as bv16);
    (wide & 0xFF) as bv8
  }

  /** One byte of `lfsr3`: shift right by one, feedback bit x0 ^ x6 in bit 7. */
  function Lfsr3Byte(x: bv8): bv8 {
    (x >> 1) | (((x & 1) ^ ((x >> 6) & 1)) << 7)
  }

  function Lfsr2(t: Block): Block {
    seq(16, k requires 0 <= k < 16 => Lfsr2Byte(t[k]))
  }

  function Lfsr3(t: Block): Block {
    seq(16, k requires 0 <= k < 16 => Lfsr3Byte(t[k]))
  }

  /** The 16-byte round constant that `xorRC(t, i)` adds to t. */
  function RC(i: nat): Block
    requires i < StkCount
  {
    var c := RCons[i];
    [1, 2, 4, 8, c, c, c, c, 0, 0, 0, 0, 0, 0, 0, 0]
  }

  /** TK2 and TK3 after i rounds of the schedule. */
  function Tk2At(tk2: Block, i: nat): Block {
    if i == 0 then tk2 else HPerm(Lfsr2(Tk2At(tk2, i - 1)))
  }

  function Tk3At(tk3: Block, i: nat): Block {
    if i == 0 then tk3 else HPerm(Lfsr3(Tk3At(tk3, i - 1)))
  }

  /** K contribution of round i for TK2 = key[16..32] and TK3 = key[0..16]. */
  function KRow(tk2: Block, tk3: Block, i: nat): Block
    requires i < StkCount
  {
    Xor(Xor(Tk2At(tk2, i), Tk3At(tk3, i)), RC(i))
  }

  /** The 17 K contributions of a 32-byte key. */
  function DeriveK(key: seq<bv8>): (ks: seq<Block>)
    requires |key| == 32
    ensures |ks| == StkCount
    ensures ks[0] == Xor(Xor(key[16..32], key[..16]), RC(0))
  {
    seq(StkCount, i requires 0 <= i < StkCount => KRow(key[16..32], key[..16], i))
  }

  /** The 17 sub-tweak keys for K contributions ks and tweak t:
      STK[i] = K[i] ^ h^i(t). */
  function Stk(ks: seq<Block>, t: Block): (stks: seq<Block>)
    requires |ks| == StkCount
    ensures |stks| == StkCount
  {
    seq(StkCount, i requires 0 <= i < StkCount => Xor(ks[i], HPow(t, i)))
  }

  /** The rows of a flattened 17 x 16 table. */
  function Rows(flat: seq<bv8>): (rows: seq<Block>)
    requires |flat| == StksBytes
    ensures |rows| == StkCount
  {
    seq(StkCount, i requires 0 <= i < StkCount => flat[16 * i..16 * i + 16])
  }

  lemma DeriveKRow(key: seq<bv8>, r: nat)
    requires |key| == 32 && r < StkCount
    ensures DeriveK(key)[r] == KRow(key[16..32], key[..16], r)
  {
  }

  lemma StkRow(ks: seq<Block>, t: Block, r: nat)
    requires |ks| == StkCount && r < StkCount
    ensures Stk(ks, t)[r] == Xor(ks[r], HPow(t, r))
  {
  }

  lemma RowAt(flat: seq<bv8>, r: nat)
    requires |flat| == StksBytes && r < StkCount
    ensures Rows(flat)[r] == flat[16 * r..16 * r + 16]
  {
  }

  /** The first n rows of the flattened table are rows[..n]. */
  ghost predicate RowsUpTo(flat: seq<bv8>, rows: seq<Block>, n: nat)
    requires |flat| == StksBytes && |rows| == StkCount && n <= StkCount
  {
    forall r :: 0 <= r < n ==> flat[16 * r..16 * r + 16] == rows[r]
  }

  /** Writing row n, and nothing else, extends the rows that are done. */
  lemma RowsExtend(before: seq<bv8>, after: seq<bv8>, rows: seq<Block>, n: nat)
    requires |before| == StksBytes && |after| == StksBytes && |rows| == StkCount && n < StkCount
    requires RowsUpTo(before, rows, n)
    requires after[16 * n..16 * n + 16] == rows[n]
    requires forall k :: 0 <= k < StksBytes && !(16 * n <= k < 16 * n + 16) ==> after[k] == before[k]
    ensures RowsUpTo(after, rows, n + 1)
  {
    forall r | 0 <= r < n ensures after[16 * r..16 * r + 16] == rows[r] {
      assert after[16 * r..16 * r + 16] == before[16 * r..16 * r + 16];
    }
  }

  /** A flattened table whose 16-byte rows are `rows`. */
  lemma RowsOf(flat: seq<bv8>, rows: seq<Block>)
    requires |flat| == StksBytes && |rows| == StkCount
    requires RowsUpTo(flat, rows, StkCount)
    ensures Rows(flat) == rows
  {
    forall r | 0 <= r < StkCount ensures Rows(flat)[r] == rows[r] {
      assert Rows(flat)[r] == flat[16 * r..16 * r + 16];
    }
  }

  // ---------------------------------------------------------------------
  // Properties

  lemma Lfsr3InvertsLfsr2(x: bv8)
    ensures Lfsr3Byte(Lfsr2Byte(x)) == x && Lfsr2Byte(Lfsr3Byte(x)) == x
  {
  }

  /** The 9-bit intermediate of `lfsr2` loses exactly its top bit: the result
      is the 8-bit left shift with the feedback bit in bit 0. */
  lemma Lfsr2Truncates(x: bv8)
    ensures Lfsr2Byte(x) == (x << 1) | ((x >> 7) ^ ((x >> 5) & 1))
  {
  }

  lemma TablesInverse(k: nat)
    requires k < 16
    ensures HInvTable[k] < 16 && HTable[k] < 16
    ensures HTable[HInvTable[k]] == k && HInvTable[HTable[k]] == k
  {
  }

  lemma {:induction false} HPermInverse(t: Block)
    ensures HInvPerm(HPerm(t)) == t && HPerm(HInvPerm(t)) == t
  {
    var u, v := HInvPerm(HPerm(t)), HPerm(HInvPerm(t));
    forall k | 0 <= k < 16
      ensures u[k] == t[k] && v[k] == t[k]
    {
      TablesInverse(k);
    }
    assert u == t && v == t;
  }

  /** h is a product of two 8-cycles, so h^8 is the identity. */
  lemma {:induction false} HOrderEight(t: Block)
    ensures HPow(t, 8) == t
  {
    var t1 := HPerm(t);
    var t2 := HPerm(t1);
    var t3 := HPerm(t2);
    var t4 := HPerm(t3);
    var t5 := HPerm(t4);
    var t6 := HPerm(t5);
    var t7 := HPerm(t6);
    var t8 := HPerm(t7);
    assert HPow(t, 8) == t8 by {
      assert HPow(t, 8) == HPow(t1, 7);
      assert HPow(t1, 7) == HPow(t2, 6);
      assert HPow(t2, 6) == HPow(t3, 5);
      assert HPow(t3, 5) == HPow(t4, 4);
      assert HPow(t4, 4) == HPow(t5, 3);
      assert HPow(t5, 3) == HPow(t6, 2);
      assert HPow(t6, 2) == HPow(t7, 1);
      assert HPow(t7, 1) == HPow(t8, 0);
    }
    assert forall k :: 0 <= k < 16 ==> t8[k] == t[k];
  }

  /** `xorRC` changes bytes 0..3 by 1, 2, 4, 8, bytes 4..7 by `rcons[i]` and
      leaves bytes 8..15 alone. */
  lemma XorRCLayout(t: Block, i: nat)
    requires i < StkCount
    ensures forall k :: 0 <= k < 4 ==> Xor(t, RC(i))[k] == t[k] ^ ((1 as bv8) << k)
    ensures forall k :: 4 <= k < 8 ==> Xor(t, RC(i))[k] == t[k] ^ RCons[i]
    ensures Xor(t, RC(i))[8..] == t[8..]
  {
  }

  /** For i >= 1, K[i] is built from TK2 and TK3 each advanced by one more
      round (h after the LFSR) than for K[i - 1]. */
  lemma {:induction false} KRowStep(key: seq<bv8>, i: nat)
    requires |key| == 32 && 1 <= i < StkCount
    ensures Xor(DeriveK(key)[i], RC(i)) ==
      Xor(HPerm(Lfsr2(Tk2At(key[16..32], i - 1))), HPerm(Lfsr3(Tk3At(key[..16], i - 1))))
  {
    var a := Xor(HPerm(Lfsr2(Tk2At(key[16..32], i - 1))), HPerm(Lfsr3(Tk3At(key[..16], i - 1))));
    assert DeriveK(key)[i] == Xor(a, RC(i));
    XorCancel(a, RC(i));
  }

  /** STK[0] = K[0] ^ T, and the tweak part of each later sub-tweak key is h of
      the one before: (STK[i] ^ K[i]) = h(STK[i - 1] ^ K[i - 1]). */
  lemma StkSchedule(ks: seq<Block>, t: Block)
    requires |ks| == StkCount
    ensures Stk(ks, t)[0] == Xor(ks[0], t)
    ensures forall i :: 1 <= i < StkCount ==>
      Xor(Stk(ks, t)[i], ks[i]) == HPerm(Xor(Stk(ks, t)[i - 1], ks[i - 1]))
  {
    forall i | 0 <= i < StkCount ensures Xor(Stk(ks, t)[i], ks[i]) == HPow(t, i) {
      XorComm(ks[i], HPow(t, i));
      XorCancel(HPow(t, i), ks[i]);
    }
    forall i | 1 <= i < StkCount ensures HPow(t, i) == HPerm(HPow(t, i - 1)) {
      HPowStep(t, i - 1);
    }
  }

  /** Distinct tweaks give distinct sub-tweak keys under the same key. */
  lemma StkInjective(ks: seq<Block>, t1: Block, t2: Block)
    requires |ks| == StkCount
    requires Stk(ks, t1) == Stk(ks, t2)
    ensures t1 == t2
  {
    StkRow(ks, t1, 0);
    StkRow(ks, t2, 0);
    XorComm(ks[0], t1);
    XorComm(ks[0], t2);
    XorCancel(t1, ks[0]);
    XorCancel(t2, ks[0]);
  }

  // ---------------------------------------------------------------------
  // The in-place routines of deoxysii.js

  /** `h(t)` on the 16-byte view of t starting at off. */
  method H(t: array<bv8>, off: nat)
    requires off + 16 <= t.Length
    modifies t
    ensures t[..] == Splice(old(t[..]), off, HPerm(old(t[off..off + 16])))
  {
    var tmp := [t[off + 1], t[off + 6], t[off + 11], t[off + 12], t[off + 5], t[off + 10], t[off + 15], t[off + 0],
                t[off + 9], t[off + 14], t[off + 3], t[off + 4], t[off + 13], t[off + 2], t[off + 7], t[off + 8]];
    ghost var r := Splice(t[..], off, HPerm(t[off..off + 16]));
    assert tmp == HPerm(t[off..off + 16]);
    forall k | 0 <= k < 16 {
      t[off + k] := tmp[k];
    }
    assert forall k :: 0 <= k < t.Length ==> t[k] == r[k];
  }

  method Lfsr2InPlace(t: array<bv8>, off: nat)
    requires off + 16 <= t.Length
    modifies t
    ensures t[..] == Splice(old(t[..]), off, Lfsr2(old(t[off..off + 16])))
  {
    ghost var was := t[..];
    ghost var r := Splice(was, off, Lfsr2(was[off..off + 16]));
    for i := 0 to StkSize
      invariant forall k :: 0 <= k < t.Length && !(off <= k < off + i) ==> t[k] == was[k]
      invariant forall k :: off <= k < off + i ==> t[k] == Lfsr2Byte(was[k])
    {
      var x := t[off + i];
      var x7 := x >> 7;
      var x5 := (x >> 5) & 1;
      // `(x << 1) | (x7 ^ x5)` is a 9-bit number; the store keeps its low byte
      var wide: bv16 := ((x as bv16) << 1) | ((x7 ^ x5) as bv16);
      t[off + i] := (wide & 0xFF) as bv8;
    }
    assert forall k :: 0 <= k < t.Length ==> t[k] == r[k];
  }

  method Lfsr3InPlace(t: array<bv8>, off: nat)
    requires off + 16 <= t.Length
    modifies t
    ensures t[..] == Splice(old(t[..]), off, Lfsr3(old(t[off..off + 16])))
  {
    ghost var was := t[..];
    ghost var r := Splice(was, off, Lfsr3(was[off..off + 16]));
    for i := 0 to StkSize
      invariant forall k :: 0 <= k < t.Length && !(off <= k < off + i) ==> t[k] == was[k]
      invariant forall k :: off <= k < off + i ==> t[k] == Lfsr3Byte(was[k])
    {
      var x := t[off + i];
      var x0 := x & 1;
      var x6 := (x >> 6) & 1;
      t[off + i] := (x >> 1) | ((x0 ^ x6) << 7);
    }
    assert forall k :: 0 <= k < t.Length ==> t[k] == r[k];
  }

  /** `xorRC(t, i)` on the 16-byte view of t starting at off: the eight
      single-byte updates of the source, written as one parallel assignment. */
  method XorRCInPlace(t: array<bv8>, off: nat, i: nat)
    requires off + 16 <= t.Length && i < StkCount
    modifies t
    ensures t[..] == Splice(old(t[..]), off, Xor(old(t[off..off + 16]), RC(i)))
  {
    ghost var was := t[..];
    var rc := RC(i);
    forall k | 0 <= k < 8 {
      t[off + k] := t[off + k] ^ rc[k];
    }
    ghost var r := Splice(was, off, Xor(was[off..off + 16], rc));
    assert forall k :: 8 <= k < 16 ==> rc[k] == 0;
    assert forall k :: 0 <= k < t.Length ==> t[k] == r[k];
  }

  /** `newStks()`: 17 zeroed 16-byte rows. */
  method NewStks() returns (stks: array<bv8>)
    ensures fresh(stks) && stks.Length == StksBytes
    ensures stks[..] == Zeros(StksBytes)
  {
    stks := new bv8[StksBytes](_ => 0);
  }

  /** `stkDeriveK(key, derivedKs)`.  TK2 and TK3 are `subarray` views of the
      caller's key, and the schedule advances them in place: afterwards the
      key buffer holds TK3 and TK2 as they are after round 16. */
  method StkDeriveK(key: array<bv8>, derivedKs: array<bv8>)
    requires key.Length == 32 && derivedKs.Length == StksBytes && key != derivedKs
    modifies key, derivedKs
    ensures Rows(derivedKs[..]) == DeriveK(old(key[..]))
    ensures key[0..16] == Tk3At(old(key[0..16]), Rounds)
    ensures key[16..32] == Tk2At(old(key[16..32]), Rounds)
  {
    ghost var tk2: Block := key[16..32];
    ghost var tk3: Block := key[0..16];
    ghost var k0 := key[..];
    ghost var ks := DeriveK(k0);
    assert k0[16..32] == tk2 && k0[..16] == tk3;
    ghost var d0 := derivedKs[..];
    WriteKRow(derivedKs, key, tk2, tk3, 0);
    DeriveKRow(k0, 0);
    RowsExtend(d0, derivedKs[..], ks, 0);
    for i := 1 to Rounds + 1
      invariant key[16..32] == Tk2At(tk2, i - 1)
      invariant key[0..16] == Tk3At(tk3, i - 1)
      invariant RowsUpTo(derivedKs[..], ks, i)
    {
      AdvanceTks(key, tk2, tk3, i);
      ghost var before := derivedKs[..];
      WriteKRow(derivedKs, key, tk2, tk3, i);
      DeriveKRow(k0, i);
      RowsExtend(before, derivedKs[..], ks, i);
    }
    RowsOf(derivedKs[..], ks);
  }

  /** The end of round i of `stkDeriveK`: `xorBytes(derivedKs[i], tk2, tk3)`
      then `xorRC(derivedKs[i], i)`. */
  method WriteKRow(derivedKs: array<bv8>, key: array<bv8>, ghost tk2: Block, ghost tk3: Block, i: nat)
    requires key.Length == 32 && derivedKs.Length == StksBytes && key != derivedKs && i < StkCount
    requires key[16..32] == Tk2At(tk2, i) && key[0..16] == Tk3At(tk3, i)
    modifies derivedKs
    ensures derivedKs[16 * i..16 * i + 16] == KRow(tk2, tk3, i)
    ensures forall k :: 0 <= k < StksBytes && !(16 * i <= k < 16 * i + 16) ==> derivedKs[k] == old(derivedKs[k])
  {
    ghost var d0 := derivedKs[..];
    XorBytes(derivedKs, 16 * i, key, 16, key, 0, StkSize);
    ghost var d1 := derivedKs[..];
    assert d1[16 * i..16 * i + 16] == Xor(Tk2At(tk2, i), Tk3At(tk3, i)) by {
      SpliceSlice(d0, 16 * i, Xor(Tk2At(tk2, i), Tk3At(tk3, i)), 16 * i, 16 * i + 16);
    }
    XorRCInPlace(derivedKs, 16 * i, i);
    assert derivedKs[16 * i..16 * i + 16] == KRow(tk2, tk3, i) by {
      SpliceSlice(d1, 16 * i, Xor(d1[16 * i..16 * i + 16], RC(i)), 16 * i, 16 * i + 16);
    }
  }

  /** The body of round i of `stkDeriveK` up to the XOR: lfsr2 then h on the
      TK2 view key[16..32], lfsr3 then h on the TK3 view key[0..16]. */
  method AdvanceTks(key: array<bv8>, ghost tk2: Block, ghost tk3: Block, ghost i: nat)
    requires key.Length == 32 && i >= 1
    requires key[16..32] == Tk2At(tk2, i - 1) && key[0..16] == Tk3At(tk3, i - 1)
    modifies key
    ensures key[16..32] == Tk2At(tk2, i) && key[0..16] == Tk3At(tk3, i)
  {
    ghost var a2 := Tk2At(tk2, i - 1);
    ghost var a3 := Tk3At(tk3, i - 1);
    ghost var s0 := key[..];
    Lfsr2InPlace(key, 16);
    assert key[16..32] == Lfsr2(a2) && key[0..16] == a3 by {
      SpliceSlice(s0, 16, Lfsr2(s0[16..32]), 16, 32);
      SpliceSlice(s0, 16, Lfsr2(s0[16..32]), 0, 16);
    }
    ghost var s1 := key[..];
    H(key, 16);
    assert key[16..32] == HPerm(Lfsr2(a2)) && key[0..16] == a3 by {
      SpliceSlice(s1, 16, HPerm(s1[16..32]), 16, 32);
      SpliceSlice(s1, 16, HPerm(s1[16..32]), 0, 16);
    }
    ghost var s2 := key[..];
    Lfsr3InPlace(key, 0);
    assert key[16..32] == HPerm(Lfsr2(a2)) && key[0..16] == Lfsr3(a3) by {
      SpliceSlice(s2, 0, Lfsr3(s2[0..16]), 0, 16);
      SpliceSlice(s2, 0, Lfsr3(s2[0..16]), 16, 32);
    }
    ghost var s3 := key[..];
    H(key, 0);
    assert key[16..32] == HPerm(Lfsr2(a2)) && key[0..16] == HPerm(Lfsr3(a3)) by {
      SpliceSlice(s3, 0, HPerm(s3[0..16]), 0, 16);
      SpliceSlice(s3, 0, HPerm(s3[0..16]), 16, 32);
    }
  }

  /** `xorBytes(stks[i], derivedKs[i], tk1, 16)` on the flattened tables. */
  method XorStkRow(stks: array<bv8>, derivedKs: array<bv8>, tk1: array<bv8>, i: nat)
    requires stks.Length == StksBytes && derivedKs.Length == StksBytes && tk1.Length == 16 && i < StkCount
    requires stks != derivedKs && stks != tk1
    modifies stks
    ensures stks[16 * i..16 * i + 16] == Xor(derivedKs[16 * i..16 * i + 16], tk1[..])
    ensures forall k :: 0 <= k < StksBytes && !(16 * i <= k < 16 * i + 16) ==> stks[k] == old(stks[k])
  {
    ghost var d0 := stks[..];
    XorBytes(stks, 16 * i, derivedKs, 16 * i, tk1, 0, StkSize);
    assert tk1[0..16] == tk1[..];
    SpliceSlice(d0, 16 * i, Xor(derivedKs[16 * i..16 * i + 16], tk1[..]), 16 * i, 16 * i + 16);
  }

  /** `deriveSubTweakKeys(stks, derivedKs, tweak)`: the caller's tweak is
      copied first and is left unchanged. */
  method DeriveSubTweakKeys(stks: array<bv8>, derivedKs: array<bv8>, tweak: array<bv8>)
    requires stks.Length == StksBytes && derivedKs.Length == StksBytes && tweak.Length == 16
    requires stks != derivedKs && stks != tweak
    modifies stks
    ensures Rows(stks[..]) == Stk(Rows(derivedKs[..]), tweak[..])
  {
    var tk1 := new bv8[16](_ => 0);
    forall k | 0 <= k < 16 {
      tk1[k] := tweak[k];
    }
    ghost var t: Block := tweak[..];
    ghost var ks := Rows(derivedKs[..]);
    ghost var out := Stk(ks, t);
    assert tk1[..] == t;
    RowAt(derivedKs[..], 0);
    StkRow(ks, t, 0);
    ghost var d0 := stks[..];
    XorStkRow(stks, derivedKs, tk1, 0);
    RowsExtend(d0, stks[..], out, 0);

    for i := 1 to Rounds + 1
      invariant tk1[..] == HPow(t, i - 1)
      invariant RowsUpTo(stks[..], out, i)
    {
      ghost var t0 := tk1[..];
      H(tk1, 0);
      assert tk1[..] == HPow(t, i) by {
        HPowStep(t, i - 1);
        assert t0[0..16] == t0;
        SpliceWhole(t0, HPerm(t0));
      }
      assert derivedKs[16 * i..16 * i + 16] == ks[i] by {
        RowAt(derivedKs[..], i);
      }
      assert out[i] == Xor(ks[i], HPow(t, i)) by {
        StkRow(ks, t, i);
      }
      ghost var before := stks[..];
      XorStkRow(stks, derivedKs, tk1, i);
      RowsExtend(before, stks[..], out, i);
    }
    RowsOf(stks[..], out);
  }
}
