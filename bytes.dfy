/** Byte strings, 16-byte blocks and the in-place XOR of deoxysii.js.
    A JavaScript `Uint8Array`, or a `subarray` view of one, is modelled as an
    `array<bv8>` together with the offset at which the view starts. */
module Bytes {

  const BlockSize: nat := 16

  /** A 16-byte value: a cipher block, a tweak, a tag or one sub-tweak key. */
  type Block = s: seq<bv8> | |s| == 16 witness Zeros(16)

  function Zeros(n: nat): (r: seq<bv8>)
    ensures |r| == n
    ensures forall k :: 0 <= k < n ==> r[k] == 0
  {
    seq(n, _ => 0)
  }

  /** Byte-wise exclusive or of two strings of the same length. */
  function Xor(a: seq<bv8>, b: seq<bv8>): (r: seq<bv8>)
    requires |a| == |b|
    ensures |r| == |a|
    ensures forall k :: 0 <= k < |a| ==> r[k] == a[k] ^ b[k]
  {
    seq(|a|, k requires 0 <= k < |a| => a[k] ^ b[k])
  }

  lemma XorCancel(a: seq<bv8>, b: seq<bv8>)
    requires |a| == |b|
    ensures Xor(Xor(a, b), b) == a
  {
    assert forall k :: 0 <= k < |a| ==> Xor(Xor(a, b), b)[k] == a[k];
  }

  lemma XorAssoc(a: seq<bv8>, b: seq<bv8>, c: seq<bv8>)
    requires |a| == |b| == |c|
    ensures Xor(Xor(a, b), c) == Xor(a, Xor(b, c))
  {
    assert forall k :: 0 <= k < |a| ==> Xor(Xor(a, b), c)[k] == Xor(a, Xor(b, c))[k];
  }

  lemma XorComm(a: seq<bv8>, b: seq<bv8>)
    requires |a| == |b|
    ensures Xor(a, b) == Xor(b, a)
  {
    assert forall k :: 0 <= k < |a| ==> Xor(a, b)[k] == Xor(b, a)[k];
  }

  lemma XorZero(a: seq<bv8>)
    ensures Xor(a, Zeros(|a|)) == a
  {
    assert forall k :: 0 <= k < |a| ==> Xor(a, Zeros(|a|))[k] == a[k];
  }

  /** `s` with the |b| bytes starting at `off` replaced by `b`. */
  function Splice(s: seq<bv8>, off: nat, b: seq<bv8>): (r: seq<bv8>)
    requires off + |b| <= |s|
    ensures |r| == |s|
    ensures forall k :: off <= k < off + |b| ==> r[k] == b[k - off]
    ensures forall k :: 0 <= k < |s| && !(off <= k < off + |b|) ==> r[k] == s[k]
  {
    s[..off] + b + s[off + |b|..]
  }

  /** What a slice of a spliced string reads: the new bytes where it is exactly
      the spliced range, the old ones where it is clear of it. */
  lemma SpliceSlice(s: seq<bv8>, off: nat, b: seq<bv8>, lo: nat, hi: nat)
    requires off + |b| <= |s| && lo <= hi <= |s|
    ensures lo == off && hi == off + |b| ==> Splice(s, off, b)[lo..hi] == b
    ensures hi <= off || off + |b| <= lo ==> Splice(s, off, b)[lo..hi] == s[lo..hi]
  {
    var r := Splice(s, off, b);
    if lo == off && hi == off + |b| {
      assert forall k :: 0 <= k < |b| ==> r[lo..hi][k] == b[k];
    }
    if hi <= off || off + |b| <= lo {
      assert forall k :: 0 <= k < hi - lo ==> r[lo..hi][k] == s[lo..hi][k];
    }
  }

  lemma SpliceWhole(s: seq<bv8>, b: seq<bv8>)
    requires |b| == |s|
    ensures Splice(s, 0, b) == b
  {
    assert forall k :: 0 <= k < |b| ==> Splice(s, 0, b)[k] == b[k];
  }

  /** Blocks one after the other. */
  function Concat(bs: seq<Block>): (r: seq<bv8>)
    ensures |r| == 16 * |bs|
  {
    if |bs| == 0 then [] else Concat(bs[..|bs| - 1]) + bs[|bs| - 1]
  }

  /** Byte m of block j sits at 16 * j + m of the concatenation. */
  lemma {:induction false} ConcatAt(bs: seq<Block>, j: nat, m: nat)
    requires j < |bs| && m < 16
    ensures Concat(bs)[16 * j + m] == bs[j][m]
  {
    var init := bs[..|bs| - 1];
    if j < |bs| - 1 {
      ConcatAt(init, j, m);
      assert init[j] == bs[j];
    }
  }

  /** `xorBytes(dst, a, b, n)` on views: dst[dOff + i] = a[aOff + i] ^ b[bOff + i]
      for i < n.  Every caller in deoxysii.js either passes distinct buffers or
      the very same view as destination and source. */
  method XorBytes(dst: array<bv8>, dOff: nat, a: array<bv8>, aOff: nat, b: array<bv8>, bOff: nat, n: nat)
    requires dOff + n <= dst.Length && aOff + n <= a.Length && bOff + n <= b.Length
    requires dst == a ==> dOff == aOff
    requires dst == b ==> dOff == bOff
    modifies dst
    ensures dst[..] == Splice(old(dst[..]), dOff, Xor(old(a[aOff..aOff + n]), old(b[bOff..bOff + n])))
  {
    ghost var x := Xor(old(a[aOff..aOff + n]), old(b[bOff..bOff + n]));
    var i := 0;
    while i < n
      invariant 0 <= i <= n
      invariant forall k :: 0 <= k < dst.Length ==>
                  dst[k] == if dOff <= k < dOff + i then x[k - dOff] else old(dst[k])
    {
      var v := a[aOff + i] ^ b[bOff + i];
      assert v == x[i] by {
        assert a[aOff + i] == old(a[aOff + i]) && b[bOff + i] == old(b[bOff + i]);
        assert old(a[aOff..aOff + n])[i] == old(a[aOff + i]);
        assert old(b[bOff..bOff + n])[i] == old(b[bOff + i]);
      }
      dst[dOff + i] := v;
      i := i + 1;
    }
    ghost var r := Splice(old(dst[..]), dOff, x);
    assert forall k :: 0 <= k < dst.Length ==> dst[k] == r[k];
    assert dst[..] == r;
  }
}
