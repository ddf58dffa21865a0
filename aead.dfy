/** The Deoxys-II-256-128 AEAD mode as deoxysii.js computes it, stated on
    values: the tweak encoders, the split of associated data and message
    into authenticated items, the XOR accumulator, the tag, the keystream,
    and the sealed and opened messages.  The imperative functions `e` and `d`
    are proved against these definitions in the module Pipeline. */
module Aead {
  import opened Bytes
  import opened Tweakey
  import opened Cipher

  const KeySize: nat := 32
  const NonceSize: nat := 15
  const TagSize: nat := 16

  const PrefixADBlock: bv8 := 0x02
  const PrefixADFinal: bv8 := 0x06
  const PrefixMsgBlock: bv8 := 0x00
  const PrefixMsgFinal: bv8 := 0x04
  const PrefixTag: bv8 := 0x01
  const PrefixShift: bv8 := 4

  /** `DataView.setUint32(.., n, false)`: the counter is converted with
      ToUint32, so only n modulo 2^32 is written, most significant byte first. */
  function BE32(n: nat): (r: seq<bv8>)
    ensures |r| == 4
  {
    var m := n % 0x1_0000_0000;
    [(m / 0x100_0000) as bv8, ((m / 0x1_0000) % 0x100) as bv8, ((m / 0x100) % 0x100) as bv8, (m % 0x100) as bv8]
  }

  /** The number four big-endian bytes denote. */
  function DecodeBE32(b: seq<bv8>): (n: nat)
    requires |b| == 4
    ensures n < 0x1_0000_0000
  {
    (b[0] as nat) * 0x100_0000 + (b[1] as nat) * 0x1_0000 + (b[2] as nat) * 0x100 + b[3] as nat
  }

  // ByteOf, ByteOfValue, ByteValue and Digits only serve BE32RoundTrip: the
  // solver handles the conversion between integers and bytes poorly, so the
  // byte value of a small number is reached by counting up instead.

  /** The byte reached by counting up from zero v times. */
  ghost function ByteOf(v: nat): bv8
    requires v < 0x100
  {
    if v == 0 then 0 else ByteOf(v - 1) + 1
  }

  lemma {:induction false} ByteOfValue(v: nat)
    requires v < 0x100
    ensures ByteOf(v) as nat == v
  {
    if v > 0 {
      ByteOfValue(v - 1);
    }
  }

  /** Below 256 the conversion to a byte loses nothing. */
  lemma ByteValue(v: nat)
    requires v < 0x100
    ensures (v as bv8) as nat == v
  {
    ByteOfValue(v);
    assert ByteOf(v) == v as bv8;
  }

  lemma Digits(m: nat)
    requires m < 0x1_0000_0000
    ensures m == (m / 0x100_0000) * 0x100_0000 + ((m / 0x1_0000) % 0x100) * 0x1_0000
               + ((m / 0x100) % 0x100) * 0x100 + m % 0x100
  {
    var q1 := m / 0x100;
    var q2 := q1 / 0x100;
    var q3 := q2 / 0x100;
    assert m == q1 * 0x100 + m % 0x100;
    assert q1 == q2 * 0x100 + q1 % 0x100;
    assert q2 == q3 * 0x100 + q2 % 0x100;
    assert q2 == m / 0x1_0000;
    assert q3 == m / 0x100_0000;
  }

  /** The four bytes written denote the counter modulo 2^32. */
  lemma BE32RoundTrip(n: nat)
    ensures DecodeBE32(BE32(n)) == n % 0x1_0000_0000
  {
    var m := n % 0x1_0000_0000;
    ByteValue(m / 0x100_0000);
    ByteValue((m / 0x1_0000) % 0x100);
    ByteValue((m / 0x100) % 0x100);
    ByteValue(m % 0x100);
    Digits(m);
  }

  /** Distinct counters below 2^32 have distinct encodings; counters that
      agree modulo 2^32 do not. */
  lemma BE32Injective(n: nat, m: nat)
    ensures BE32(n) == BE32(m) <==> n % 0x1_0000_0000 == m % 0x1_0000_0000
  {
    BE32RoundTrip(n);
    BE32RoundTrip(m);
  }

  // ---------------------------------------------------------------------
  // Tweaks

  /** `encodeTagTweak(out, prefix, blockNr)`. */
  function EncodeTagTweak(prefix: bv8, n: nat): Block
  {
    [prefix << PrefixShift] + Zeros(11) + BE32(n)
  }

  /** `encodeEncTweak(out, tag, blockNr)`. */
  function EncodeEncTweak(tag: Block, n: nat): Block
  {
    [tag[0] | 0x80] + tag[1..12] + Xor(tag[12..16], BE32(n))
  }

  /** The tweak of the tag finalisation: `prefixTag << prefixShift`, then the nonce. */
  function TagTweak(nonce: seq<bv8>): Block
    requires |nonce| == NonceSize
  {
    [PrefixTag << PrefixShift] + nonce
  }

  /** The block every keystream block encrypts: a zero byte, then the nonce. */
  function KeystreamInput(nonce: seq<bv8>): Block
    requires |nonce| == NonceSize
  {
    [0] + nonce
  }

  lemma TagTweakLayout(prefix: bv8, n: nat)
    ensures EncodeTagTweak(prefix, n)[0] == prefix << 4
    ensures forall k :: 1 <= k < 12 ==> EncodeTagTweak(prefix, n)[k] == 0
    ensures DecodeBE32(EncodeTagTweak(prefix, n)[12..16]) == n % 0x1_0000_0000
  {
    assert EncodeTagTweak(prefix, n)[12..16] == BE32(n);
    BE32RoundTrip(n);
  }

  lemma EncTweakLayout(tag: Block, n: nat)
    ensures EncodeEncTweak(tag, n)[0] == tag[0] | 0x80
    ensures EncodeEncTweak(tag, n)[1..12] == tag[1..12]
    ensures EncodeEncTweak(tag, n)[12..16] == Xor(tag[12..16], BE32(n))
    ensures Xor(EncodeEncTweak(tag, n)[12..16], tag[12..16]) == BE32(n)
  {
    var t := EncodeEncTweak(tag, n);
    assert t[12..16] == Xor(tag[12..16], BE32(n));
    XorComm(tag[12..16], BE32(n));
    XorCancel(BE32(n), tag[12..16]);
  }

  /** Two authentication tweaks are equal only for the same prefix and the
      same counter modulo 2^32. */
  lemma TagTweakInjective(p: bv8, q: bv8, n: nat, m: nat)
    requires p < 16 && q < 16
    ensures EncodeTagTweak(p, n) == EncodeTagTweak(q, m) <==> p == q && n % 0x1_0000_0000 == m % 0x1_0000_0000
  {
    TagTweakLayout(p, n);
    TagTweakLayout(q, m);
    if p == q && n % 0x1_0000_0000 == m % 0x1_0000_0000 {
      BE32Injective(n, m);
    }
  }

  /** The five domain prefixes. */
  predicate IsPrefix(p: bv8) {
    p == PrefixADBlock || p == PrefixADFinal || p == PrefixMsgBlock || p == PrefixMsgFinal || p == PrefixTag
  }

  /** Domain separation: tweaks of different kinds never coincide.  Encryption
      tweaks have the top bit of byte 0 set, the others do not, and the
      authentication tweaks differ from the tag tweak in the prefix nibble. */
  lemma TweaksSeparated(nonce: seq<bv8>, tag: Block, p: bv8, n: nat, j: nat)
    requires |nonce| == NonceSize && IsPrefix(p) && p != PrefixTag
    ensures EncodeEncTweak(tag, j)[0] & 0x80 == 0x80
    ensures EncodeTagTweak(p, n)[0] & 0x80 == 0 && TagTweak(nonce)[0] & 0x80 == 0
    ensures EncodeEncTweak(tag, j) != EncodeTagTweak(p, n)
    ensures EncodeEncTweak(tag, j) != TagTweak(nonce)
    ensures EncodeTagTweak(p, n) != TagTweak(nonce)
  {
    TagTweakLayout(p, n);
    assert EncodeEncTweak(tag, j)[0] == tag[0] | 0x80;
    assert TagTweak(nonce)[0] == 0x10;
  }

  // ---------------------------------------------------------------------
  // Authentication

  /** One call of the accumulator: auth ^= BC(tweak, block). */
  datatype Item = Item(tweak: Block, block: Block)

  /** The tail of r = 1..15 bytes in a zeroed block, followed by 0x80. */
  function Pad(tail: seq<bv8>): (r: Block)
    requires |tail| < BlockSize
  {
    tail + [0x80] + Zeros(15 - |tail|)
  }

  /** The 10* padding: the tail, the byte 0x80, then zeros to 16 bytes. */
  lemma PadLayout(tail: seq<bv8>)
    requires |tail| < BlockSize
    ensures Pad(tail)[..|tail|] == tail
    ensures Pad(tail)[|tail|] == 0x80
    ensures forall k :: |tail| < k < BlockSize ==> Pad(tail)[k] == 0
  {
    assert Pad(tail)[..|tail|] == tail;
  }

  /** Padding loses nothing: the last non-zero byte marks where the tail ends. */
  lemma {:induction false} PadInjective(a: seq<bv8>, b: seq<bv8>)
    requires |a| < BlockSize && |b| < BlockSize
    requires Pad(a) == Pad(b)
    ensures a == b
  {
    PadLayout(a);
    PadLayout(b);
    assert a == Pad(a)[..|a|];
  }

  /** The items for the first n full blocks of data, block k under the
      tweak (prefix, k). */
  function FullItems(prefix: bv8, data: seq<bv8>, n: nat): (r: seq<Item>)
    requires BlockSize * n <= |data|
    ensures |r| == n
  {
    seq(n, k requires 0 <= k < n => Item(EncodeTagTweak(prefix, k), data[16 * k..16 * k + 16]))
  }

  /** Everything folded for one input: its full blocks under pBlock, then a
      partial tail, padded, under pFinal with counter |data| / 16. */
  function AuthItems(pBlock: bv8, pFinal: bv8, data: seq<bv8>): seq<Item>
  {
    var n := |data| / BlockSize;
    var r := |data| % BlockSize;
    FullItems(pBlock, data, n)
      + (if r == 0 then [] else [Item(EncodeTagTweak(pFinal, n), Pad(data[|data| - r..]))])
  }

  /** Left fold of the items into the accumulator, in order. */
  function Fold(aes: AesRound, ks: seq<Block>, acc: Block, items: seq<Item>): Block
    requires |ks| == StkCount
    decreases |items|
  {
    if |items| == 0 then acc
    else
      var last := items[|items| - 1];
      Xor(Fold(aes, ks, acc, items[..|items| - 1]), Permute(aes, ks, last.tweak, last.block))
  }

  /** The XOR sum of BC over a sequence of items, the independent definition
      of what the accumulator holds. */
  function Sum(aes: AesRound, ks: seq<Block>, items: seq<Item>): Block
    requires |ks| == StkCount
    decreases |items|
  {
    if |items| == 0 then Zeros(16)
    else Xor(Permute(aes, ks, items[0].tweak, items[0].block), Sum(aes, ks, items[1..]))
  }

  /** The tag before finalisation: AD items then message items. */
  function Auth(aes: AesRound, ks: seq<Block>, ad: seq<bv8>, msg: seq<bv8>): Block
    requires |ks| == StkCount
  {
    Fold(aes, ks, Zeros(16), AuthItems(PrefixADBlock, PrefixADFinal, ad) + AuthItems(PrefixMsgBlock, PrefixMsgFinal, msg))
  }

  function Tag(aes: AesRound, ks: seq<Block>, nonce: seq<bv8>, ad: seq<bv8>, msg: seq<bv8>): Block
    requires |ks| == StkCount && |nonce| == NonceSize
  {
    Permute(aes, ks, TagTweak(nonce), Auth(aes, ks, ad, msg))
  }

  // ---------------------------------------------------------------------
  // Encryption

  function KeystreamBlock(aes: AesRound, ks: seq<Block>, nonce: seq<bv8>, tag: Block, j: nat): Block
    requires |ks| == StkCount && |nonce| == NonceSize
  {
    Permute(aes, ks, EncodeEncTweak(tag, j), KeystreamInput(nonce))
  }

  /** Keystream blocks 0 .. n - 1, one after the other. */
  function Keystream(aes: AesRound, ks: seq<Block>, nonce: seq<bv8>, tag: Block, n: nat): (r: seq<bv8>)
    requires |ks| == StkCount && |nonce| == NonceSize
    ensures |r| == 16 * n
  {
    Concat(seq(n, j requires 0 <= j < n => KeystreamBlock(aes, ks, nonce, tag, j)))
  }

  /** Byte m of keystream block j sits at 16 * j + m of the keystream. */
  lemma KeystreamAt(aes: AesRound, ks: seq<Block>, nonce: seq<bv8>, tag: Block, n: nat, j: nat, m: nat)
    requires |ks| == StkCount && |nonce| == NonceSize && j < n && m < 16
    ensures Keystream(aes, ks, nonce, tag, n)[16 * j + m] == KeystreamBlock(aes, ks, nonce, tag, j)[m]
  {
    ConcatAt(seq(n, j requires 0 <= j < n => KeystreamBlock(aes, ks, nonce, tag, j)), j, m);
  }

  /** src XOR-ed with as much keystream as it is long: the keystream blocks
      are used in order and the last one is cut to what is left of src. */
  function Crypt(aes: AesRound, ks: seq<Block>, nonce: seq<bv8>, tag: Block, src: seq<bv8>): (r: seq<bv8>)
    requires |ks| == StkCount && |nonce| == NonceSize
    ensures |r| == |src|
  {
    Xor(src, Keystream(aes, ks, nonce, tag, (|src| + 15) / 16)[..|src|])
  }

  /** Byte m of block j of the result is byte m of keystream block j XOR-ed
      with the byte of src there. */
  lemma CryptAt(aes: AesRound, ks: seq<Block>, nonce: seq<bv8>, tag: Block, src: seq<bv8>, j: nat, m: nat)
    requires |ks| == StkCount && |nonce| == NonceSize && m < 16 && 16 * j + m < |src|
    ensures Crypt(aes, ks, nonce, tag, src)[16 * j + m] == src[16 * j + m] ^ KeystreamBlock(aes, ks, nonce, tag, j)[m]
  {
    KeystreamAt(aes, ks, nonce, tag, (|src| + 15) / 16, j, m);
  }

  /** What `encrypt` returns: the ciphertext, then the tag. */
  function Seal(aes: AesRound, ks: seq<Block>, nonce: seq<bv8>, ad: seq<bv8>, msg: seq<bv8>): seq<bv8>
    requires |ks| == StkCount && |nonce| == NonceSize
  {
    var tag := Tag(aes, ks, nonce, ad, msg);
    Crypt(aes, ks, nonce, tag, msg) + tag
  }

  datatype Error = ErrKeySize | ErrNonceSize | ErrOpen

  datatype Result<T> = Success(value: T) | Failure(error: Error)

  /** What `decrypt` returns for a nonce of the right size: the last 16 bytes
      are the received tag, the rest is decrypted under it, and the result
      stands only if the recomputed tag equals the received one. */
  function Open(aes: AesRound, ks: seq<Block>, nonce: seq<bv8>, ad: seq<bv8>, ct: seq<bv8>): Result<seq<bv8>>
    requires |ks| == StkCount && |nonce| == NonceSize
  {
    if |ct| < TagSize then Failure(ErrOpen)
    else
      var tag: Block := ct[|ct| - TagSize..];
      var msg := Crypt(aes, ks, nonce, tag, ct[..|ct| - TagSize]);
      if Tag(aes, ks, nonce, ad, msg) == tag then Success(msg) else Failure(ErrOpen)
  }

  // ---------------------------------------------------------------------
  // Properties

  /** Splitting the items anywhere and folding the second part into the
      result of the first gives the same accumulator. */
  lemma {:induction false} FoldAppend(aes: AesRound, ks: seq<Block>, acc: Block, a: seq<Item>, b: seq<Item>)
    requires |ks| == StkCount
    ensures Fold(aes, ks, acc, a + b) == Fold(aes, ks, Fold(aes, ks, acc, a), b)
    decreases |b|
  {
    if |b| == 0 {
      assert a + b == a;
    } else {
      var b' := b[..|b| - 1];
      assert (a + b)[..|a + b| - 1] == a + b';
      FoldAppend(aes, ks, acc, a, b');
    }
  }

  lemma {:induction false} SumAppend(aes: AesRound, ks: seq<Block>, a: seq<Item>, b: seq<Item>)
    requires |ks| == StkCount
    ensures Sum(aes, ks, a + b) == Xor(Sum(aes, ks, a), Sum(aes, ks, b))
    decreases |a|
  {
    if |a| == 0 {
      assert a + b == b;
      XorComm(Zeros(16), Sum(aes, ks, b));
      XorZero(Sum(aes, ks, b));
    } else {
      assert (a + b)[1..] == a[1..] + b;
      SumAppend(aes, ks, a[1..], b);
      XorAssoc(Permute(aes, ks, a[0].tweak, a[0].block), Sum(aes, ks, a[1..]), Sum(aes, ks, b));
    }
  }

  lemma SumSingle(aes: AesRound, ks: seq<Block>, x: Item)
    requires |ks| == StkCount
    ensures Sum(aes, ks, [x]) == Permute(aes, ks, x.tweak, x.block)
  {
    assert [x][1..] == [];
    XorZero(Permute(aes, ks, x.tweak, x.block));
  }

  lemma SumSnoc(aes: AesRound, ks: seq<Block>, init: seq<Item>, last: Item)
    requires |ks| == StkCount
    ensures Sum(aes, ks, init + [last]) == Xor(Sum(aes, ks, init), Permute(aes, ks, last.tweak, last.block))
  {
    SumAppend(aes, ks, init, [last]);
    SumSingle(aes, ks, last);
  }

  /** The accumulator is the initial value XOR the sum of BC over all items:
      it does not depend on how the items are grouped into calls. */
  lemma {:induction false} FoldIsSum(aes: AesRound, ks: seq<Block>, acc: Block, items: seq<Item>)
    requires |ks| == StkCount
    ensures Fold(aes, ks, acc, items) == Xor(acc, Sum(aes, ks, items))
    decreases |items|
  {
    if |items| == 0 {
      XorZero(acc);
    } else {
      var init := items[..|items| - 1];
      var last := items[|items| - 1];
      var p := Permute(aes, ks, last.tweak, last.block);
      var sum := Sum(aes, ks, init);
      assert Fold(aes, ks, acc, init) == Xor(acc, sum) by {
        FoldIsSum(aes, ks, acc, init);
      }
      assert Sum(aes, ks, items) == Xor(sum, p) by {
        assert items == init + [last];
        SumSnoc(aes, ks, init, last);
      }
      XorAssoc(acc, sum, p);
    }
  }

  /** The order of the items does not matter either. */
  lemma FoldSwap(aes: AesRound, ks: seq<Block>, acc: Block, a: seq<Item>, b: seq<Item>)
    requires |ks| == StkCount
    ensures Fold(aes, ks, acc, a + b) == Fold(aes, ks, acc, b + a)
  {
    FoldIsSum(aes, ks, acc, a + b);
    FoldIsSum(aes, ks, acc, b + a);
    SumAppend(aes, ks, a, b);
    SumAppend(aes, ks, b, a);
    XorComm(Sum(aes, ks, a), Sum(aes, ks, b));
  }

  /** Coverage: every byte of the input is in exactly the item of its block,
      at its offset in the block (the tail block padded), and the item count is
      the number of blocks, rounded up; so empty input folds nothing. */
  lemma AuthItemsCover(pBlock: bv8, pFinal: bv8, data: seq<bv8>, p: nat)
    requires p < |data|
    ensures |AuthItems(pBlock, pFinal, data)| == (|data| + 15) / 16
    ensures AuthItems(pBlock, pFinal, data)[p / 16].block[p % 16] == data[p]
    ensures AuthItems(pBlock, pFinal, data)[p / 16].tweak
            == EncodeTagTweak(if p / 16 < |data| / 16 then pBlock else pFinal, p / 16)
  {
    var n := |data| / 16;
    var r := |data| % 16;
    var items := AuthItems(pBlock, pFinal, data);
    if p / 16 < n {
      assert items[p / 16] == Item(EncodeTagTweak(pBlock, p / 16), data[16 * (p / 16)..16 * (p / 16) + 16]);
    } else {
      assert p / 16 == n && r > 0;
      var tail := data[|data| - r..];
      assert items[n] == Item(EncodeTagTweak(pFinal, n), Pad(tail));
      PadLayout(tail);
      assert tail[p % 16] == data[p];
    }
  }

  lemma AuthItemsEmpty(pBlock: bv8, pFinal: bv8)
    ensures AuthItems(pBlock, pFinal, []) == []
  {
  }

  lemma SmallMod(n: nat)
    requires n < 0x1_0000_0000
    ensures n % 0x1_0000_0000 == n
  {
  }

  /** The prefix and counter under which item x of the AD items followed by
      the message items is folded. */
  lemma ItemKey(ad: seq<bv8>, msg: seq<bv8>, x: nat) returns (p: bv8, n: nat)
    requires |ad| < 16 * 0x1_0000_0000 && |msg| < 16 * 0x1_0000_0000
    requires x < |AuthItems(PrefixADBlock, PrefixADFinal, ad) + AuthItems(PrefixMsgBlock, PrefixMsgFinal, msg)|
    ensures IsPrefix(p) && p != PrefixTag && n < 0x1_0000_0000
    ensures (AuthItems(PrefixADBlock, PrefixADFinal, ad) + AuthItems(PrefixMsgBlock, PrefixMsgFinal, msg))[x].tweak
            == EncodeTagTweak(p, n)
    ensures p == PrefixADBlock ==> n == x
    ensures p == PrefixADFinal ==> x == |AuthItems(PrefixADBlock, PrefixADFinal, ad)| - 1
    ensures p == PrefixMsgBlock ==> n + |AuthItems(PrefixADBlock, PrefixADFinal, ad)| == x
    ensures p == PrefixMsgFinal ==>
              x == |AuthItems(PrefixADBlock, PrefixADFinal, ad) + AuthItems(PrefixMsgBlock, PrefixMsgFinal, msg)| - 1
  {
    var a := AuthItems(PrefixADBlock, PrefixADFinal, ad);
    var m := AuthItems(PrefixMsgBlock, PrefixMsgFinal, msg);
    if x < |a| {
      if x < |ad| / 16 {
        p, n := PrefixADBlock, x;
      } else {
        p, n := PrefixADFinal, |ad| / 16;
      }
    } else {
      var y := x - |a|;
      assert (a + m)[x] == m[y];
      if y < |msg| / 16 {
        p, n := PrefixMsgBlock, y;
      } else {
        p, n := PrefixMsgFinal, |msg| / 16;
      }
    }
  }

  /** No two folded items share a tweak, as long as each input has fewer
      than 2^32 blocks. */
  lemma AuthTweaksDistinct(ad: seq<bv8>, msg: seq<bv8>, x: nat, y: nat)
    requires |ad| < 16 * 0x1_0000_0000 && |msg| < 16 * 0x1_0000_0000
    requires x < y < |AuthItems(PrefixADBlock, PrefixADFinal, ad) + AuthItems(PrefixMsgBlock, PrefixMsgFinal, msg)|
    ensures (AuthItems(PrefixADBlock, PrefixADFinal, ad) + AuthItems(PrefixMsgBlock, PrefixMsgFinal, msg))[x].tweak
         != (AuthItems(PrefixADBlock, PrefixADFinal, ad) + AuthItems(PrefixMsgBlock, PrefixMsgFinal, msg))[y].tweak
  {
    var items := AuthItems(PrefixADBlock, PrefixADFinal, ad) + AuthItems(PrefixMsgBlock, PrefixMsgFinal, msg);
    var px, nx := ItemKey(ad, msg, x);
    var py, ny := ItemKey(ad, msg, y);
    assert px != py || nx != ny by {
      if px == py {
        assert px == PrefixADBlock || px == PrefixADFinal || px == PrefixMsgBlock || px == PrefixMsgFinal;
      }
    }
    assert nx % 0x1_0000_0000 == nx && ny % 0x1_0000_0000 == ny by {
      SmallMod(nx);
      SmallMod(ny);
    }
    assert EncodeTagTweak(px, nx) != EncodeTagTweak(py, ny) by {
      TagTweakInjective(px, py, nx, ny);
    }
    assert items[x].tweak == EncodeTagTweak(px, nx) && items[y].tweak == EncodeTagTweak(py, ny);
  }

  lemma CryptInvolutive(aes: AesRound, ks: seq<Block>, nonce: seq<bv8>, tag: Block, src: seq<bv8>)
    requires |ks| == StkCount && |nonce| == NonceSize
    ensures Crypt(aes, ks, nonce, tag, Crypt(aes, ks, nonce, tag, src)) == src
  {
    var key := Keystream(aes, ks, nonce, tag, (|src| + 15) / 16)[..|src|];
    XorCancel(src, key);
  }

  /** The length law: ciphertext first, then the 16-byte tag. */
  lemma SealLayout(aes: AesRound, ks: seq<Block>, nonce: seq<bv8>, ad: seq<bv8>, msg: seq<bv8>)
    requires |ks| == StkCount && |nonce| == NonceSize
    ensures |Seal(aes, ks, nonce, ad, msg)| == |msg| + TagSize
    ensures Seal(aes, ks, nonce, ad, msg)[|msg|..] == Tag(aes, ks, nonce, ad, msg)
    ensures Seal(aes, ks, nonce, ad, msg)[..|msg|] == Crypt(aes, ks, nonce, Tag(aes, ks, nonce, ad, msg), msg)
  {
    var tag := Tag(aes, ks, nonce, ad, msg);
    var s := Seal(aes, ks, nonce, ad, msg);
    assert s == Crypt(aes, ks, nonce, tag, msg) + tag;
  }

  /** Round trip: opening what was sealed under the same nonce and AD gives
      the plaintext back. */
  lemma OpenSeal(aes: AesRound, ks: seq<Block>, nonce: seq<bv8>, ad: seq<bv8>, msg: seq<bv8>)
    requires |ks| == StkCount && |nonce| == NonceSize
    ensures Open(aes, ks, nonce, ad, Seal(aes, ks, nonce, ad, msg)) == Success(msg)
  {
    var tag := Tag(aes, ks, nonce, ad, msg);
    var ct := Seal(aes, ks, nonce, ad, msg);
    SealLayout(aes, ks, nonce, ad, msg);
    assert ct[|ct| - TagSize..] == tag;
    assert ct[..|ct| - TagSize] == Crypt(aes, ks, nonce, tag, msg);
    CryptInvolutive(aes, ks, nonce, tag, msg);
  }

  /** Only sealed messages open: a successful open returns exactly the
      plaintext whose seal is the ciphertext. */
  lemma OpenOnlySealed(aes: AesRound, ks: seq<Block>, nonce: seq<bv8>, ad: seq<bv8>, ct: seq<bv8>, msg: seq<bv8>)
    requires |ks| == StkCount && |nonce| == NonceSize
    ensures Open(aes, ks, nonce, ad, ct) == Success(msg) <==> ct == Seal(aes, ks, nonce, ad, msg)
  {
    if ct == Seal(aes, ks, nonce, ad, msg) {
      OpenSeal(aes, ks, nonce, ad, msg);
    }
    if Open(aes, ks, nonce, ad, ct) == Success(msg) {
      var tag: Block := ct[|ct| - TagSize..];
      var body := ct[..|ct| - TagSize];
      assert msg == Crypt(aes, ks, nonce, tag, body);
      CryptInvolutive(aes, ks, nonce, tag, body);
      assert Tag(aes, ks, nonce, ad, msg) == tag;
      assert ct == body + tag;
    }
  }

  /** Anything shorter than a tag is rejected. */
  lemma OpenShort(aes: AesRound, ks: seq<Block>, nonce: seq<bv8>, ad: seq<bv8>, ct: seq<bv8>)
    requires |ks| == StkCount && |nonce| == NonceSize && |ct| < TagSize
    ensures Open(aes, ks, nonce, ad, ct) == Failure(ErrOpen)
  {
  }
}
