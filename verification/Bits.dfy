/** Bytes and eleven-bit words as the same big-endian string of bits. */
module Bits {
  import opened Base

  /** Bit `i` of a byte, most significant first: `(b >> (7 - i)) & 1`. */
  predicate ByteBit(b: bv8, i: nat)
    requires i < 8
  {
    (b >> (7 - i)) & 1 == 1
  }

  function BytesBits(bytes: seq<bv8>): (r: seq<bool>)
    ensures |r| == 8 * |bytes|
  {
    seq(8 * |bytes|, i requires 0 <= i < 8 * |bytes| => ByteBit(bytes[i / 8], i % 8))
  }

  /** `b |= 0x80 >> i`. */
  function WithBit(b: bv8, i: nat): bv8
    requires i < 8
  {
    b | (0x80 >> i)
  }

  /** It sets bit `i` and no other. */
  lemma SetByteBit(b: bv8, i: nat, j: nat)
    requires i < 8 && j < 8
    ensures ByteBit(WithBit(b, i), j) == (i == j || ByteBit(b, j))
  {
    if i == 0 {} else if i == 1 {} else if i == 2 {} else if i == 3 {} else if i == 4 {} else if i == 5 {} else if i == 6 {}
    if j == 0 {} else if j == 1 {} else if j == 2 {} else if j == 3 {} else if j == 4 {} else if j == 5 {} else if j == 6 {}
  }

  lemma SetBit(bytes: seq<bv8>, bit: nat)
    requires bit < 8 * |bytes|
    ensures BytesBits(bytes[bit / 8 := WithBit(bytes[bit / 8], bit % 8)]) == BytesBits(bytes)[bit := true]
  {
    hide ByteBit, BytesBits, WithBit;
    var j, k := bit / 8, bit % 8;
    var after := bytes[j := WithBit(bytes[j], k)];
    forall i | 0 <= i < 8 * |bytes|
      ensures BytesBits(after)[i] == if i == bit then true else BytesBits(bytes)[i]
    {
      BitAt(after, i);
      BitAt(bytes, i);
      SetByteBit(bytes[j], k, i % 8);
      BitPlace(i, bit);
    }
  }

  lemma BitAt(bytes: seq<bv8>, i: nat)
    requires i < 8 * |bytes|
    ensures i / 8 < |bytes| && BytesBits(bytes)[i] == ByteBit(bytes[i / 8], i % 8)
  {
  }

  lemma BitPlace(i: nat, bit: nat)
    ensures i == bit <==> i / 8 == bit / 8 && i % 8 == bit % 8
  {
  }

  /** The eight bits of a byte determine it. */
  lemma ByteFromBits(a: bv8, b: bv8)
    requires forall i :: 0 <= i < 8 ==> ByteBit(a, i) == ByteBit(b, i)
    ensures a == b
  {
    assert ByteBit(a, 0) == ByteBit(b, 0) && ByteBit(a, 1) == ByteBit(b, 1);
    assert ByteBit(a, 2) == ByteBit(b, 2) && ByteBit(a, 3) == ByteBit(b, 3);
    assert ByteBit(a, 4) == ByteBit(b, 4) && ByteBit(a, 5) == ByteBit(b, 5);
    assert ByteBit(a, 6) == ByteBit(b, 6) && ByteBit(a, 7) == ByteBit(b, 7);
  }

  lemma BytesFromBits(a: seq<bv8>, b: seq<bv8>)
    requires BytesBits(a) == BytesBits(b)
    ensures a == b
  {
    forall j | 0 <= j < |a|
      ensures a[j] == b[j]
    {
      forall i | 0 <= i < 8
        ensures ByteBit(a[j], i) == ByteBit(b[j], i)
      {
        assert (8 * j + i) / 8 == j && (8 * j + i) % 8 == i;
        assert BytesBits(a)[8 * j + i] == BytesBits(b)[8 * j + i];
      }
      ByteFromBits(a[j], b[j]);
    }
  }

  /** Equal where the mask has ones. */
  predicate SameUnder(a: bv8, b: bv8, mask: bv8) {
    a & mask == b & mask
  }

  lemma Mask4(a: bv8, b: bv8)
    ensures SameUnder(a, b, 0xf0) <==> (
      && ByteBit(a, 0) == ByteBit(b, 0) && ByteBit(a, 1) == ByteBit(b, 1)
      && ByteBit(a, 2) == ByteBit(b, 2) && ByteBit(a, 3) == ByteBit(b, 3))
  {
  }

  lemma Mask5(a: bv8, b: bv8)
    ensures SameUnder(a, b, 0xf8) <==> (
      && ByteBit(a, 0) == ByteBit(b, 0) && ByteBit(a, 1) == ByteBit(b, 1)
      && ByteBit(a, 2) == ByteBit(b, 2) && ByteBit(a, 3) == ByteBit(b, 3)
      && ByteBit(a, 4) == ByteBit(b, 4))
  {
  }

  lemma Mask6(a: bv8, b: bv8)
    ensures SameUnder(a, b, 0xfc) <==> (
      && ByteBit(a, 0) == ByteBit(b, 0) && ByteBit(a, 1) == ByteBit(b, 1)
      && ByteBit(a, 2) == ByteBit(b, 2) && ByteBit(a, 3) == ByteBit(b, 3)
      && ByteBit(a, 4) == ByteBit(b, 4) && ByteBit(a, 5) == ByteBit(b, 5))
  {
  }

  lemma Mask7(a: bv8, b: bv8)
    ensures SameUnder(a, b, 0xfe) <==> (
      && ByteBit(a, 0) == ByteBit(b, 0) && ByteBit(a, 1) == ByteBit(b, 1)
      && ByteBit(a, 2) == ByteBit(b, 2) && ByteBit(a, 3) == ByteBit(b, 3)
      && ByteBit(a, 4) == ByteBit(b, 4) && ByteBit(a, 5) == ByteBit(b, 5)
      && ByteBit(a, 6) == ByteBit(b, 6))
  {
  }

  function TopMask(n: nat): bv8
    requires n <= 8
  {
    0xff << (8 - n)
  }

  /** Comparing two bytes under the mask of their top `n` bits compares those bits. */
  lemma MaskComparesTopBits(a: bv8, b: bv8, n: nat)
    requires 4 <= n <= 8
    ensures SameUnder(a, b, TopMask(n)) <==> (forall i :: 0 <= i < n ==> ByteBit(a, i) == ByteBit(b, i))
  {
    hide ByteBit, TopMask, SameUnder;
    MasksAre();
    if n == 4 {
      Mask4(a, b);
    } else if n == 5 {
      Mask5(a, b);
    } else if n == 6 {
      Mask6(a, b);
    } else if n == 7 {
      Mask7(a, b);
    } else {
      Mask8(a, b);
    }
  }

  lemma MasksAre()
    ensures TopMask(4) == 0xf0 && TopMask(5) == 0xf8 && TopMask(6) == 0xfc && TopMask(7) == 0xfe && TopMask(8) == 0xff
  {
  }

  lemma Mask8(a: bv8, b: bv8)
    ensures SameUnder(a, b, 0xff) <==> (forall i :: 0 <= i < 8 ==> ByteBit(a, i) == ByteBit(b, i))
  {
    hide ByteBit;
    assert a & 0xff == a && b & 0xff == b;
    if forall i :: 0 <= i < 8 ==> ByteBit(a, i) == ByteBit(b, i) {
      ByteFromBits(a, b);
    }
  }

  function ByteOf(bits: seq<bool>): bv8
    requires |bits| == 8
  {
      (if bits[0] then 0x80 else 0) | (if bits[1] then 0x40 else 0)
    | (if bits[2] then 0x20 else 0) | (if bits[3] then 0x10 else 0)
    | (if bits[4] then 0x08 else 0) | (if bits[5] then 0x04 else 0)
    | (if bits[6] then 0x02 else 0) | (if bits[7] then 0x01 else 0)
  }

  lemma ByteOfBits(bits: seq<bool>, i: nat)
    requires |bits| == 8 && i < 8
    ensures ByteBit(ByteOf(bits), i) == bits[i]
  {
    if i == 0 {} else if i == 1 {} else if i == 2 {} else if i == 3 {} else if i == 4 {} else if i == 5 {} else if i == 6 {}
  }

  function ToBytes(bits: seq<bool>): seq<bv8>
    requires |bits| % 8 == 0
  {
    seq(|bits| / 8, j requires 0 <= j < |bits| / 8 => ByteOf(bits[8 * j..8 * j + 8]))
  }

  lemma ToBytesBits(bits: seq<bool>)
    requires |bits| % 8 == 0
    ensures BytesBits(ToBytes(bits)) == bits
  {
    forall i | 0 <= i < |bits|
      ensures BytesBits(ToBytes(bits))[i] == bits[i]
    {
      var j := i / 8;
      ByteOfBits(bits[8 * j..8 * j + 8], i % 8);
    }
  }

  // ---------------------------------------------------------------- eleven-bit words

  const WORD_BITS: nat := 11

  /** `n >> s`. */
  function Shr(n: nat, s: nat): nat
    decreases s
  {
    if s == 0 then n else Shr(n / 2, s - 1)
  }

  /** The low `len` bits of `n`, most significant first. */
  function ToBits(n: nat, len: nat): (r: seq<bool>)
    ensures |r| == len
    decreases len
  {
    if len == 0 then [] else ToBits(n / 2, len - 1) + [n % 2 == 1]
  }

  function FromBits(bits: seq<bool>): nat {
    if bits == [] then 0
    else 2 * FromBits(bits[..|bits| - 1]) + if bits[|bits| - 1] then 1 else 0
  }

  /** Reading bit by bit from the top, as the decoding loop does: `(n >> shift) & 1`. */
  lemma {:induction false} BitIsShift(n: nat, len: nat, k: nat)
    requires k < len
    ensures ToBits(n, len)[k] == (Shr(n, len - 1 - k) % 2 == 1)
    decreases len
  {
    if k < len - 1 {
      BitIsShift(n / 2, len - 1, k);
    }
  }

  lemma {:induction false} FromToBits(n: nat, len: nat)
    requires n < Pow2(len)
    ensures FromBits(ToBits(n, len)) == n
    decreases len
  {
    if len > 0 {
      FromToBits(n / 2, len - 1);
      assert ToBits(n, len)[..len - 1] == ToBits(n / 2, len - 1);
    }
  }

  lemma {:induction false} ToFromBits(bits: seq<bool>)
    ensures ToBits(FromBits(bits), |bits|) == bits && FromBits(bits) < Pow2(|bits|)
  {
    if bits != [] {
      ToFromBits(bits[..|bits| - 1]);
    }
  }

  lemma WordRange()
    ensures Pow2(WORD_BITS) == 2048
  {
    assert Pow2(5) == 32;
  }

  /** The bit string of a list of word indices. */
  function Unpack(indices: seq<nat>): (r: seq<bool>)
    ensures |r| == WORD_BITS * |indices| && |r| % WORD_BITS == 0
  {
    if indices == [] then []
    else Unpack(indices[..|indices| - 1]) + ToBits(indices[|indices| - 1], WORD_BITS)
  }

  /** The word indices of a bit string, eleven bits each. */
  function Pack(bits: seq<bool>): (r: seq<nat>)
    requires |bits| % WORD_BITS == 0
    ensures WORD_BITS * |r| == |bits|
  {
    if bits == [] then []
    else
      var n := |bits| - WORD_BITS;
      Pack(bits[..n]) + [FromBits(bits[n..])]
  }

  predicate InRange(indices: seq<nat>) {
    forall i :: 0 <= i < |indices| ==> indices[i] < 2048
  }

  lemma OneWordLess(n: nat)
    requires n % WORD_BITS == 0 && n > 0
    ensures n >= WORD_BITS && (n - WORD_BITS) % WORD_BITS == 0
  {
  }

  lemma PackSnoc(bits: seq<bool>, word: seq<bool>)
    requires |bits| % WORD_BITS == 0 && |word| == WORD_BITS
    ensures |bits + word| % WORD_BITS == 0 && Pack(bits + word) == Pack(bits) + [FromBits(word)]
  {
    hide FromBits;
    assert (bits + word)[..|bits|] == bits && (bits + word)[|bits|..] == word;
  }

  lemma UnpackSnoc(indices: seq<nat>, index: nat)
    ensures Unpack(indices + [index]) == Unpack(indices) + ToBits(index, WORD_BITS)
  {
    assert (indices + [index])[..|indices|] == indices;
  }

  lemma NoWords()
    ensures Pack([]) == [] && Unpack([]) == []
  {
  }

  lemma {:induction false} UnpackPack(bits: seq<bool>)
    requires |bits| % WORD_BITS == 0
    ensures Unpack(Pack(bits)) == bits && InRange(Pack(bits))
  {
    hide Pow2, ToBits, FromBits, Pack, Unpack;
    NoWords();
    if bits != [] {
      var n := |bits| - WORD_BITS;
      OneWordLess(|bits|);
      UnpackPack(bits[..n]);
      ToFromBits(bits[n..]);
      WordRange();
      PackSnoc(bits[..n], bits[n..]);
      UnpackSnoc(Pack(bits[..n]), FromBits(bits[n..]));
      assert bits[..n] + bits[n..] == bits;
    }
  }

  lemma {:induction false} PackUnpack(indices: seq<nat>)
    requires InRange(indices)
    ensures Pack(Unpack(indices)) == indices
  {
    hide Pow2, ToBits, FromBits, Pack, Unpack;
    NoWords();
    if indices != [] {
      var n := |indices| - 1;
      PackUnpack(indices[..n]);
      WordRange();
      FromToBits(indices[n], WORD_BITS);
      PackSnoc(Unpack(indices[..n]), ToBits(indices[n], WORD_BITS));
      UnpackSnoc(indices[..n], indices[n]);
      assert indices[..n] + [indices[n]] == indices;
    }
  }
}
