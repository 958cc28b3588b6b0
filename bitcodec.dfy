/** Bit-level packing used by the LSB codec: a byte is spread over eight
    bits, least significant bit first (`(byte >> i) & 1` for i in 0..8), and
    eight bits are folded back with `byte |= bit << j`. */
module BitCodec {
  import opened Common

  /** `b >> i` on a non-negative integer: i halvings. */
  function Shr(b: nat, i: nat): nat
  {
    if i == 0 then b else Shr(b, i - 1) / 2
  }

  /** `(b >> i) & 1` */
  function BitOf(b: nat, i: nat): bit
  {
    Shr(b, i) % 2
  }

  /** The first k bits of b, least significant first. */
  function LowBits(b: nat, k: nat): (r: seq<bit>)
  {
    seq(k, i requires 0 <= i => BitOf(b, i))
  }

  /** The eight bits of one byte, in the order the embedder emits them. */
  function ByteBits(b: byte): seq<bit>
  {
    LowBits(b, 8)
  }

  /** The number whose bit j is `bs[j]`: what `byte |= bs[j] << j` over
      j = 0, 1, ... accumulates. */
  function BitsValue(bs: seq<bit>): nat
  {
    if |bs| == 0 then 0 else BitsValue(bs[..|bs| - 1]) + bs[|bs| - 1] * Pow2(|bs| - 1)
  }

  /** k bits never make a number of k + 1 bits or more. */
  lemma {:induction false} BitsValueBound(bs: seq<bit>)
    ensures BitsValue(bs) < Pow2(|bs|)
  {
    if |bs| > 0 {
      BitsValueBound(bs[..|bs| - 1]);
    }
  }

  /** Eight bits, folded back into one byte. */
  function ByteOfBits(bs: seq<bit>): (r: byte)
    requires |bs| == 8
  {
    BitsValueBound(bs);
    assert Pow2(8) == 256;
    BitsValue(bs)
  }

  /** The low k bits of b, folded back, plus what is left after k shifts,
      rebuild b. */
  lemma {:induction false} LowBitsSplit(b: nat, k: nat)
    ensures BitsValue(LowBits(b, k)) + Pow2(k) * Shr(b, k) == b
  {
    if k > 0 {
      LowBitsSplit(b, k - 1);
      var low := LowBits(b, k);
      assert low[..k - 1] == LowBits(b, k - 1);
      var p, q, r := Pow2(k - 1), Shr(b, k), BitOf(b, k - 1);
      assert BitsValue(low) == BitsValue(LowBits(b, k - 1)) + r * p;
      assert Shr(b, k - 1) == 2 * q + r;
      Distribute(p, q, r);
      assert Pow2(k) == 2 * p;
    }
  }

  lemma Distribute(p: int, q: int, r: int)
    ensures p * (2 * q + r) == r * p + (2 * p) * q
  {
  }

  /** Splitting a byte into its eight bits and folding them back gives the byte. */
  lemma ByteBitsRoundTrip(b: byte)
    ensures ByteOfBits(ByteBits(b)) == b
  {
    LowBitsSplit(b, 8);
    assert Pow2(8) == 256;
  }

  /** Every byte of `bs`, eight bits each, least significant bit first:
      bit t is bit `t % 8` of byte `t / 8`. */
  function BytesToBits(bs: seq<byte>): (r: seq<bit>)
    ensures |r| == 8 * |bs|
  {
    seq(8 * |bs|, t requires 0 <= t < 8 * |bs| => BitOf(bs[t / 8], t % 8))
  }

  /** Every complete group of eight bits folded into a byte; a trailing
      group shorter than eight is dropped. */
  function BitsToBytes(bits: seq<bit>): (r: seq<byte>)
    ensures |r| == |bits| / 8
  {
    seq(|bits| / 8, i requires 0 <= i < |bits| / 8 => ByteOfBits(bits[8 * i..8 * i + 8]))
  }

  /** The eight bits of byte i sit at positions 8i .. 8i+8. */
  lemma BytesToBitsGroup(bs: seq<byte>, i: nat)
    requires i < |bs|
    ensures BytesToBits(bs)[8 * i..8 * i + 8] == ByteBits(bs[i])
  {
    var g := BytesToBits(bs)[8 * i..8 * i + 8];
    forall j | 0 <= j < 8
      ensures g[j] == ByteBits(bs[i])[j]
    {
      assert (8 * i + j) / 8 == i && (8 * i + j) % 8 == j;
    }
  }

  /** Folding the bits of a byte string back gives the byte string. */
  lemma BytesRoundTrip(bs: seq<byte>)
    ensures BitsToBytes(BytesToBits(bs)) == bs
  {
    var r := BitsToBytes(BytesToBits(bs));
    forall i | 0 <= i < |bs|
      ensures r[i] == bs[i]
    {
      BytesToBitsGroup(bs, i);
      ByteBitsRoundTrip(bs[i]);
    }
  }

  /** The bits of a concatenation are the concatenation of the bits. */
  lemma BytesToBitsAppend(a: seq<byte>, b: seq<byte>)
    ensures BytesToBits(a + b) == BytesToBits(a) + BytesToBits(b)
  {
    var l, r := BytesToBits(a + b), BytesToBits(a) + BytesToBits(b);
    forall t | 0 <= t < |l|
      ensures l[t] == r[t]
    {
      if t >= 8 * |a| {
        assert (t - 8 * |a|) / 8 == t / 8 - |a| && (t - 8 * |a|) % 8 == t % 8;
      }
    }
  }

  /** The shortest extension of `bits` by zero bits whose length is a
      multiple of 3 (`while len(bits) % 3 != 0: bits.append(0)`). */
  function PadToTriple(bits: seq<bit>): (r: seq<bit>)
    ensures |r| % 3 == 0 && |bits| <= |r| < |bits| + 3
    ensures r[..|bits|] == bits
    ensures forall t | |bits| <= t < |r| :: r[t] == 0
  {
    bits + seq((3 - |bits| % 3) % 3, _ => 0)
  }

  /** `bits` extended with zero bits to length n: the size field read from a
      grid too small to hold 32 bits (`if i + j < len(size_bits)`). */
  function ZeroExtend(bits: seq<bit>, n: nat): (r: seq<bit>)
    requires |bits| <= n
    ensures |r| == n && r[..|bits|] == bits
    ensures forall t | |bits| <= t < n :: r[t] == 0
  {
    bits + seq(n - |bits|, _ => 0)
  }

  /** One byte from `bits[i..i+8]`, as the source folds the payload bits:
      `for j in range(8): byte |= data_bits[i + j] << j`. */
  method FoldByte(bits: seq<bit>, i: nat) returns (b: byte)
    requires i + 8 <= |bits|
    ensures b == ByteOfBits(bits[i..i + 8])
  {
    var acc: nat := 0;
    var j := 0;
    while j < 8
      invariant 0 <= j <= 8
      invariant acc == BitsValue(bits[i..i + j])
    {
      assert bits[i..i + j + 1][..j] == bits[i..i + j];
      // bit j of acc is still clear, so `acc | (bit << j)` is `acc + bit * 2^j`
      acc := acc + bits[i + j] * Pow2(j);
      j := j + 1;
    }
    BitsValueBound(bits[i..i + 8]);
    assert Pow2(8) == 256;
    b := acc;
  }

  /** One byte of the size field from `size_bits[i..i+8]`, where the size
      field may hold fewer than 32 bits and a missing bit reads as 0:
      `for j in range(8): if i + j < len(size_bits): byte |= size_bits[i + j] << j`. */
  method FoldSizeByte(sizeBits: seq<bit>, i: nat) returns (b: byte)
    requires |sizeBits| <= 32 && i + 8 <= 32
    ensures b == ByteOfBits(ZeroExtend(sizeBits, 32)[i..i + 8])
  {
    ghost var z := ZeroExtend(sizeBits, 32);
    var acc: nat := 0;
    var j := 0;
    while j < 8
      invariant 0 <= j <= 8
      invariant acc == BitsValue(z[i..i + j])
    {
      assert z[i..i + j + 1][..j] == z[i..i + j];
      if i + j < |sizeBits| {
        acc := acc + sizeBits[i + j] * Pow2(j);
      }
      j := j + 1;
    }
    BitsValueBound(z[i..i + 8]);
    assert Pow2(8) == 256;
    b := acc;
  }
}
