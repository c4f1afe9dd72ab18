/** Fixed-width integer encoding used on the wire.

    A C `int` is taken to be 4 bytes. Both ends of the pipe run on the same
    host, so the byte order only has to be the same on both sides; the model
    fixes it to least-significant byte first and proves the encoding is a
    bijection between 32-bit integers and 4-byte strings.
 */
module IntCodec {

  /** One octet as carried by the pipe. */
  type byte = b: int | 0 <= b < 0x100

  /** A C `int` on a platform where `sizeof(int) == 4`. */
  type int32 = x: int | -0x8000_0000 <= x < 0x8000_0000

  /** `sizeof(int)` */
  const INT_SIZE: nat := 4

  const TWO_32: nat := 0x1_0000_0000

  /** Two's-complement bit pattern of `x`, read as an unsigned number. */
  function ToUnsigned(x: int32): (u: nat)
    ensures u < TWO_32
    ensures u == x || u == x + TWO_32
  {
    if x < 0 then x + TWO_32 else x
  }

  /** Signed value of a 32-bit pattern. */
  function FromUnsigned(u: nat): (x: int32)
    requires u < TWO_32
    ensures ToUnsigned(x) == u
  {
    if u < 0x8000_0000 then u else u - TWO_32
  }

  /** 256 to the power `k`: the number of values `k` bytes can hold. */
  function Pow256(k: nat): (p: nat)
    ensures p > 0
  {
    if k == 0 then 1 else 0x100 * Pow256(k - 1)
  }

  /** The `k` base-256 digits of `u`, least significant first. */
  function ToBytes(u: nat, k: nat): (bs: seq<byte>)
    ensures |bs| == k
  {
    if k == 0 then [] else [u % 0x100] + ToBytes(u / 0x100, k - 1)
  }

  /** The number whose base-256 digits, least significant first, are `bs`. */
  function FromBytes(bs: seq<byte>): (u: nat)
    ensures u < Pow256(|bs|)
  {
    if |bs| == 0 then 0 else bs[0] + 0x100 * FromBytes(bs[1..])
  }

  lemma SplitByte(lo: int, hi: int)
    requires 0 <= lo < 0x100 && 0 <= hi
    ensures (lo + 0x100 * hi) % 0x100 == lo
    ensures (lo + 0x100 * hi) / 0x100 == hi
  {
  }

  lemma DivByteBound(u: nat, k: nat)
    requires u < 0x100 * k
    ensures u / 0x100 < k
  {
  }

  /** Reading back the `k` digits of a number that fits in `k` bytes gives the number. */
  lemma {:induction false} FromToBytes(u: nat, k: nat)
    requires u < Pow256(k)
    ensures FromBytes(ToBytes(u, k)) == u
  {
    if k > 0 {
      DivByteBound(u, Pow256(k - 1));
      FromToBytes(u / 0x100, k - 1);
      var bs := ToBytes(u, k);
      assert bs[1..] == ToBytes(u / 0x100, k - 1);
    }
  }

  /** Taking the digits of the number that `bs` spells gives `bs` back. */
  lemma {:induction false} ToFromBytes(bs: seq<byte>)
    ensures ToBytes(FromBytes(bs), |bs|) == bs
  {
    if |bs| > 0 {
      var rest := FromBytes(bs[1..]);
      SplitByte(bs[0], rest);
      ToFromBytes(bs[1..]);
      assert bs == [bs[0]] + bs[1..];
    }
  }

  /** The 4 bytes that hold `x` in memory. */
  function EncodeInt(x: int32): (bs: seq<byte>)
    ensures |bs| == INT_SIZE
  {
    ToBytes(ToUnsigned(x), INT_SIZE)
  }

  /** The `int` that the 4 bytes `bs` hold in memory. */
  function DecodeInt(bs: seq<byte>): (x: int32)
    requires |bs| == INT_SIZE
  {
    assert Pow256(INT_SIZE) == TWO_32;
    FromUnsigned(FromBytes(bs))
  }

  /** Decoding undoes encoding: an `int` copied byte by byte arrives intact. */
  lemma DecodeEncodeInt(x: int32)
    ensures DecodeInt(EncodeInt(x)) == x
  {
    assert Pow256(INT_SIZE) == TWO_32;
    FromToBytes(ToUnsigned(x), INT_SIZE);
  }

  /** Encoding undoes decoding: every 4-byte string is the image of exactly one `int`. */
  lemma EncodeDecodeInt(bs: seq<byte>)
    requires |bs| == INT_SIZE
    ensures EncodeInt(DecodeInt(bs)) == bs
  {
    ToFromBytes(bs);
  }

  /** Equal encodings come from equal integers. */
  lemma EncodeIntInjective(x: int32, y: int32)
    requires EncodeInt(x) == EncodeInt(y)
    ensures x == y
  {
    DecodeEncodeInt(x);
    DecodeEncodeInt(y);
  }

  /** The bytes of an array of `int`s, element after element, as `write` sees them. */
  function EncodeInts(xs: seq<int32>): (bs: seq<byte>)
    ensures |bs| == INT_SIZE * |xs|
  {
    if |xs| == 0 then [] else EncodeInt(xs[0]) + EncodeInts(xs[1..])
  }

  /** The array of `int`s that a byte buffer holds, element after element. */
  function DecodeInts(bs: seq<byte>): (xs: seq<int32>)
    requires |bs| % INT_SIZE == 0
    ensures INT_SIZE * |xs| == |bs|
  {
    if |bs| == 0 then [] else [DecodeInt(bs[..INT_SIZE])] + DecodeInts(bs[INT_SIZE..])
  }

  /** Element `i` of the array occupies bytes `4 * i` to `4 * i + 4` of its encoding. */
  lemma {:induction false} EncodeIntsAt(xs: seq<int32>, i: nat)
    requires i < |xs|
    ensures EncodeInts(xs)[INT_SIZE * i .. INT_SIZE * i + INT_SIZE] == EncodeInt(xs[i])
    decreases i
  {
    var bs := EncodeInts(xs);
    var rest := EncodeInts(xs[1..]);
    assert bs == EncodeInt(xs[0]) + rest;
    if i > 0 {
      EncodeIntsAt(xs[1..], i - 1);
      assert bs[INT_SIZE * i .. INT_SIZE * i + INT_SIZE]
          == rest[INT_SIZE * (i - 1) .. INT_SIZE * (i - 1) + INT_SIZE];
    }
  }

  /** An array of `int`s written as bytes reads back as the same array. */
  lemma {:induction false} DecodeEncodeInts(xs: seq<int32>)
    ensures DecodeInts(EncodeInts(xs)) == xs
  {
    if |xs| != 0 {
      var head := EncodeInt(xs[0]);
      var rest := EncodeInts(xs[1..]);
      var bs := head + rest;
      assert bs[..INT_SIZE] == head && bs[INT_SIZE..] == rest;
      DecodeEncodeInt(xs[0]);
      DecodeEncodeInts(xs[1..]);
      assert xs == [xs[0]] + xs[1..];
    }
  }

  /** Every byte buffer of whole `int`s is the encoding of the array it decodes to. */
  lemma {:induction false} EncodeDecodeInts(bs: seq<byte>)
    requires |bs| % INT_SIZE == 0
    ensures EncodeInts(DecodeInts(bs)) == bs
    decreases |bs|
  {
    if |bs| != 0 {
      var xs := DecodeInts(bs);
      assert xs[1..] == DecodeInts(bs[INT_SIZE..]);
      EncodeDecodeInts(bs[INT_SIZE..]);
      EncodeDecodeInt(bs[..INT_SIZE]);
      assert bs == bs[..INT_SIZE] + bs[INT_SIZE..];
    }
  }
}
