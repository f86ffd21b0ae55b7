/** Bytes, fixed-width unsigned integers and the big-endian codec
    (`encoding/binary.BigEndian`) that both files of a segment use. */
module Bytes {

  type byte = x: int | 0 <= x < 256

  const TWO_32: int := 0x1_0000_0000
  const TWO_64: int := 0x1_0000_0000_0000_0000

  type u32 = x: int | 0 <= x < 0x1_0000_0000
  type u64 = x: int | 0 <= x < 0x1_0000_0000_0000_0000

  /** `uint64(x)`: `x` reduced modulo 2^64, Go's unsigned wrap-around. */
  function Wrap64(x: int): (r: u64)
    ensures 0 <= x < TWO_64 ==> r == x
  {
    x % TWO_64
  }

  /** `uint32(x)`: `x` reduced modulo 2^32. */
  function Wrap32(x: int): (r: u32)
    ensures 0 <= x < TWO_32 ==> r == x
  {
    x % TWO_32
  }

  /** 256 to the power n: the number of values `n` bytes can hold. */
  function Pow256(n: nat): (r: nat)
    ensures r > 0
  {
    if n == 0 then 1 else 256 * Pow256(n - 1)
  }

  /** The `width` low-order bytes of `x`, most significant first
      (`PutUint32` for width 4, `PutUint64` for width 8). */
  function ToBE(x: nat, width: nat): (r: seq<byte>)
    ensures |r| == width
  {
    if width == 0 then [] else ToBE(x / 256, width - 1) + [x % 256]
  }

  /** The number whose big-endian bytes are `s` (`Uint32`, `Uint64`). */
  function FromBE(s: seq<byte>): (r: nat)
    ensures r < Pow256(|s|)
  {
    if |s| == 0 then 0
    else
      var hi := FromBE(s[..|s| - 1]);
      assert hi * 256 + s[|s| - 1] < Pow256(|s| - 1) * 256 by {
        assert hi <= Pow256(|s| - 1) - 1;
      }
      hi * 256 + s[|s| - 1]
  }

  /** Decoding undoes encoding for every value that fits in the width. */
  lemma {:induction false} DecodeEncode(x: nat, width: nat)
    requires x < Pow256(width)
    ensures FromBE(ToBE(x, width)) == x
  {
    if width > 0 {
      var s := ToBE(x, width);
      var hi := x / 256;
      assert x == hi * 256 + x % 256;
      assert hi < Pow256(width - 1);
      assert s[..width - 1] == ToBE(hi, width - 1) && s[width - 1] == x % 256;
      DecodeEncode(hi, width - 1);
    }
  }

  /** Encoding undoes decoding: a byte string is determined by its value. */
  lemma {:induction false} EncodeDecode(s: seq<byte>)
    ensures ToBE(FromBE(s), |s|) == s
  {
    if |s| > 0 {
      var p := s[..|s| - 1];
      var v := FromBE(s);
      assert v / 256 == FromBE(p) && v % 256 == s[|s| - 1];
      EncodeDecode(p);
      assert s == p + [s[|s| - 1]];
    }
  }

  lemma Pow256Values()
    ensures Pow256(4) == TWO_32 && Pow256(8) == TWO_64
  {
  }
}
