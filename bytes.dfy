/**
 * Bytes and the big-endian unsigned integers of the .rmod format.
 *
 * `serialize_uint32` packs its argument with `struct.pack('>I', num)`: four
 * bytes, most significant byte first.  This module gives that encoding, the
 * reading that undoes it, and the two round trips.
 */
module Bytes {

  /** One element of the output `bytearray`. */
  type byte = x: int | 0 <= x < 256

  /** 2^32: the first value that does not fit in four bytes. */
  const Uint32Limit: int := 0x1_0000_0000

  function Pow256(k: nat): (r: nat)
    ensures r >= 1
  {
    if k == 0 then 1 else 256 * Pow256(k - 1)
  }

  /** The last `width` base-256 digits of `n`, most significant first. */
  function BigEndian(n: nat, width: nat): (r: seq<byte>)
    ensures |r| == width
  {
    if width == 0 then [] else BigEndian(n / 256, width - 1) + [n % 256]
  }

  /** The number a big-endian digit sequence denotes. */
  function DecodeBigEndian(s: seq<byte>): nat
  {
    if s == [] then 0 else DecodeBigEndian(s[..|s| - 1]) * 256 + s[|s| - 1]
  }

  lemma {:induction false} DecodeBigEndianBound(s: seq<byte>)
    ensures DecodeBigEndian(s) < Pow256(|s|)
  {
    if s != [] {
      DecodeBigEndianBound(s[..|s| - 1]);
    }
  }

  /** Writing `n` in `width` digits and reading it back gives `n`, whenever `n` fits. */
  lemma {:induction false} BigEndianRoundTrip(n: nat, width: nat)
    requires n < Pow256(width)
    ensures DecodeBigEndian(BigEndian(n, width)) == n
  {
    if width > 0 {
      var s := BigEndian(n, width);
      assert s[..width - 1] == BigEndian(n / 256, width - 1);
      assert n / 256 < Pow256(width - 1);
      BigEndianRoundTrip(n / 256, width - 1);
    }
  }

  /** Reading a digit sequence and writing the number back in as many digits gives the same sequence. */
  lemma {:induction false} DecodeBigEndianRoundTrip(s: seq<byte>)
    ensures BigEndian(DecodeBigEndian(s), |s|) == s
  {
    if s != [] {
      var init, last := s[..|s| - 1], s[|s| - 1];
      var n := DecodeBigEndian(s);
      assert n == DecodeBigEndian(init) * 256 + last;
      assert n / 256 == DecodeBigEndian(init) && n % 256 == last;
      DecodeBigEndianRoundTrip(init);
      assert s == init + [last];
    }
  }

  /** The values `struct.pack('>I', ...)` accepts: 0 <= num < 2^32. */
  predicate Uint32InRange(num: int)
  {
    0 <= num < Uint32Limit
  }

  /** The four bytes `struct.pack('>I', num)` produces. */
  function Uint32Bytes(num: int): (r: seq<byte>)
    requires Uint32InRange(num)
    ensures |r| == 4
  {
    BigEndian(num, 4)
  }

  /** How a reader of the format recovers an unsigned 32-bit field: most significant byte first. */
  function DecodeUint32(s: seq<byte>): nat
    requires |s| == 4
  {
    s[0] as int * 0x100_0000 + s[1] as int * 0x1_0000 + s[2] as int * 0x100 + s[3] as int
  }

  lemma DecodeUint32IsBigEndian(s: seq<byte>)
    requires |s| == 4
    ensures DecodeUint32(s) == DecodeBigEndian(s)
  {
    assert s[..3][..2] == s[..2];
    assert s[..2][..1] == s[..1];
    assert s[..1][..0] == [];
    assert DecodeBigEndian(s[..1]) == s[0];
    assert DecodeBigEndian(s[..2]) == s[0] as int * 256 + s[1];
    assert DecodeBigEndian(s[..3]) == (s[0] as int * 256 + s[1]) * 256 + s[2];
  }

  lemma Pow256Four()
    ensures Pow256(4) == Uint32Limit
  {
    assert Pow256(2) == 0x1_0000;
  }

  /** Every in-range value is read back from its four bytes. */
  lemma Uint32RoundTrip(num: int)
    requires Uint32InRange(num)
    ensures DecodeUint32(Uint32Bytes(num)) == num
  {
    Pow256Four();
    BigEndianRoundTrip(num, 4);
    DecodeUint32IsBigEndian(Uint32Bytes(num));
  }

  /** Every four bytes are the encoding of exactly the value they are read as. */
  lemma Uint32DecodeRoundTrip(s: seq<byte>)
    requires |s| == 4
    ensures Uint32InRange(DecodeUint32(s)) && Uint32Bytes(DecodeUint32(s)) == s
  {
    DecodeUint32IsBigEndian(s);
    DecodeBigEndianBound(s);
    Pow256Four();
    DecodeBigEndianRoundTrip(s);
  }

  /** The range check `serialize_uint32` performs before packing, as written. */
  predicate Uint32GuardAsWritten(num: int)
  {
    !(num > Uint32Limit || num < 0)
  }

  /**
   * The written guard lets 2^32 through, yet no four bytes are read as 2^32:
   * `struct.pack('>I', 2**32)` raises instead of the converter's own error.
   */
  lemma GuardAdmitsUnencodable()
    ensures Uint32GuardAsWritten(Uint32Limit)
    ensures !Uint32InRange(Uint32Limit)
    ensures forall s: seq<byte> | |s| == 4 :: DecodeUint32(s) != Uint32Limit
  {
    forall s: seq<byte> | |s| == 4
      ensures DecodeUint32(s) != Uint32Limit
    {
      Uint32DecodeRoundTrip(s);
    }
  }

  /** The corrected guard admits exactly the values that have a four-byte encoding. */
  lemma Uint32InRangeIsEncodable(num: int)
    ensures Uint32InRange(num) <==> exists s: seq<byte> | |s| == 4 :: DecodeUint32(s) == num
  {
    if Uint32InRange(num) {
      Uint32RoundTrip(num);
      assert |Uint32Bytes(num)| == 4 && DecodeUint32(Uint32Bytes(num)) == num;
    }
    if exists s: seq<byte> | |s| == 4 :: DecodeUint32(s) == num {
      var s: seq<byte> :| |s| == 4 && DecodeUint32(s) == num;
      Uint32DecodeRoundTrip(s);
    }
  }
}
