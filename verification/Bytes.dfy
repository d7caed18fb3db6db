/** Bytes, machine words and network byte order. */
module Bytes {
  type byte = x: int | 0 <= x < 0x100
  type uint16 = x: int | 0 <= x < 0x1_0000
  type uint32 = x: int | 0 <= x < 0x1_0000_0000

  /** The range of the C type int32_t; arithmetic in it must be shown not to overflow. */
  newtype int32 = x: int | -0x8000_0000 <= x < 0x8000_0000

  /** Conversion of a C integer to uint32_t. */
  function ToUint32(n: int): (u: uint32)
    ensures 0 <= n < 0x1_0000_0000 ==> u == n
  {
    n % 0x1_0000_0000
  }

  /** Conversion of a uint32_t to int32_t, two's complement. */
  function ToInt32(n: uint32): (i: int)
    ensures -0x8000_0000 <= i < 0x8000_0000 && (i == n || i == n - 0x1_0000_0000)
  {
    if n < 0x8000_0000 then n else n - 0x1_0000_0000
  }

  /** The memory image that htonl followed by a 4-byte memcpy leaves. */
  function BigEndian(n: uint32): (bs: seq<byte>)
    ensures |bs| == 4
  {
    [n / 0x100_0000, n / 0x1_0000 % 0x100, n / 0x100 % 0x100, n % 0x100]
  }

  /** A 4-byte memcpy followed by ntohl. */
  function FromBigEndian(bs: seq<byte>): uint32
    requires |bs| == 4
  {
    bs[0] as int * 0x100_0000 + bs[1] as int * 0x1_0000 + bs[2] as int * 0x100 + bs[3]
  }

  /** The most significant byte comes first. */
  lemma BigEndianValue(n: uint32)
    ensures var bs := BigEndian(n);
            n == bs[0] as int * 0x100_0000 + bs[1] as int * 0x1_0000 + bs[2] as int * 0x100 + bs[3]
  {
    BigEndianRoundTrip(n);
  }

  lemma BigEndianRoundTrip(n: uint32)
    ensures FromBigEndian(BigEndian(n)) == n
  {
    var a, b, c := n / 0x100, n / 0x1_0000, n / 0x100_0000;
    assert n == 0x100 * a + n % 0x100;
    assert b == a / 0x100 && c == b / 0x100;
    assert a == 0x100 * b + a % 0x100 && b == 0x100 * c + b % 0x100;
  }

  lemma FromBigEndianRoundTrip(bs: seq<byte>)
    requires |bs| == 4
    ensures BigEndian(FromBigEndian(bs)) == bs
  {
    var n := FromBigEndian(bs);
    assert n / 0x100 == bs[0] as int * 0x1_0000 + bs[1] as int * 0x100 + bs[2];
    assert n / 0x1_0000 == bs[0] as int * 0x100 + bs[1];
    assert n / 0x100_0000 == bs[0];
  }
}
