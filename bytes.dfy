/** Bytes of a Python 2 `str` buffer and the fixed-width integer layouts that
    `struct.unpack` reads from it ("<H", ">H", ">L"). */
module Bytes {

  /** One character of a Python 2 byte string, as its ordinal. */
  type Byte = b: int | 0 <= b < 256

  function Min(a: int, b: int): int
  {
    if a < b then a else b
  }

  /** `k` copies of the byte `b`. */
  function Repeat(b: Byte, k: nat): (s: seq<Byte>)
    ensures |s| == k
    ensures forall i :: 0 <= i < k ==> s[i] == b
  {
    if k == 0 then [] else [b] + Repeat(b, k - 1)
  }

  /** `struct.unpack("<H", s)`: unsigned 16-bit, least significant byte first. */
  function LittleEndian16(s: seq<Byte>): (n: int)
    requires |s| == 2
    ensures 0 <= n < 0x1_0000
  {
    s[0] as int + 0x100 * s[1] as int
  }

  /** `struct.unpack(">H", s)`: unsigned 16-bit, most significant byte first. */
  function BigEndian16(s: seq<Byte>): (n: int)
    requires |s| == 2
    ensures 0 <= n < 0x1_0000
  {
    0x100 * s[0] as int + s[1] as int
  }

  /** `struct.unpack(">L", s)`: unsigned 32-bit, most significant byte first. */
  function BigEndian32(s: seq<Byte>): (n: int)
    requires |s| == 4
    ensures 0 <= n < 0x1_0000_0000
  {
    0x100_0000 * s[0] as int + 0x1_0000 * s[1] as int + 0x100 * s[2] as int + s[3] as int
  }

  /** The two bytes that `LittleEndian16` reads back as `n`. */
  function EncodeLittleEndian16(n: int): (s: seq<Byte>)
    requires 0 <= n < 0x1_0000
    ensures |s| == 2 && LittleEndian16(s) == n
  {
    [n % 0x100, n / 0x100]
  }

  /** The two bytes that `BigEndian16` reads back as `n`. */
  function EncodeBigEndian16(n: int): (s: seq<Byte>)
    requires 0 <= n < 0x1_0000
    ensures |s| == 2 && BigEndian16(s) == n
  {
    [n / 0x100, n % 0x100]
  }

  /** The four bytes that `BigEndian32` reads back as `n`. */
  function EncodeBigEndian32(n: int): (s: seq<Byte>)
    requires 0 <= n < 0x1_0000_0000
    ensures |s| == 4 && BigEndian32(s) == n
  {
    EncodeBigEndian16(n / 0x1_0000) + EncodeBigEndian16(n % 0x1_0000)
  }

  /** Decoding then encoding gives back the same bytes: each layout is a bijection. */
  lemma BigEndian16Bijective(s: seq<Byte>)
    requires |s| == 2
    ensures EncodeBigEndian16(BigEndian16(s)) == s
  {
  }

  lemma LittleEndian16Bijective(s: seq<Byte>)
    requires |s| == 2
    ensures EncodeLittleEndian16(LittleEndian16(s)) == s
  {
  }

  lemma BigEndian32Bijective(s: seq<Byte>)
    requires |s| == 4
    ensures EncodeBigEndian32(BigEndian32(s)) == s
  {
    var hi: int := 0x100 * s[0] as int + s[1] as int;
    var lo: int := 0x100 * s[2] as int + s[3] as int;
    assert BigEndian32(s) == 0x1_0000 * hi + lo;
    assert BigEndian32(s) / 0x1_0000 == hi;
    assert BigEndian32(s) % 0x1_0000 == lo;
  }
}
