/**
 * Fixed-width integers as they are laid out in a BMP file: unsigned 16- and
 * 32-bit words (WORD, DWORD) and signed 32-bit words (LONG), all stored
 * little-endian, least significant byte first.
 */
module LittleEndian {

  type byte = x: int | 0 <= x < 0x100
  type u16 = x: int | 0 <= x < 0x1_0000
  type u32 = x: int | 0 <= x < 0x1_0000_0000
  type i32 = x: int | -0x8000_0000 <= x < 0x8000_0000

  /** The WORD stored at s[at], s[at + 1]. */
  function U16At(s: seq<byte>, at: nat): u16
    requires at + 2 <= |s|
  {
    (s[at] as int) + 0x100 * (s[at + 1] as int)
  }

  /** The DWORD stored at s[at], ..., s[at + 3]. */
  function U32At(s: seq<byte>, at: nat): u32
    requires at + 4 <= |s|
  {
    (s[at] as int) + 0x100 * (s[at + 1] as int) + 0x1_0000 * (s[at + 2] as int) + 0x100_0000 * (s[at + 3] as int)
  }

  /** The LONG stored at s[at], ..., s[at + 3]: the DWORD read in two's complement. */
  function I32At(s: seq<byte>, at: nat): i32
    requires at + 4 <= |s|
  {
    var u := U32At(s, at);
    if u < 0x8000_0000 then u else u - 0x1_0000_0000
  }

  function U16Bytes(v: u16): (s: seq<byte>)
    ensures |s| == 2 && U16At(s, 0) == v
  {
    [v % 0x100, v / 0x100]
  }

  function U32Bytes(v: u32): (s: seq<byte>)
    ensures |s| == 4 && U32At(s, 0) == v
  {
    [v % 0x100, (v / 0x100) % 0x100, (v / 0x1_0000) % 0x100, v / 0x100_0000]
  }

  function I32Bytes(v: i32): (s: seq<byte>)
    ensures |s| == 4 && I32At(s, 0) == v
  {
    U32Bytes(if v < 0 then v + 0x1_0000_0000 else v)
  }

  /** Reading a WORD and writing it back gives the same two bytes. */
  lemma U16BytesOfU16At(s: seq<byte>, at: nat)
    requires at + 2 <= |s|
    ensures U16Bytes(U16At(s, at)) == s[at..at + 2]
  {
    var v := U16At(s, at);
    assert v % 0x100 == s[at] && v / 0x100 == s[at + 1];
  }

  /** Reading a DWORD and writing it back gives the same four bytes. */
  lemma U32BytesOfU32At(s: seq<byte>, at: nat)
    requires at + 4 <= |s|
    ensures U32Bytes(U32At(s, at)) == s[at..at + 4]
  {
    var v := U32At(s, at);
    var high := (s[at + 1] as int) + 0x100 * (s[at + 2] as int) + 0x1_0000 * (s[at + 3] as int);
    assert v == (s[at] as int) + 0x100 * high;
    assert v % 0x100 == s[at] && v / 0x100 == high;
    var higher := (s[at + 2] as int) + 0x100 * (s[at + 3] as int);
    assert high == s[at + 1] + 0x100 * higher;
    assert high % 0x100 == s[at + 1] && high / 0x100 == higher;
    assert v / 0x1_0000 == higher by {
      assert v / 0x1_0000 == (v / 0x100) / 0x100;
    }
    assert v / 0x100_0000 == s[at + 3] by {
      assert v / 0x100_0000 == higher / 0x100;
    }
  }

  /** Reading a LONG and writing it back gives the same four bytes. */
  lemma I32BytesOfI32At(s: seq<byte>, at: nat)
    requires at + 4 <= |s|
    ensures I32Bytes(I32At(s, at)) == s[at..at + 4]
  {
    U32BytesOfU32At(s, at);
  }
}
