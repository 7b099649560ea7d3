/** Bytes and the big-endian integers of the TLS and DTLS wire formats. */
module Bytes {

  type byte = x: int | 0 <= x < 256

  /** The value of a big-endian byte string. */
  function BigEndian(s: seq<byte>): nat {
    if s == [] then 0 else 256 * BigEndian(s[..|s| - 1]) + s[|s| - 1]
  }

  /** The buffer with these bytes from `at` on. */
  function Overwrite(buffer: seq<byte>, at: nat, bytes: seq<byte>): (r: seq<byte>)
    requires at + |bytes| <= |buffer|
    ensures |r| == |buffer|
  {
    buffer[..at] + bytes + buffer[at + |bytes|..]
  }

  function U16(n: nat): (s: seq<byte>)
    requires n < 0x1_0000
  {
    [n / 0x100, n % 0x100]
  }

  function U24(n: nat): (s: seq<byte>)
    requires n < 0x100_0000
  {
    [n / 0x1_0000, n / 0x100 % 0x100, n % 0x100]
  }

  function ReadU16(s: seq<byte>): (n: nat)
    requires |s| >= 2
    ensures n < 0x1_0000
  {
    0x100 * (s[0] as int) + s[1] as int
  }

  function ReadU24(s: seq<byte>): (n: nat)
    requires |s| >= 3
    ensures n < 0x100_0000
  {
    0x1_0000 * (s[0] as int) + 0x100 * (s[1] as int) + s[2] as int
  }

  lemma TwoBytes(s: seq<byte>)
    requires |s| >= 2
    ensures ReadU16(s) == BigEndian(s[..2])
  {
    assert s[..2][..1] == [s[0]] && s[..2][..1][..0] == [];
    assert BigEndian([s[0]]) == s[0];
  }

  lemma ThreeBytes(s: seq<byte>)
    requires |s| >= 3
    ensures ReadU24(s) == BigEndian(s[..3])
  {
    TwoBytes(s);
    assert s[..3][..2] == s[..2];
  }
}
