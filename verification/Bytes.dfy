/** Octets and big-endian numbers on the wire. */
module Bytes {

  type Byte = b: int | 0 <= b < 256

  function Read16(d: seq<Byte>, at: nat): (v: nat)
    requires at + 2 <= |d|
    ensures v < 0x1_0000
  {
    d[at] as int * 256 + d[at + 1] as int
  }

  function Read32(d: seq<Byte>, at: nat): (v: nat)
    requires at + 4 <= |d|
    ensures v < 0x1_0000_0000
  {
    Read16(d, at) * 0x1_0000 + Read16(d, at + 2)
  }

  function Put16(v: nat): (s: seq<Byte>)
    requires v < 0x1_0000
    ensures |s| == 2
  {
    [v / 256, v % 256]
  }

  function Put32(v: nat): (s: seq<Byte>)
    requires v < 0x1_0000_0000
    ensures |s| == 4
  {
    [v / 0x100_0000, v / 0x1_0000 % 256, v / 0x100 % 256, v % 256]
  }

  lemma Read32OfPut32(v: nat)
    requires v < 0x1_0000_0000
    ensures Read32(Put32(v), 0) == v
  {
    var a, b, c := v / 0x100_0000, v / 0x1_0000, v / 0x100;
    assert b / 256 == a && c / 256 == b;
  }

  /** ASCII lower case of one octet. */
  function Lower(b: Byte): (c: Byte) {
    if 'A' as int <= b <= 'Z' as int then b + 32 else b
  }
}
