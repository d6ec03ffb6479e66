/** Octets and the network byte order used by every packet format in the program. */
module Bytes {

  type Byte = x: int | 0 <= x < 256

  const U16 := 0x1_0000
  const U32 := 0x1_0000_0000

  type Word16 = x: int | 0 <= x < 0x1_0000
  type Word32 = x: int | 0 <= x < 0x1_0000_0000

  /** The two octets of v, most significant first (htons followed by a store). */
  function Be16(v: Word16): (s: seq<Byte>)
    ensures |s| == 2
    ensures ReadBe16(s) == v
  {
    [v / 256, v % 256]
  }

  function ReadBe16(s: seq<Byte>): Word16
    requires |s| == 2
  {
    s[0] as int * 256 + s[1] as int
  }

  /** The four octets of v, most significant first. */
  function Be32(v: Word32): (s: seq<Byte>)
    ensures |s| == 4
  {
    Be16(v / U16) + Be16(v % U16)
  }

  function Zeros(n: nat): (z: seq<Byte>)
    ensures |z| == n
  {
    seq(n, _ => 0)
  }

  lemma OctetsOf16(v: Word16)
    ensures 256 * Be16(v)[0] as int + Be16(v)[1] == v
  {
  }

  lemma OctetsOf32(v: Word32)
    ensures var s := Be32(v); 0x1000000 * s[0] as int + 0x10000 * s[1] as int + 0x100 * s[2] as int + s[3] == v
  {
    OctetsOf16(v / U16);
    OctetsOf16(v % U16);
    hide Be16;
  }
}
