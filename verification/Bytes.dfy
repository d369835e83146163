/** Byte strings, little-endian reads, and the option type used for NULL and for errors. */
module Bytes {

  type byte = x: int | 0 <= x < 256

  type bytes = seq<byte>

  datatype Option<+T> = None | Some(value: T)

  function LE16(s: bytes, i: nat): (r: nat)
    requires i + 2 <= |s|
    ensures r < 0x1_0000
  {
    s[i] as int + 0x100 * s[i + 1] as int
  }

  function LE32(s: bytes, i: nat): (r: nat)
    requires i + 4 <= |s|
    ensures r < 0x1_0000_0000
  {
    LE16(s, i) + 0x1_0000 * LE16(s, i + 2)
  }

  function LE64(s: bytes, i: nat): (r: nat)
    requires i + 8 <= |s|
    ensures r < 0x1_0000_0000_0000_0000
  {
    LE32(s, i) + 0x1_0000_0000 * LE32(s, i + 4)
  }

  /** What the numbers are, byte by byte. */
  lemma LittleEndian16(s: bytes, i: nat)
    requires i + 2 <= |s|
    ensures LE16(s, i) == s[i] as int + 0x100 * s[i + 1] as int
  {
  }

  lemma LittleEndian32(s: bytes, i: nat)
    requires i + 4 <= |s|
    ensures LE32(s, i) == s[i] as int + 0x100 * s[i + 1] as int + 0x1_0000 * s[i + 2] as int + 0x100_0000 * s[i + 3] as int
  {
  }

  lemma LittleEndian64(s: bytes, i: nat)
    requires i + 8 <= |s|
    ensures LE64(s, i) == s[i] as int + 0x100 * s[i + 1] as int + 0x1_0000 * s[i + 2] as int + 0x100_0000 * s[i + 3] as int
                          + 0x1_0000_0000 * s[i + 4] as int + 0x100_0000_0000 * s[i + 5] as int
                          + 0x1_0000_0000_0000 * s[i + 6] as int + 0x100_0000_0000_0000 * s[i + 7] as int
  {
  }

  function Min(a: nat, b: nat): (r: nat)
    ensures r <= a && r <= b && (r == a || r == b)
  {
    if a <= b then a else b
  }
}
