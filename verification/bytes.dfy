/** Octets and the little-endian 32-bit fields of the bitmap headers. */
module Bytes {

  /** One octet of the output stream. */
  type Byte = x: int | 0 <= x < 256

  const Two32: int := 0x1_0000_0000

  /** True iff v fits an unsigned 32-bit header word. */
  predicate IsU32(v: int) {
    0 <= v < Two32
  }

  /** The four bytes of a 32-bit word, least significant first: the writer masks
      the word with 0xff, 0xff00, 0xff0000, 0xff000000 and shifts each mask down. */
  function LE32(v: int): (r: seq<Byte>)
    requires IsU32(v)
    ensures |r| == 4
    ensures (r[0] as int) + 0x100 * (r[1] as int) + 0x1_0000 * (r[2] as int) + 0x100_0000 * (r[3] as int) == v
  {
    assert v == v % 0x100 + 0x100 * (v / 0x100);
    assert v / 0x100 == (v / 0x100) % 0x100 + 0x100 * (v / 0x1_0000);
    assert v / 0x1_0000 == (v / 0x1_0000) % 0x100 + 0x100 * (v / 0x100_0000);
    assert v / 0x100_0000 == (v / 0x100_0000) % 0x100;
    [v % 0x100, (v / 0x100) % 0x100, (v / 0x1_0000) % 0x100, (v / 0x100_0000) % 0x100]
  }

  /** The little-endian value of the four bytes of s starting at off (a reader's view). */
  function ReadLE32(s: seq<Byte>, off: int): (v: int)
    requires 0 <= off && off + 4 <= |s|
    ensures IsU32(v)
  {
    var b0, b1, b2, b3: int := s[off], s[off + 1], s[off + 2], s[off + 3];
    b0 + 0x100 * b1 + 0x1_0000 * b2 + 0x100_0000 * b3
  }

  /** Writing a word and reading it back yields the word. */
  lemma ReadWriteLE32(v: int)
    requires IsU32(v)
    ensures ReadLE32(LE32(v), 0) == v
  {
    var b := LE32(v);
    assert v == b[0] + 0x100 * (v / 0x100);
    assert v / 0x100 == b[1] + 0x100 * (v / 0x1_0000);
    assert v / 0x1_0000 == b[2] + 0x100 * (v / 0x100_0000);
    assert v / 0x100_0000 == b[3];
  }

  /** Reading four bytes and writing the value back yields the same four bytes:
      together with ReadWriteLE32, LE32 is a bijection between words and 4-byte strings. */
  lemma WriteReadLE32(s: seq<Byte>, off: int)
    requires 0 <= off && off + 4 <= |s|
    ensures LE32(ReadLE32(s, off)) == s[off..off + 4]
  {
    var v := ReadLE32(s, off);
    var a, b, c, d: int := s[off], s[off + 1], s[off + 2], s[off + 3];
    assert v == a + 0x100 * (b + 0x100 * (c + 0x100 * d));
    assert v % 0x100 == a && v / 0x100 == b + 0x100 * (c + 0x100 * d);
    assert (v / 0x100) % 0x100 == b && v / 0x1_0000 == c + 0x100 * d;
    assert (v / 0x1_0000) % 0x100 == c && v / 0x100_0000 == d;
  }

  /** Where the four bytes at off are the encoding of v, the field there reads as v. */
  lemma ReadLE32At(s: seq<Byte>, off: int, v: int)
    requires IsU32(v)
    requires 0 <= off && off + 4 <= |s|
    requires s[off..off + 4] == LE32(v)
    ensures ReadLE32(s, off) == v
  {
    ReadWriteLE32(v);
    assert s[off + 1] == s[off..off + 4][1];
    assert s[off + 2] == s[off..off + 4][2];
    assert s[off + 3] == s[off..off + 4][3];
  }
}
