/**
 * Bytes and the little-endian unsigned 32-bit field that `struct.pack("<I", x)`
 * writes. `struct.pack` raises `struct.error` for a value outside
 * [0, 2^32), so packing is defined only for values that fit.
 */
module LittleEndian {

  type Byte = b: int | 0 <= b < 256

  const U32Bound: int := 0x1_0000_0000

  predicate FitsU32(x: int) {
    0 <= x < U32Bound
  }

  /** `struct.unpack_from("<I", s, pos)[0]`. */
  function UnpackU32(s: seq<Byte>, pos: nat): (x: nat)
    requires pos + 4 <= |s|
    ensures FitsU32(x)
  {
    (s[pos] as int) + 256 * (s[pos + 1] as int) + 65536 * (s[pos + 2] as int) + 16777216 * (s[pos + 3] as int)
  }

  /** `struct.pack("<I", x)`: four bytes, least significant first; unpacking gives `x` back. */
  function PackU32(x: int): (r: seq<Byte>)
    requires FitsU32(x)
    ensures |r| == 4 && UnpackU32(r, 0) == x
  {
    var b0, q0 := x % 256, x / 256;
    var b1, q1 := q0 % 256, q0 / 256;
    var b2, b3 := q1 % 256, q1 / 256;
    assert x == b0 + 256 * q0 && q0 == b1 + 256 * q1 && q1 == b2 + 256 * b3;
    assert b3 < 256 by {
      assert q0 < 16777216;
      assert q1 < 65536;
    }
    [b0, b1, b2, b3]
  }

  /** Every four bytes are the packing of the value they unpack to. */
  lemma PackUnpack(s: seq<Byte>)
    requires |s| == 4
    ensures PackU32(UnpackU32(s, 0)) == s
  {
    var x := UnpackU32(s, 0);
    var q1: int := (s[2] as int) + 256 * (s[3] as int);
    var q0: int := (s[1] as int) + 256 * q1;
    assert x == (s[0] as int) + 256 * q0;
    assert x % 256 == s[0] && x / 256 == q0;
    assert q0 % 256 == s[1] && q0 / 256 == q1;
    assert q1 % 256 == s[2] && q1 / 256 == s[3];
  }

  /** Reading a field back where it was written. */
  lemma UnpackAt(s: seq<Byte>, pos: nat, x: int)
    requires FitsU32(x) && pos + 4 <= |s| && s[pos..pos + 4] == PackU32(x)
    ensures UnpackU32(s, pos) == x
  {
    var w := s[pos..pos + 4];
    assert s[pos] == w[0] && s[pos + 1] == w[1] && s[pos + 2] == w[2] && s[pos + 3] == w[3];
  }
}
