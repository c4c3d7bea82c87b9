/** Bytes and the little-endian unsigned 32-bit fields of the table file. */
module Bytes {

  type byte = x: int | 0 <= x < 0x100

  const U32_LIMIT: nat := 0x1_0000_0000

  /** What Python's struct format "<I" accepts. */
  type u32 = x: nat | x < U32_LIMIT

  /** struct.pack("<I", x): least significant byte first. */
  function PackU32(x: u32): (r: seq<byte>)
    ensures |r| == 4
  {
    [x % 0x100, x / 0x100 % 0x100, x / 0x1_0000 % 0x100, x / 0x100_0000]
  }

  /** struct.unpack_from("<I", b, k)[0]. */
  function UnpackU32(b: seq<byte>, k: nat): (r: u32)
    requires k + 4 <= |b|
  {
    b[k] as int + 0x100 * b[k + 1] as int + 0x1_0000 * b[k + 2] as int + 0x100_0000 * b[k + 3] as int
  }

  /** Unpacking what was packed gives the number back. */
  lemma UnpackPack(x: u32)
    ensures UnpackU32(PackU32(x), 0) == x
  {
    var b := PackU32(x);
    var q1 := x / 0x100;
    var q2 := q1 / 0x100;
    assert x == b[0] as int + 0x100 * q1;
    assert q1 == b[1] as int + 0x100 * q2;
    assert x / 0x1_0000 == q2;
    assert q2 == b[2] as int + 0x100 * b[3] as int;
  }

  /** Distinct numbers pack to distinct byte strings. */
  lemma PackInjective(x: u32, y: u32)
    requires PackU32(x) == PackU32(y)
    ensures x == y
  {
    UnpackPack(x);
    UnpackPack(y);
  }

  /** Unpacking reads only the four bytes at k. */
  lemma UnpackLocal(a: seq<byte>, j: nat, b: seq<byte>, k: nat)
    requires j + 4 <= |a| && k + 4 <= |b|
    requires a[j..j + 4] == b[k..k + 4]
    ensures UnpackU32(a, j) == UnpackU32(b, k)
  {
    assert a[j] == a[j..j + 4][0] && b[k] == b[k..k + 4][0];
    assert a[j + 1] == a[j..j + 4][1] && b[k + 1] == b[k..k + 4][1];
    assert a[j + 2] == a[j..j + 4][2] && b[k + 2] == b[k..k + 4][2];
    assert a[j + 3] == a[j..j + 4][3] && b[k + 3] == b[k..k + 4][3];
  }
}
