/**
 * The values the heap stores. The store serialises them with CBOR
 * (RFC 8949); the model keeps the value abstract and only fixes how many
 * bytes its encoding takes, since that decides every later heap pointer.
 */
module Values {

  import opened Bytes

  /** The value domain: Python None, bool, int, str and bytes. */
  datatype Value =
    | Null
    | Bool(b: bool)
    | Int(i: int)
    | Text(s: string)
    | ByteString(bs: seq<byte>)

  /** Size of a CBOR initial byte carrying argument n (section 3 of RFC 8949). */
  function HeadLength(n: nat): (r: nat)
    ensures r in {1, 2, 3, 5, 9}
    ensures r == 1 <==> n < 24
  {
    if n < 24 then 1
    else if n < 0x100 then 2
    else if n < 0x1_0000 then 3
    else if n < 0x1_0000_0000 then 5
    else 9
  }

  /** Number of bytes of the big-endian magnitude of n, at least one. */
  function MagnitudeBytes(n: nat): (r: nat)
    ensures r >= 1
  {
    if n < 0x100 then 1 else 1 + MagnitudeBytes(n / 0x100)
  }

  /** UTF-8 length of one Unicode scalar value. */
  function Utf8Width(c: char): (r: nat)
    ensures 1 <= r <= 4
  {
    if c as int < 0x80 then 1
    else if c as int < 0x800 then 2
    else if c as int < 0x1_0000 then 3
    else 4
  }

  /** UTF-8 length of a text string. */
  function Utf8Length(s: string): (r: nat)
    ensures |s| <= r <= 4 * |s|
  {
    if s == [] then 0 else Utf8Width(s[0]) + Utf8Length(s[1..])
  }

  /**
   * Length of the CBOR encoding of v: simple values take one byte; an
   * integer is a head (or, beyond 64 bits, a bignum tag and a byte string);
   * text and byte strings are a length head followed by their bytes.
   */
  function EncodedLength(v: Value): (r: nat)
    ensures r >= 1
  {
    match v
    case Null => 1
    case Bool(_) => 1
    case Int(i) =>
      var n: nat := if i >= 0 then i else -1 - i;
      if n < 0x1_0000_0000_0000_0000 then HeadLength(n)
      else 1 + HeadLength(MagnitudeBytes(n)) + MagnitudeBytes(n)
    case Text(s) => HeadLength(Utf8Length(s)) + Utf8Length(s)
    case ByteString(bs) => HeadLength(|bs|) + |bs|
  }
}
