/**
 * The table file (objects.dat): fixed 17-byte records, one per graph
 * object, record i starting at byte 17 * i. A record is a tag byte followed
 * by four little-endian u32 fields.
 */
module Records {

  import opened Wrappers
  import opened Failures
  import opened Bytes

  const RECORD_SIZE: nat := 17

  const TAG_DELETED: byte := 0x00
  const TAG_NODE: byte := 0x01
  const TAG_EDGE: byte := 0x02

  datatype Record =
    | Tombstone
    | NodeRecord(namePtr: u32, dataPtr: u32)
    | EdgeRecord(namePtr: u32, oPtr: u32, pPtr: u32, sPtr: u32)

  function Zeros(n: nat): (r: seq<byte>)
    ensures |r| == n && forall k :: 0 <= k < n ==> r[k] == 0
  {
    seq(n, _ => 0)
  }

  /** The tag byte that marks each kind of record. */
  function Tag(r: Record): byte
  {
    match r
    case Tombstone => TAG_DELETED
    case NodeRecord(_, _) => TAG_NODE
    case EdgeRecord(_, _, _, _) => TAG_EDGE
  }

  /** The bytes append() writes for a record. */
  function Encode(r: Record): (b: seq<byte>)
    ensures |b| == RECORD_SIZE && b[0] == Tag(r)
  {
    match r
    case Tombstone => [TAG_DELETED] + Zeros(16)
    case NodeRecord(n, d) => [TAG_NODE] + PackU32(n) + PackU32(d) + Zeros(8)
    case EdgeRecord(n, o, p, s) => [TAG_EDGE] + PackU32(n) + PackU32(o) + PackU32(p) + PackU32(s)
  }

  /** The u32 at field f (0..3) of a record. */
  function Field(b: seq<byte>, f: nat): u32
    requires |b| == RECORD_SIZE && f < 4
  {
    UnpackU32(b, 1 + 4 * f)
  }

  /** What load() reads back from a record: the tag picks the variant; a
      node uses fields 0 and 1 and ignores the padding; an unknown tag is
      corruption. */
  function Decode(b: seq<byte>): (r: Result<Record, Error>)
    requires |b| == RECORD_SIZE
    ensures r.Ok? <==> b[0] == TAG_DELETED || b[0] == TAG_NODE || b[0] == TAG_EDGE
    ensures r.Ok? ==> Tag(r.value) == b[0]
    ensures r.Err? ==> r.error == CorruptStore
  {
    if b[0] == TAG_DELETED then Ok(Tombstone)
    else if b[0] == TAG_NODE then Ok(NodeRecord(Field(b, 0), Field(b, 1)))
    else if b[0] == TAG_EDGE then Ok(EdgeRecord(Field(b, 0), Field(b, 1), Field(b, 2), Field(b, 3)))
    else Err(CorruptStore)
  }

  lemma FieldOfPacked(b: seq<byte>, f: nat, x: u32)
    requires |b| == RECORD_SIZE && f < 4
    requires b[1 + 4 * f..1 + 4 * f + 4] == PackU32(x)
    ensures Field(b, f) == x
  {
    UnpackPack(x);
    UnpackLocal(b, 1 + 4 * f, PackU32(x), 0);
  }

  /** Decoding an encoded record gives it back. */
  lemma DecodeEncode(r: Record)
    ensures Decode(Encode(r)) == Ok(r)
  {
    var b := Encode(r);
    match r
    case Tombstone =>
    case NodeRecord(n, d) =>
      assert b[1..5] == PackU32(n);
      assert b[5..9] == PackU32(d);
      FieldOfPacked(b, 0, n);
      FieldOfPacked(b, 1, d);
    case EdgeRecord(n, o, p, s) =>
      assert b[1..5] == PackU32(n);
      assert b[5..9] == PackU32(o);
      assert b[9..13] == PackU32(p);
      assert b[13..17] == PackU32(s);
      FieldOfPacked(b, 0, n);
      FieldOfPacked(b, 1, o);
      FieldOfPacked(b, 2, p);
      FieldOfPacked(b, 3, s);
  }

  /** The 17 bytes of record i. */
  function RecordAt(table: seq<byte>, i: nat): (b: seq<byte>)
    requires RECORD_SIZE * i + RECORD_SIZE <= |table|
    ensures |b| == RECORD_SIZE
  {
    table[RECORD_SIZE * i..RECORD_SIZE * i + RECORD_SIZE]
  }

  /** Appending a record's bytes leaves every earlier record in place and
      puts the new one at the next index. */
  lemma RecordAtAppend(table: seq<byte>, b: seq<byte>, i: nat)
    requires |table| % RECORD_SIZE == 0 && |b| == RECORD_SIZE
    requires RECORD_SIZE * i + RECORD_SIZE <= |table| + RECORD_SIZE
    ensures RecordAt(table + b, i)
         == if RECORD_SIZE * i < |table| then RecordAt(table, i) else b
  {
    var t := table + b;
    if RECORD_SIZE * i < |table| {
      assert RECORD_SIZE * i + RECORD_SIZE <= |table|;
      assert t[RECORD_SIZE * i..RECORD_SIZE * i + RECORD_SIZE] == table[RECORD_SIZE * i..RECORD_SIZE * i + RECORD_SIZE];
    } else {
      assert RECORD_SIZE * i == |table|;
      assert t[|table|..|table| + RECORD_SIZE] == b;
    }
  }

  /** The first n + 1 records are the first n followed by record n. */
  lemma TablePrefixSnoc(table: seq<byte>, n: nat)
    requires RECORD_SIZE * n + RECORD_SIZE <= |table|
    ensures table[..RECORD_SIZE * n + RECORD_SIZE] == table[..RECORD_SIZE * n] + RecordAt(table, n)
  {
  }

  /** Byte offset of field f of record i. */
  function FieldOffset(i: nat, f: nat): nat
  {
    RECORD_SIZE * i + 1 + 4 * f
  }

  /** _write_field: overwrite the 4 bytes of field f of record i with p. */
  function Overwrite(table: seq<byte>, i: nat, f: nat, p: u32): (t: seq<byte>)
    requires f < 4 && RECORD_SIZE * i + RECORD_SIZE <= |table|
    ensures |t| == |table|
    ensures t[FieldOffset(i, f)..FieldOffset(i, f) + 4] == PackU32(p)
    ensures forall k :: 0 <= k < |table| && !(FieldOffset(i, f) <= k < FieldOffset(i, f) + 4)
                        ==> t[k] == table[k]
  {
    var off := FieldOffset(i, f);
    table[..off] + PackU32(p) + table[off + 4..]
  }

  /** The record a field rewrite produces: name is field 0; a node's data is
      field 1 and fields 2 and 3 are padding load() ignores; an edge's o, p
      and s are fields 1, 2 and 3; a tombstone's payload is ignored. */
  function WithField(r: Record, f: nat, p: u32): Record
  {
    match r
    case Tombstone => Tombstone
    case NodeRecord(n, d) =>
      if f == 0 then NodeRecord(p, d) else if f == 1 then NodeRecord(n, p) else r
    case EdgeRecord(n, o, q, s) =>
      if f == 0 then EdgeRecord(p, o, q, s)
      else if f == 1 then EdgeRecord(n, p, q, s)
      else if f == 2 then EdgeRecord(n, o, p, s)
      else if f == 3 then EdgeRecord(n, o, q, p)
      else r
  }

  function MapWithField(d: Result<Record, Error>, f: nat, p: u32): Result<Record, Error>
  {
    if d.Ok? then Ok(WithField(d.value, f, p)) else d
  }

  /** A field rewrite changes, among all records, only the chosen field of
      the chosen record: every other record decodes as before. */
  lemma DecodeAfterOverwrite(table: seq<byte>, i: nat, f: nat, p: u32, j: nat)
    requires f < 4 && RECORD_SIZE * i + RECORD_SIZE <= |table|
    requires RECORD_SIZE * j + RECORD_SIZE <= |table|
    ensures var t := Overwrite(table, i, f, p);
      Decode(RecordAt(t, j))
        == if j == i then MapWithField(Decode(RecordAt(table, i)), f, p)
           else Decode(RecordAt(table, j))
  {
    if j != i {
      OverwriteOtherRecord(table, i, f, p, j);
    } else {
      var a, b := RecordAt(table, i), RecordAt(Overwrite(table, i, f, p), i);
      forall g | 0 <= g < 4
        ensures Field(b, g) == if g == f then p else Field(a, g)
      {
        OverwriteField(table, i, f, p, g);
      }
      assert b[0] == a[0] by { OverwriteOtherByte(table, i, f, p, RECORD_SIZE * i); }
    }
  }

  lemma OverwriteOtherByte(table: seq<byte>, i: nat, f: nat, p: u32, k: nat)
    requires f < 4 && RECORD_SIZE * i + RECORD_SIZE <= |table| && k < |table|
    requires !(FieldOffset(i, f) <= k < FieldOffset(i, f) + 4)
    ensures Overwrite(table, i, f, p)[k] == table[k]
  {
  }

  /** Records other than the rewritten one are untouched. */
  lemma OverwriteOtherRecord(table: seq<byte>, i: nat, f: nat, p: u32, j: nat)
    requires f < 4 && RECORD_SIZE * i + RECORD_SIZE <= |table|
    requires RECORD_SIZE * j + RECORD_SIZE <= |table| && j != i
    ensures RecordAt(Overwrite(table, i, f, p), j) == RecordAt(table, j)
  {
    var t := Overwrite(table, i, f, p);
    var a, b := RecordAt(table, j), RecordAt(t, j);
    forall k | 0 <= k < RECORD_SIZE ensures b[k] == a[k] {
      assert b[k] == t[RECORD_SIZE * j + k];
    }
  }

  /** Field g of the rewritten record is p if g is the rewritten field, and
      unchanged otherwise. */
  lemma OverwriteField(table: seq<byte>, i: nat, f: nat, p: u32, g: nat)
    requires f < 4 && g < 4 && RECORD_SIZE * i + RECORD_SIZE <= |table|
    ensures var a, b := RecordAt(table, i), RecordAt(Overwrite(table, i, f, p), i);
      Field(b, g) == if g == f then p else Field(a, g)
  {
    var t := Overwrite(table, i, f, p);
    var a, b := RecordAt(table, i), RecordAt(t, i);
    SliceOfRecord(t, i, 1 + 4 * g, 4);
    SliceOfRecord(table, i, 1 + 4 * g, 4);
    if g == f {
      FieldOfPacked(b, f, p);
    } else {
      var off := FieldOffset(i, g);
      assert t[off..off + 4] == table[off..off + 4] by {
        forall k | off <= k < off + 4 ensures t[k] == table[k] { }
      }
      UnpackLocal(b, 1 + 4 * g, a, 1 + 4 * g);
    }
  }

  /** A slice of record i is the same slice of the table. */
  lemma SliceOfRecord(table: seq<byte>, i: nat, lo: nat, n: nat)
    requires RECORD_SIZE * i + RECORD_SIZE <= |table| && lo + n <= RECORD_SIZE
    ensures RecordAt(table, i)[lo..lo + n] == table[RECORD_SIZE * i + lo..RECORD_SIZE * i + lo + n]
  {
    var r := RecordAt(table, i);
    var x, y := r[lo..lo + n], table[RECORD_SIZE * i + lo..RECORD_SIZE * i + lo + n];
    forall k | 0 <= k < n ensures x[k] == y[k] {
      assert x[k] == r[lo + k];
    }
  }

  /** Overwriting a field and reading it back gives the new pointer. */
  lemma FieldAfterOverwrite(table: seq<byte>, i: nat, f: nat, p: u32)
    requires f < 4 && RECORD_SIZE * i + RECORD_SIZE <= |table|
    ensures Field(RecordAt(Overwrite(table, i, f, p), i), f) == p
  {
    var t := Overwrite(table, i, f, p);
    var b := RecordAt(t, i);
    SliceOfRecord(t, i, 1 + 4 * f, 4);
    FieldOfPacked(b, f, p);
  }
}
