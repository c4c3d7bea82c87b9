/**
 * How the two files represent the graph, and what Graph._load rebuilds
 * from them. Mirrors says that record i of the table, read through the
 * heap, describes object i; Load is the scan of the table in 17-byte
 * strides, each edge endpoint resolved against the already-loaded prefix.
 */
module Persistence {

  import opened Wrappers
  import opened Failures
  import opened Values
  import opened Bytes
  import opened Heap
  import opened Records
  import opened Objects

  /** Record r, read through heap, describes object o. */
  ghost predicate Stores(heap: seq<Cell>, r: Record, o: Obj)
  {
    match o.kind
    case Deleted => r.Tombstone?
    case Node(d) =>
      && r.NodeRecord?
      && Deref(heap, r.namePtr) == Ok(NameValue(o.name))
      && Deref(heap, r.dataPtr) == Ok(d)
    case Edge(x, y, z) =>
      && r.EdgeRecord?
      && Deref(heap, r.namePtr) == Ok(NameValue(o.name))
      && r.oPtr == x && r.pPtr == y && r.sPtr == z
  }

  /** The table holds one record per object, and record i describes
      object i. */
  ghost predicate Mirrors(table: seq<byte>, heap: seq<Cell>, objs: seq<Obj>)
  {
    && |table| == RECORD_SIZE * |objs|
    && forall i {:trigger RecordStores(table, heap, i, objs[i])} :: 0 <= i < |objs| ==> RecordStores(table, heap, i, objs[i])
  }

  /** Record i of the table decodes and describes o. */
  ghost predicate RecordStores(table: seq<byte>, heap: seq<Cell>, i: nat, o: Obj)
    requires RECORD_SIZE * i + RECORD_SIZE <= |table|
  {
    Decode(RecordAt(table, i)).Ok? && Stores(heap, Decode(RecordAt(table, i)).value, o)
  }

  /** Appending to the heap keeps every stored description valid. */
  lemma MirrorsHeapGrows(table: seq<byte>, heap: seq<Cell>, heap': seq<Cell>, objs: seq<Obj>)
    requires Mirrors(table, heap, objs)
    requires forall p: nat :: p < |heap| ==> Deref(heap', p) == Deref(heap, p)
    ensures Mirrors(table, heap', objs)
  {
    forall i | 0 <= i < |objs|
      ensures RecordStores(table, heap', i, objs[i])
    {
      assert RecordStores(table, heap, i, objs[i]);
      var r := Decode(RecordAt(table, i)).value;
      if !r.Tombstone? {
        assert Deref(heap, r.namePtr).Ok?;
      }
      if r.NodeRecord? {
        assert Deref(heap, r.dataPtr).Ok?;
      }
    }
  }

  /** Appending a record that describes a new object extends the mirror
      by that object. */
  lemma MirrorsSnoc(table: seq<byte>, heap: seq<Cell>, objs: seq<Obj>, b: seq<byte>, o: Obj)
    requires Mirrors(table, heap, objs) && |b| == RECORD_SIZE
    requires Decode(b).Ok? && Stores(heap, Decode(b).value, o)
    ensures Mirrors(table + b, heap, objs + [o])
  {
    var t, os := table + b, objs + [o];
    forall i | 0 <= i < |os|
      ensures RecordStores(t, heap, i, os[i])
    {
      RecordAtAppend(table, b, i);
      if i < |objs| {
        assert RecordStores(table, heap, i, objs[i]);
      }
    }
  }

  /** Appending the encoding of a record that describes a new object
      extends the mirror by that object. */
  lemma MirrorsAppend(table: seq<byte>, heap: seq<Cell>, objs: seq<Obj>, r: Record, o: Obj)
    requires Mirrors(table, heap, objs) && Stores(heap, r, o)
    ensures Mirrors(table + Encode(r), heap, objs + [o])
  {
    DecodeEncode(r);
    MirrorsSnoc(table, heap, objs, Encode(r), o);
  }

  /** Rewriting field f of record x so that it describes o' replaces
      object x by o' in the mirror. */
  lemma MirrorsOverwrite(table: seq<byte>, heap: seq<Cell>, objs: seq<Obj>, x: nat, f: nat, p: u32, o': Obj)
    requires Mirrors(table, heap, objs) && x < |objs| && f < 4
    requires Decode(RecordAt(table, x)).Ok?
    requires Stores(heap, WithField(Decode(RecordAt(table, x)).value, f, p), o')
    ensures Mirrors(Overwrite(table, x, f, p), heap, objs[x := o'])
  {
    var t, os := Overwrite(table, x, f, p), objs[x := o'];
    forall i | 0 <= i < |os|
      ensures RecordStores(t, heap, i, os[i])
    {
      DecodeAfterOverwrite(table, x, f, p, i);
      assert RecordStores(table, heap, i, objs[i]);
    }
  }

  /** A name read back from the heap: null is no name, text is a name,
      anything else is corruption. */
  function DerefName(heap: seq<Cell>, p: nat): (r: Result<Option<string>, Error>)
    ensures r.Ok? ==> Deref(heap, p) == Ok(NameValue(r.value))
    ensures Deref(heap, p) == Ok(NameValue(None)) ==> r == Ok(None)
    ensures forall s :: Deref(heap, p) == Ok(NameValue(Some(s))) ==> r == Ok(Some(s))
  {
    var v :- Deref(heap, p);
    match v
    case Null => Ok(None)
    case Text(s) => Ok(Some(s))
    case _ => Err(CorruptStore)
  }

  /** Deleted.load, Node.load or Edge.load of record i, given the objects
      loaded before it; endpoints go through Graph.get. */
  function LoadRecord(table: seq<byte>, heap: seq<Cell>, prefix: seq<Obj>): (r: Result<Obj, Error>)
    requires RECORD_SIZE * |prefix| + RECORD_SIZE <= |table|
    ensures Decode(RecordAt(table, |prefix|)).Err? ==> r == Err(CorruptStore)
    ensures r.Ok? ==> r.value.ptr == |prefix| && RefersBelow(r.value, |prefix|)
    ensures r.Ok? ==> var tag := RecordAt(table, |prefix|)[0];
      && (r.value.kind.Deleted? <==> tag == TAG_DELETED)
      && (r.value.kind.Node? <==> tag == TAG_NODE)
      && (r.value.kind.Edge? <==> tag == TAG_EDGE)
  {
    var i := |prefix|;
    var r :- Decode(RecordAt(table, i));
    match r
    case Tombstone => Ok(Obj(i, Deleted, None))
    case NodeRecord(np, dp) =>
      var name :- DerefName(heap, np);
      var data :- Deref(heap, dp);
      Ok(Obj(i, Node(data), name))
    case EdgeRecord(np, op, pp, sp) =>
      var name :- DerefName(heap, np);
      var o :- Get(prefix, NameIndex(prefix), Index(op));
      var p :- Get(prefix, NameIndex(prefix), Index(pp));
      var s :- Get(prefix, NameIndex(prefix), Index(sp));
      Ok(Obj(i, Edge(o, p, s), name))
  }

  /** The objects loaded from the first n records. */
  function Replay(table: seq<byte>, heap: seq<Cell>, n: nat): (r: Result<seq<Obj>, Error>)
    requires RECORD_SIZE * n <= |table|
    ensures r.Ok? ==> |r.value| == n
  {
    if n == 0 then Ok([])
    else
      var prefix :- Replay(table, heap, n - 1);
      var o :- LoadRecord(table, heap, prefix);
      Ok(prefix + [o])
  }

  /** Graph._load: a table that does not end on a record boundary is
      corrupt; otherwise every record is replayed. */
  function Load(table: seq<byte>, heap: seq<Cell>): (r: Result<seq<Obj>, Error>)
    ensures |table| % RECORD_SIZE != 0 ==> r == Err(CorruptStore)
    ensures r.Ok? ==> |table| == RECORD_SIZE * |r.value|
    ensures r.Ok? ==> Dense(r.value) && NoForwardRefs(r.value)
  {
    if |table| % RECORD_SIZE != 0 then Err(CorruptStore)
    else
      var n := |table| / RECORD_SIZE;
      if Replay(table, heap, n).Ok? then ReplayWellFormed(table, heap, n); Replay(table, heap, n)
      else Replay(table, heap, n)
  }

  // ---- Graph._load as written, where it departs from the replay above ----

  /** One record as _load reads it when the tag is unknown: the ValueError
      is built but never raised, so obj still holds the previous record's
      object and it is appended again; on the first record obj is unbound. */
  function LoadRecordAsWritten(table: seq<byte>, heap: seq<Cell>, prefix: seq<Obj>): (r: Result<Obj, Error>)
    requires RECORD_SIZE * |prefix| + RECORD_SIZE <= |table|
    ensures Decode(RecordAt(table, |prefix|)).Ok? ==> r == LoadRecord(table, heap, prefix)
    ensures Decode(RecordAt(table, |prefix|)).Err? ==> (r.Ok? <==> prefix != [])
    ensures Decode(RecordAt(table, |prefix|)).Err? && r.Ok? ==> r.value == prefix[|prefix| - 1]
  {
    var tag := RecordAt(table, |prefix|)[0];
    if tag == TAG_DELETED || tag == TAG_NODE || tag == TAG_EDGE then LoadRecord(table, heap, prefix)
    else if prefix == [] then Err(CorruptStore)
    else Ok(prefix[|prefix| - 1])
  }

  /** An unknown tag after the first record makes the load as written
      repeat the previous object, whose ptr is then not its position;
      the replay reports corruption instead. */
  lemma UnknownTagRepeatsObject(table: seq<byte>, heap: seq<Cell>, prefix: seq<Obj>)
    requires RECORD_SIZE * |prefix| + RECORD_SIZE <= |table| && prefix != [] && Dense(prefix)
    requires var tag := RecordAt(table, |prefix|)[0]; tag != TAG_DELETED && tag != TAG_NODE && tag != TAG_EDGE
    ensures LoadRecordAsWritten(table, heap, prefix) == Ok(prefix[|prefix| - 1])
    ensures !Dense(prefix + [prefix[|prefix| - 1]])
    ensures LoadRecord(table, heap, prefix) == Err(CorruptStore)
  {
    var t := prefix + [prefix[|prefix| - 1]];
    assert t[|prefix|].ptr == |prefix| - 1;
  }

  /** What _load as written makes of a trailing short record: a record it
      read, or the previous object appended once more. */
  datatype Partial = Read(record: Record) | RepeatPrevious

  /** A trailing partial record as _load reads it: a tombstone ignores its
      payload and a node reads only the first 8 payload bytes, so both load
      when cut short enough to keep what they read; an edge needs all 16.
      An unknown tag, whatever the length, appends the previous object
      again, or fails when there is none. */
  function PartialRecordAsWritten(b: seq<byte>, hasPrevious: bool): (r: Result<Partial, Error>)
    requires 0 < |b| < RECORD_SIZE
    ensures r.Ok? <==>
      || b[0] == TAG_DELETED
      || (b[0] == TAG_NODE && 9 <= |b|)
      || (b[0] != TAG_NODE && b[0] != TAG_EDGE && hasPrevious)
    ensures r.Ok? && r.value.Read? ==> Tag(r.value.record) == b[0]
    ensures r.Ok? ==> (r.value.RepeatPrevious? <==> b[0] != TAG_DELETED && b[0] != TAG_NODE && b[0] != TAG_EDGE)
    ensures r.Err? ==> r.error == CorruptStore
  {
    if b[0] == TAG_DELETED then Ok(Read(Tombstone))
    else if b[0] == TAG_NODE then
      if 9 <= |b| then Ok(Read(NodeRecord(UnpackU32(b, 1), UnpackU32(b, 5)))) else Err(CorruptStore)
    else if b[0] == TAG_EDGE || !hasPrevious then Err(CorruptStore)
    else Ok(RepeatPrevious)
  }

  /** A table cut after a tombstone's tag byte loads as written, while the
      replay reports it as corrupt. */
  lemma PartialTombstoneAccepted(heap: seq<Cell>)
    ensures PartialRecordAsWritten([TAG_DELETED], false) == Ok(Read(Tombstone))
    ensures Load([TAG_DELETED], heap) == Err(CorruptStore)
  {
  }

  /** What the table keeps of a sequence of objects. */
  function PersistAll(objs: seq<Obj>): (r: seq<Obj>)
    ensures |r| == |objs|
  {
    seq(|objs|, i requires 0 <= i < |objs| => Persist(objs[i]))
  }

  /** Loading one record that describes o succeeds iff o is not an edge
      referring at or beyond its own position, and gives back o as stored. */
  lemma LoadRecordStored(table: seq<byte>, heap: seq<Cell>, prefix: seq<Obj>, o: Obj)
    requires RECORD_SIZE * |prefix| + RECORD_SIZE <= |table| && o.ptr == |prefix|
    requires RecordStores(table, heap, |prefix|, o)
    ensures LoadRecord(table, heap, prefix).Ok? <==> RefersBelow(o, |prefix|)
    ensures LoadRecord(table, heap, prefix).Ok? ==> LoadRecord(table, heap, prefix).value == Persist(o)
  {
    var r := Decode(RecordAt(table, |prefix|)).value;
    if o.kind.Edge? {
      assert DerefName(heap, r.namePtr) == Ok(o.name);
      assert Endpoint(o.kind, O) == r.oPtr && Endpoint(o.kind, P) == r.pPtr && Endpoint(o.kind, S) == r.sPtr;
    } else if o.kind.Node? {
      assert DerefName(heap, r.namePtr) == Ok(o.name);
    }
  }

  lemma NoForwardRefsSnoc(objs: seq<Obj>, n: nat)
    requires 0 < n <= |objs|
    ensures NoForwardRefs(objs[..n]) <==> NoForwardRefs(objs[..n - 1]) && RefersBelow(objs[n - 1], n - 1)
  {
    var init, upto := objs[..n - 1], objs[..n];
    assert forall i :: 0 <= i < n - 1 ==> upto[i] == init[i];
    assert upto[n - 1] == objs[n - 1];
  }

  /** A failure while replaying earlier records is final. */
  lemma ReplayStepErr(table: seq<byte>, heap: seq<Cell>, n: nat)
    requires 0 < n && RECORD_SIZE * n <= |table|
    requires Replay(table, heap, n - 1).Err?
    ensures Replay(table, heap, n).Err?
  {
  }

  /** Once a record fails to load, every longer replay fails too: _load
      stops at the first bad record. */
  lemma {:induction false} ReplayErrPersists(table: seq<byte>, heap: seq<Cell>, n: nat, m: nat)
    requires n <= m && RECORD_SIZE * m <= |table|
    requires Replay(table, heap, n).Err?
    ensures Replay(table, heap, m).Err?
    decreases m - n
  {
    if n < m {
      ReplayStepErr(table, heap, n + 1);
      ReplayErrPersists(table, heap, n + 1, m);
    }
  }

  /** A record that loads extends the replay by the object it describes,
      whose ptr is its position and whose endpoints come before it. */
  lemma ReplaySnoc(table: seq<byte>, heap: seq<Cell>, objs: seq<Obj>, o: Obj)
    requires RECORD_SIZE * |objs| + RECORD_SIZE <= |table|
    requires Replay(table, heap, |objs|) == Ok(objs)
    requires LoadRecord(table, heap, objs) == Ok(o)
    ensures Replay(table, heap, |objs| + 1) == Ok(objs + [o])
    ensures o.ptr == |objs| && RefersBelow(o, |objs|)
  {
    LoadRecordWellFormed(table, heap, objs);
  }

  /** Replaying n records after the first n - 1 replayed is loading record
      n - 1 on top of them. */
  lemma ReplayStep(table: seq<byte>, heap: seq<Cell>, n: nat)
    requires 0 < n && RECORD_SIZE * n <= |table| && Replay(table, heap, n - 1).Ok?
    ensures var prefix := Replay(table, heap, n - 1).value;
      && (Replay(table, heap, n).Ok? <==> LoadRecord(table, heap, prefix).Ok?)
      && (Replay(table, heap, n).Ok? ==> Replay(table, heap, n).value == prefix + [LoadRecord(table, heap, prefix).value])
  {
  }

  /** What the table keeps of n objects is what it keeps of the first
      n - 1 and then of object n - 1. */
  lemma PersistAllSnoc(objs: seq<Obj>, n: nat)
    requires 0 < n <= |objs|
    ensures PersistAll(objs[..n]) == PersistAll(objs[..n - 1]) + [Persist(objs[n - 1])]
  {
  }

  /** One replay step over a mirrored arena whose earlier records replayed
      as stored. */
  lemma ReplayStepOk(table: seq<byte>, heap: seq<Cell>, objs: seq<Obj>, n: nat)
    requires 0 < n <= |objs| && RECORD_SIZE * n <= |table|
    requires objs[n - 1].ptr == n - 1 && RecordStores(table, heap, n - 1, objs[n - 1])
    requires Replay(table, heap, n - 1) == Ok(PersistAll(objs[..n - 1]))
    ensures Replay(table, heap, n).Ok? <==> RefersBelow(objs[n - 1], n - 1)
    ensures Replay(table, heap, n).Ok? ==> Replay(table, heap, n).value == PersistAll(objs[..n])
  {
    ReplayStep(table, heap, n);
    LoadRecordStored(table, heap, PersistAll(objs[..n - 1]), objs[n - 1]);
    PersistAllSnoc(objs, n);
  }

  /** Object i of a dense mirrored arena is at position i and is described
      by record i. */
  lemma MirrorsAt(table: seq<byte>, heap: seq<Cell>, objs: seq<Obj>, i: nat)
    requires Mirrors(table, heap, objs) && Dense(objs) && i < |objs|
    ensures RECORD_SIZE * i + RECORD_SIZE <= |table|
    ensures objs[i].ptr == i && RecordStores(table, heap, i, objs[i])
  {
  }

  /** The inductive step of ReplayMirrored: if the first n - 1 records
      replay as the lemma says, so do the first n. */
  lemma ReplayMirroredStep(table: seq<byte>, heap: seq<Cell>, objs: seq<Obj>, n: nat)
    requires 0 < n <= |objs| && RECORD_SIZE * n <= |table|
    requires objs[n - 1].ptr == n - 1 && RecordStores(table, heap, n - 1, objs[n - 1])
    requires Replay(table, heap, n - 1).Ok? <==> NoForwardRefs(objs[..n - 1])
    requires Replay(table, heap, n - 1).Ok? ==> Replay(table, heap, n - 1).value == PersistAll(objs[..n - 1])
    ensures Replay(table, heap, n).Ok? <==> NoForwardRefs(objs[..n])
    ensures Replay(table, heap, n).Ok? ==> Replay(table, heap, n).value == PersistAll(objs[..n])
  {
    NoForwardRefsSnoc(objs, n);
    if Replay(table, heap, n - 1).Ok? {
      ReplayStepOk(table, heap, objs, n);
    } else {
      ReplayStepErr(table, heap, n);
    }
  }

  /** Replaying the first n records of a mirrored arena succeeds iff none of
      those objects refers forward, and then gives them back as stored. */
  lemma {:induction false} ReplayMirrored(table: seq<byte>, heap: seq<Cell>, objs: seq<Obj>, n: nat)
    requires Mirrors(table, heap, objs) && Dense(objs) && n <= |objs|
    ensures Replay(table, heap, n).Ok? <==> NoForwardRefs(objs[..n])
    ensures Replay(table, heap, n).Ok? ==> Replay(table, heap, n).value == PersistAll(objs[..n])
  {
    if n > 0 {
      ReplayMirrored(table, heap, objs, n - 1);
      MirrorsAt(table, heap, objs, n - 1);
      ReplayMirroredStep(table, heap, objs, n);
    } else {
      assert objs[..0] == [];
    }
  }

  /** Reloading a mirrored arena succeeds iff no edge refers forward, and
      then reproduces as_array() and every adjacency role set. */
  lemma LoadRoundTrip(table: seq<byte>, heap: seq<Cell>, objs: seq<Obj>)
    requires Mirrors(table, heap, objs) && Dense(objs)
    ensures Load(table, heap).Ok? <==> NoForwardRefs(objs)
    ensures Load(table, heap).Ok? ==>
      && AsArray(Load(table, heap).value) == AsArray(objs)
      && forall r, x :: Users(Load(table, heap).value, r, x) == Users(objs, r, x)
  {
    assert |table| / RECORD_SIZE == |objs|;
    ReplayMirrored(table, heap, objs, |objs|);
    assert objs[..|objs|] == objs;
    if Load(table, heap).Ok? {
      var loaded := Load(table, heap).value;
      forall i | 0 <= i < |objs| ensures AsArray(loaded)[i] == AsArray(objs)[i] {
        AsDictPersist(objs[i]);
      }
    }
  }

  /** Reloading a store that refers only backwards gives every edge back
      as an edge with the same (o, p, s) triple. */
  lemma ReloadKeepsTriples(table: seq<byte>, heap: seq<Cell>, objs: seq<Obj>)
    requires Mirrors(table, heap, objs) && Dense(objs) && NoForwardRefs(objs)
    ensures Load(table, heap).Ok? && |Load(table, heap).value| == |objs|
    ensures forall i :: 0 <= i < |objs| && objs[i].kind.Edge? ==>
      Load(table, heap).value[i].kind.Edge? && Triple(Load(table, heap).value[i].kind) == Triple(objs[i].kind)
  {
    assert |table| / RECORD_SIZE == |objs|;
    ReplayMirrored(table, heap, objs, |objs|);
    assert objs[..|objs|] == objs;
  }

  /** One loaded record describes the object it was loaded as. */
  lemma LoadRecordWellFormed(table: seq<byte>, heap: seq<Cell>, prefix: seq<Obj>)
    requires RECORD_SIZE * |prefix| + RECORD_SIZE <= |table|
    requires LoadRecord(table, heap, prefix).Ok?
    ensures var o := LoadRecord(table, heap, prefix).value;
      && o.ptr == |prefix|
      && RefersBelow(o, |prefix|)
      && RecordStores(table, heap, |prefix|, o)
  {
  }

  /** One replay step keeps the loaded prefix dense, backward-referring
      and mirrored by the records read so far. */
  lemma ReplayStepWellFormed(table: seq<byte>, heap: seq<Cell>, n: nat)
    requires 0 < n && RECORD_SIZE * n <= |table|
    requires Replay(table, heap, n).Ok?
    requires var prefix := Replay(table, heap, n - 1).value;
      && |prefix| == n - 1 && Dense(prefix) && NoForwardRefs(prefix)
      && Mirrors(table[..RECORD_SIZE * (n - 1)], heap, prefix)
    ensures var objs := Replay(table, heap, n).value;
      && |objs| == n && Dense(objs) && NoForwardRefs(objs)
      && Mirrors(table[..RECORD_SIZE * n], heap, objs)
  {
    var prefix := Replay(table, heap, n - 1).value;
    LoadRecordWellFormed(table, heap, prefix);
    var o := LoadRecord(table, heap, prefix).value;
    var objs := prefix + [o];
    assert Replay(table, heap, n).value == objs;
    TablePrefixSnoc(table, n - 1);
    MirrorsSnoc(table[..RECORD_SIZE * (n - 1)], heap, prefix, RecordAt(table, n - 1), o);
    assert objs[..n - 1] == prefix && objs[n - 1] == o;
    NoForwardRefsSnoc(objs, n);
  }

  /** Whatever replay returns is dense, refers only backwards, and is
      mirrored by the records it came from. */
  lemma {:induction false} ReplayWellFormed(table: seq<byte>, heap: seq<Cell>, n: nat)
    requires RECORD_SIZE * n <= |table|
    requires Replay(table, heap, n).Ok?
    ensures var objs := Replay(table, heap, n).value;
      && |objs| == n && Dense(objs) && NoForwardRefs(objs)
      && Mirrors(table[..RECORD_SIZE * n], heap, objs)
  {
    if n > 0 {
      ReplayWellFormed(table, heap, n - 1);
      ReplayStepWellFormed(table, heap, n);
    }
  }
}
