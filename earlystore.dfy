/** The earlier variant of the store (src/__init__.py). Records are written
    by the Node and Edge constructors themselves, there is no value cache,
    and None is never written: pointer 0 stands for it. */
module EarlyStore {
  import opened Wrappers
  import opened Failures
  import opened Bytes
  import opened Values
  import opened Heap
  import opened Records
  import opened Objects
  import Persistence

  /** The heap after _append_data, and the pointer it returned. */
  datatype Written = Written(heap: seq<Cell>, ptr: nat)

  /** _append_data: None is not written and gets pointer 0; any other
      value is appended at the end of data.dat and gets the offset it
      starts at. */
  function Appended(heap: seq<Cell>, v: Value): (w: Written)
    ensures |heap| <= |w.heap| && w.heap[..|heap|] == heap
    ensures v == Null ==> w.ptr == 0 && w.heap == heap
    ensures v != Null ==> w.ptr == |heap| && Deref(w.heap, w.ptr) == Ok(v)
    ensures v != Null ==> |w.heap| == |heap| + EncodedLength(v)
  {
    if v == Null then Written(heap, 0) else Written(Append(heap, v), |heap|)
  }

  /** _deref: pointer 0 is None without reading the heap; any other
      pointer decodes the value that starts there. */
  function DerefData(heap: seq<Cell>, p: nat): (r: Result<Value, Error>)
    ensures p == 0 ==> r == Ok(Null)
    ensures p != 0 ==> (r.Ok? <==> p < |heap| && heap[p].Head?)
    ensures p != 0 && r.Ok? ==> heap[p] == Head(r.value)
  {
    if p == 0 then Ok(Null) else Deref(heap, p)
  }

  /** A value reads back from the pointer _append_data returned exactly
      when it is None or offset 0 of the heap is already taken; pointers
      handed out earlier read as before. */
  lemma AppendedRoundTrip(heap: seq<Cell>, v: Value)
    ensures var w := Appended(heap, v);
      DerefData(w.heap, w.ptr) == Ok(v) <==> v == Null || |heap| > 0
    ensures var w := Appended(heap, v);
      forall p: nat :: p < |heap| ==> DerefData(w.heap, p) == DerefData(heap, p)
  {
    var w := Appended(heap, v);
    if v != Null {
      DerefAppend(heap, v, 0);
      forall p: nat | p < |heap| ensures DerefData(w.heap, p) == DerefData(heap, p) {
        DerefAppend(heap, v, p);
      }
    }
  }

  /** Graph.new over an empty data file as written: the name "none" is the
      first value written, lands at offset 0, and reads back as None. */
  lemma NoneNameReadsAsNone()
    ensures var w := Appended([], Text("none"));
      w.ptr == 0 && DerefData(w.heap, w.ptr) == Ok(Null) && DerefData(w.heap, w.ptr) != Ok(Text("none"))
  {
  }

  /** The data file as the corrected Graph.new opens it: an empty file
      first receives an encoded None, so that no value written later can
      start at offset 0. */
  function Reserved(dataFile: seq<Cell>): (heap: seq<Cell>)
    ensures |heap| > 0
    ensures dataFile != [] ==> heap == dataFile
  {
    if dataFile == [] then Append([], Null) else dataFile
  }


  /** _write_field as written: opening objects.dat with "wb" empties it,
      and the second seek is absolute, so the four bytes of p land at
      offset 1 + 4 * f of an otherwise zero-filled file. */
  function WriteFieldAsWritten(table: seq<byte>, x: nat, f: nat, p: u32): (t: seq<byte>)
    ensures |t| == 1 + 4 * f + 4
    ensures forall i :: 0 <= i < 1 + 4 * f ==> t[i] == 0
    ensures UnpackU32(t, 1 + 4 * f) == p
  {
    var t := Zeros(1 + 4 * f) + PackU32(p);
    assert t[1 + 4 * f..] == PackU32(p);
    UnpackPack(p);
    UnpackLocal(t, 1 + 4 * f, PackU32(p), 0);
    t
  }

  /** Any setter call as written leaves at most one record: a table of two
      or more records is not what the intended field rewrite gives, and
      unless the rewritten field is s the corrected load rejects what is
      left. */
  lemma WriteFieldAsWrittenDropsRecords(table: seq<byte>, heap: seq<Cell>, x: nat, f: nat, p: u32)
    requires f < 4 && RECORD_SIZE * x + RECORD_SIZE <= |table|
    ensures |WriteFieldAsWritten(table, x, f, p)| <= RECORD_SIZE
    ensures RECORD_SIZE < |table| ==> WriteFieldAsWritten(table, x, f, p) != Overwrite(table, x, f, p)
    ensures f < 3 ==> Persistence.Load(WriteFieldAsWritten(table, x, f, p), heap).Err?
  {
    var t := WriteFieldAsWritten(table, x, f, p);
    if f < 3 {
      assert |t| % RECORD_SIZE == |t|;
    }
  }

  /** The objects file after Graph.new as written: the old records stay
      and the record of the "none" node follows them. */
  function NewTableAsWritten(objectsFile: seq<byte>, dataFile: seq<Cell>): (t: seq<byte>)
    requires |dataFile| < U32_LIMIT
    ensures |t| == |objectsFile| + RECORD_SIZE && t[..|objectsFile|] == objectsFile
    ensures Decode(t[|objectsFile|..]) == Ok(NodeRecord(Appended(dataFile, Text("none")).ptr, 0))
  {
    var r := NodeRecord(Appended(dataFile, Text("none")).ptr, 0);
    var t := objectsFile + Encode(r);
    assert t[|objectsFile|..] == Encode(r);
    DecodeEncode(r);
    t
  }

  /** Over an objects file that already holds whole records, Graph.new as
      written puts the "none" record at the next index, past the old ones,
      while the node it describes gets ptr 0: record 0 is still the old
      first record. The table is then longer than one record, so it mirrors
      no one-object graph. */
  lemma NewTableAsWrittenMisplaces(objectsFile: seq<byte>, dataFile: seq<Cell>)
    requires RECORD_SIZE <= |objectsFile| && |dataFile| < U32_LIMIT
    ensures var t := NewTableAsWritten(objectsFile, dataFile);
      && RecordAt(t, 0) == RecordAt(objectsFile, 0)
      && forall heap :: !EarlyMirrors(t, heap, [Obj(0, Node(Null), Some("none"))])
    ensures |objectsFile| % RECORD_SIZE == 0 ==>
      var t := NewTableAsWritten(objectsFile, dataFile);
      var n := |objectsFile| / RECORD_SIZE;
      && n > 0
      && RecordAt(t, n) == Encode(NodeRecord(Appended(dataFile, Text("none")).ptr, 0))
  {
    var t := NewTableAsWritten(objectsFile, dataFile);
    assert t[..RECORD_SIZE] == objectsFile[..RECORD_SIZE];
    if |objectsFile| % RECORD_SIZE == 0 {
      var n := |objectsFile| / RECORD_SIZE;
      RecordAtAppend(objectsFile, Encode(NodeRecord(Appended(dataFile, Text("none")).ptr, 0)), n);
    }
  }

  // ---- How the files describe the arena, with pointer 0 as None ----

  /** Record r, read through heap with the pointer-0 shortcut, describes
      object o. */
  ghost predicate EarlyStores(heap: seq<Cell>, r: Record, o: Obj)
  {
    match o.kind
    case Deleted => r.Tombstone?
    case Node(d) =>
      && r.NodeRecord?
      && DerefData(heap, r.namePtr) == Ok(NameValue(o.name))
      && DerefData(heap, r.dataPtr) == Ok(d)
    case Edge(x, y, z) =>
      && r.EdgeRecord?
      && DerefData(heap, r.namePtr) == Ok(NameValue(o.name))
      && r.oPtr == x && r.pPtr == y && r.sPtr == z
  }

  /** Record i of the table decodes and describes o. */
  ghost predicate EarlyRecordStores(table: seq<byte>, heap: seq<Cell>, i: nat, o: Obj)
    requires RECORD_SIZE * i + RECORD_SIZE <= |table|
  {
    Decode(RecordAt(table, i)).Ok? && EarlyStores(heap, Decode(RecordAt(table, i)).value, o)
  }

  /** The table holds one record per object, and record i describes
      object i. */
  ghost predicate EarlyMirrors(table: seq<byte>, heap: seq<Cell>, objs: seq<Obj>)
  {
    && |table| == RECORD_SIZE * |objs|
    && forall i {:trigger EarlyRecordStores(table, heap, i, objs[i])} :: 0 <= i < |objs| ==> EarlyRecordStores(table, heap, i, objs[i])
  }

  /** What Graph.Valid states, on values: offset 0 of the heap is taken,
      the table mirrors the arena, ptrs are positions, endpoints exist, the
      role sets are the derived users and the index points into the
      arena. */
  ghost predicate Consistent(table: seq<byte>, heap: seq<Cell>, objs: seq<Obj>, index: map<string, nat>,
                             oof: seq<set<nat>>, pof: seq<set<nat>>, sof: seq<set<nat>>)
  {
    && |heap| > 0
    && EarlyMirrors(table, heap, objs)
    && Dense(objs)
    && EndpointsExist(objs)
    && RolesMatch(objs, oof, pof, sof)
    && forall k :: k in index ==> index[k] < |objs|
  }

  class Graph {
    /** The contents of the objects file. */
    var table: seq<byte>
    /** The contents of the data file. */
    var heap: seq<Cell>
    /** graph.objects: object i has ptr i. */
    var objects: seq<Obj>
    /** graph.obj_dict: display name to ptr. */
    var objDict: map<string, nat>
    /** _oof, _pof and _sof of every object, indexed by ptr. */
    var oof: seq<set<nat>>
    var pof: seq<set<nat>>
    var sof: seq<set<nat>>

    ghost predicate Valid()
      reads this
    {
      Consistent(table, heap, objects, objDict, oof, pof, sof)
    }

    /** Graph.new, corrected: objects.dat is emptied (as the packaged
        Graph.new does) and offset 0 of data.dat is reserved; then the node
        "none" without data is created at ptr 0, and its name reads back. */
    constructor New(dataFile: seq<Cell>)
      requires |Append(Reserved(dataFile), Text("none"))| < U32_LIMIT
      ensures Valid()
      ensures objects == [Obj(0, Node(Null), Some("none"))] && objDict == map["none" := 0]
      ensures oof == [{}] && pof == [{}] && sof == [{}]
      ensures heap == Append(Reserved(dataFile), Text("none"))
      ensures table == Encode(NodeRecord(|Reserved(dataFile)|, 0))
      ensures DerefData(heap, |Reserved(dataFile)|) == Ok(Text("none"))
    {
      table, heap := [], Reserved(dataFile);
      objects, objDict := [], map[];
      oof, pof, sof := [], [], [];
      new;
      var x := NewNode(Some("none"), Null);
    }

    /** _append_data on the open data file. */
    method AppendData(v: Value) returns (p: nat)
      requires |heap| > 0
      modifies this`heap
      ensures var w := Appended(old(heap), v); heap == w.heap && p == w.ptr
      ensures |heap| > 0 && DerefData(heap, p) == Ok(v) && p <= old(|heap|)
      ensures forall q: nat :: q < old(|heap|) ==> DerefData(heap, q) == DerefData(old(heap), q)
    {
      AppendedRoundTrip(heap, v);
      var w := Appended(heap, v);
      heap, p := w.heap, w.ptr;
    }

    /** _write_field as intended: overwrite field f of record x with p and
        nothing else. */
    method WriteField(x: nat, f: nat, p: u32)
      requires f < 4 && RECORD_SIZE * x + RECORD_SIZE <= |table|
      modifies this`table
      ensures table == Overwrite(old(table), x, f, p)
      ensures Field(RecordAt(table, x), f) == p
    {
      table := Overwrite(table, x, f, p);
      FieldAfterOverwrite(old(table), x, f, p);
    }

    /** Node(graph, name, data): write the name and the data, append a
        node record pointing at both, push the node and index it under its
        display name. Both pointers read back as what was written. */
    method NewNode(name: Option<string>, data: Value) returns (x: nat)
      requires Valid()
      requires |Appended(heap, NameValue(name)).heap| < U32_LIMIT
      modifies this
      ensures Valid()
      ensures x == old(|objects|) && objects == old(objects) + [Obj(x, Node(data), name)]
      ensures objDict == old(objDict)[DisplayName(objects[x]) := x]
      ensures oof == old(oof) + [{}] && pof == old(pof) + [{}] && sof == old(sof) + [{}]
      ensures var a := Appended(old(heap), NameValue(name));
        var b := Appended(a.heap, data);
        && heap == b.heap && table == old(table) + Encode(NodeRecord(a.ptr, b.ptr))
        && DerefData(heap, a.ptr) == Ok(NameValue(name)) && DerefData(heap, b.ptr) == Ok(data)
    {
      NewNodeKeeps(table, heap, objects, objDict, oof, pof, sof, name, data);
      x := |objects|;
      var o := Obj(x, Node(data), name);
      var namePtr := AppendData(NameValue(name));
      var dataPtr := AppendData(data);
      table := table + Encode(NodeRecord(namePtr, dataPtr));
      objects, objDict := objects + [o], objDict[DisplayName(o) := x];
      oof, pof, sof := oof + [{}], pof + [{}], sof + [{}];
    }

    /** Edge(graph, o, p, s, name): register the edge with its endpoints,
        write its name, append an edge record, push the edge and index it. */
    method NewEdge(o: nat, p: nat, s: nat, name: Option<string>) returns (x: nat)
      requires Valid()
      requires o < |objects| && p < |objects| && s < |objects|
      requires |objects| <= U32_LIMIT && |heap| < U32_LIMIT
      modifies this
      ensures Valid()
      ensures x == old(|objects|) && objects == old(objects) + [Obj(x, Edge(o, p, s), name)]
      ensures objDict == old(objDict)[DisplayName(objects[x]) := x]
      ensures oof == Register(old(oof), Edge(o, p, s), O)
      ensures pof == Register(old(pof), Edge(o, p, s), P)
      ensures sof == Register(old(sof), Edge(o, p, s), S)
      ensures var a := Appended(old(heap), NameValue(name));
        && heap == a.heap && table == old(table) + Encode(EdgeRecord(a.ptr, o, p, s))
        && DerefData(heap, a.ptr) == Ok(NameValue(name))
    {
      NewEdgeKeeps(table, heap, objects, objDict, oof, pof, sof, o, p, s, name);
      x := |objects|;
      var e := Obj(x, Edge(o, p, s), name);
      oof, pof, sof := Register(oof, e.kind, O), Register(pof, e.kind, P), Register(sof, e.kind, S);
      var namePtr := AppendData(NameValue(name));
      table := table + Encode(EdgeRecord(namePtr, o, p, s));
      objects, objDict := objects + [e], objDict[DisplayName(e) := x];
    }

    /** The name setter: write the new name and point field 0 of the record
        at it; obj_dict keeps the old name. */
    method SetName(x: nat, name: string)
      requires Valid() && x < |objects| && |heap| < U32_LIMIT
      modifies this`table, this`heap, this`objects
      ensures Valid()
      ensures objects == old(objects)[x := old(objects)[x].(name := Some(name))]
      ensures var a := Appended(old(heap), Text(name));
        heap == a.heap && table == Overwrite(old(table), x, 0, a.ptr)
    {
      RenameKeeps(table, heap, objects, objDict, oof, pof, sof, x, name);
      var ptr := AppendData(Text(name));
      WriteField(x, 0, ptr);
      objects := objects[x := objects[x].(name := Some(name))];
    }

    /** The data setter of a node: write the value (None as pointer 0) and
        point field 1 of the record at it. Anything but a node has no data
        property, and the store is left alone. */
    method SetData(x: nat, data: Value)
      requires Valid() && x < |objects| && |heap| < U32_LIMIT
      modifies this`table, this`heap, this`objects
      ensures Valid()
      ensures old(objects[x].kind.Node?) ==>
        && objects == old(objects)[x := old(objects)[x].(kind := Node(data))]
        && var a := Appended(old(heap), data);
           heap == a.heap && table == Overwrite(old(table), x, 1, a.ptr)
      ensures !old(objects[x].kind.Node?) ==>
        objects == old(objects) && heap == old(heap) && table == old(table)
    {
      if objects[x].kind.Node? {
        RedataKeeps(table, heap, objects, objDict, oof, pof, sof, x, data);
        var ptr := AppendData(data);
        WriteField(x, 1, ptr);
        objects := objects[x := objects[x].(kind := Node(data))];
      }
    }

    /** The o, p and s setters: leave the old endpoint's role set, join the
        new one's, and point the role's field at the new endpoint. On
        anything but an edge nothing changes. */
    method SetEndpoint(e: nat, r: Role, v: nat)
      requires Valid() && e < |objects| && v < |objects| && |objects| <= U32_LIMIT
      modifies this`table, this`objects, this`oof, this`pof, this`sof
      ensures Valid()
      ensures old(objects[e].kind.Edge?) ==>
        && objects == old(objects)[e := old(objects)[e].(kind := WithEndpoint(old(objects)[e].kind, r, v))]
        && table == Overwrite(old(table), e, FieldIndex(r), v)
        && var w := Endpoint(old(objects)[e].kind, r);
           && oof == (if r == O then Move(old(oof), e, w, v) else old(oof))
           && pof == (if r == P then Move(old(pof), e, w, v) else old(pof))
           && sof == (if r == S then Move(old(sof), e, w, v) else old(sof))
      ensures !old(objects[e].kind.Edge?) ==>
        objects == old(objects) && table == old(table) && oof == old(oof) && pof == old(pof) && sof == old(sof)
    {
      if objects[e].kind.Edge? {
        MoveKeeps(table, heap, objects, objDict, oof, pof, sof, e, r, v);
        var w := Endpoint(objects[e].kind, r);
        match r {
          case O => oof := Move(oof, e, w, v);
          case P => pof := Move(pof, e, w, v);
          case S => sof := Move(sof, e, w, v);
        }
        WriteField(e, FieldIndex(r), v);
        objects := objects[e := objects[e].(kind := WithEndpoint(objects[e].kind, r, v))];
      }
    }
  }

  /** Appending to the heap keeps every stored description valid. */
  lemma EarlyMirrorsHeapGrows(table: seq<byte>, heap: seq<Cell>, heap': seq<Cell>, objs: seq<Obj>)
    requires EarlyMirrors(table, heap, objs)
    requires forall p: nat :: p < |heap| ==> DerefData(heap', p) == DerefData(heap, p)
    ensures EarlyMirrors(table, heap', objs)
  {
    forall i | 0 <= i < |objs|
      ensures EarlyRecordStores(table, heap', i, objs[i])
    {
      assert EarlyRecordStores(table, heap, i, objs[i]);
      var r := Decode(RecordAt(table, i)).value;
      if !r.Tombstone? {
        assert DerefData(heap, r.namePtr).Ok?;
      }
      if r.NodeRecord? {
        assert DerefData(heap, r.dataPtr).Ok?;
      }
    }
  }

  /** Appending the encoding of a record that describes a new object
      extends the mirror by that object. */
  lemma EarlyMirrorsAppend(table: seq<byte>, heap: seq<Cell>, objs: seq<Obj>, r: Record, o: Obj)
    requires EarlyMirrors(table, heap, objs) && EarlyStores(heap, r, o)
    ensures EarlyMirrors(table + Encode(r), heap, objs + [o])
  {
    DecodeEncode(r);
    var t, os := table + Encode(r), objs + [o];
    forall i | 0 <= i < |os|
      ensures EarlyRecordStores(t, heap, i, os[i])
    {
      RecordAtAppend(table, Encode(r), i);
      if i < |objs| {
        assert EarlyRecordStores(table, heap, i, objs[i]);
      }
    }
  }

  /** Rewriting field f of record x so that it describes o' replaces
      object x by o' in the mirror. */
  lemma EarlyMirrorsOverwrite(table: seq<byte>, heap: seq<Cell>, objs: seq<Obj>, x: nat, f: nat, p: u32, o': Obj)
    requires EarlyMirrors(table, heap, objs) && x < |objs| && f < 4
    requires Decode(RecordAt(table, x)).Ok?
    requires EarlyStores(heap, WithField(Decode(RecordAt(table, x)).value, f, p), o')
    ensures EarlyMirrors(Overwrite(table, x, f, p), heap, objs[x := o'])
  {
    var t, os := Overwrite(table, x, f, p), objs[x := o'];
    forall i | 0 <= i < |os|
      ensures EarlyRecordStores(t, heap, i, os[i])
    {
      DecodeAfterOverwrite(table, x, f, p, i);
      assert EarlyRecordStores(table, heap, i, objs[i]);
    }
  }

  /** _append_data keeps the store consistent, and the pointer it returns
      reads back as the value. */
  lemma AppendedKeeps(table: seq<byte>, heap: seq<Cell>, objs: seq<Obj>, index: map<string, nat>,
                      oof: seq<set<nat>>, pof: seq<set<nat>>, sof: seq<set<nat>>, v: Value)
    requires Consistent(table, heap, objs, index, oof, pof, sof)
    ensures var w := Appended(heap, v);
      && Consistent(table, w.heap, objs, index, oof, pof, sof)
      && DerefData(w.heap, w.ptr) == Ok(v) && w.ptr <= |heap|
  {
    AppendedRoundTrip(heap, v);
    EarlyMirrorsHeapGrows(table, heap, Appended(heap, v).heap, objs);
  }

  /** Pushing a new object whose record is stored over the heap, with its
      role registrations and its index entry, keeps the store consistent. */
  lemma AppendKeeps(table: seq<byte>, heap: seq<Cell>, objs: seq<Obj>, index: map<string, nat>,
                    oof: seq<set<nat>>, pof: seq<set<nat>>, sof: seq<set<nat>>, r: Record, o: Obj)
    requires Consistent(table, heap, objs, index, oof, pof, sof)
    requires EarlyStores(heap, r, o) && o.ptr == |objs| && RefersBelow(o, |objs|)
    ensures Consistent(table + Encode(r), heap, objs + [o], index[DisplayName(o) := |objs|],
                       Register(oof, o.kind, O), Register(pof, o.kind, P), Register(sof, o.kind, S))
  {
    EarlyMirrorsAppend(table, heap, objs, r, o);
    RoleMatchesAppend(objs, oof, O, o);
    RoleMatchesAppend(objs, pof, P, o);
    RoleMatchesAppend(objs, sof, S, o);
    EndpointsExistAppend(objs, o);
    var t := objs + [o];
    assert forall i :: 0 <= i < |objs| ==> t[i] == objs[i];
  }

  /** Node.__init__ keeps the store consistent: the name and the data are
      written in that order and the record points at both. */
  lemma NewNodeKeeps(table: seq<byte>, heap: seq<Cell>, objs: seq<Obj>, index: map<string, nat>,
                     oof: seq<set<nat>>, pof: seq<set<nat>>, sof: seq<set<nat>>,
                     name: Option<string>, data: Value)
    requires Consistent(table, heap, objs, index, oof, pof, sof)
    requires |Appended(heap, NameValue(name)).heap| < U32_LIMIT
    ensures var a := Appended(heap, NameValue(name));
      var b := Appended(a.heap, data);
      var o := Obj(|objs|, Node(data), name);
      && a.ptr < U32_LIMIT && b.ptr < U32_LIMIT
      && Consistent(table + Encode(NodeRecord(a.ptr, b.ptr)), b.heap, objs + [o], index[DisplayName(o) := |objs|],
                    oof + [{}], pof + [{}], sof + [{}])
  {
    var a := Appended(heap, NameValue(name));
    AppendedKeeps(table, heap, objs, index, oof, pof, sof, NameValue(name));
    var b := Appended(a.heap, data);
    AppendedKeeps(table, a.heap, objs, index, oof, pof, sof, data);
    AppendedRoundTrip(a.heap, data);
    AppendKeeps(table, b.heap, objs, index, oof, pof, sof, NodeRecord(a.ptr, b.ptr), Obj(|objs|, Node(data), name));
  }

  /** Edge.__init__ keeps the store consistent: the name is written and the
      record points at it and at the three endpoints. */
  lemma NewEdgeKeeps(table: seq<byte>, heap: seq<Cell>, objs: seq<Obj>, index: map<string, nat>,
                     oof: seq<set<nat>>, pof: seq<set<nat>>, sof: seq<set<nat>>,
                     o: nat, p: nat, s: nat, name: Option<string>)
    requires Consistent(table, heap, objs, index, oof, pof, sof)
    requires o < |objs| && p < |objs| && s < |objs| && |objs| <= U32_LIMIT && |heap| < U32_LIMIT
    ensures |oof| == |pof| == |sof| == |objs|
    ensures var a := Appended(heap, NameValue(name));
      var e := Obj(|objs|, Edge(o, p, s), name);
      && a.ptr < U32_LIMIT
      && Consistent(table + Encode(EdgeRecord(a.ptr, o, p, s)), a.heap, objs + [e], index[DisplayName(e) := |objs|],
                    Register(oof, e.kind, O), Register(pof, e.kind, P), Register(sof, e.kind, S))
  {
    var a := Appended(heap, NameValue(name));
    AppendedKeeps(table, heap, objs, index, oof, pof, sof, NameValue(name));
    AppendKeeps(table, a.heap, objs, index, oof, pof, sof, EdgeRecord(a.ptr, o, p, s), Obj(|objs|, Edge(o, p, s), name));
  }

  /** The name setter keeps the store consistent. */
  lemma RenameKeeps(table: seq<byte>, heap: seq<Cell>, objs: seq<Obj>, index: map<string, nat>,
                    oof: seq<set<nat>>, pof: seq<set<nat>>, sof: seq<set<nat>>, x: nat, name: string)
    requires Consistent(table, heap, objs, index, oof, pof, sof)
    requires x < |objs| && |heap| < U32_LIMIT
    ensures var a := Appended(heap, Text(name));
      && a.ptr < U32_LIMIT && RECORD_SIZE * x + RECORD_SIZE <= |table|
      && Consistent(Overwrite(table, x, 0, a.ptr), a.heap, objs[x := objs[x].(name := Some(name))], index, oof, pof, sof)
  {
    var a := Appended(heap, Text(name));
    AppendedKeeps(table, heap, objs, index, oof, pof, sof, Text(name));
    var o' := objs[x].(name := Some(name));
    assert EarlyRecordStores(table, a.heap, x, objs[x]);
    EarlyMirrorsOverwrite(table, a.heap, objs, x, 0, a.ptr, o');
    SameKindKeepsRoles(objs, oof, pof, sof, x, o');
  }

  /** The data setter of a node keeps the store consistent. */
  lemma RedataKeeps(table: seq<byte>, heap: seq<Cell>, objs: seq<Obj>, index: map<string, nat>,
                    oof: seq<set<nat>>, pof: seq<set<nat>>, sof: seq<set<nat>>, x: nat, data: Value)
    requires Consistent(table, heap, objs, index, oof, pof, sof)
    requires x < |objs| && objs[x].kind.Node? && |heap| < U32_LIMIT
    ensures var a := Appended(heap, data);
      && a.ptr < U32_LIMIT && RECORD_SIZE * x + RECORD_SIZE <= |table|
      && Consistent(Overwrite(table, x, 1, a.ptr), a.heap, objs[x := objs[x].(kind := Node(data))], index, oof, pof, sof)
  {
    var a := Appended(heap, data);
    AppendedKeeps(table, heap, objs, index, oof, pof, sof, data);
    var o' := objs[x].(kind := Node(data));
    assert EarlyRecordStores(table, a.heap, x, objs[x]);
    EarlyMirrorsOverwrite(table, a.heap, objs, x, 1, a.ptr, o');
    SameKindKeepsRoles(objs, oof, pof, sof, x, o');
  }

  /** Moving the role-r endpoint of edge e to v keeps the store consistent
      with the moved role set. */
  lemma MoveKeeps(table: seq<byte>, heap: seq<Cell>, objs: seq<Obj>, index: map<string, nat>,
                  oof: seq<set<nat>>, pof: seq<set<nat>>, sof: seq<set<nat>>, e: nat, r: Role, v: nat)
    requires Consistent(table, heap, objs, index, oof, pof, sof)
    requires e < |objs| && objs[e].kind.Edge? && v < |objs| && v < U32_LIMIT
    ensures Endpoint(objs[e].kind, r) < |objs| == |oof| == |pof| == |sof|
    ensures RECORD_SIZE * e + RECORD_SIZE <= |table|
    ensures var objs' := objs[e := objs[e].(kind := WithEndpoint(objs[e].kind, r, v))];
      var w := Endpoint(objs[e].kind, r);
      Consistent(Overwrite(table, e, FieldIndex(r), v), heap, objs', index,
                 if r == O then Move(oof, e, w, v) else oof,
                 if r == P then Move(pof, e, w, v) else pof,
                 if r == S then Move(sof, e, w, v) else sof)
  {
    var o' := objs[e].(kind := WithEndpoint(objs[e].kind, r, v));
    assert Endpoint(objs[e].kind, r) < |objs|;
    assert EarlyRecordStores(table, heap, e, objs[e]);
    EarlyMirrorsOverwrite(table, heap, objs, e, FieldIndex(r), v, o');
    RoleMatchesMove(objs, oof, e, r, v, O);
    RoleMatchesMove(objs, pof, e, r, v, P);
    RoleMatchesMove(objs, sof, e, r, v, S);
    MoveKeepsShape(objs, e, r, v);
  }
}
