/** The packaged Graph (src/amethyst/__init__.py): an in-memory arena of
    objects kept in step with two files, objects.dat (the table of 17-byte
    records, appended to and rewritten one field at a time) and data.dat
    (the append-only heap of encoded values). */
module Store {
  import opened Wrappers
  import opened Failures
  import opened Outcomes
  import opened Bytes
  import opened Values
  import opened Heap
  import opened Records
  import opened Objects
  import opened Persistence

  class Graph {
    /** The contents of objects.dat. */
    var table: seq<byte>
    /** The contents of data.dat. */
    var heap: seq<Cell>
    /** graph.objects: object i has ptr i. */
    var objects: seq<Obj>
    /** graph.obj_dict: display name to ptr. */
    var objDict: map<string, nat>
    /** graph.data_cache: value to the pointer it was written at. */
    var dataCache: map<Value, nat>
    /** _oof, _pof and _sof of every object, indexed by ptr. */
    var oof: seq<set<nat>>
    var pof: seq<set<nat>>
    var sof: seq<set<nat>>

    /** The files describe the arena, the role sets are the derived users,
        the cache points at what it claims and the index points into the
        arena. */
    ghost predicate Valid()
      reads this
    {
      Consistent(table, heap, objects, objDict, dataCache, oof, pof, sof)
    }

    /** Graph.__init__ over the files as they are; nothing is read yet. */
    constructor Init(objectsFile: seq<byte>, dataFile: seq<Cell>)
      ensures table == objectsFile && heap == dataFile
      ensures objects == [] && objDict == map[] && dataCache == map[]
      ensures oof == [] && pof == [] && sof == []
    {
      table, heap := objectsFile, dataFile;
      objects, objDict, dataCache := [], map[], map[];
      oof, pof, sof := [], [], [];
    }

    /** Graph.new: both files truncated, an empty graph. */
    constructor New()
      ensures Valid()
      ensures table == [] && heap == []
      ensures objects == [] && objDict == map[] && dataCache == map[]
      ensures oof == [] && pof == [] && sof == []
    {
      table, heap := [], [];
      objects, objDict, dataCache := [], map[], map[];
      oof, pof, sof := [], [], [];
    }

    /** Graph.load: open the files and replay the table. It succeeds exactly
        when the pure replay does, and then the graph holds what the replay
        produced, with the name index and role sets rebuilt. */
    static method Open(objectsFile: seq<byte>, dataFile: seq<Cell>) returns (r: Result<Graph, Error>)
      ensures r.Ok? <==> Persistence.Load(objectsFile, dataFile).Ok?
      ensures r.Ok? ==>
        && fresh(r.value) && r.value.Valid()
        && r.value.table == objectsFile && r.value.heap == dataFile
        && r.value.objects == Persistence.Load(objectsFile, dataFile).value
        && r.value.objDict == NameIndex(r.value.objects)
    {
      var g := new Graph.Init(objectsFile, dataFile);
      var outcome := g.LoadObjects();
      if outcome.Fail? {
        return Err(outcome.error);
      }
      return Ok(g);
    }

    /** The arena holds what replaying the first |objects| records gives,
        with role sets and name index rebuilt alongside: what _load keeps
        between records. */
    ghost predicate Replayed()
      reads this
    {
      && RECORD_SIZE * |objects| <= |table|
      && Replay(table, heap, |objects|) == Ok(objects)
      && Dense(objects) && EndpointsExist(objects)
      && RolesMatch(objects, oof, pof, sof)
      && objDict == NameIndex(objects)
    }

    /** Graph._load: read records until the end of the table, building each
        object from the ones before it. */
    method LoadObjects() returns (outcome: Outcome<Error>)
      requires objects == [] && objDict == map[] && dataCache == map[]
      requires oof == [] && pof == [] && sof == []
      modifies this`objects, this`objDict, this`oof, this`pof, this`sof
      ensures outcome.Pass? <==> Persistence.Load(table, heap).Ok?
      ensures outcome.Pass? ==>
        && Valid()
        && objects == Persistence.Load(table, heap).value
        && objDict == NameIndex(objects)
    {
      while RECORD_SIZE * |objects| < |table|
        invariant Replayed()
        decreases |table| - RECORD_SIZE * |objects|
      {
        outcome := LoadNext();
        if outcome.Fail? {
          return;
        }
      }
      LoadDone(table, heap, |objects|);
      outcome := Pass;
    }

    /** One pass of _load's loop: read the next record, build its object
        over the ones already loaded, register an edge with its endpoints,
        append the object and index it under its display name. */
    method LoadNext() returns (outcome: Outcome<Error>)
      requires Replayed() && RECORD_SIZE * |objects| < |table|
      modifies this`objects, this`objDict, this`oof, this`pof, this`sof
      ensures outcome.Fail? ==> Persistence.Load(table, heap).Err?
      ensures outcome.Pass? ==> Replayed() && |objects| == old(|objects|) + 1
    {
      var k := |objects|;
      if |table| - RECORD_SIZE * k < RECORD_SIZE {
        // the table ends inside a record
        LoadTruncated(table, heap, k);
        return Fail(CorruptStore);
      }
      var r := LoadRecord(table, heap, objects);
      if r.Err? {
        LoadStopsAt(table, heap, k);
        return Fail(r.error);
      }
      var o := r.value;
      LoadStep(table, heap, objects, oof, pof, sof, o);
      oof, pof, sof := Register(oof, o.kind, O), Register(pof, o.kind, P), Register(sof, o.kind, S);
      objects := objects + [o];
      objDict := objDict[DisplayName(o) := k];
      outcome := Pass;
    }

    /** Graph._alloc: a value already written this session reuses its
        pointer; otherwise it is appended to the heap. The pointer reads
        back as the value, and what the heap held before is unchanged. */
    method Alloc(v: Value) returns (p: nat)
      requires Valid()
      modifies this`heap, this`dataCache
      ensures Valid()
      ensures var a := Heap.Alloc(old(heap), old(dataCache), v);
        heap == a.heap && dataCache == a.cache && p == a.ptr
      ensures CacheSound(heap, dataCache)
      ensures Deref(heap, p) == Ok(v) && p <= old(|heap|)
      ensures forall q: nat :: q < old(|heap|) ==> Deref(heap, q) == Deref(old(heap), q)
    {
      AllocKeeps(table, heap, objects, objDict, dataCache, oof, pof, sof, v);
      var a := Heap.Alloc(heap, dataCache, v);
      heap, dataCache, p := a.heap, a.cache, a.ptr;
    }

    /** Graph._write_field: overwrite field f of record x with p. */
    method WriteField(x: nat, f: nat, p: u32)
      requires f < 4 && RECORD_SIZE * x + RECORD_SIZE <= |table|
      modifies this`table
      ensures table == Overwrite(old(table), x, f, p)
      ensures Field(RecordAt(table, x), f) == p
    {
      table := Overwrite(table, x, f, p);
      FieldAfterOverwrite(old(table), x, f, p);
    }

    /** The common tail of Node.append and Edge.append: append the record
        and the object, and index the object under its display name. An
        edge joins its endpoints' role sets here, which Edge.__init__ does
        just before append; nothing in between reads them. */
    method Push(r: Record, o: Obj)
      requires Valid()
      requires Stores(heap, r, o) && o.ptr == |objects| && RefersBelow(o, |objects|)
      modifies this`table, this`objects, this`objDict, this`oof, this`pof, this`sof
      ensures Valid()
      ensures table == old(table) + Encode(r)
      ensures objects == old(objects) + [o] && objDict == old(objDict)[DisplayName(o) := o.ptr]
      ensures oof == Register(old(oof), o.kind, O) && pof == Register(old(pof), o.kind, P)
      ensures sof == Register(old(sof), o.kind, S)
      ensures Get(objects, objDict, Name(DisplayName(o))) == Ok(o.ptr)
      ensures NoForwardRefs(old(objects)) ==> NoForwardRefs(objects)
    {
      AppendKeeps(table, heap, objects, objDict, dataCache, oof, pof, sof, r, o);
      table := table + Encode(r);
      oof, pof, sof := Register(oof, o.kind, O), Register(pof, o.kind, P), Register(sof, o.kind, S);
      objects, objDict := objects + [o], objDict[DisplayName(o) := o.ptr];
    }

    /** Graph.new_node: write the name and the data, append a node record
        and the node itself, and index it under its display name. */
    method NewNode(name: Option<string>, data: Value) returns (x: nat)
      requires Valid()
      requires |Heap.Alloc(heap, dataCache, NameValue(name)).heap| < U32_LIMIT
      modifies this
      ensures Valid()
      ensures x == old(|objects|) && objects == old(objects) + [Obj(x, Node(data), name)]
      ensures objDict == old(objDict)[DisplayName(objects[x]) := x]
      ensures Get(objects, objDict, Name(DisplayName(objects[x]))) == Ok(x)
      ensures oof == old(oof) + [{}] && pof == old(pof) + [{}] && sof == old(sof) + [{}]
      ensures var a := Heap.Alloc(old(heap), old(dataCache), NameValue(name));
        var b := Heap.Alloc(a.heap, a.cache, data);
        && heap == b.heap && dataCache == b.cache
        && table == old(table) + Encode(NodeRecord(a.ptr, b.ptr))
      ensures NoForwardRefs(old(objects)) ==> NoForwardRefs(objects)
    {
      x := |objects|;
      var namePtr := Alloc(NameValue(name));
      var dataPtr := Alloc(data);
      Push(NodeRecord(namePtr, dataPtr), Obj(x, Node(data), name));
    }

    /** Graph.new_data: an unnamed node holding data. */
    method NewData(data: Value) returns (x: nat)
      requires Valid()
      requires |Heap.Alloc(heap, dataCache, Null).heap| < U32_LIMIT
      modifies this
      ensures Valid()
      ensures x == old(|objects|) && objects == old(objects) + [Obj(x, Node(data), None)]
      ensures objDict == old(objDict)[DisplayName(objects[x]) := x]
      ensures Get(objects, objDict, Name(DisplayName(objects[x]))) == Ok(x)
      ensures oof == old(oof) + [{}] && pof == old(pof) + [{}] && sof == old(sof) + [{}]
      ensures var a := Heap.Alloc(old(heap), old(dataCache), Null);
        var b := Heap.Alloc(a.heap, a.cache, data);
        && heap == b.heap && dataCache == b.cache
        && table == old(table) + Encode(NodeRecord(a.ptr, b.ptr))
      ensures NoForwardRefs(old(objects)) ==> NoForwardRefs(objects)
    {
      x := NewNode(None, data);
    }

    /** Graph.new_edge: register the edge with its three endpoints, write its
        name, append an edge record and the edge itself, and index it. */
    method NewEdge(o: nat, p: nat, s: nat, name: Option<string>) returns (x: nat)
      requires Valid()
      requires o < |objects| && p < |objects| && s < |objects|
      requires |objects| <= U32_LIMIT && |heap| < U32_LIMIT
      modifies this
      ensures Valid()
      ensures x == old(|objects|) && objects == old(objects) + [Obj(x, Edge(o, p, s), name)]
      ensures objDict == old(objDict)[DisplayName(objects[x]) := x]
      ensures Get(objects, objDict, Name(DisplayName(objects[x]))) == Ok(x)
      ensures oof == Register(old(oof), Edge(o, p, s), O)
      ensures pof == Register(old(pof), Edge(o, p, s), P)
      ensures sof == Register(old(sof), Edge(o, p, s), S)
      ensures var a := Heap.Alloc(old(heap), old(dataCache), NameValue(name));
        && heap == a.heap && dataCache == a.cache
        && table == old(table) + Encode(EdgeRecord(a.ptr, o, p, s))
      ensures NoForwardRefs(old(objects)) ==> NoForwardRefs(objects)
    {
      x := |objects|;
      var namePtr := Alloc(NameValue(name));
      Push(EdgeRecord(namePtr, o, p, s), Obj(x, Edge(o, p, s), name));
    }

    /** The name setter: write the new name and point field 0 of the record
        at it. obj_dict is left as it was, so the object is still found
        under its old name until the graph is reloaded. */
    method SetName(x: nat, name: string)
      requires Valid() && x < |objects| && |heap| < U32_LIMIT
      modifies this`table, this`heap, this`dataCache, this`objects
      ensures Valid()
      ensures objects == old(objects)[x := old(objects)[x].(name := Some(name))]
      ensures var a := Heap.Alloc(old(heap), old(dataCache), Text(name));
        && heap == a.heap && dataCache == a.cache
        && table == Overwrite(old(table), x, 0, a.ptr)
      ensures NoForwardRefs(old(objects)) ==> NoForwardRefs(objects)
    {
      RenameKeeps(table, heap, objects, objDict, dataCache, oof, pof, sof, x, name);
      var ptr := Alloc(Text(name));
      WriteField(x, 0, ptr);
      objects := objects[x := objects[x].(name := Some(name))];
    }

    /** The data setter of a node: write the value and point field 1 of the
        record at it. Anything but a node has no data property, and the
        store is left alone. */
    method SetData(x: nat, data: Value)
      requires Valid() && x < |objects| && |heap| < U32_LIMIT
      modifies this`table, this`heap, this`dataCache, this`objects
      ensures Valid()
      ensures old(objects[x].kind.Node?) ==>
        && objects == old(objects)[x := old(objects)[x].(kind := Node(data))]
        && var a := Heap.Alloc(old(heap), old(dataCache), data);
           heap == a.heap && dataCache == a.cache && table == Overwrite(old(table), x, 1, a.ptr)
      ensures !old(objects[x].kind.Node?) ==>
        objects == old(objects) && heap == old(heap) && dataCache == old(dataCache) && table == old(table)
      ensures NoForwardRefs(old(objects)) ==> NoForwardRefs(objects)
    {
      if objects[x].kind.Node? {
        RedataKeeps(table, heap, objects, objDict, dataCache, oof, pof, sof, x, data);
        var ptr := Alloc(data);
        WriteField(x, 1, ptr);
        objects := objects[x := objects[x].(kind := Node(data))];
      }
    }

    /** The o, p and s setters of an edge: leave the old endpoint's role set,
        join the new one's, and point the role's field at the new endpoint.
        On anything but an edge the store is left alone. */
    method SetEndpoint(e: nat, r: Role, v: nat)
      requires Valid() && e < |objects| && v < |objects| && |objects| <= U32_LIMIT
      modifies this`table, this`objects, this`oof, this`pof, this`sof
      ensures Valid()
      ensures old(objects[e].kind.Edge?) ==>
        && objects == old(objects)[e := old(objects)[e].(kind := WithEndpoint(old(objects)[e].kind, r, v))]
        && table == Overwrite(old(table), e, FieldIndex(r), v)
        && var w := Endpoint(old(objects)[e].kind, r);
           && oof == (if r == O then Move(old(oof), e, w, v) else old(oof))
           && pof == (if r == P then Move(old(pof), e, w, v) else old(pof))
           && sof == (if r == S then Move(old(sof), e, w, v) else old(sof))
      ensures !old(objects[e].kind.Edge?) ==>
        objects == old(objects) && table == old(table) && oof == old(oof) && pof == old(pof) && sof == old(sof)
      ensures old(NoForwardRefs(objects)) && v < e ==> NoForwardRefs(objects)
      ensures objects[e].kind.Edge? && e <= v ==> !NoForwardRefs(objects)
    {
      if objects[e].kind.Edge? {
        MoveKeeps(table, heap, objects, objDict, dataCache, oof, pof, sof, e, r, v);
        var w := Endpoint(objects[e].kind, r);
        match r {
          case O => oof := Move(oof, e, w, v);
          case P => pof := Move(pof, e, w, v);
          case S => sof := Move(sof, e, w, v);
        }
        WriteField(e, FieldIndex(r), v);
        objects := objects[e := objects[e].(kind := WithEndpoint(objects[e].kind, r, v))];
      }
    }
  }

  /** What Graph.Valid states, on values: the table mirrors the arena over
      the heap, ptrs are positions, endpoints exist, the role sets are the
      derived users, the cache is sound and the index points into the
      arena. */
  ghost predicate Consistent(table: seq<byte>, heap: seq<Cell>, objs: seq<Obj>, index: map<string, nat>,
                             cache: map<Value, nat>, oof: seq<set<nat>>, pof: seq<set<nat>>, sof: seq<set<nat>>)
  {
    && Mirrors(table, heap, objs)
    && Dense(objs)
    && EndpointsExist(objs)
    && RolesMatch(objs, oof, pof, sof)
    && CacheSound(heap, cache)
    && forall k :: k in index ==> index[k] < |objs|
  }

  /** Allocating a value keeps the store consistent. */
  lemma AllocKeeps(table: seq<byte>, heap: seq<Cell>, objs: seq<Obj>, index: map<string, nat>,
                   cache: map<Value, nat>, oof: seq<set<nat>>, pof: seq<set<nat>>, sof: seq<set<nat>>, v: Value)
    requires Consistent(table, heap, objs, index, cache, oof, pof, sof)
    ensures var a := Heap.Alloc(heap, cache, v);
      && Consistent(table, a.heap, objs, index, a.cache, oof, pof, sof)
      && Deref(a.heap, a.ptr) == Ok(v) && a.ptr <= |heap|
      && forall q: nat :: q < |heap| ==> Deref(a.heap, q) == Deref(heap, q)
  {
    AllocSound(heap, cache, v);
    var a := Heap.Alloc(heap, cache, v);
    MirrorsHeapGrows(table, heap, a.heap, objs);
  }

  /** Appending a new object whose record is stored over the heap, with its
      role registrations, keeps the store consistent; no reference goes
      forward. */
  lemma AppendKeeps(table: seq<byte>, heap: seq<Cell>, objs: seq<Obj>, index: map<string, nat>,
                    cache: map<Value, nat>, oof: seq<set<nat>>, pof: seq<set<nat>>, sof: seq<set<nat>>,
                    r: Record, o: Obj)
    requires Consistent(table, heap, objs, index, cache, oof, pof, sof)
    requires Stores(heap, r, o) && o.ptr == |objs| && RefersBelow(o, |objs|)
    ensures Consistent(table + Encode(r), heap, objs + [o], index[DisplayName(o) := |objs|], cache,
                       Register(oof, o.kind, O), Register(pof, o.kind, P), Register(sof, o.kind, S))
    ensures Get(objs + [o], index[DisplayName(o) := |objs|], Name(DisplayName(o))) == Ok(|objs|)
    ensures NoForwardRefs(objs) ==> NoForwardRefs(objs + [o])
  {
    MirrorsAppend(table, heap, objs, r, o);
    RoleMatchesAppend(objs, oof, O, o);
    RoleMatchesAppend(objs, pof, P, o);
    RoleMatchesAppend(objs, sof, S, o);
    EndpointsExistAppend(objs, o);
    var t := objs + [o];
    assert forall i :: 0 <= i < |objs| ==> t[i] == objs[i];
  }

  /** The name setter keeps the store consistent; the kinds, and so the
      role sets, do not change. */
  lemma RenameKeeps(table: seq<byte>, heap: seq<Cell>, objs: seq<Obj>, index: map<string, nat>,
                    cache: map<Value, nat>, oof: seq<set<nat>>, pof: seq<set<nat>>, sof: seq<set<nat>>,
                    x: nat, name: string)
    requires Consistent(table, heap, objs, index, cache, oof, pof, sof)
    requires x < |objs| && |heap| < U32_LIMIT
    ensures var a := Heap.Alloc(heap, cache, Text(name));
      var objs' := objs[x := objs[x].(name := Some(name))];
      && a.ptr < U32_LIMIT && RECORD_SIZE * x + RECORD_SIZE <= |table|
      && Consistent(Overwrite(table, x, 0, a.ptr), a.heap, objs', index, a.cache, oof, pof, sof)
      && (NoForwardRefs(objs) ==> NoForwardRefs(objs'))
  {
    var a := Heap.Alloc(heap, cache, Text(name));
    AllocKeeps(table, heap, objs, index, cache, oof, pof, sof, Text(name));
    var o' := objs[x].(name := Some(name));
    assert RecordStores(table, a.heap, x, objs[x]);
    MirrorsOverwrite(table, a.heap, objs, x, 0, a.ptr, o');
    SameKindKeepsRoles(objs, oof, pof, sof, x, o');
  }

  /** The data setter of a node keeps the store consistent. */
  lemma RedataKeeps(table: seq<byte>, heap: seq<Cell>, objs: seq<Obj>, index: map<string, nat>,
                    cache: map<Value, nat>, oof: seq<set<nat>>, pof: seq<set<nat>>, sof: seq<set<nat>>,
                    x: nat, data: Value)
    requires Consistent(table, heap, objs, index, cache, oof, pof, sof)
    requires x < |objs| && objs[x].kind.Node? && |heap| < U32_LIMIT
    ensures var a := Heap.Alloc(heap, cache, data);
      var objs' := objs[x := objs[x].(kind := Node(data))];
      && a.ptr < U32_LIMIT && RECORD_SIZE * x + RECORD_SIZE <= |table|
      && Consistent(Overwrite(table, x, 1, a.ptr), a.heap, objs', index, a.cache, oof, pof, sof)
      && (NoForwardRefs(objs) ==> NoForwardRefs(objs'))
  {
    var a := Heap.Alloc(heap, cache, data);
    AllocKeeps(table, heap, objs, index, cache, oof, pof, sof, data);
    var o' := objs[x].(kind := Node(data));
    assert RecordStores(table, a.heap, x, objs[x]);
    MirrorsOverwrite(table, a.heap, objs, x, 1, a.ptr, o');
    SameKindKeepsRoles(objs, oof, pof, sof, x, o');
  }

  /** Moving the role-r endpoint of edge e to v keeps the store consistent
      with the moved role set. */
  lemma MoveKeeps(table: seq<byte>, heap: seq<Cell>, objs: seq<Obj>, index: map<string, nat>,
                  cache: map<Value, nat>, oof: seq<set<nat>>, pof: seq<set<nat>>, sof: seq<set<nat>>,
                  e: nat, r: Role, v: nat)
    requires Consistent(table, heap, objs, index, cache, oof, pof, sof)
    requires e < |objs| && objs[e].kind.Edge? && v < |objs| && v < U32_LIMIT
    ensures Endpoint(objs[e].kind, r) < |objs| == |oof| == |pof| == |sof|
    ensures RECORD_SIZE * e + RECORD_SIZE <= |table|
    ensures var objs' := objs[e := objs[e].(kind := WithEndpoint(objs[e].kind, r, v))];
      var w := Endpoint(objs[e].kind, r);
      && Consistent(Overwrite(table, e, FieldIndex(r), v), heap, objs', index, cache,
                    if r == O then Move(oof, e, w, v) else oof,
                    if r == P then Move(pof, e, w, v) else pof,
                    if r == S then Move(sof, e, w, v) else sof)
      && (NoForwardRefs(objs) && v < e ==> NoForwardRefs(objs'))
      && (e <= v ==> !NoForwardRefs(objs'))
  {
    var o' := objs[e].(kind := WithEndpoint(objs[e].kind, r, v));
    assert Endpoint(objs[e].kind, r) < |objs|;
    assert RecordStores(table, heap, e, objs[e]);
    MirrorsOverwrite(table, heap, objs, e, FieldIndex(r), v, o');
    RoleMatchesMove(objs, oof, e, r, v, O);
    RoleMatchesMove(objs, pof, e, r, v, P);
    RoleMatchesMove(objs, sof, e, r, v, S);
    MoveKeepsShape(objs, e, r, v);
  }

  /** A table that ends inside a record does not load. */
  lemma LoadTruncated(table: seq<byte>, heap: seq<Cell>, k: nat)
    requires RECORD_SIZE * k < |table| < RECORD_SIZE * k + RECORD_SIZE
    ensures Persistence.Load(table, heap).Err?
  {
    assert |table| % RECORD_SIZE == |table| - RECORD_SIZE * k;
  }

  /** A record that fails to load makes the whole load fail. */
  lemma LoadStopsAt(table: seq<byte>, heap: seq<Cell>, k: nat)
    requires RECORD_SIZE * k + RECORD_SIZE <= |table|
    requires Replay(table, heap, k).Ok?
    requires LoadRecord(table, heap, Replay(table, heap, k).value).Err?
    ensures Persistence.Load(table, heap).Err?
  {
    if |table| % RECORD_SIZE == 0 {
      ReplayErrPersists(table, heap, k + 1, |table| / RECORD_SIZE);
    }
  }

  /** One iteration of _load keeps the replay, density, endpoints, role
      sets and name index in step. */
  lemma LoadStep(table: seq<byte>, heap: seq<Cell>, objs: seq<Obj>,
                 oof: seq<set<nat>>, pof: seq<set<nat>>, sof: seq<set<nat>>, o: Obj)
    requires RECORD_SIZE * |objs| + RECORD_SIZE <= |table|
    requires Replay(table, heap, |objs|) == Ok(objs)
    requires Dense(objs) && EndpointsExist(objs) && RolesMatch(objs, oof, pof, sof)
    requires LoadRecord(table, heap, objs) == Ok(o)
    ensures Replay(table, heap, |objs| + 1) == Ok(objs + [o])
    ensures RefersBelow(o, |objs|) && |oof| == |pof| == |sof| == |objs|
    ensures Dense(objs + [o]) && EndpointsExist(objs + [o])
    ensures RolesMatch(objs + [o], Register(oof, o.kind, O), Register(pof, o.kind, P), Register(sof, o.kind, S))
    ensures NameIndex(objs + [o]) == NameIndex(objs)[DisplayName(o) := |objs|]
  {
    ReplaySnoc(table, heap, objs, o);
    RoleMatchesAppend(objs, oof, O, o);
    RoleMatchesAppend(objs, pof, P, o);
    RoleMatchesAppend(objs, sof, S, o);
    EndpointsExistAppend(objs, o);
    NameIndexSnoc(objs, o);
    assert Dense(objs + [o]) by {
      var t := objs + [o];
      assert forall i :: 0 <= i < |objs| ==> t[i] == objs[i];
    }
  }

  /** When _load reaches the end of the table, the load succeeded and the
      table mirrors the replayed arena. */
  lemma LoadDone(table: seq<byte>, heap: seq<Cell>, k: nat)
    requires RECORD_SIZE * k == |table|
    requires Replay(table, heap, k).Ok?
    ensures Persistence.Load(table, heap) == Replay(table, heap, k)
    ensures var objs := Replay(table, heap, k).value;
      |objs| == k && Dense(objs) && NoForwardRefs(objs) && Mirrors(table, heap, objs)
  {
    ReplayWellFormed(table, heap, k);
    assert table[..RECORD_SIZE * k] == table;
  }
}
