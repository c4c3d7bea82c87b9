/**
 * The in-memory graph: an arena of objects indexed by ptr. Edges refer to
 * their endpoints by ptr, the name index maps display names to ptrs, and
 * the three adjacency role sets of each object hold ptrs of edges.
 */
module Objects {

  import opened Wrappers
  import opened Failures
  import opened Values

  /** The three endpoint roles of an edge: object, predicate, subject. */
  datatype Role = O | P | S

  /** The variant-specific state of a GraphObject. */
  datatype Kind =
    | Deleted
    | Node(data: Value)
    | Edge(o: nat, p: nat, s: nat)

  /** A GraphObject: its ptr, its variant and its optional name (_name). */
  datatype Obj = Obj(ptr: nat, kind: Kind, name: Option<string>)

  function TypeName(k: Kind): string
  {
    match k
    case Deleted => "deleted"
    case Node(_) => "node"
    case Edge(_, _, _) => "edge"
  }

  function DigitChar(d: nat): char
    requires d < 10
  {
    ('0' as int + d) as char
  }

  /** Python's str() of a natural number. */
  function Decimal(n: nat): (s: string)
    ensures |s| >= 1
    ensures forall k :: 0 <= k < |s| ==> '0' <= s[k] <= '9'
  {
    if n < 10 then [DigitChar(n)] else Decimal(n / 10) + [DigitChar(n % 10)]
  }

  /** The value of a decimal digit. */
  function DigitValue(c: char): nat
  {
    if '0' <= c <= '9' then (c as int - '0' as int) as nat else 0
  }

  /** The number a string of decimal digits denotes (int() of it). */
  function DigitsValue(s: string): nat
  {
    if s == [] then 0 else 10 * DigitsValue(s[..|s| - 1]) + DigitValue(s[|s| - 1])
  }

  /** Decimal(n) is the base-10 numeral of n: reading it back gives n. */
  lemma {:induction false} DecimalValue(n: nat)
    ensures DigitsValue(Decimal(n)) == n
  {
    var s := Decimal(n);
    if n < 10 {
      assert s[..0] == [];
    } else {
      assert s[..|s| - 1] == Decimal(n / 10);
      DecimalValue(n / 10);
    }
  }

  /** Different numbers print differently. */
  lemma {:induction false} DecimalInjective(m: nat, n: nat)
    requires Decimal(m) == Decimal(n)
    ensures m == n
  {
    var a, b := Decimal(m), Decimal(n);
    assert DigitChar(m % 10) == a[|a| - 1] == b[|b| - 1] == DigitChar(n % 10);
    assert m % 10 == n % 10;
    if m < 10 || n < 10 {
      assert m < 10 && n < 10;
    } else {
      assert Decimal(m / 10) == a[..|a| - 1] == b[..|b| - 1] == Decimal(n / 10);
      DecimalInjective(m / 10, n / 10);
    }
  }

  /** The name property: _name when set, otherwise "<type_name>_<ptr>". */
  function DisplayName(o: Obj): (s: string)
    ensures o.name.Some? ==> s == o.name.value
    ensures o.name.None? ==> |s| > |TypeName(o.kind)| && s[..|TypeName(o.kind)| + 1] == TypeName(o.kind) + "_"
  {
    if o.name.Some? then o.name.value else TypeName(o.kind) + "_" + Decimal(o.ptr)
  }

  /** Two unnamed objects with different ptrs never share a display name. */
  lemma UnnamedDistinct(a: Obj, b: Obj)
    requires a.name.None? && b.name.None? && a.ptr != b.ptr
    ensures DisplayName(a) != DisplayName(b)
  {
    var x, y := DisplayName(a), DisplayName(b);
    if x == y {
      var ta, tb := TypeName(a.kind), TypeName(b.kind);
      assert x[0] == ta[0] && y[0] == tb[0];
      assert ta == tb;
      var k := |ta| + 1;
      assert Decimal(a.ptr) == x[k..] == y[k..] == Decimal(b.ptr);
      DecimalInjective(a.ptr, b.ptr);
    }
  }

  /** The heap value a name is stored as: None is CBOR null. */
  function NameValue(name: Option<string>): Value
  {
    if name.Some? then Text(name.value) else Null
  }

  function Endpoint(k: Kind, r: Role): nat
    requires k.Edge?
  {
    match r
    case O => k.o
    case P => k.p
    case S => k.s
  }

  function WithEndpoint(k: Kind, r: Role, v: nat): (k': Kind)
    requires k.Edge?
    ensures k'.Edge? && Endpoint(k', r) == v
    ensures forall q :: q != r ==> Endpoint(k', q) == Endpoint(k, q)
  {
    match r
    case O => k.(o := v)
    case P => k.(p := v)
    case S => k.(s := v)
  }

  /** Table field that holds an endpoint: o, p and s are fields 1, 2, 3. */
  function FieldIndex(r: Role): nat
  {
    match r
    case O => 1
    case P => 2
    case S => 3
  }

  /** as_triple(). */
  function Triple(k: Kind): (t: (nat, nat, nat))
    requires k.Edge?
    ensures t.0 == Endpoint(k, O) && t.1 == Endpoint(k, P) && t.2 == Endpoint(k, S)
  {
    (k.o, k.p, k.s)
  }

  /** objects[i].ptr == i: the arena is dense and a ptr is an index. */
  ghost predicate Dense(objs: seq<Obj>)
  {
    forall i :: 0 <= i < |objs| ==> objs[i].ptr == i
  }

  /** Every edge endpoint is an object of the arena. */
  ghost predicate EndpointsExist(objs: seq<Obj>)
  {
    forall i, r :: 0 <= i < |objs| && objs[i].kind.Edge? ==> Endpoint(objs[i].kind, r) < |objs|
  }

  /** Every edge refers only to objects before it in the table. */
  ghost predicate NoForwardRefs(objs: seq<Obj>)
  {
    forall i, r :: 0 <= i < |objs| && objs[i].kind.Edge? ==> Endpoint(objs[i].kind, r) < i
  }

  /** The edges that use x in role r: what x._oof, x._pof, x._sof hold. */
  function Users(objs: seq<Obj>, r: Role, x: nat): set<nat>
  {
    set e | 0 <= e < |objs| && objs[e].kind.Edge? && Endpoint(objs[e].kind, r) == x
  }

  /** sets[x] holds exactly the edges that use x in role r. */
  ghost predicate RoleMatches(objs: seq<Obj>, sets: seq<set<nat>>, r: Role)
  {
    |sets| == |objs| && forall x {:trigger Users(objs, r, x)} :: 0 <= x < |objs| ==> sets[x] == Users(objs, r, x)
  }

  /** The three role sets are exactly the derived users of each object. */
  ghost predicate RolesMatch(objs: seq<Obj>, oof: seq<set<nat>>, pof: seq<set<nat>>, sof: seq<set<nat>>)
  {
    RoleMatches(objs, oof, O) && RoleMatches(objs, pof, P) && RoleMatches(objs, sof, S)
  }

  /** o is not an edge, or an edge whose endpoints all lie below n. */
  ghost predicate RefersBelow(o: Obj, n: nat)
  {
    o.kind.Edge? ==> forall q :: Endpoint(o.kind, q) < n
  }

  /** Appending an object adds it to the users of its endpoints only. */
  lemma UsersAppend(objs: seq<Obj>, o: Obj, r: Role, x: nat)
    ensures Users(objs + [o], r, x)
         == Users(objs, r, x) + (if o.kind.Edge? && Endpoint(o.kind, r) == x then {|objs|} else {})
  {
    var t := objs + [o];
    assert forall e :: 0 <= e < |objs| ==> t[e] == objs[e];
  }

  /** Changing the kind of object e changes only whether e itself is a user. */
  lemma UsersUpdate(objs: seq<Obj>, e: nat, k': Kind, r: Role, x: nat)
    requires e < |objs|
    ensures Users(objs[e := objs[e].(kind := k')], r, x)
         == (Users(objs, r, x) - {e}) + (if k'.Edge? && Endpoint(k', r) == x then {e} else {})
  {
  }

  /** The role sets after a new object's own empty set is pushed and, if it
      is an edge, it is added to its endpoint's set (Edge.__init__). */
  function Register(sets: seq<set<nat>>, k: Kind, r: Role): (sets': seq<set<nat>>)
    requires k.Edge? ==> Endpoint(k, r) < |sets|
    ensures |sets'| == |sets| + 1 && sets'[|sets|] == {}
    ensures forall y :: 0 <= y < |sets| ==>
      && sets'[y] - {|sets|} == sets[y] - {|sets|}
      && (|sets| in sets'[y] <==> |sets| in sets[y] || (k.Edge? && Endpoint(k, r) == y))
  {
    var grown := sets + [{}];
    if k.Edge? then grown[Endpoint(k, r) := grown[Endpoint(k, r)] + {|sets|}] else grown
  }

  /** Registering a new object that refers only backwards keeps the role
      sets exact. */
  lemma RoleMatchesAppend(objs: seq<Obj>, sets: seq<set<nat>>, r: Role, o: Obj)
    requires RoleMatches(objs, sets, r) && EndpointsExist(objs) && RefersBelow(o, |objs|)
    ensures RoleMatches(objs + [o], Register(sets, o.kind, r), r)
  {
    var objs', sets' := objs + [o], Register(sets, o.kind, r);
    forall x | 0 <= x < |objs'| ensures sets'[x] == Users(objs', r, x) {
      UsersAppend(objs, o, r, x);
      if x == |objs| {
        assert Users(objs, r, x) == {} by {
          forall e | 0 <= e < |objs| && objs[e].kind.Edge? ensures Endpoint(objs[e].kind, r) != x {
            assert Endpoint(objs[e].kind, r) < |objs|;
          }
        }
      }
    }
  }

  /** Appending an object that refers only backwards keeps all endpoints
      inside the arena. */
  lemma EndpointsExistAppend(objs: seq<Obj>, o: Obj)
    requires EndpointsExist(objs) && RefersBelow(o, |objs|)
    ensures EndpointsExist(objs + [o])
  {
    var t := objs + [o];
    assert forall i :: 0 <= i < |objs| ==> t[i] == objs[i];
  }

  /** The role sets after edge e moves its role-r endpoint from a to b:
      e leaves a's set, then joins b's (the o, p and s setters). */
  function Move(sets: seq<set<nat>>, e: nat, a: nat, b: nat): (sets': seq<set<nat>>)
    requires a < |sets| && b < |sets|
    ensures |sets'| == |sets| && e in sets'[b] && (a != b ==> e !in sets'[a])
    ensures forall y :: 0 <= y < |sets| ==> sets'[y] - {e} == sets[y] - {e}
    ensures forall y :: 0 <= y < |sets| && y != a && y != b ==> sets'[y] == sets[y]
  {
    var removed := sets[a := sets[a] - {e}];
    removed[b := removed[b] + {e}]
  }

  /** Moving an endpoint keeps the role sets of that role exact, and those
      of the other roles need no change. */
  lemma RoleMatchesMove(objs: seq<Obj>, sets: seq<set<nat>>, e: nat, r: Role, v: nat, q: Role)
    requires e < |objs| && objs[e].kind.Edge? && v < |objs| && EndpointsExist(objs)
    requires RoleMatches(objs, sets, q)
    ensures var objs' := objs[e := objs[e].(kind := WithEndpoint(objs[e].kind, r, v))];
      RoleMatches(objs', if q == r then Move(sets, e, Endpoint(objs[e].kind, r), v) else sets, q)
  {
    var k' := WithEndpoint(objs[e].kind, r, v);
    var objs' := objs[e := objs[e].(kind := k')];
    assert Endpoint(objs[e].kind, q) < |objs|;
    forall x | 0 <= x < |objs| ensures Users(objs', q, x) == (Users(objs, q, x) - {e}) + (if Endpoint(k', q) == x then {e} else {}) {
      UsersUpdate(objs, e, k', q, x);
    }
  }

  /** The name index after adding objects in order: the last object with
      a display name wins (obj_dict[obj.name] = obj). */
  function NameIndex(objs: seq<Obj>): (index: map<string, nat>)
    ensures forall k :: k in index ==> index[k] < |objs|
  {
    if objs == [] then map[]
    else NameIndex(objs[..|objs| - 1])[DisplayName(objs[|objs| - 1]) := |objs| - 1]
  }

  /** Indexing one more object overrides its display name only. */
  lemma NameIndexSnoc(objs: seq<Obj>, o: Obj)
    ensures NameIndex(objs + [o]) == NameIndex(objs)[DisplayName(o) := |objs|]
  {
    assert (objs + [o])[..|objs|] == objs;
  }

  /** A name is indexed iff some object shows it, and it maps to the last
      such object. */
  lemma {:induction false} NameIndexLastWins(objs: seq<Obj>, k: string)
    ensures k in NameIndex(objs) <==> exists i :: 0 <= i < |objs| && DisplayName(objs[i]) == k
    ensures k in NameIndex(objs) ==>
      var i := NameIndex(objs)[k];
      DisplayName(objs[i]) == k && forall j :: i < j < |objs| ==> DisplayName(objs[j]) != k
  {
    if objs != [] {
      var n := |objs| - 1;
      var init := objs[..n];
      NameIndexLastWins(init, k);
      assert forall i :: 0 <= i < n ==> init[i] == objs[i];
      if DisplayName(objs[n]) != k {
        assert k in NameIndex(objs) <==> k in NameIndex(init);
        if k in NameIndex(objs) {
          assert NameIndex(objs)[k] == NameIndex(init)[k];
        } else {
          forall i | 0 <= i < |objs| ensures DisplayName(objs[i]) != k {
            if i < n {
              assert DisplayName(init[i]) != k;
            }
          }
        }
      }
    }
  }

  /** When no object has an explicit name, every object is indexed under
      its own synthesised name. */
  lemma UnnamedAllIndexed(objs: seq<Obj>, i: nat)
    requires Dense(objs) && i < |objs|
    requires forall j :: 0 <= j < |objs| ==> objs[j].name.None?
    ensures DisplayName(objs[i]) in NameIndex(objs) && NameIndex(objs)[DisplayName(objs[i])] == i
  {
    NameIndexLastWins(objs, DisplayName(objs[i]));
    var j := NameIndex(objs)[DisplayName(objs[i])];
    if j != i {
      UnnamedDistinct(objs[i], objs[j]);
    }
  }

  /** The keys Graph.get accepts: an int, a str, or anything else. */
  datatype Key = Index(i: int) | Name(s: string) | OtherKey

  /** Graph.get: objects[key] for an int (negative counts from the end, as
      in Python), obj_dict[key] for a str, KeyError otherwise. */
  function Get(objs: seq<Obj>, index: map<string, nat>, key: Key): (r: Result<nat, Error>)
    ensures r.Err? ==> r.error == NotFound
    ensures key.Index? ==> (r.Ok? <==> -|objs| <= key.i < |objs|)
    ensures key.Index? && r.Ok? ==> r.value < |objs| && (r.value == key.i || r.value == |objs| + key.i)
  {
    match key
    case Index(i) =>
      if 0 <= i < |objs| then Ok(i)
      else if -|objs| <= i < 0 then Ok(|objs| + i)
      else Err(NotFound)
    case Name(s) => if s in index then Ok(index[s]) else Err(NotFound)
    case OtherKey => Err(NotFound)
  }

  /** get(int) finds the object whose ptr is the key, counting negative
      keys from the end, and fails outside the arena. */
  lemma GetIndex(objs: seq<Obj>, index: map<string, nat>, i: int)
    requires Dense(objs)
    ensures Get(objs, index, Index(i)).Ok? <==> -|objs| <= i < |objs|
    ensures Get(objs, index, Index(i)).Ok? ==>
      objs[Get(objs, index, Index(i)).value].ptr == if i >= 0 then i else |objs| + i
  {
  }

  /** get(str) over a rebuilt index finds the last object with that name. */
  lemma GetName(objs: seq<Obj>, k: string)
    ensures Get(objs, NameIndex(objs), Name(k)).Ok? <==> exists i :: 0 <= i < |objs| && DisplayName(objs[i]) == k
    ensures Get(objs, NameIndex(objs), Name(k)).Ok? ==>
      var i := Get(objs, NameIndex(objs), Name(k)).value;
      i < |objs| && DisplayName(objs[i]) == k && forall j :: i < j < |objs| ==> DisplayName(objs[j]) != k
  {
    NameIndexLastWins(objs, k);
  }

  /** One element of as_array(): a tombstone shows only ptr and type, a
      node ptr, type, data and _name, an edge ptr, type, _name and the
      ptrs of o, p and s. */
  datatype Dict =
    | DeletedDict(ptr: nat)
    | NodeDict(ptr: nat, data: Value, name: Option<string>)
    | EdgeDict(ptr: nat, name: Option<string>, oPtr: nat, pPtr: nat, sPtr: nat)

  function AsDict(o: Obj): (d: Dict)
    ensures d.ptr == o.ptr
    ensures d.DeletedDict? <==> o.kind.Deleted?
    ensures d.NodeDict? <==> o.kind.Node?
    ensures d.NodeDict? ==> d.data == o.kind.data && d.name == o.name
    ensures d.EdgeDict? ==> d.name == o.name && (d.oPtr, d.pPtr, d.sPtr) == Triple(o.kind)
  {
    match o.kind
    case Deleted => DeletedDict(o.ptr)
    case Node(d) => NodeDict(o.ptr, d, o.name)
    case Edge(x, y, z) => EdgeDict(o.ptr, o.name, x, y, z)
  }

  function AsArray(objs: seq<Obj>): (a: seq<Dict>)
    ensures |a| == |objs|
    ensures forall i :: 0 <= i < |a| ==> a[i].ptr == objs[i].ptr
  {
    seq(|objs|, i requires 0 <= i < |objs| => AsDict(objs[i]))
  }

  /** What the table keeps of an object: a tombstone's name is not stored. */
  function Persist(o: Obj): Obj
  {
    if o.kind.Deleted? then o.(name := None) else o
  }

  /** Dropping what is not stored changes nothing as_array() shows. */
  lemma AsDictPersist(o: Obj)
    ensures AsDict(Persist(o)) == AsDict(o)
  {
  }

  /** as_dict() shows exactly what the table keeps: two objects have the
      same dictionary iff they are stored alike. */
  lemma AsDictExact(a: Obj, b: Obj)
    ensures AsDict(a) == AsDict(b) <==> Persist(a) == Persist(b)
  {
    AsDictPersist(a);
    AsDictPersist(b);
  }

  /** Likewise for as_array(): equal arrays iff equal stored objects. */
  lemma AsArrayExact(xs: seq<Obj>, ys: seq<Obj>)
    ensures AsArray(xs) == AsArray(ys) <==>
      |xs| == |ys| && forall i :: 0 <= i < |xs| ==> Persist(xs[i]) == Persist(ys[i])
  {
    if AsArray(xs) == AsArray(ys) {
      forall i | 0 <= i < |xs| ensures Persist(xs[i]) == Persist(ys[i]) {
        assert AsArray(xs)[i] == AsArray(ys)[i];
        AsDictExact(xs[i], ys[i]);
      }
    }
    if |xs| == |ys| && forall i :: 0 <= i < |xs| ==> Persist(xs[i]) == Persist(ys[i]) {
      forall i | 0 <= i < |xs| ensures AsArray(xs)[i] == AsArray(ys)[i] {
        AsDictExact(xs[i], ys[i]);
      }
    }
  }

  /** Replacing object x by one of the same ptr that is an edge exactly
      when x is, with the same endpoints, leaves every user set as it was. */
  lemma SameKindKeepsRoles(objs: seq<Obj>, oof: seq<set<nat>>, pof: seq<set<nat>>, sof: seq<set<nat>>, x: nat, o': Obj)
    requires Dense(objs) && EndpointsExist(objs) && RolesMatch(objs, oof, pof, sof) && x < |objs|
    requires o'.ptr == x && (o'.kind == objs[x].kind || (o'.kind.Node? && objs[x].kind.Node?))
    ensures var objs' := objs[x := o'];
      && Dense(objs') && EndpointsExist(objs') && RolesMatch(objs', oof, pof, sof)
      && (NoForwardRefs(objs) ==> NoForwardRefs(objs'))
  {
    var objs' := objs[x := o'];
    forall r, y | 0 <= y < |objs| ensures Users(objs', r, y) == Users(objs, r, y) {
      UsersUpdate(objs, x, o'.kind, r, y);
    }
  }

  /** Moving an endpoint keeps ptrs and endpoints in range; the result
      refers only backwards if the arena did and v comes before e, and
      never if v does not. */
  lemma MoveKeepsShape(objs: seq<Obj>, e: nat, r: Role, v: nat)
    requires Dense(objs) && EndpointsExist(objs)
    requires e < |objs| && objs[e].kind.Edge? && v < |objs|
    ensures var objs' := objs[e := objs[e].(kind := WithEndpoint(objs[e].kind, r, v))];
      && Dense(objs') && EndpointsExist(objs')
      && (NoForwardRefs(objs) && v < e ==> NoForwardRefs(objs'))
      && (e <= v ==> !NoForwardRefs(objs'))
  {
    var objs' := objs[e := objs[e].(kind := WithEndpoint(objs[e].kind, r, v))];
    forall i, q | 0 <= i < |objs'| && objs'[i].kind.Edge? ensures Endpoint(objs'[i].kind, q) < |objs'| {
      if i != e {
        assert objs'[i] == objs[i];
      }
    }
    if NoForwardRefs(objs) && v < e {
      forall i, q | 0 <= i < |objs'| && objs'[i].kind.Edge? ensures Endpoint(objs'[i].kind, q) < i {
        if i != e {
          assert objs'[i] == objs[i];
        }
      }
    }
    if e <= v {
      assert Endpoint(objs'[e].kind, r) >= e;
    }
  }
}
