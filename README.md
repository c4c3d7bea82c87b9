# amethyst storage engine, modelled in Dafny

amethyst is a small persistent triple store. A graph is an arena of objects:
nodes that carry a value, edges that join an object (o), a predicate (p) and
a subject (s), and tombstones. Every object has a `ptr`, which is its position
in the arena. The graph lives in two files. New records and values are
appended; a setter rewrites one field of a record in place, and `data.dat`
is never rewritten:

- `objects.dat` is a table of 17-byte records: a tag byte and four
  little-endian u32 fields.
- `data.dat` is a heap of CBOR-encoded values. A record's name and data fields
  are byte offsets into it.

In memory, the graph keeps a name index (`obj_dict`, last write wins), a value
cache, and for every object the sets of edges that use it as o, p or s
(`_oof`, `_pof`, `_sof`). Node attribute access follows `_oof`: `person.age`
is the single subject of an edge from `person` whose predicate is named
`age`, and `person.ages` lists all of them.

The project models the packaged engine (`src/amethyst/__init__.py`) and the
earlier variant of it (`src/__init__.py`):

- `wrappers.dfy`: `Option`, `Result`, the error kinds and `Outcome`.
- `bytes.dfy`: bytes and the `<I` u32 codec.
- `values.dfy`: the value domain and the encoded length of each value, which
  fixes every later heap offset. Encoded lengths follow section 3 of RFC 8949.
- `heap.dfy`: `data.dat` as one cell per byte. It covers appending, reading a
  value back, and `_alloc` with its session cache.
- `records.dfy`: the record codec and the 4-byte field rewrite.
- `objects.dfy`: objects, display names, the name index, `Graph.get`, the
  role sets as a function of the arena, and `as_array`.
- `traversal.dfy`: `Node.__getattr__`.
- `persistence.dfy`: how the files describe the arena (`Mirrors`), `Graph._load`
  as a pure replay of the table, and the reload round trip.
- `store.dfy`: the packaged `Graph` as a class whose methods update the files,
  the arena, the index, the cache and the role sets in place. Its invariant is
  that the files mirror the arena.
- `earlystore.dfy`: the earlier `Graph`. It has pointer 0 as the "no value"
  sentinel, no cache, and constructors that write their own records.

## Model

| member | source | states |
|---|---|---|
| Bytes.UnpackPack | src/amethyst/__init__.py:139 | unpacking a `<I` field gives back the u32 that was packed |
| Bytes.PackInjective | src/amethyst/__init__.py:152 | distinct pointers pack to distinct bytes |
| Bytes.UnpackLocal | src/amethyst/__init__.py:70 | a field's value depends only on its own four bytes |
| Heap.Append | src/amethyst/__init__.py:261-263 | `cbor2.dump` in append mode grows the heap by exactly the encoded length of the value, whose head size follows section 3 of RFC 8949 |
| Heap.Deref | src/amethyst/__init__.py:251-255 | reading at an offset succeeds exactly when an encoded value starts there; otherwise it is corruption |
| Heap.DerefAppend | src/amethyst/__init__.py:261-263 | an appended value reads back from the offset it was appended at, and every older offset reads as before |
| Heap.Alloc | src/amethyst/__init__.py:257-266 | `_alloc` never shrinks the heap and leaves the value cached at the pointer it returns; on a cache hit heap and cache are unchanged; on a miss the pointer is the old end of the heap, the cache gains exactly that entry and the heap grows by the value's encoded length |
| Heap.AllocSound | src/amethyst/__init__.py:257-266 | `_alloc` keeps the cache pointing at what it claims, returns a pointer that reads back as the value, never points past the old end, and only appends; on a miss the pointer is the old end and the heap is the old one with the value appended |
| Heap.AllocAgain | src/amethyst/__init__.py:258-259 | allocating an equal value again returns the same pointer and leaves heap and cache unchanged |
| Heap.AllocAsWritten | src/amethyst/__init__.py:257-266 | `_alloc` as written, filing values under their Python-equality key: the key maps to the returned pointer; a hit returns the pointer filed under the key and leaves the heap alone; a miss returns the old end, where the value reads back |
| Heap.AllocAsWrittenLosesBool | src/amethyst/__init__.py:258-264 | with the cache keyed by Python equality, `True` after `1` gets the pointer of `1` and reads back as the int 1 |
| Records.Encode | src/amethyst/__init__.py:76-81 | a record is written as 17 bytes whose first byte is the type code of its kind |
| Records.Decode | src/amethyst/__init__.py:239-246 | a record decodes iff its first byte is one of the three type codes, into the kind that code names; any other byte is corruption |
| Records.DecodeEncode | src/amethyst/__init__.py:68-83 | decoding the 17 bytes written for a record gives the record back |
| Records.RecordAtAppend | src/amethyst/__init__.py:79-83 | appending a record leaves every earlier record in place and puts the new one at the next index |
| Records.Overwrite | src/amethyst/__init__.py:276-279 | a field rewrite keeps the table length, puts the little-endian pointer at byte 17*i+1+4*f and changes no other byte |
| Records.DecodeAfterOverwrite | src/amethyst/__init__.py:276-279 | after a field rewrite every other record decodes as before, and the rewritten one differs only in that field |
| Records.FieldAfterOverwrite | src/amethyst/__init__.py:276-279 | reading the rewritten field gives the new pointer |
| Objects.DisplayName | src/amethyst/__init__.py:20-25 | the name property is the stored name when there is one; otherwise it is the type name, then `_`, then more |
| Objects.DecimalValue | src/amethyst/__init__.py:25 | the synthesised suffix is the base-10 numeral of the ptr: reading its digits back gives the ptr |
| Objects.DecimalInjective | src/amethyst/__init__.py:25 | distinct ptrs print as distinct decimals |
| Objects.UnnamedDistinct | src/amethyst/__init__.py:20-25 | two unnamed objects with different ptrs never share a display name |
| Objects.Triple | src/amethyst/__init__.py:202-203 | `as_triple` is the edge's o, p and s endpoints, in that order |
| Objects.WithEndpoint | src/amethyst/__init__.py:160-187 | a setter changes the endpoint of its own role and no other |
| Objects.UsersAppend | src/amethyst/__init__.py:133-135 | a new edge joins the role set of its endpoint in each role and no other set |
| Objects.UsersUpdate | src/amethyst/__init__.py:162-163 | changing one edge changes only that edge's membership in the role sets |
| Objects.Register | src/amethyst/__init__.py:128-135 | registration adds an empty set for the new object and, for an edge, puts its ptr into the set of its role-r endpoint and no other; no other member changes |
| Objects.RoleMatchesAppend | src/amethyst/__init__.py:128-135 | registering a new object that refers backwards keeps each role set equal to the edges using that object |
| Objects.Move | src/amethyst/__init__.py:160-187 | after a move the edge is in the new endpoint's set and, if that differs, no longer in the old one's; no other member of any set changes, and sets other than the old and new endpoint's stay as they were |
| Objects.RoleMatchesMove | src/amethyst/__init__.py:160-187 | removing the edge from the old endpoint's set and adding it to the new one's keeps the role sets exact; the other roles need no change |
| Objects.NameIndex | src/amethyst/__init__.py:248-249 | every name in the index points into the arena |
| Objects.NameIndexSnoc | src/amethyst/__init__.py:84-85 | indexing one more object overrides its display name only |
| Objects.NameIndexLastWins | src/amethyst/__init__.py:248-249 | a name is indexed iff some object shows it, and it maps to the last such object |
| Objects.UnnamedAllIndexed | src/amethyst/__init__.py:248-249 | when nothing is named, every object is found under its own synthesised name |
| Objects.Get | src/amethyst/__init__.py:268-274 | `get` fails only with a lookup error; for an int it succeeds iff the index is in Python's range, and returns the index, or the index plus the length when it is negative |
| Objects.GetIndex | src/amethyst/__init__.py:269-270 | `get(int)` succeeds iff the index is in Python's range, negative counting from the end, and finds the object with that ptr |
| Objects.GetName | src/amethyst/__init__.py:271-272 | `get(str)` over a rebuilt index succeeds iff some object has that name, and returns the last one |
| Objects.AsDict | src/amethyst/__init__.py:192-200 | `as_dict` keeps the ptr and the type; a node shows its data and stored name, an edge its stored name and the ptrs of o, p and s in the order of `as_triple` (the tombstone and node variants are at :55-59 and :117-123) |
| Objects.AsArray | src/amethyst/__init__.py:297-298 | `as_array` has one dictionary per object, in arena order, each with that object's ptr |
| Objects.AsDictExact | src/amethyst/__init__.py:117-123 | two objects have equal `as_dict` iff they are stored alike, so `as_dict` is a faithful view of a record |
| Objects.AsArrayExact | src/amethyst/__init__.py:297-298 | two arenas have equal `as_array` iff they have the same length and are stored alike object by object |
| Objects.AsDictPersist | src/amethyst/__init__.py:55-59 | what the table drops of a tombstone does not show in `as_dict` |
| Objects.SameKindKeepsRoles | src/amethyst/__init__.py:27-31 | renaming or changing a node's data leaves every role set unchanged |
| Objects.MoveKeepsShape | src/amethyst/__init__.py:142-143 | moving an endpoint keeps the graph backward-referring iff the new endpoint is older than the edge |
| Traversal.MatchingEdges | src/amethyst/__init__.py:108 | lists, in ascending ptr order, only role-set edges whose predicate has the word as name |
| Traversal.MatchingEdgesComplete | src/amethyst/__init__.py:108 | every matching edge is listed |
| Traversal.MatchingEdgesCount | src/amethyst/__init__.py:108 | the list has one entry per matching edge |
| Traversal.MatchingEdgesAll | src/amethyst/__init__.py:108-110 | over the whole arena the list holds exactly the matching edges, each once |
| Traversal.GetAll | src/amethyst/__init__.py:107-108 | every subject in the plural list is the s of a role-set edge whose predicate has the word as name |
| Traversal.GetOne | src/amethyst/__init__.py:109-115 | the singular lookup succeeds iff the plural list has exactly one entry, and returns it; it fails with NoMatch iff the list is empty, otherwise with AmbiguousQuery |
| Traversal.GetAllSpec | src/amethyst/__init__.py:107-108 | the plural lookup has one subject per matching edge, and every subject comes from a matching edge |
| Traversal.GetOneSpec | src/amethyst/__init__.py:109-115 | the singular lookup fails with NoMatch iff no edge matches and with AmbiguousQuery iff several do; otherwise it returns the single edge's subject |
| Traversal.Attribute | src/amethyst/__init__.py:106-115 | a non-node or the empty word has no attribute; a successful answer is a list iff the word ends in `s`; the only failures are no attribute, no match and an ambiguous match |
| Traversal.AttributeSpec | src/amethyst/__init__.py:106-115 | a word ending in `s` answers with the plural list for its stem: one subject per matching edge, each the s of a matching edge; any other word fails with NoMatch iff no edge matches and with AmbiguousQuery iff several do, and when exactly one edge e matches it answers e's subject; only nodes and non-empty words succeed |
| Traversal.MatchingFromRoles | src/amethyst/__init__.py:106-115 | with exact role sets, a lookup sees exactly the edges with this object as o and a predicate of that name |
| Persistence.DerefName | src/amethyst/__init__.py:140-141 | a name reads back as null (no name) or text; anything else is corruption |
| Persistence.MirrorsHeapGrows | src/amethyst/__init__.py:261-263 | appending to the heap keeps every record's description valid |
| Persistence.MirrorsAppend | src/amethyst/__init__.py:75-85 | appending the record of a new object extends the mirror by that object |
| Persistence.MirrorsOverwrite | src/amethyst/__init__.py:276-279 | rewriting one field of record x replaces object x in the mirror and nothing else |
| Persistence.LoadRecord | src/amethyst/__init__.py:239-246 | a record with an unknown type code is corruption; a loaded object has its position as ptr, refers only backwards, and has the kind its type code names |
| Persistence.Replay | src/amethyst/__init__.py:234-249 | a successful replay of n records gives n objects |
| Persistence.Load | src/amethyst/__init__.py:232-249 | a table that does not end at a record boundary is corrupt; a loaded arena has one object per record, is dense and refers only backwards |
| Persistence.LoadRecordStored | src/amethyst/__init__.py:137-144 | loading a record that describes an object succeeds iff its endpoints lie before it, and gives the object back |
| Persistence.LoadRecordWellFormed | src/amethyst/__init__.py:139-144 | a loaded object has its position as ptr, refers only backwards and is described by its record |
| Persistence.ReplaySnoc | src/amethyst/__init__.py:234-249 | a record that loads extends the replay by its object |
| Persistence.ReplayErrPersists | src/amethyst/__init__.py:232-249 | once a record fails to load, every longer replay fails |
| Persistence.ReplayStepOk | src/amethyst/__init__.py:234-249 | one replay step over a mirrored arena succeeds iff the next object refers backwards, and gives it back |
| Persistence.ReplayMirrored | src/amethyst/__init__.py:232-249 | replaying the first n records of a mirrored arena succeeds iff none of them refers forward, and gives them back |
| Persistence.ReplayWellFormed | src/amethyst/__init__.py:232-249 | whatever the replay returns is dense, refers backwards and is mirrored by its records |
| Persistence.LoadRoundTrip | tests/test_read_write.py:19-25 | reloading a mirrored arena succeeds iff no edge refers forward; then `as_array()` and every role set come back unchanged |
| Persistence.ReloadKeepsTriples | tests/test_read_write.py:38-45 | reloading a mirrored arena that refers only backwards gives every edge back as an edge with the same `as_triple()` |
| Persistence.LoadRecordAsWritten | src/amethyst/__init__.py:238-249 | one iteration of `_load` as written: a known tag loads as the corrected replay does; an unknown tag yields the previous object again, or fails on the first record, where `obj` is unbound |
| Persistence.UnknownTagRepeatsObject | src/amethyst/__init__.py:245-249 | as written, an unknown tag appends the previous object again, so ptrs stop matching positions; the replay reports corruption |
| Persistence.PartialRecordAsWritten | src/amethyst/__init__.py:235-244 | a trailing short record as `_load` reads it: a tombstone loads, a node loads iff the 8 bytes `Node.load` unpacks are there, and a loaded record carries the tag it was read with; an edge fails; an unknown tag, whatever the record's length, appends the previous object again, and fails only when there is no previous object |
| Persistence.PartialTombstoneAccepted | src/amethyst/__init__.py:235-240 | as written, a table cut after a tombstone's tag loads; the replay reports corruption |
| Store.Graph.Init | src/amethyst/__init__.py:225-230 | `Graph(path)` holds the files as they are and an empty arena, index and cache |
| Store.Graph.New | src/amethyst/__init__.py:212-217 | `Graph.new` empties both files and gives a consistent empty graph |
| Store.Graph.Open | src/amethyst/__init__.py:219-223 | `Graph.load` succeeds iff the pure replay does; then the graph is consistent, holds the replayed arena and indexes it by name |
| Store.Graph.LoadObjects | src/amethyst/__init__.py:232-249 | the loop succeeds iff the replay does, and leaves the replayed arena with rebuilt index and role sets |
| Store.Graph.LoadNext | src/amethyst/__init__.py:234-249 | one iteration either extends the replayed prefix by one object or proves the load fails |
| Store.Graph.Alloc | src/amethyst/__init__.py:257-266 | `_alloc` follows the allocation function, returns a pointer that reads back as the value, keeps the cache sound, leaves older offsets alone and keeps the store consistent |
| Store.Graph.WriteField | src/amethyst/__init__.py:276-279 | `_write_field` rewrites exactly the chosen field, which then reads back as the pointer |
| Store.Graph.Push | src/amethyst/__init__.py:76-85 | the tail of `append`: the record is appended, the object takes the next position and is found under its display name, and an edge joins its endpoints' role sets; the store stays consistent and no reference goes forward |
| Store.Graph.NewNode | src/amethyst/__init__.py:75-85 | a new node gets the next ptr and empty role sets, is indexed by display name and found by it, and has a record pointing at its name and data; the store stays consistent |
| Store.Graph.NewData | src/amethyst/__init__.py:291-292 | `new_data` adds an unnamed node holding the value, found under its synthesised name, with empty role sets; null and the value go through `_alloc` and its node record points at both; the store stays consistent |
| Store.Graph.NewEdge | src/amethyst/__init__.py:128-154 | a new edge gets the next ptr, joins the role sets of its three endpoints, is indexed and recorded; the store stays consistent and no reference goes forward |
| Store.Graph.SetName | src/amethyst/__init__.py:27-31 | the name setter writes the name, repoints field 0 and keeps the store consistent; the index keeps the old name |
| Store.Graph.SetData | src/amethyst/__init__.py:91-95 | the data setter of a node writes the value and repoints field 1; on a non-node nothing changes |
| Store.Graph.SetEndpoint | src/amethyst/__init__.py:160-187 | the o/p/s setters move the edge between role sets, repoint the field and keep the store consistent; a reload still works if the new endpoint is older than the edge, and fails otherwise |
| Store.AllocKeeps | src/amethyst/__init__.py:257-266 | allocating a value keeps the store consistent |
| Store.AppendKeeps | src/amethyst/__init__.py:84-85 | pushing a recorded, backward-referring object keeps the store consistent and finds it by name |
| Store.RenameKeeps | src/amethyst/__init__.py:27-31 | the name setter's steps keep the store consistent |
| Store.RedataKeeps | src/amethyst/__init__.py:91-95 | the data setter's steps keep the store consistent |
| Store.MoveKeeps | src/amethyst/__init__.py:160-187 | the o/p/s setters' steps keep the store consistent |
| Store.LoadTruncated | src/amethyst/__init__.py:235-238 | a table that ends inside a record does not load |
| Store.LoadStopsAt | src/amethyst/__init__.py:232-249 | a record that fails to load makes the whole load fail |
| Store.LoadStep | src/amethyst/__init__.py:248-249 | one loaded object keeps replay, density, endpoints, role sets and the name index in step |
| Store.LoadDone | src/amethyst/__init__.py:234-237 | reaching the end of the table at a record boundary completes the load, mirrored by the table |
| EarlyStore.Appended | src/__init__.py:225-231 | `_append_data` only appends; None gets pointer 0 and writes nothing; any other value gets the old end of the heap as pointer, grows the heap by its encoded length and reads back from it |
| EarlyStore.DerefData | src/__init__.py:217-223 | pointer 0 reads as None without looking at the heap; any other pointer reads iff a value starts there, and gives that value |
| EarlyStore.AppendedRoundTrip | src/__init__.py:217-231 | a value reads back from the pointer `_append_data` returned iff it is None or offset 0 is already taken; older pointers read as before |
| EarlyStore.NoneNameReadsAsNone | src/__init__.py:175-178 | `Graph.new` over an empty data file writes "none" at offset 0, which reads back as None |
| EarlyStore.Reserved | src/__init__.py:217-219 | the corrected data file always has offset 0 taken and is unchanged when not empty |
| EarlyStore.WriteFieldAsWritten | src/__init__.py:241-245 | `_write_field` as written: the file becomes 1 + 4*offset zero bytes followed by the packed pointer, which unpacks to that pointer |
| EarlyStore.WriteFieldAsWrittenDropsRecords | src/__init__.py:241-245 | `_write_field` as written leaves at most one record, which is not what the field rewrite should give; unless the field is s, the corrected load rejects what is left |
| EarlyStore.NewTableAsWritten | src/__init__.py:175-178 | the objects file after `Graph.new` as written: the old contents stay as they were and one record follows, decoding as a node whose name points at the appended "none" and whose data is None |
| EarlyStore.NewTableAsWrittenMisplaces | src/__init__.py:175-178 | over an objects file holding n > 0 records, `Graph.new` as written writes the "none" record at index n while the node gets ptr 0, and record 0 stays the old first record; a table that long mirrors no one-object graph |
| EarlyStore.Graph.New | src/__init__.py:175-178 | corrected `Graph.new` creates exactly the node "none" with no data at ptr 0, indexed under "none", whose name reads back |
| EarlyStore.Graph.AppendData | src/__init__.py:225-231 | with offset 0 taken, the returned pointer reads back as the value and older pointers are unchanged |
| EarlyStore.Graph.WriteField | src/__init__.py:241-245 | the corrected field rewrite changes exactly the chosen field |
| EarlyStore.Graph.NewNode | src/__init__.py:53-63 | a new node gets the next ptr, a record whose name and data pointers read back, and an index entry; the store stays consistent |
| EarlyStore.Graph.NewEdge | src/__init__.py:106-119 | a new edge joins its endpoints' role sets, gets a record whose name reads back, and is indexed; the store stays consistent |
| EarlyStore.Graph.SetName | src/__init__.py:28-32 | the name setter writes the name, repoints field 0 and keeps the store consistent |
| EarlyStore.Graph.SetData | src/__init__.py:69-73 | the data setter writes the value (None as pointer 0) and repoints field 1; on a non-node nothing changes |
| EarlyStore.Graph.SetEndpoint | src/__init__.py:125-152 | the o/p/s setters move the edge from the old endpoint's role set to the new one's, leave the other roles alone, and repoint the field |
| EarlyStore.EarlyMirrorsHeapGrows | src/__init__.py:225-231 | appending data keeps every record's description valid |
| EarlyStore.EarlyMirrorsAppend | src/__init__.py:57-62 | appending a new object's record extends the mirror by that object |
| EarlyStore.EarlyMirrorsOverwrite | src/__init__.py:241-245 | a field rewrite replaces one object in the mirror and nothing else |
| EarlyStore.AppendedKeeps | src/__init__.py:225-231 | `_append_data` keeps the store consistent, and its pointer reads back |
| EarlyStore.AppendKeeps | src/__init__.py:61-62 | pushing a recorded, backward-referring object keeps the store consistent |
| EarlyStore.NewNodeKeeps | src/__init__.py:53-63 | the steps of `Node.__init__` keep the store consistent |
| EarlyStore.NewEdgeKeeps | src/__init__.py:106-119 | the steps of `Edge.__init__` keep the store consistent |
| EarlyStore.RenameKeeps | src/__init__.py:28-32 | the name setter's steps keep the store consistent |
| EarlyStore.RedataKeeps | src/__init__.py:69-73 | the data setter's steps keep the store consistent |
| EarlyStore.MoveKeeps | src/__init__.py:125-152 | the o/p/s setters' steps keep the store consistent |

The earlier `Node.__getattr__` (src/__init__.py:84-93) is the same code as the
packaged one. `Traversal.Attribute` models both.

## Left out

- Files, paths and I/O are not modelled. The two files are the `table` and
  `heap` fields, and an I/O failure is not modelled.
- CBOR is not encoded byte by byte. A value is one `Head` cell followed by
  `Tail` cells, one per extra encoded byte. So decoding at an offset that
  starts no value is corruption, and the value domain is None, bool, int,
  text and bytes. Floats and composite values (lists, dicts) are not
  modelled.
- Pointers must fit a u32. `NewNode`, `NewEdge`, the setters and the
  constructors require it. On overflow the source fails with `struct.error`
  after part of the write, which is not modelled. The `NewNode` requirement
  bounds the heap after the name is allocated, which is sufficient and a
  little stronger than necessary.
- Persistence.LoadRecord: a node whose stored name is neither null nor text
  is treated as corrupt. The source accepts any value as a node name, but
  names are text in this model.
- Python set iteration order is not modelled. The plural lookup lists
  subjects in ascending edge ptr order; the source lists them in hash-set
  order.
- Traversal.Attribute: the single failure kind `NoSuchAttribute` stands for
  the `AttributeError` Python raises on an object without `__getattr__`, and
  for the `IndexError` on an empty word.
- Deleted objects are never created by the engine's operations.
  `Deleted.append` (src/amethyst/__init__.py:46-53) opens the table with "wb"
  and is marked useless by its authors, so it is not modelled; tombstones
  appear only when loaded.
- `refragmentize`, `print_db`, `json`, `__repr__` and `__hash__` are not
  modelled. The first is unimplemented; the rest produce text or hash
  constants.
- Identity of Python objects is modelled by ptr. Edges hold endpoint ptrs,
  and role sets hold edge ptrs.
- The earlier `Graph._load` (src/__init__.py:192-215) is not modelled: it
  reads zero bytes per step, compares them with the integer 0 and loops
  without end.
- The earlier variant has no `as_array`, and its `Graph.load` is not
  modelled, so `EarlyStore` has no reload round trip. Its invariant instead
  states that every record, read through the pointer-0 shortcut, describes
  its object.
- Store.Graph.SetName: the index keeps the old name, as in the source; the
  model does not re-index on rename.
- Objects.Get: the `IndexError` of an int outside the arena and the
  `KeyError` of an unknown name or another key type are one failure kind,
  `NotFound`. Its contract states the int case; the name case is stated by
  Objects.GetName over a rebuilt index.
- Store.Graph.Push: an edge joins its endpoints' role sets in the same step
  as the append. `Edge.__init__` does this just before `append`, and nothing
  reads the role sets in between.

## Findings

| source | as written | input that shows it | evidently intended | confidence | as-written member | corrected member |
|---|---|---|---|---|---|---|
| src/amethyst/__init__.py:258-264 | the value cache is a dict keyed by the raw value, so `True` finds the entry of `1` (and `False` that of `0`) | `new_data(1)` then `new_data(True)`: the second node's data pointer is that of `1`, and it reloads as the int 1 | a cache keyed by the value with its type, so every pointer reads back as what was written | high, not executed | Heap.AllocAsWrittenLosesBool | Heap.AllocSound |
| src/__init__.py:175-178, 225-231 | offset 0 is the "no value" sentinel, yet the first value appended to an empty data file is written at offset 0 | `Graph.new` on an empty data file: the name "none" lands at offset 0 and reads back as None | reserve offset 0 before any value is written | high, not executed | EarlyStore.NoneNameReadsAsNone | EarlyStore.Graph.New |
| src/__init__.py:241-245 | `_write_field` opens the objects file with "wb", which empties it, and its second seek is absolute | any o, p, s, name or data setter: the file is left with at most one 17-byte record | rewrite four bytes in place at byte 17*ptr + 1 + 4*field | high, not executed | EarlyStore.WriteFieldAsWrittenDropsRecords | EarlyStore.Graph.WriteField |
| src/__init__.py:175-178 | `Graph.new` keeps whatever the objects file holds and appends the "none" record after it, while the node gets ptr 0 | `Graph.new` over a file with one record: record 0 is the old one, and the "none" record is record 1 | start from an empty objects file, as the packaged `Graph.new` does | medium, not executed | EarlyStore.NewTableAsWrittenMisplaces | EarlyStore.Graph.New |
| src/amethyst/__init__.py:245-249 | the `ValueError` for an unknown tag is built but not raised, so the previous object is appended again | a table whose second record has tag 0x07: the arena gets the first object twice, at positions 0 and 1 | fail the load as corrupt | high, not executed | Persistence.UnknownTagRepeatsObject | Persistence.LoadRecord |
| src/amethyst/__init__.py:235-240 | a trailing partial record is read without a length check; a tombstone ignores its payload | a table holding the single byte 0x00 loads as one tombstone | fail the load when the table does not end on a record boundary | medium, not executed | Persistence.PartialTombstoneAccepted | Store.LoadTruncated |
