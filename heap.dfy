/**
 * The value heap (data.dat): an append-only sequence of encoded values,
 * addressed by byte offset. The model keeps one cell per byte: the first
 * byte of an encoding is Head(v) and the rest are Tail, so a pointer is a
 * byte offset and dereferencing decodes exactly the value written there.
 */
module Heap {

  import opened Wrappers
  import opened Failures
  import opened Values

  datatype Cell = Head(v: Value) | Tail

  /** Append the encoding of v (cbor2.dump onto a file opened with "ab"). */
  function Append(heap: seq<Cell>, v: Value): (h: seq<Cell>)
    ensures |h| == |heap| + EncodedLength(v)
  {
    heap + [Head(v)] + seq(EncodedLength(v) - 1, _ => Tail)
  }

  /** Decode the value at byte offset p (cbor2.load after a seek to p). */
  function Deref(heap: seq<Cell>, p: nat): (r: Result<Value, Error>)
    ensures r.Ok? <==> p < |heap| && heap[p].Head?
  {
    if p < |heap| && heap[p].Head? then Ok(heap[p].v) else Err(CorruptStore)
  }

  /** A value reads back from the offset it was appended at, and every older
      offset reads back as before: the heap never changes what it holds. */
  lemma DerefAppend(heap: seq<Cell>, v: Value, p: nat)
    ensures Deref(Append(heap, v), |heap|) == Ok(v)
    ensures p < |heap| ==> Deref(Append(heap, v), p) == Deref(heap, p)
  {
  }

  /** The session cache: a value maps to a pointer it was written at. */
  ghost predicate CacheSound(heap: seq<Cell>, cache: map<Value, nat>)
  {
    forall v :: v in cache ==> Deref(heap, cache[v]) == Ok(v)
  }

  /** What _alloc leaves behind: the new heap and cache and the pointer. */
  datatype Allocation = Allocation(heap: seq<Cell>, cache: map<Value, nat>, ptr: nat)

  /** _alloc with the cache keyed on the value itself. */
  function Alloc(heap: seq<Cell>, cache: map<Value, nat>, v: Value): (a: Allocation)
    ensures |heap| <= |a.heap|
    ensures v in a.cache && a.cache[v] == a.ptr
    ensures v in cache ==> a.heap == heap && a.cache == cache
    ensures v !in cache ==> a.ptr == |heap| && a.cache == cache[v := |heap|] && |a.heap| == |heap| + EncodedLength(v)
  {
    if v in cache then Allocation(heap, cache, cache[v])
    else Allocation(Append(heap, v), cache[v := |heap|], |heap|)
  }

  /** Allocation keeps the cache sound, returns a pointer that reads back as
      the value, and only ever appends to the heap. */
  lemma AllocSound(heap: seq<Cell>, cache: map<Value, nat>, v: Value)
    requires CacheSound(heap, cache)
    ensures var a := Alloc(heap, cache, v);
      && CacheSound(a.heap, a.cache)
      && Deref(a.heap, a.ptr) == Ok(v)
      && a.ptr <= |heap|
      && (v !in cache ==> a.ptr == |heap| && a.heap == Append(heap, v))
      && |heap| <= |a.heap| && a.heap[..|heap|] == heap
      && (forall p: nat :: p < |heap| ==> Deref(a.heap, p) == Deref(heap, p))
  {
    var a := Alloc(heap, cache, v);
    if v !in cache {
      forall p: nat | p < |heap| ensures Deref(a.heap, p) == Deref(heap, p) {
        DerefAppend(heap, v, p);
      }
      forall w | w in a.cache ensures Deref(a.heap, a.cache[w]) == Ok(w) {
        if w == v {
          DerefAppend(heap, v, 0);
        } else {
          DerefAppend(heap, v, cache[w]);
        }
      }
    }
  }

  /** An equal value allocated again gets the same pointer and the heap does
      not grow. */
  lemma AllocAgain(heap: seq<Cell>, cache: map<Value, nat>, v: Value)
    ensures var a := Alloc(heap, cache, v);
      var b := Alloc(a.heap, a.cache, v);
      b.ptr == a.ptr && b.heap == a.heap && b.cache == a.cache
  {
  }

  // ---- The cache as src/amethyst/__init__.py writes it ----

  /** A Python dict compares keys with ==, under which True == 1 and
      False == 0: the key a value is actually filed under. */
  function PyKey(v: Value): Value
  {
    match v
    case Bool(b) => Int(if b then 1 else 0)
    case _ => v
  }

  /** _alloc as written: `data in self.data_cache` with Python equality. */
  function AllocAsWritten(heap: seq<Cell>, cache: map<Value, nat>, v: Value): (a: Allocation)
    ensures |heap| <= |a.heap|
    ensures PyKey(v) in a.cache && a.cache[PyKey(v)] == a.ptr
    ensures PyKey(v) in cache ==> a.heap == heap && a.ptr == cache[PyKey(v)]
    ensures PyKey(v) !in cache ==> a.ptr == |heap| && Deref(a.heap, a.ptr) == Ok(v)
  {
    if PyKey(v) in cache then Allocation(heap, cache, cache[PyKey(v)])
    else Allocation(Append(heap, v), cache[PyKey(v) := |heap|], |heap|)
  }

  /** Allocating 1 and then True hands True the pointer of 1, so the heap
      gives back an int where a bool was stored. */
  lemma AllocAsWrittenLosesBool()
    ensures var a := AllocAsWritten([], map[], Int(1));
      var b := AllocAsWritten(a.heap, a.cache, Bool(true));
      && b.ptr == a.ptr
      && Deref(b.heap, b.ptr) == Ok(Int(1))
      && Deref(b.heap, b.ptr) != Ok(Bool(true))
  {
  }
}
