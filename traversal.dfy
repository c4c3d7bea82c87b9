/**
 * Node.__getattr__: predicate-keyed traversal over the object-role set of
 * a node. A word ending in "s" lists the subjects of all edges whose
 * predicate is named by the word without its "s"; any other word names
 * exactly one such subject.
 */
module Traversal {

  import opened Wrappers
  import opened Failures
  import opened Objects

  /** Edge e's predicate endpoint is displayed as word (x.p.name == word). */
  predicate PredicateNamed(objs: seq<Obj>, e: nat, word: string)
  {
    && e < |objs| && objs[e].kind.Edge?
    && objs[e].kind.p < |objs| && DisplayName(objs[objs[e].kind.p]) == word
  }

  /** The edges of `users` whose predicate is named word. */
  function Matching(objs: seq<Obj>, users: set<nat>, word: string): set<nat>
  {
    set e | e in users && PredicateNamed(objs, e, word)
  }

  /** The matching edges below n, in ptr order. */
  function MatchingEdges(objs: seq<Obj>, users: set<nat>, word: string, n: nat): (es: seq<nat>)
    ensures forall i :: 0 <= i < |es| ==> es[i] < n && es[i] in users && PredicateNamed(objs, es[i], word)
    ensures forall i, j :: 0 <= i < j < |es| ==> es[i] < es[j]
  {
    if n == 0 then []
    else MatchingEdges(objs, users, word, n - 1)
         + (if n - 1 in users && PredicateNamed(objs, n - 1, word) then [n - 1] else [])
  }

  /** The matching edges below n, as a set. */
  function MatchingBelow(objs: seq<Obj>, users: set<nat>, word: string, n: nat): set<nat>
  {
    set e | e in users && e < n && PredicateNamed(objs, e, word)
  }

  lemma MatchingBelowStep(objs: seq<Obj>, users: set<nat>, word: string, n: nat)
    requires n > 0
    ensures n - 1 !in MatchingBelow(objs, users, word, n - 1)
    ensures MatchingBelow(objs, users, word, n)
         == MatchingBelow(objs, users, word, n - 1)
            + (if n - 1 in users && PredicateNamed(objs, n - 1, word) then {n - 1} else {})
  {
  }

  /** Every matching edge below n is listed. */
  lemma {:induction false} MatchingEdgesComplete(objs: seq<Obj>, users: set<nat>, word: string, n: nat)
    ensures forall e :: e in MatchingBelow(objs, users, word, n) ==> e in MatchingEdges(objs, users, word, n)
  {
    if n > 0 {
      MatchingEdgesComplete(objs, users, word, n - 1);
      MatchingBelowStep(objs, users, word, n);
    }
  }

  /** The list is as long as the set of matching edges below n. */
  lemma {:induction false} MatchingEdgesCount(objs: seq<Obj>, users: set<nat>, word: string, n: nat)
    ensures |MatchingEdges(objs, users, word, n)| == |MatchingBelow(objs, users, word, n)|
  {
    if n > 0 {
      MatchingEdgesCount(objs, users, word, n - 1);
      MatchingBelowStep(objs, users, word, n);
    }
  }

  /** Over the whole arena, the matching edges are all of Matching. */
  lemma MatchingEdgesAll(objs: seq<Obj>, users: set<nat>, word: string)
    ensures var es := MatchingEdges(objs, users, word, |objs|);
      && (forall e :: e in es <==> e in Matching(objs, users, word))
      && |es| == |Matching(objs, users, word)|
      && (forall i, j :: 0 <= i < j < |es| ==> es[i] != es[j])
  {
    MatchingEdgesComplete(objs, users, word, |objs|);
    MatchingEdgesCount(objs, users, word, |objs|);
    assert MatchingBelow(objs, users, word, |objs|) == Matching(objs, users, word);
  }

  /** The subject endpoint of each listed edge (x.s). */
  function Subjects(objs: seq<Obj>, es: seq<nat>): (ts: seq<nat>)
    requires forall i :: 0 <= i < |es| ==> es[i] < |objs| && objs[es[i]].kind.Edge?
    ensures |ts| == |es|
  {
    seq(|es|, i requires 0 <= i < |es| => objs[es[i]].kind.s)
  }

  /** [x.s for x in users if x.p.name == word], in ptr order. */
  function GetAll(objs: seq<Obj>, users: set<nat>, word: string): (ts: seq<nat>)
    ensures forall t :: t in ts ==>
      exists e :: e in users && PredicateNamed(objs, e, word) && objs[e].kind.s == t
  {
    Subjects(objs, MatchingEdges(objs, users, word, |objs|))
  }

  /** The singular lookup: the unique subject, or a failure when no edge
      or more than one edge matches. */
  function GetOne(objs: seq<Obj>, users: set<nat>, word: string): (r: Result<nat, Error>)
    ensures r.Ok? <==> |GetAll(objs, users, word)| == 1
    ensures r.Ok? ==> GetAll(objs, users, word) == [r.value]
    ensures r.Err? ==> (r.error == NoMatch <==> GetAll(objs, users, word) == [])
    ensures r.Err? ==> r.error == NoMatch || r.error == AmbiguousQuery
  {
    var items := GetAll(objs, users, word);
    if |items| == 0 then Err(NoMatch)
    else if |items| > 1 then Err(AmbiguousQuery)
    else Ok(items[0])
  }

  /** GetAll lists one subject per matching edge and nothing else. */
  lemma GetAllSpec(objs: seq<Obj>, users: set<nat>, word: string)
    ensures |GetAll(objs, users, word)| == |Matching(objs, users, word)|
    ensures forall t :: t in GetAll(objs, users, word) <==>
      exists e :: e in Matching(objs, users, word) && objs[e].kind.s == t
  {
    MatchingEdgesAll(objs, users, word);
    var es := MatchingEdges(objs, users, word, |objs|);
    var ts := GetAll(objs, users, word);
    forall t ensures t in ts <==> exists e :: e in Matching(objs, users, word) && objs[e].kind.s == t {
      if t in ts {
        var i :| 0 <= i < |ts| && ts[i] == t;
        assert es[i] in Matching(objs, users, word);
      }
      if e :| e in Matching(objs, users, word) && objs[e].kind.s == t {
        var i :| 0 <= i < |es| && es[i] == e;
        assert ts[i] == t;
      }
    }
  }

  /** GetOne succeeds exactly when one edge matches, with that edge's
      subject; it fails with NoMatch on none and AmbiguousQuery on several. */
  lemma GetOneSpec(objs: seq<Obj>, users: set<nat>, word: string)
    ensures GetOne(objs, users, word) == Err(NoMatch) <==> Matching(objs, users, word) == {}
    ensures GetOne(objs, users, word) == Err(AmbiguousQuery) <==> |Matching(objs, users, word)| > 1
    ensures GetOne(objs, users, word).Ok? ==>
      exists e :: Matching(objs, users, word) == {e} && GetOne(objs, users, word).value == objs[e].kind.s
  {
    GetAllSpec(objs, users, word);
    var m := Matching(objs, users, word);
    if |m| == 1 {
      var t := GetAll(objs, users, word)[0];
      assert t in GetAll(objs, users, word);
      var e :| e in m && objs[e].kind.s == t;
      assert m == {e} by {
        var rest := m - {e};
        assert m == rest + {e};
        assert |rest| == 0;
        assert rest == {};
      }
    }
  }

  /** What a node attribute lookup yields: one object or a list. */
  datatype Answer = One(ptr: nat) | Many(ptrs: seq<nat>)

  /** Node.__getattr__(word) on object x, with oof the _oof sets. An
      object that is not a node has no such attribute; so has a node asked
      for the empty word (Python's name[-1] fails on it). */
  function Attribute(objs: seq<Obj>, oof: seq<set<nat>>, x: nat, word: string): (r: Result<Answer, Error>)
    requires x < |objs| && |oof| == |objs|
    ensures !objs[x].kind.Node? || word == [] ==> r == Err(NoSuchAttribute)
    ensures r.Ok? ==> (r.value.Many? <==> word[|word| - 1] == 's')
    ensures r.Err? ==> r.error in {NoSuchAttribute, NoMatch, AmbiguousQuery}
  {
    if !objs[x].kind.Node? || word == [] then Err(NoSuchAttribute)
    else if word[|word| - 1] == 's' then Ok(Many(GetAll(objs, oof[x], word[..|word| - 1])))
    else
      var r := GetOne(objs, oof[x], word);
      if r.Ok? then Ok(One(r.value)) else Err(r.error)
  }

  /** With consistent role sets, a lookup on x sees exactly the edges whose
      object endpoint is x and whose predicate is named word. */
  lemma MatchingFromRoles(objs: seq<Obj>, oof: seq<set<nat>>, pof: seq<set<nat>>, sof: seq<set<nat>>,
                          x: nat, word: string)
    requires RolesMatch(objs, oof, pof, sof) && EndpointsExist(objs) && x < |objs|
    ensures Matching(objs, oof[x], word)
         == set e | 0 <= e < |objs| && objs[e].kind.Edge? && objs[e].kind.o == x
                    && PredicateNamed(objs, e, word)
  {
    assert oof[x] == Users(objs, O, x);
    forall e | 0 <= e < |objs| && objs[e].kind.Edge?
      ensures objs[e].kind.p < |objs|
    {
      assert Endpoint(objs[e].kind, P) < |objs|;
    }
  }

  /** A plural word lists the subjects of the edges whose predicate has the
      word's singular as its name; a singular word resolves to one. */
  lemma AttributeSpec(objs: seq<Obj>, oof: seq<set<nat>>, x: nat, word: string)
    requires x < |objs| && |oof| == |objs|
    ensures Attribute(objs, oof, x, word).Ok? ==> objs[x].kind.Node? && word != []
    ensures objs[x].kind.Node? && word != [] && word[|word| - 1] == 's' ==>
      var stem := word[..|word| - 1];
      && Attribute(objs, oof, x, word) == Ok(Many(GetAll(objs, oof[x], stem)))
      && |Attribute(objs, oof, x, word).value.ptrs| == |Matching(objs, oof[x], stem)|
      && forall t :: t in Attribute(objs, oof, x, word).value.ptrs <==>
           exists e :: e in Matching(objs, oof[x], stem) && objs[e].kind.s == t
    ensures objs[x].kind.Node? && word != [] && word[|word| - 1] != 's' ==>
      && (Attribute(objs, oof, x, word) == Err(NoMatch) <==> Matching(objs, oof[x], word) == {})
      && (Attribute(objs, oof, x, word) == Err(AmbiguousQuery) <==> |Matching(objs, oof[x], word)| > 1)
      && forall e :: Matching(objs, oof[x], word) == {e} ==> Attribute(objs, oof, x, word) == Ok(One(objs[e].kind.s))
  {
    if objs[x].kind.Node? && word != [] {
      if word[|word| - 1] == 's' {
        GetAllSpec(objs, oof[x], word[..|word| - 1]);
      } else {
        GetOneSpec(objs, oof[x], word);
        forall e | Matching(objs, oof[x], word) == {e}
          ensures Attribute(objs, oof, x, word) == Ok(One(objs[e].kind.s))
        {
          var e' :| Matching(objs, oof[x], word) == {e'} && GetOne(objs, oof[x], word).value == objs[e'].kind.s;
          assert e' in {e};
        }
      }
    }
  }
}
