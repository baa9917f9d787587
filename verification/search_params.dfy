/**
 * The list of name/value pairs behind a `URLSearchParams` object (section 6.2
 * of the WHATWG URL Standard) and the four operations the source uses on it:
 * `get`, `set`, `delete` and `sort`.
 */
module SearchParams {
  import opened Options
  import CodeUnits

  type Pair = (string, string)

  /** The object's list, in order; names may repeat. */
  type Params = seq<Pair>

  /** `has(name)`: some pair carries the name. */
  predicate Has(ps: Params, name: string) {
    exists i :: 0 <= i < |ps| && ps[i].0 == name
  }

  /** Index i holds the first pair named `name`. */
  predicate FirstAt(ps: Params, name: string, i: int) {
    && 0 <= i < |ps|
    && ps[i].0 == name
    && forall j :: 0 <= j < i ==> ps[j].0 != name
  }

  /** The pairs named `name`, in list order. */
  function WithName(ps: Params, name: string): Params {
    if |ps| == 0 then []
    else (if ps[0].0 == name then [ps[0]] else []) + WithName(ps[1..], name)
  }

  /** No name occurs twice. */
  predicate DistinctNames(ps: Params) {
    forall i, j :: 0 <= i < j < |ps| ==> ps[i].0 != ps[j].0
  }

  lemma HasTail(ps: Params, name: string)
    requires |ps| > 0
    ensures Has(ps, name) <==> ps[0].0 == name || Has(ps[1..], name)
  {
    if Has(ps[1..], name) {
      var i :| 0 <= i < |ps[1..]| && ps[1..][i].0 == name;
      assert ps[i + 1].0 == name;
    }
    if Has(ps, name) && ps[0].0 != name {
      var i :| 0 <= i < |ps| && ps[i].0 == name;
      assert ps[1..][i - 1].0 == name;
    }
  }

  lemma {:induction false} WithNameEmpty(ps: Params, name: string)
    ensures WithName(ps, name) == [] <==> !Has(ps, name)
  {
    if |ps| > 0 {
      WithNameEmpty(ps[1..], name);
      HasTail(ps, name);
    }
  }

  lemma WithNameHead(ps: Params)
    requires |ps| > 0
    ensures WithName(ps, ps[0].0) != []
  {
  }

  lemma {:induction false} WithNameAppend(a: Params, b: Params, name: string)
    ensures WithName(a + b, name) == WithName(a, name) + WithName(b, name)
  {
    if |a| == 0 {
      assert a + b == b;
    } else {
      var h := if a[0].0 == name then [a[0]] else [];
      assert (a + b)[1..] == a[1..] + b;
      assert WithName(a + b, name) == h + WithName(a[1..] + b, name);
      WithNameAppend(a[1..], b, name);
      assert h + (WithName(a[1..], name) + WithName(b, name)) == (h + WithName(a[1..], name)) + WithName(b, name);
    }
  }

  /** The pairs named `name` are exactly the list's pairs that carry that name, with their multiplicities. */
  lemma {:induction false} WithNameMultiset(ps: Params, name: string)
    ensures forall x :: multiset(WithName(ps, name))[x] == if x.0 == name then multiset(ps)[x] else 0
  {
    if |ps| > 0 {
      WithNameMultiset(ps[1..], name);
      assert ps == [ps[0]] + ps[1..];
    }
  }

  /** `get(name)`: the value of the first pair named `name`, or null (None) when there is none. */
  function Get(ps: Params, name: string): (r: Option<string>)
    ensures r.None? <==> !Has(ps, name)
    ensures r.Some? ==> exists i :: FirstAt(ps, name, i) && ps[i].1 == r.value
  {
    if |ps| == 0 then None
    else if ps[0].0 == name then Some(ps[0].1)
    else
      var r := Get(ps[1..], name);
      assert r.Some? ==> exists i :: FirstAt(ps, name, i) && ps[i].1 == r.value by {
        if r.Some? {
          var i :| FirstAt(ps[1..], name, i) && ps[1..][i].1 == r.value;
          assert FirstAt(ps, name, i + 1);
        }
      }
      HasTail(ps, name);
      r
  }

  /** `delete(name)`: removes every pair named `name` and keeps the others in order. */
  function Delete(ps: Params, name: string): (r: Params)
    ensures !Has(r, name)
    ensures forall n :: n != name ==> WithName(r, n) == WithName(ps, n)
    ensures multiset(r) + multiset(WithName(ps, name)) == multiset(ps)
  {
    if |ps| == 0 then []
    else
      var rest := Delete(ps[1..], name);
      if ps[0].0 == name then
        DeleteDrop(ps, name, rest);
        rest
      else
        DeleteKeep(ps, name, rest);
        [ps[0]] + rest
  }

  lemma WithNameCons(h: Pair, rest: Params, n: string)
    ensures WithName([h] + rest, n) == (if h.0 == n then [h] else []) + WithName(rest, n)
  {
    assert ([h] + rest)[1..] == rest;
  }

  lemma HasCons(h: Pair, rest: Params, n: string)
    ensures Has([h] + rest, n) <==> h.0 == n || Has(rest, n)
  {
    HasTail([h] + rest, n);
    assert ([h] + rest)[1..] == rest;
  }

  /** Deletion step for a head that carries the deleted name. */
  lemma DeleteDrop(ps: Params, name: string, rest: Params)
    requires |ps| > 0 && ps[0].0 == name
    requires !Has(rest, name)
    requires forall n :: n != name ==> WithName(rest, n) == WithName(ps[1..], n)
    requires multiset(rest) + multiset(WithName(ps[1..], name)) == multiset(ps[1..])
    ensures forall n :: n != name ==> WithName(rest, n) == WithName(ps, n)
    ensures multiset(rest) + multiset(WithName(ps, name)) == multiset(ps)
  {
    var h, t := ps[0], ps[1..];
    assert ps == [h] + t;
    forall n | n != name
      ensures WithName(rest, n) == WithName(ps, n)
    {
      WithNameCons(h, t, n);
    }
    WithNameCons(h, t, name);
    assert multiset(WithName(ps, name)) == multiset{h} + multiset(WithName(t, name));
  }

  /** Deletion step for a head that carries another name. */
  lemma DeleteKeep(ps: Params, name: string, rest: Params)
    requires |ps| > 0 && ps[0].0 != name
    requires !Has(rest, name)
    requires forall n :: n != name ==> WithName(rest, n) == WithName(ps[1..], n)
    requires multiset(rest) + multiset(WithName(ps[1..], name)) == multiset(ps[1..])
    ensures !Has([ps[0]] + rest, name)
    ensures forall n :: n != name ==> WithName([ps[0]] + rest, n) == WithName(ps, n)
    ensures multiset([ps[0]] + rest) + multiset(WithName(ps, name)) == multiset(ps)
  {
    var h, t := ps[0], ps[1..];
    assert ps == [h] + t;
    HasCons(h, rest, name);
    forall n | n != name
      ensures WithName([h] + rest, n) == WithName(ps, n)
    {
      WithNameCons(h, rest, n);
      WithNameCons(h, t, n);
    }
    WithNameCons(h, t, name);
  }

  /** Replaces the first pair named `name` by (name, value) and deletes the later ones. */
  function SetFirst(ps: Params, name: string, value: string): Params
    requires Has(ps, name)
  {
    if ps[0].0 == name then [(name, value)] + Delete(ps[1..], name)
    else
      HasTail(ps, name);
      [ps[0]] + SetFirst(ps[1..], name, value)
  }

  /** What replacing the first pair does to each name, and to the first position. */
  lemma {:induction false} SetFirstFacts(ps: Params, name: string, value: string)
    requires Has(ps, name)
    ensures Has(SetFirst(ps, name, value), name)
    ensures WithName(SetFirst(ps, name, value), name) == [(name, value)]
    ensures forall n :: n != name ==> WithName(SetFirst(ps, name, value), n) == WithName(ps, n)
    ensures forall i :: FirstAt(ps, name, i) ==> FirstAt(SetFirst(ps, name, value), name, i)
    ensures Delete(SetFirst(ps, name, value), name) == Delete(ps, name)
  {
    var r := SetFirst(ps, name, value);
    if ps[0].0 == name {
      var rest := Delete(ps[1..], name);
      WithNameEmpty(rest, name);
      DeleteNothing(rest, name);
      SetFirstHead(ps, name, value);
    } else {
      HasTail(ps, name);
      var rest := SetFirst(ps[1..], name, value);
      SetFirstFacts(ps[1..], name, value);
      SetFirstCons(ps, name, value, rest);
      WithNameEmpty(r, name);
    }
  }

  lemma SetFirstHead(ps: Params, name: string, value: string)
    requires |ps| > 0 && ps[0].0 == name
    ensures forall i :: FirstAt(ps, name, i) ==> i == 0
    ensures FirstAt([(name, value)] + Delete(ps[1..], name), name, 0)
    ensures Has([(name, value)] + Delete(ps[1..], name), name)
  {
    assert ([(name, value)] + Delete(ps[1..], name))[0].0 == name;
  }

  /** The step case of `SetFirst`: the head is kept and the tail was already handled. */
  lemma SetFirstCons(ps: Params, name: string, value: string, rest: Params)
    requires |ps| > 0 && ps[0].0 != name
    requires WithName(rest, name) == [(name, value)]
    requires forall n :: n != name ==> WithName(rest, n) == WithName(ps[1..], n)
    requires forall i :: FirstAt(ps[1..], name, i) ==> FirstAt(rest, name, i)
    requires Delete(rest, name) == Delete(ps[1..], name)
    ensures WithName([ps[0]] + rest, name) == [(name, value)]
    ensures forall n :: n != name ==> WithName([ps[0]] + rest, n) == WithName(ps, n)
    ensures forall i :: FirstAt(ps, name, i) ==> FirstAt([ps[0]] + rest, name, i)
    ensures Delete([ps[0]] + rest, name) == Delete(ps, name)
  {
    var r := [ps[0]] + rest;
    assert r[0] == ps[0] && r[1..] == rest;
    assert Delete(r, name) == [ps[0]] + Delete(rest, name);
    assert Delete(ps, name) == [ps[0]] + Delete(ps[1..], name);
    forall i | FirstAt(ps, name, i)
      ensures FirstAt(r, name, i)
    {
      assert FirstAt(ps[1..], name, i - 1);
    }
  }

  /**
   * `set(name, value)`: when a pair named `name` exists, the first one takes
   * the value and the others are removed; otherwise the pair is appended.
   */
  function Set(ps: Params, name: string, value: string): (r: Params)
    ensures Get(r, name) == Some(value)
    ensures WithName(r, name) == [(name, value)]
    ensures forall n :: n != name ==> WithName(r, n) == WithName(ps, n)
    ensures Delete(r, name) == Delete(ps, name)
    ensures forall i :: FirstAt(ps, name, i) ==> FirstAt(r, name, i)
    ensures !Has(ps, name) ==> r == ps + [(name, value)]
  {
    if Has(ps, name) then
      var r := SetFirst(ps, name, value);
      SetFirstFacts(ps, name, value);
      WithNameEmpty(r, name);
      GetFirstOfWithName(r, name);
      r
    else
      var r := ps + [(name, value)];
      WithNameAppend(ps, [(name, value)], name);
      WithNameEmpty(ps, name);
      forall n | n != name
        ensures WithName(r, n) == WithName(ps, n)
      {
        WithNameAppend(ps, [(name, value)], n);
      }
      DeleteAppend(ps, (name, value), name);
      assert r[|ps|].0 == name;
      GetFirstOfWithName(r, name);
      r
  }

  /** The first pair of the name's subsequence carries `get`'s value. */
  lemma {:induction false} GetFirstOfWithName(ps: Params, name: string)
    requires Has(ps, name)
    ensures WithName(ps, name) != [] && Get(ps, name) == Some(WithName(ps, name)[0].1)
  {
    WithNameEmpty(ps, name);
    if ps[0].0 != name {
      HasTail(ps, name);
      GetFirstOfWithName(ps[1..], name);
    }
  }

  lemma {:induction false} DeleteAppend(ps: Params, p: Pair, name: string)
    requires p.0 == name
    ensures Delete(ps + [p], name) == Delete(ps, name)
  {
    if |ps| > 0 {
      assert (ps + [p])[1..] == ps[1..] + [p];
      DeleteAppend(ps[1..], p, name);
    }
  }

  lemma SetFirstFixedHead(ps: Params, name: string, value: string)
    requires |ps| > 0 && ps[0].0 == name
    requires WithName(ps, name) == [(name, value)]
    ensures SetFirst(ps, name, value) == ps
  {
    var tail := ps[1..];
    assert WithName(ps, name) == [ps[0]] + WithName(tail, name);
    assert ps[0] == (name, value);
    assert WithName(tail, name) == [];
    WithNameEmpty(tail, name);
    DeleteNothing(tail, name);
    assert SetFirst(ps, name, value) == [(name, value)] + Delete(tail, name);
    assert ps == [ps[0]] + tail;
  }

  /** Setting the only pair of a name to the value it already has changes nothing. */
  lemma {:induction false} SetFirstFixed(ps: Params, name: string, value: string)
    requires Has(ps, name)
    requires WithName(ps, name) == [(name, value)]
    ensures SetFirst(ps, name, value) == ps
  {
    if ps[0].0 == name {
      SetFirstFixedHead(ps, name, value);
    } else {
      var tail := ps[1..];
      HasTail(ps, name);
      assert WithName(tail, name) == WithName(ps, name);
      SetFirstFixed(tail, name, value);
      assert SetFirst(ps, name, value) == [ps[0]] + SetFirst(tail, name, value);
      assert ps == [ps[0]] + tail;
    }
  }

  /** Setting twice to the same value is setting once. */
  lemma SetIdempotent(ps: Params, name: string, value: string)
    ensures Set(Set(ps, name, value), name, value) == Set(ps, name, value)
  {
    var once := Set(ps, name, value);
    WithNameEmpty(once, name);
    SetFirstFixed(once, name, value);
  }

  /** Deleting a name that is absent changes nothing. */
  lemma {:induction false} DeleteNothing(ps: Params, name: string)
    requires !Has(ps, name)
    ensures Delete(ps, name) == ps
  {
    if |ps| > 0 {
      HasTail(ps, name);
      DeleteNothing(ps[1..], name);
    }
  }

  /** After `delete`, `get` finds nothing; deleting again changes nothing. */
  lemma DeleteThenGet(ps: Params, name: string)
    ensures Get(Delete(ps, name), name) == None
    ensures Delete(Delete(ps, name), name) == Delete(ps, name)
  {
    DeleteNothing(Delete(ps, name), name);
  }

  /** `delete` on a single pair drops it exactly when it carries the name. */
  lemma DeleteSingle(p: Pair, name: string)
    ensures Delete([p], name) == if p.0 == name then [] else [p]
  {
    assert [p][1..] == [];
  }

  /**
   * `delete` works pair by pair: deleting from a concatenation is deleting
   * from each part. With `DeleteSingle` this makes `delete` the filter that
   * keeps the other pairs in their original order.
   */
  lemma {:induction false} DeleteConcat(a: Params, b: Params, name: string)
    ensures Delete(a + b, name) == Delete(a, name) + Delete(b, name)
  {
    if |a| == 0 {
      assert a + b == b;
    } else {
      assert (a + b)[0] == a[0];
      assert (a + b)[1..] == a[1..] + b;
      DeleteConcat(a[1..], b, name);
    }
  }

  // ---------------------------------------------------------------------------
  // sort()

  /** Ordered by name: no pair's name is code-unit less than an earlier pair's name. */
  predicate Sorted(ps: Params) {
    forall i, j :: 0 <= i < j < |ps| ==> !CodeUnits.Less(ps[j].0, ps[i].0)
  }

  /** No pair's name is code-unit less than `name`. */
  predicate NoneBelow(ps: Params, name: string) {
    forall j :: 0 <= j < |ps| ==> !CodeUnits.Less(ps[j].0, name)
  }

  lemma ConsSorted(h: Pair, ps: Params)
    requires Sorted(ps) && NoneBelow(ps, h.0)
    ensures Sorted([h] + ps)
  {
    var r := [h] + ps;
    forall i, j | 0 <= i < j < |r|
      ensures !CodeUnits.Less(r[j].0, r[i].0)
    {
      assert r[j] == ps[j - 1];
      if i > 0 {
        assert r[i] == ps[i - 1];
      }
    }
  }

  lemma SortedHeadBelowAll(ps: Params)
    requires Sorted(ps) && |ps| > 0
    ensures NoneBelow(ps[1..], ps[0].0)
  {
    forall j | 0 <= j < |ps[1..]|
      ensures !CodeUnits.Less(ps[1..][j].0, ps[0].0)
    {
      assert ps[1..][j] == ps[j + 1];
    }
  }

  lemma NoneBelowChain(ps: Params, a: string, b: string)
    requires NoneBelow(ps, b) && !CodeUnits.Less(b, a)
    ensures NoneBelow(ps, a)
  {
    forall j | 0 <= j < |ps|
      ensures !CodeUnits.Less(ps[j].0, a)
    {
      CodeUnits.NotLessTransitive(a, b, ps[j].0);
    }
  }

  /** In a sorted list whose head is not below `name`, no pair is. */
  lemma SortedNoneBelowHead(ps: Params, name: string)
    requires Sorted(ps)
    requires |ps| == 0 || !CodeUnits.Less(ps[0].0, name)
    ensures NoneBelow(ps, name)
  {
    if |ps| > 0 {
      SortedHeadBelowAll(ps);
      NoneBelowChain(ps[1..], name, ps[0].0);
      assert ps == [ps[0]] + ps[1..];
    }
  }

  /** Inserts p into a sorted list before the first pair whose name is not below p's. */
  function Insert(p: Pair, ps: Params): (r: Params)
    requires Sorted(ps)
    ensures Sorted(r)
    ensures multiset(r) == multiset(ps) + multiset{p}
    ensures forall n :: WithName(r, n) == if p.0 == n then [p] + WithName(ps, n) else WithName(ps, n)
    ensures forall m :: NoneBelow(ps, m) && !CodeUnits.Less(p.0, m) ==> NoneBelow(r, m)
  {
    if |ps| == 0 || !CodeUnits.Less(ps[0].0, p.0) then
      InsertFront(p, ps);
      [p] + ps
    else
      SortedTail(ps);
      var rest := Insert(p, ps[1..]);
      InsertBehind(p, ps, rest);
      [ps[0]] + rest
  }

  /** Insertion step when p goes in front. */
  lemma InsertFront(p: Pair, ps: Params)
    requires Sorted(ps)
    requires |ps| == 0 || !CodeUnits.Less(ps[0].0, p.0)
    ensures Sorted([p] + ps)
    ensures forall n :: WithName([p] + ps, n) == if p.0 == n then [p] + WithName(ps, n) else WithName(ps, n)
    ensures forall m :: NoneBelow(ps, m) && !CodeUnits.Less(p.0, m) ==> NoneBelow([p] + ps, m)
  {
    SortedNoneBelowHead(ps, p.0);
    ConsSorted(p, ps);
    forall n
      ensures WithName([p] + ps, n) == if p.0 == n then [p] + WithName(ps, n) else WithName(ps, n)
    {
      WithNameCons(p, ps, n);
    }
    forall m | NoneBelow(ps, m) && !CodeUnits.Less(p.0, m)
      ensures NoneBelow([p] + ps, m)
    {
      NoneBelowCons(p, ps, m);
    }
  }

  lemma NoneBelowCons(h: Pair, ps: Params, m: string)
    requires NoneBelow(ps, m) && !CodeUnits.Less(h.0, m)
    ensures NoneBelow([h] + ps, m)
  {
    forall j | 0 <= j < |[h] + ps|
      ensures !CodeUnits.Less(([h] + ps)[j].0, m)
    {
      if j > 0 {
        assert ([h] + ps)[j] == ps[j - 1];
      }
    }
  }

  /** Insertion step when p goes behind the head. */
  lemma InsertBehind(p: Pair, ps: Params, rest: Params)
    requires Sorted(ps) && |ps| > 0 && CodeUnits.Less(ps[0].0, p.0)
    requires Sorted(rest)
    requires multiset(rest) == multiset(ps[1..]) + multiset{p}
    requires forall n :: WithName(rest, n) == if p.0 == n then [p] + WithName(ps[1..], n) else WithName(ps[1..], n)
    requires forall m :: NoneBelow(ps[1..], m) && !CodeUnits.Less(p.0, m) ==> NoneBelow(rest, m)
    ensures Sorted([ps[0]] + rest)
    ensures multiset([ps[0]] + rest) == multiset(ps) + multiset{p}
    ensures forall n :: WithName([ps[0]] + rest, n) == if p.0 == n then [p] + WithName(ps, n) else WithName(ps, n)
    ensures forall m :: NoneBelow(ps, m) && !CodeUnits.Less(p.0, m) ==> NoneBelow([ps[0]] + rest, m)
  {
    assert ps == [ps[0]] + ps[1..];
    InsertBehindSorted(p, ps, rest);
    InsertBehindWithName(p, ps, rest);
    InsertBehindNoneBelow(p, ps, rest);
  }

  lemma InsertBehindSorted(p: Pair, ps: Params, rest: Params)
    requires Sorted(ps) && |ps| > 0 && CodeUnits.Less(ps[0].0, p.0)
    requires Sorted(rest)
    requires forall m :: NoneBelow(ps[1..], m) && !CodeUnits.Less(p.0, m) ==> NoneBelow(rest, m)
    ensures Sorted([ps[0]] + rest)
  {
    SortedHeadBelowAll(ps);
    CodeUnits.LessAsymmetric(ps[0].0, p.0);
    ConsSorted(ps[0], rest);
  }

  lemma InsertBehindWithName(p: Pair, ps: Params, rest: Params)
    requires |ps| > 0 && CodeUnits.Less(ps[0].0, p.0)
    requires forall n :: WithName(rest, n) == if p.0 == n then [p] + WithName(ps[1..], n) else WithName(ps[1..], n)
    ensures forall n :: WithName([ps[0]] + rest, n) == if p.0 == n then [p] + WithName(ps, n) else WithName(ps, n)
  {
    CodeUnits.LessIrreflexive(p.0);
    var h, t := ps[0], ps[1..];
    assert ps == [h] + t;
    forall n
      ensures WithName([h] + rest, n) == if p.0 == n then [p] + WithName(ps, n) else WithName(ps, n)
    {
      WithNameCons(h, rest, n);
      WithNameCons(h, t, n);
      if p.0 == n {
        assert h.0 != n;
        assert WithName(ps, n) == WithName(t, n);
        assert WithName([h] + rest, n) == WithName(rest, n);
      }
    }
  }

  lemma InsertBehindNoneBelow(p: Pair, ps: Params, rest: Params)
    requires |ps| > 0
    requires forall m :: NoneBelow(ps[1..], m) && !CodeUnits.Less(p.0, m) ==> NoneBelow(rest, m)
    ensures forall m :: NoneBelow(ps, m) && !CodeUnits.Less(p.0, m) ==> NoneBelow([ps[0]] + rest, m)
  {
    forall m | NoneBelow(ps, m) && !CodeUnits.Less(p.0, m)
      ensures NoneBelow([ps[0]] + rest, m)
    {
      NoneBelowTail(ps, m);
      NoneBelowCons(ps[0], rest, m);
    }
  }

  lemma NoneBelowTail(ps: Params, m: string)
    requires |ps| > 0 && NoneBelow(ps, m)
    ensures NoneBelow(ps[1..], m) && !CodeUnits.Less(ps[0].0, m)
  {
    forall j | 0 <= j < |ps[1..]|
      ensures !CodeUnits.Less(ps[1..][j].0, m)
    {
      assert ps[1..][j] == ps[j + 1];
    }
  }

  /**
   * `sort()`: a stable sort by name under code-unit order. The result is
   * ordered by name, is a permutation of the input, and keeps the relative
   * order of the pairs that share a name.
   */
  function Sort(ps: Params): (r: Params)
    ensures Sorted(r)
    ensures multiset(r) == multiset(ps)
    ensures forall n :: WithName(r, n) == WithName(ps, n)
  {
    if |ps| == 0 then []
    else
      assert ps == [ps[0]] + ps[1..];
      Insert(ps[0], Sort(ps[1..]))
  }

  /** Sorting a list already ordered by name returns it unchanged. */
  lemma {:induction false} SortIdempotent(ps: Params)
    requires Sorted(ps)
    ensures Sort(ps) == ps
  {
    if |ps| > 0 {
      assert Sorted(ps[1..]) by {
        forall i, j | 0 <= i < j < |ps[1..]|
          ensures !CodeUnits.Less(ps[1..][j].0, ps[1..][i].0)
        {
          assert ps[1..][j] == ps[j + 1] && ps[1..][i] == ps[i + 1];
        }
      }
      SortIdempotent(ps[1..]);
      if |ps| > 1 {
        assert !CodeUnits.Less(ps[1..][0].0, ps[0].0) by {
          assert ps[1..][0] == ps[1];
        }
      }
      assert [ps[0]] + ps[1..] == ps;
    }
  }

  /** Two lists ordered by name with the same pairs under every name are equal. */
  lemma {:induction false} SortedUnique(a: Params, b: Params)
    requires Sorted(a) && Sorted(b)
    requires forall n :: WithName(a, n) == WithName(b, n)
    ensures a == b
    decreases |a| + |b|
  {
    if |a| == 0 || |b| == 0 {
      if |a| + |b| > 0 {
        var c := if |a| > 0 then a else b;
        WithNameHead(c);
        assert false;
      }
    } else {
      SameHead(a, b);
      SameTailFilters(a, b);
      SortedTail(a);
      SortedTail(b);
      SortedUnique(a[1..], b[1..]);
      assert a == [a[0]] + a[1..] && b == [b[0]] + b[1..];
    }
  }

  /** Sorted lists with the same pairs under every name start with the same pair. */
  lemma SameHead(a: Params, b: Params)
    requires Sorted(a) && Sorted(b) && |a| > 0 && |b| > 0
    requires forall n :: WithName(a, n) == WithName(b, n)
    ensures a[0] == b[0]
  {
    var na, nb := a[0].0, b[0].0;
    // Each head's name also occurs in the other list, so neither head is below the other.
    assert Has(b, na) by {
      assert WithName(b, na) == WithName(a, na) != [];
      WithNameEmpty(b, na);
    }
    assert Has(a, nb) by {
      assert WithName(a, nb) == WithName(b, nb) != [];
      WithNameEmpty(a, nb);
    }
    var i :| 0 <= i < |b| && b[i].0 == na;
    var j :| 0 <= j < |a| && a[j].0 == nb;
    assert !CodeUnits.Less(na, nb) by {
      if i > 0 {
        assert !CodeUnits.Less(b[i].0, b[0].0);
      } else {
        CodeUnits.LessIrreflexive(na);
      }
    }
    assert !CodeUnits.Less(nb, na) by {
      if j > 0 {
        assert !CodeUnits.Less(a[j].0, a[0].0);
      } else {
        CodeUnits.LessIrreflexive(nb);
      }
    }
    CodeUnits.NotLessAntisymmetric(na, nb);
    assert a[0] == WithName(a, na)[0] == WithName(b, na)[0] == b[0];
  }

  /** Removing the same head from both lists keeps their per-name subsequences equal. */
  lemma SameTailFilters(a: Params, b: Params)
    requires |a| > 0 && |b| > 0 && a[0] == b[0]
    requires forall n :: WithName(a, n) == WithName(b, n)
    ensures forall n :: WithName(a[1..], n) == WithName(b[1..], n)
  {
    forall n
      ensures WithName(a[1..], n) == WithName(b[1..], n)
    {
      var pre := if a[0].0 == n then [a[0]] else [];
      assert WithName(a, n) == pre + WithName(a[1..], n);
      assert WithName(b, n) == pre + WithName(b[1..], n);
      assert WithName(a[1..], n) == WithName(a, n)[|pre|..];
      assert WithName(b[1..], n) == WithName(b, n)[|pre|..];
    }
  }

  lemma SortedTail(ps: Params)
    requires Sorted(ps) && |ps| > 0
    ensures Sorted(ps[1..])
  {
    forall i, j | 0 <= i < j < |ps[1..]|
      ensures !CodeUnits.Less(ps[1..][j].0, ps[1..][i].0)
    {
      assert ps[1..][j] == ps[j + 1] && ps[1..][i] == ps[i + 1];
    }
  }

  /**
   * Stability has a visible consequence: pairs that share a name are never
   * reordered, so `a=1&a=2` and `a=2&a=1` stay different after sorting.
   */
  lemma SortKeepsOrderWithinName()
    ensures Sort([("a", "1"), ("a", "2")]) == [("a", "1"), ("a", "2")]
    ensures Sort([("a", "2"), ("a", "1")]) == [("a", "2"), ("a", "1")]
  {
    CodeUnits.LessIrreflexive("a");
    SortIdempotent([("a", "1"), ("a", "2")]);
    SortIdempotent([("a", "2"), ("a", "1")]);
  }

  /**
   * Two lists sort to the same list exactly when they hold the same pairs
   * under every name, in the same order per name: the interleaving of
   * different names is all that sorting forgets.
   */
  lemma SortCanonical(p: Params, q: Params)
    ensures Sort(p) == Sort(q) <==> forall n :: WithName(p, n) == WithName(q, n)
  {
    ArrangementsEqual(p, q, Sort(p), Sort(q));
  }

  /** Ordered arrangements of two lists are equal exactly when the lists agree name by name. */
  lemma ArrangementsEqual(p: Params, q: Params, a: Params, b: Params)
    requires Sorted(a) && Sorted(b)
    requires forall n :: WithName(a, n) == WithName(p, n)
    requires forall n :: WithName(b, n) == WithName(q, n)
    ensures a == b <==> forall n :: WithName(p, n) == WithName(q, n)
  {
    if a == b {
      forall n
        ensures WithName(p, n) == WithName(q, n)
      {
        assert WithName(a, n) == WithName(p, n);
      }
    } else {
      if forall n :: WithName(a, n) == WithName(b, n) {
        SortedUnique(a, b);
      }
      var n :| WithName(a, n) != WithName(b, n);
      assert WithName(p, n) != WithName(q, n);
    }
  }

  /** Sorting gives the one ordered list that has `ps`'s pairs under every name. */
  lemma SortIsTheOrderedArrangement(ps: Params, q: Params)
    requires Sorted(q)
    requires forall n :: WithName(ps, n) == WithName(q, n)
    ensures Sort(ps) == q
  {
    SortedUnique(Sort(ps), q);
  }

  /** With pairwise-distinct names, a name selects at most one pair. */
  lemma {:induction false} DistinctWithName(ps: Params, name: string)
    requires DistinctNames(ps)
    ensures |WithName(ps, name)| <= 1
  {
    if |ps| > 0 {
      assert DistinctNames(ps[1..]) by {
        forall i, j | 0 <= i < j < |ps[1..]|
          ensures ps[1..][i].0 != ps[1..][j].0
        {
          assert ps[1..][i] == ps[i + 1] && ps[1..][j] == ps[j + 1];
        }
      }
      DistinctWithName(ps[1..], name);
      if ps[0].0 == name {
        HasTail(ps, name);
        assert !Has(ps[1..], name);
        WithNameEmpty(ps[1..], name);
      }
    }
  }

  /** Under pairwise-distinct names, a permutation has the same pairs under every name. */
  lemma DistinctSameWithName(p: Params, q: Params, n: string)
    requires DistinctNames(p)
    requires multiset(p) == multiset(q)
    ensures WithName(p, n) == WithName(q, n)
  {
    DistinctWithName(p, n);
    SameFilteredMultiset(p, q, n);
    AtMostOneSame(WithName(p, n), WithName(q, n));
  }

  lemma SameFilteredMultiset(p: Params, q: Params, n: string)
    requires multiset(p) == multiset(q)
    ensures multiset(WithName(p, n)) == multiset(WithName(q, n))
  {
    WithNameMultiset(p, n);
    WithNameMultiset(q, n);
    var wp, wq := WithName(p, n), WithName(q, n);
    forall x
      ensures multiset(wp)[x] == multiset(wq)[x]
    {
    }
  }

  /** Lists of at most one element with the same elements are equal. */
  lemma AtMostOneSame(a: Params, b: Params)
    requires |a| <= 1
    requires multiset(a) == multiset(b)
    ensures a == b
  {
    assert |multiset(a)| == |a| && |multiset(b)| == |b|;
    if |a| == 1 {
      assert b[0] in multiset(a);
      assert a == [a[0]] && b == [b[0]];
    }
  }

  /**
   * Two permutations of the same pairs, with pairwise-distinct names, sort to
   * the same list.
   */
  lemma SortPermutationDistinct(p: Params, q: Params)
    requires DistinctNames(p)
    requires multiset(p) == multiset(q)
    ensures Sort(p) == Sort(q)
  {
    forall n
      ensures WithName(p, n) == WithName(q, n)
    {
      DistinctSameWithName(p, q, n);
    }
    SortCanonical(p, q);
  }

  // ---------------------------------------------------------------------------
  // Names in concatenated and two-pair lists, and `get` through the name filter

  lemma HasAppend(a: Params, b: Params, name: string)
    ensures Has(a + b, name) <==> Has(a, name) || Has(b, name)
  {
    WithNameAppend(a, b, name);
    WithNameEmpty(a + b, name);
    WithNameEmpty(a, name);
    WithNameEmpty(b, name);
  }

  /** Swapping two blocks that share no name keeps every per-name subsequence. */
  lemma {:induction false} SwapKeepsWithName(a: Params, t: Params, u: Params, n: string)
    requires WithName(t, n) == [] || WithName(u, n) == []
    ensures WithName(a + t + u, n) == WithName(a + u + t, n)
  {
    WithNameAppend(a + t, u, n);
    WithNameAppend(a, t, n);
    WithNameAppend(a + u, t, n);
    WithNameAppend(a, u, n);
  }

  lemma GetFromWithName(ps: Params, name: string)
    ensures Get(ps, name) == if WithName(ps, name) == [] then None else Some(WithName(ps, name)[0].1)
  {
    WithNameEmpty(ps, name);
    if Has(ps, name) {
      GetFirstOfWithName(ps, name);
    }
  }

  lemma {:induction false} WithNameAppend3(a: Params, b: Params, c: Params, n: string)
    ensures WithName(a + b + c, n) == WithName(a, n) + WithName(b, n) + WithName(c, n)
  {
    WithNameAppend(a + b, c, n);
    WithNameAppend(a, b, n);
  }

  lemma PairsFilter(a: Pair, b: Pair, n: string)
    ensures WithName([a, b], n) == (if a.0 == n then [a] else []) + (if b.0 == n then [b] else [])
  {
    assert [a, b][1..] == [b];
    assert WithName([b], n) == (if b.0 == n then [b] else []) by {
      assert [b][1..] == [];
    }
  }
}
