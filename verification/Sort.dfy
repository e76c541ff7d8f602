/** qsort: some permutation of the input in which no later element compares less. */
module Sort {

  ghost predicate TotalPreorder<T(!new)>(le: (T, T) -> bool) {
    && (forall a, b :: le(a, b) || le(b, a))
    && (forall a, b, c :: le(a, b) && le(b, c) ==> le(a, c))
  }

  predicate Sorted<T>(s: seq<T>, le: (T, T) -> bool) {
    forall i, j :: 0 <= i < j < |s| ==> le(s[i], s[j])
  }

  ghost predicate SortOf<T>(s: seq<T>, t: seq<T>, le: (T, T) -> bool) {
    multiset(s) == multiset(t) && Sorted(t, le)
  }

  function Insert<T>(x: T, s: seq<T>, le: (T, T) -> bool): (r: seq<T>)
    ensures multiset(r) == multiset(s) + multiset{x}
  {
    if s == [] then [x]
    else if le(x, s[0]) then [x] + s
    else
      assert s == [s[0]] + s[1..];
      [s[0]] + Insert(x, s[1..], le)
  }

  function Sort<T>(s: seq<T>, le: (T, T) -> bool): (r: seq<T>)
    ensures multiset(r) == multiset(s)
  {
    if s == [] then []
    else
      assert s == [s[0]] + s[1..];
      Insert(s[0], Sort(s[1..], le), le)
  }

  lemma {:induction false} InsertSorted<T(!new)>(x: T, s: seq<T>, le: (T, T) -> bool)
    requires TotalPreorder(le) && Sorted(s, le)
    ensures Sorted(Insert(x, s, le), le)
  {
    if s != [] && !le(x, s[0]) {
      var r := Insert(x, s[1..], le);
      InsertSorted(x, s[1..], le);
      forall y | y in r ensures le(s[0], y) {
        assert y in multiset(r);
        if y != x {
          assert y in s[1..];
        }
      }
      assert forall j :: 0 <= j < |r| ==> r[j] in r;
    }
  }

  lemma {:induction false} SortIsSort<T(!new)>(s: seq<T>, le: (T, T) -> bool)
    requires TotalPreorder(le)
    ensures SortOf(s, Sort(s, le), le)
  {
    if s != [] {
      SortIsSort(s[1..], le);
      InsertSorted(s[0], Sort(s[1..], le), le);
    }
  }

  lemma {:induction false} PermutationHasSameElements<T>(s: seq<T>, t: seq<T>, x: T)
    requires multiset(s) == multiset(t)
    ensures x in s <==> x in t
  {
    assert x in s <==> x in multiset(s);
    assert x in t <==> x in multiset(t);
  }

  /** If no two different elements compare equal, there is only one sorted permutation. */
  lemma {:induction false} SortIsUnique<T(!new)>(t: seq<T>, u: seq<T>, le: (T, T) -> bool)
    requires multiset(t) == multiset(u) && Sorted(t, le) && Sorted(u, le)
    requires forall a, b :: a in t && b in t && le(a, b) && le(b, a) ==> a == b
    ensures t == u
  {
    assert |t| == |multiset(t)| == |multiset(u)| == |u|;
    if t != [] {
      SameHead(t, u, le);
      TailMultiset(t);
      TailMultiset(u);
      SortIsUnique(t[1..], u[1..], le);
      SameByParts(t, u);
    }
  }

  lemma {:induction false} SameByParts<T>(t: seq<T>, u: seq<T>)
    requires t != [] && u != [] && t[0] == u[0] && t[1..] == u[1..]
    ensures t == u
  {
    assert t == [t[0]] + t[1..] && u == [u[0]] + u[1..];
  }

  lemma {:induction false} TailMultiset<T>(s: seq<T>)
    requires s != []
    ensures multiset(s[1..]) == multiset(s) - multiset{s[0]}
  {
    assert s == [s[0]] + s[1..];
  }

  lemma {:induction false} SameHead<T>(t: seq<T>, u: seq<T>, le: (T, T) -> bool)
    requires t != [] && u != [] && multiset(t) == multiset(u) && Sorted(t, le) && Sorted(u, le)
    requires forall a, b :: a in t && b in t && le(a, b) && le(b, a) ==> a == b
    ensures t[0] == u[0]
  {
    PermutationHasSameElements(t, u, t[0]);
    PermutationHasSameElements(t, u, u[0]);
    var i :| 0 <= i < |u| && u[i] == t[0];
    var j :| 0 <= j < |t| && t[j] == u[0];
    assert i == 0 || le(u[0], t[0]);
    assert j == 0 || le(t[0], u[0]);
  }
}
