/** Sorting by a strict total order and keeping the first few: what `sort_by` followed by
`truncate` yields, whatever order the items came in. */
module Ranking {
  import opened Basics

  ghost predicate StrictTotalOrder<T(!new)>(before: (T, T) -> bool) {
    && (forall x :: !before(x, x))
    && (forall x, y :: x != y ==> before(x, y) || before(y, x))
    && (forall x, y, z :: before(x, y) && before(y, z) ==> before(x, z))
  }

  ghost predicate Sorted<T(!new)>(s: seq<T>, before: (T, T) -> bool) {
    forall i, j :: 0 <= i < j < |s| ==> before(s[i], s[j])
  }

  ghost function Elements<T>(s: seq<T>): set<T> {
    set x | x in s
  }

  /** `r` lists the first `n` items in order: nothing left out comes before anything kept. */
  ghost predicate IsTop<T(!new)>(items: set<T>, n: nat, before: (T, T) -> bool, r: seq<T>) {
    && |r| == (if n < |items| then n else |items|)
    && Elements(r) <= items
    && Sorted(r, before)
    && forall x, y :: x in items && x !in r && y in r ==> before(y, x)
  }

  lemma {:induction false} SortedCardinality<T(!new)>(s: seq<T>, before: (T, T) -> bool)
    requires StrictTotalOrder(before) && Sorted(s, before)
    ensures |Elements(s)| == |s|
  {
    hide StrictTotalOrder, Sorted, Elements;
    if s != [] {
      SortedLastIsNew(s, before);
      SortedCardinality(s[..|s| - 1], before);
    } else {
      NoElements<T>();
    }
  }

  lemma NoElements<T>()
    ensures Elements<T>([]) == {}
  {
  }

  lemma SortedLastIsNew<T(!new)>(s: seq<T>, before: (T, T) -> bool)
    requires StrictTotalOrder(before) && Sorted(s, before) && s != []
    ensures Sorted(s[..|s| - 1], before)
    ensures s[|s| - 1] !in Elements(s[..|s| - 1]) && Elements(s) == Elements(s[..|s| - 1]) + {s[|s| - 1]}
  {
    var n := |s| - 1;
    forall i | 0 <= i < n
      ensures s[i] != s[n]
    {
      assert before(s[i], s[n]) && !before(s[n], s[n]);
    }
    assert s == s[..n] + [s[n]];
  }

  /** The items, their number to keep and the order determine the result. */
  lemma TopIsUnique<T(!new)>(items: set<T>, n: nat, before: (T, T) -> bool, r: seq<T>, q: seq<T>)
    requires StrictTotalOrder(before)
    requires IsTop(items, n, before, r) && IsTop(items, n, before, q)
    ensures r == q
  {
    forall i | 0 <= i < |r|
      ensures r[i] == q[i]
    {
      TopAgreesAt(items, n, before, r, q, i);
    }
  }

  lemma {:induction false} TopAgreesAt<T(!new)>(items: set<T>, n: nat, before: (T, T) -> bool,
                                                r: seq<T>, q: seq<T>, i: nat)
    requires StrictTotalOrder(before)
    requires IsTop(items, n, before, r) && IsTop(items, n, before, q) && i < |r|
    ensures r[i] == q[i]
  {
    forall j | 0 <= j < i
      ensures r[j] == q[j]
    {
      TopAgreesAt(items, n, before, r, q, j);
    }
    assert r[i] in Elements(r) && q[i] in Elements(q);
  }

  // ----- One way to compute it -----

  function Insert<T(!new)>(x: T, s: seq<T>, before: (T, T) -> bool): (r: seq<T>)
    ensures |r| == |s| + 1
    ensures forall y :: y in r <==> y == x || y in s
  {
    if s == [] || before(x, s[0]) then [x] + s else [s[0]] + Insert(x, s[1..], before)
  }

  function Sort<T(!new)>(s: seq<T>, before: (T, T) -> bool): (r: seq<T>)
    ensures |r| == |s|
    ensures forall y :: y in r <==> y in s
  {
    if s == [] then [] else
      assert s == [s[0]] + s[1..];
      Insert(s[0], Sort(s[1..], before), before)
  }

  lemma {:induction false} InsertKeepsSorted<T(!new)>(x: T, s: seq<T>, before: (T, T) -> bool)
    requires StrictTotalOrder(before) && Sorted(s, before) && x !in s
    ensures Sorted(Insert(x, s, before), before)
  {
    if s != [] && !before(x, s[0]) {
      InsertKeepsSorted(x, s[1..], before);
      var t := Insert(x, s[1..], before);
      forall j | 0 <= j < |t|
        ensures before(s[0], t[j])
      {
        assert t[j] in t;
        if t[j] != x {
          var k :| 0 <= k < |s[1..]| && s[1..][k] == t[j];
          assert before(s[0], s[k + 1]);
        }
      }
    }
  }

  lemma {:induction false} SortSorts<T(!new)>(s: seq<T>, before: (T, T) -> bool)
    requires StrictTotalOrder(before) && NoRepeats(s)
    ensures Sorted(Sort(s, before), before)
  {
    if s != [] {
      SortSorts(s[1..], before);
      assert s[0] !in s[1..];
      InsertKeepsSorted(s[0], Sort(s[1..], before), before);
    }
  }

  function Truncate<T>(s: seq<T>, n: nat): seq<T> {
    if n < |s| then s[..n] else s
  }

  lemma SortedPrefixIsTop<T(!new)>(s: seq<T>, n: nat, before: (T, T) -> bool)
    requires StrictTotalOrder(before) && NoRepeats(s)
    ensures IsTop(Elements(s), n, before, Truncate(Sort(s, before), n))
  {
    var sorted := Sort(s, before);
    SortSorts(s, before);
    SortedCardinality(sorted, before);
    assert Elements(sorted) == Elements(s);
    var r := Truncate(sorted, n);
    forall x, y | x in Elements(s) && x !in r && y in r
      ensures before(y, x)
    {
      var i :| 0 <= i < |sorted| && sorted[i] == x;
      var j :| 0 <= j < |r| && r[j] == y;
      assert sorted[j] == y;
    }
  }
}
