/** Webhook delivery dedup, crates/ar-gateway/src/dedup.rs: the bounded in-memory store
and the unbounded SQLite table it stands in for. */
module Dedup {
  import opened Basics

  datatype CheckResult = FirstSight | Duplicate

  /** The last `n` elements, or all of them if there are fewer. */
  function Last(s: seq<string>, n: nat): seq<string> {
    if |s| <= n then s else s[|s| - n..]
  }

  function NextOrder(capacity: nat, order: seq<string>, id: string): seq<string> {
    if id in order then order
    else (if |order| >= capacity && |order| > 0 then order[1..] else order) + [id]
  }

  class RecentDeliveries {
    const capacity: nat
    var ids: set<string>
    var order: seq<string>

    ghost predicate Valid()
      reads this
    {
      && capacity >= 1
      && |order| <= capacity
      && NoRepeats(order)
      && ids == set id | id in order
    }

    constructor (capacity: nat)
      ensures Valid() && order == []
      ensures this.capacity == if capacity == 0 then 1 else capacity
    {
      this.capacity := if capacity == 0 then 1 else capacity;
      ids := {};
      order := [];
    }

    method CheckAndRecord(id: string) returns (r: CheckResult)
      requires Valid()
      modifies this
      ensures Valid()
      ensures r == if id in old(order) then Duplicate else FirstSight
      ensures order == NextOrder(capacity, old(order), id)
      ensures order == if id in old(order) then old(order)
                       else (if |old(order)| < capacity then old(order) else old(order)[1..]) + [id]
    {
      if id in ids {
        return Duplicate;
      }
      if |order| >= capacity {
        ids := ids - {order[0]};
        order := order[1..];
      }
      ids := ids + {id};
      order := order + [id];
      r := FirstSight;
    }
  }

  /** `INSERT OR IGNORE` on a primary key; rows are never deleted. */
  class SqliteDeliveries {
    var rows: set<string>

    constructor ()
      ensures rows == {}
    {
      rows := {};
    }

    method CheckAndRecord(id: string) returns (r: CheckResult)
      modifies this
      ensures r == if id in old(rows) then Duplicate else FirstSight
      ensures rows == old(rows) + {id}
    {
      var affected := if id in rows then 0 else 1;
      rows := rows + {id};
      r := if affected == 0 then Duplicate else FirstSight;
    }
  }

  // ----- Runs: the store fed with `arrivals`, one after the other -----

  /** The queue just before arrival `n`. */
  function OrderAt(capacity: nat, arrivals: seq<string>, n: nat): seq<string>
    requires n <= |arrivals|
  {
    if n == 0 then []
    else NextOrder(capacity, OrderAt(capacity, arrivals, n - 1), arrivals[n - 1])
  }

  predicate IsDuplicate(capacity: nat, arrivals: seq<string>, n: nat)
    requires n < |arrivals|
  {
    arrivals[n] in OrderAt(capacity, arrivals, n)
  }

  /** The ids answered FirstSight among the first `n` arrivals, in order. */
  function FirstSights(capacity: nat, arrivals: seq<string>, n: nat): seq<string>
    requires n <= |arrivals|
  {
    if n == 0 then []
    else FirstSights(capacity, arrivals, n - 1)
         + if IsDuplicate(capacity, arrivals, n - 1) then [] else [arrivals[n - 1]]
  }

  lemma LastOfAppend(s: seq<string>, x: string, n: nat)
    requires n >= 1
    ensures Last(s + [x], n) == (if |Last(s, n)| >= n then Last(s, n)[1..] else Last(s, n)) + [x]
  {
  }

  /** The queue is exactly the last `capacity` first sights. */
  lemma {:induction false} QueueIsSuffixOfFirstSights(capacity: nat, arrivals: seq<string>, n: nat)
    requires capacity >= 1 && n <= |arrivals|
    ensures OrderAt(capacity, arrivals, n) == Last(FirstSights(capacity, arrivals, n), capacity)
    ensures NoRepeats(OrderAt(capacity, arrivals, n))
  {
    hide Last, NoRepeats;
    if n > 0 {
      QueueIsSuffixOfFirstSights(capacity, arrivals, n - 1);
      QueueGrows(capacity, FirstSights(capacity, arrivals, n - 1), arrivals[n - 1]);
      NextOrderHasNoRepeats(capacity, OrderAt(capacity, arrivals, n - 1), arrivals[n - 1]);
      if IsDuplicate(capacity, arrivals, n - 1) {
        assert FirstSights(capacity, arrivals, n) == FirstSights(capacity, arrivals, n - 1);
      }
    } else {
      EmptyQueue(capacity);
    }
  }

  lemma EmptyQueue(capacity: nat)
    ensures Last([], capacity) == [] && NoRepeats<string>([])
  {
  }

  lemma QueueGrows(capacity: nat, log: seq<string>, id: string)
    requires capacity >= 1
    ensures NextOrder(capacity, Last(log, capacity), id)
            == if id in Last(log, capacity) then Last(log, capacity) else Last(log + [id], capacity)
  {
    hide Last;
    LastOfAppend(log, id, capacity);
  }

  lemma NextOrderHasNoRepeats(capacity: nat, order: seq<string>, id: string)
    requires NoRepeats(order)
    ensures NoRepeats(NextOrder(capacity, order, id))
  {
  }

  lemma DuplicateIffAmongLastFirstSights(capacity: nat, arrivals: seq<string>, n: nat)
    requires capacity >= 1 && n < |arrivals|
    ensures IsDuplicate(capacity, arrivals, n) <==>
            arrivals[n] in Last(FirstSights(capacity, arrivals, n), capacity)
  {
    QueueIsSuffixOfFirstSights(capacity, arrivals, n);
  }

  lemma {:induction false} FirstSightsGrow(capacity: nat, arrivals: seq<string>, n: nat, m: nat)
    requires n <= m <= |arrivals|
    ensures FirstSights(capacity, arrivals, n) <= FirstSights(capacity, arrivals, m)
    ensures forall i :: |FirstSights(capacity, arrivals, n)| <= i < |FirstSights(capacity, arrivals, m)| ==>
              exists k :: n <= k < m && !IsDuplicate(capacity, arrivals, k)
                          && arrivals[k] == FirstSights(capacity, arrivals, m)[i]
  {
    hide NextOrder;
    if n < m {
      FirstSightsGrow(capacity, arrivals, n, m - 1);
    }
  }

  /** An id seen at `n` is forgotten exactly when `capacity` other first sights have
      followed; duplicate hits in between do not keep it. */
  lemma RememberedForExactlyCapacityFirstSights(capacity: nat, arrivals: seq<string>, n: nat, m: nat)
    requires capacity >= 1 && n < m <= |arrivals|
    requires !IsDuplicate(capacity, arrivals, n)
    requires forall k :: n < k < m && arrivals[k] == arrivals[n] ==> IsDuplicate(capacity, arrivals, k)
    ensures arrivals[n] in OrderAt(capacity, arrivals, m) <==>
            |FirstSights(capacity, arrivals, m)| - |FirstSights(capacity, arrivals, n)| <= capacity
  {
    hide OrderAt, FirstSights, NoRepeats;
    var id := arrivals[n];
    var log, p := FirstSights(capacity, arrivals, m), |FirstSights(capacity, arrivals, n)|;
    FirstSightIsLogged(capacity, arrivals, n);
    FirstSightsGrow(capacity, arrivals, n + 1, m);
    QueueIsSuffixOfFirstSights(capacity, arrivals, m);
    assert |FirstSights(capacity, arrivals, n + 1)| == p + 1 && log[p] == id;
    forall i | p < i < |log|
      ensures log[i] != id
    {
      assert FirstSights(capacity, arrivals, m)[i] == log[i];
      var k :| n + 1 <= k < m && !IsDuplicate(capacity, arrivals, k) && arrivals[k] == log[i];
    }
    AmongLastIff(log, id, p, capacity);
  }

  lemma FirstSightIsLogged(capacity: nat, arrivals: seq<string>, n: nat)
    requires n < |arrivals| && !IsDuplicate(capacity, arrivals, n)
    ensures FirstSights(capacity, arrivals, n + 1) == FirstSights(capacity, arrivals, n) + [arrivals[n]]
  {
  }

  lemma AmongLastIff(log: seq<string>, id: string, p: nat, capacity: nat)
    requires p < |log| && log[p] == id && forall i :: p < i < |log| ==> log[i] != id
    ensures id in Last(log, capacity) <==> |log| - p <= capacity
  {
    if |log| - p <= capacity {
      var offset := if |log| <= capacity then 0 else |log| - capacity;
      assert Last(log, capacity)[p - offset] == id;
    }
  }

  // ----- Against the unbounded table -----

  /** The rows of the table just before arrival `n`. */
  function RowsAt(arrivals: seq<string>, n: nat): set<string>
    requires n <= |arrivals|
  {
    if n == 0 then {} else RowsAt(arrivals, n - 1) + {arrivals[n - 1]}
  }

  lemma {:induction false} RowsAreTheArrivals(arrivals: seq<string>, n: nat, id: string)
    requires n <= |arrivals|
    ensures id in RowsAt(arrivals, n) <==> exists k :: 0 <= k < n && arrivals[k] == id
  {
    if n > 0 {
      RowsAreTheArrivals(arrivals, n - 1, id);
    }
  }

  /** The bounded store never calls a delivery a duplicate that the table does not. */
  lemma {:induction false} BoundedDuplicatesAreReal(capacity: nat, arrivals: seq<string>, n: nat, id: string)
    requires n <= |arrivals| && id in OrderAt(capacity, arrivals, n)
    ensures id in RowsAt(arrivals, n)
  {
    if n > 0 && id in OrderAt(capacity, arrivals, n - 1) {
      BoundedDuplicatesAreReal(capacity, arrivals, n - 1, id);
    }
  }

  /** The distinct ids of the first `n` arrivals, in order of first arrival. */
  function Distinct(arrivals: seq<string>, n: nat): seq<string>
    requires n <= |arrivals|
  {
    if n == 0 then []
    else Distinct(arrivals, n - 1)
         + if arrivals[n - 1] in RowsAt(arrivals, n - 1) then [] else [arrivals[n - 1]]
  }

  predicate AgreeAt(capacity: nat, arrivals: seq<string>, n: nat)
    requires n < |arrivals|
  {
    IsDuplicate(capacity, arrivals, n) <==> arrivals[n] in RowsAt(arrivals, n)
  }

  /** No id comes back after `capacity` or more newer ids have appeared. */
  ghost predicate ReturnsInTime(capacity: nat, arrivals: seq<string>, n: nat)
    requires n < |arrivals|
  {
    arrivals[n] in RowsAt(arrivals, n) ==> arrivals[n] in Last(Distinct(arrivals, n), capacity)
  }

  lemma {:induction false} WhileAgreeingLogIsDistinct(capacity: nat, arrivals: seq<string>, n: nat)
    requires n <= |arrivals|
    requires forall k :: 0 <= k < n ==> AgreeAt(capacity, arrivals, k)
    ensures FirstSights(capacity, arrivals, n) == Distinct(arrivals, n)
  {
    if n > 0 {
      WhileAgreeingLogIsDistinct(capacity, arrivals, n - 1);
      assert AgreeAt(capacity, arrivals, n - 1);
    }
  }

  lemma AgreeAtIffReturnsInTime(capacity: nat, arrivals: seq<string>, n: nat)
    requires capacity >= 1 && n < |arrivals|
    requires forall k :: 0 <= k < n ==> AgreeAt(capacity, arrivals, k)
    ensures AgreeAt(capacity, arrivals, n) <==> ReturnsInTime(capacity, arrivals, n)
  {
    WhileAgreeingLogIsDistinct(capacity, arrivals, n);
    DuplicateIffAmongLastFirstSights(capacity, arrivals, n);
    if IsDuplicate(capacity, arrivals, n) {
      BoundedDuplicatesAreReal(capacity, arrivals, n, arrivals[n]);
    }
  }

  /** The two stores give the same answers to a whole run exactly when no id in it
      returns too late, which can be read off the arrivals alone. */
  lemma {:induction false} StoresAgreeIffReturnsInTime(capacity: nat, arrivals: seq<string>, n: nat)
    requires capacity >= 1 && n <= |arrivals|
    ensures (forall k :: 0 <= k < n ==> AgreeAt(capacity, arrivals, k)) <==>
            (forall k :: 0 <= k < n ==> ReturnsInTime(capacity, arrivals, k))
  {
    if n > 0 {
      StoresAgreeIffReturnsInTime(capacity, arrivals, n - 1);
      if forall k :: 0 <= k < n - 1 ==> AgreeAt(capacity, arrivals, k) {
        AgreeAtIffReturnsInTime(capacity, arrivals, n - 1);
      }
    }
  }

  lemma {:induction false} DistinctListsTheRows(arrivals: seq<string>, n: nat, m: nat)
    requires n <= m <= |arrivals|
    ensures |Distinct(arrivals, n)| <= |Distinct(arrivals, m)|
    ensures forall id :: id in RowsAt(arrivals, m) <==> id in Distinct(arrivals, m)
  {
    if m > 0 {
      if n < m {
        DistinctListsTheRows(arrivals, n, m - 1);
      } else {
        DistinctListsTheRows(arrivals, n - 1, m - 1);
      }
    }
  }

  lemma StoresAgreeOnFewIds(capacity: nat, arrivals: seq<string>, n: nat)
    requires capacity >= 1 && n < |arrivals|
    requires |Distinct(arrivals, |arrivals|)| <= capacity
    ensures AgreeAt(capacity, arrivals, n)
  {
    forall k | 0 <= k <= n
      ensures ReturnsInTime(capacity, arrivals, k)
    {
      DistinctListsTheRows(arrivals, k, |arrivals|);
      DistinctListsTheRows(arrivals, k, k);
    }
    StoresAgreeIffReturnsInTime(capacity, arrivals, n + 1);
  }

  // ----- FIFO, not LRU -----

  function Remove(order: seq<string>, id: string): seq<string> {
    if order == [] then [] else (if order[0] == id then [] else [order[0]]) + Remove(order[1..], id)
  }

  /** What a least-recently-used queue would do: a hit moves the id to the back. */
  function NextOrderLru(capacity: nat, order: seq<string>, id: string): seq<string> {
    if id in order then Remove(order, id) + [id] else NextOrder(capacity, order, id)
  }

  function OrderAtLru(capacity: nat, arrivals: seq<string>, n: nat): seq<string>
    requires n <= |arrivals|
  {
    if n == 0 then []
    else NextOrderLru(capacity, OrderAtLru(capacity, arrivals, n - 1), arrivals[n - 1])
  }

  // When it is one all the same.

  lemma {:induction false} RemoveAbsent(order: seq<string>, id: string)
    requires id !in order
    ensures Remove(order, id) == order
  {
    if order != [] {
      RemoveAbsent(order[1..], id);
    }
  }

  lemma {:induction false} RemoveShape(before: seq<string>, id: string, after: seq<string>)
    requires id !in before && id !in after
    ensures Remove(before + [id] + after, id) == before + after
  {
    var order := before + [id] + after;
    if before == [] {
      RemoveAbsent(after, id);
      assert order[1..] == after;
    } else {
      RemoveShape(before[1..], id, after);
      assert order[1..] == before[1..] + [id] + after;
    }
  }

  /** A hit leaves a queue as an LRU queue if and only if it is on the newest id. */
  lemma RefreshChangesNothingIff(order: seq<string>, id: string)
    requires NoRepeats(order) && id in order
    ensures Remove(order, id) + [id] == order <==> order[|order| - 1] == id
  {
    var i :| 0 <= i < |order| && order[i] == id;
    assert order == order[..i] + [id] + order[i + 1..];
    RemoveShape(order[..i], id, order[i + 1..]);
    hide Remove;
    if i == |order| - 1 {
      assert order[..i] + order[i + 1..] + [id] == order;
    } else {
      assert (Remove(order, id) + [id])[|order| - 1] == id;
      assert order[|order| - 1] != id;
    }
  }

  /** Arrival `n` is new, or repeats the id that was last answered FirstSight. */
  predicate RepeatsOnlyTheNewest(capacity: nat, arrivals: seq<string>, n: nat)
    requires n < |arrivals|
  {
    IsDuplicate(capacity, arrivals, n) ==>
      var log := FirstSights(capacity, arrivals, n);
      log != [] && arrivals[n] == log[|log| - 1]
  }

  lemma NewestOfLast(log: seq<string>, capacity: nat)
    requires capacity >= 1 && log != []
    ensures var order := Last(log, capacity); order != [] && order[|order| - 1] == log[|log| - 1]
  {
  }

  predicate SameAsLru(capacity: nat, arrivals: seq<string>, n: nat)
    requires n <= |arrivals|
  {
    OrderAt(capacity, arrivals, n) == OrderAtLru(capacity, arrivals, n)
  }

  lemma StepIsLruIff(capacity: nat, arrivals: seq<string>, n: nat)
    requires capacity >= 1 && n < |arrivals|
    requires SameAsLru(capacity, arrivals, n)
    ensures SameAsLru(capacity, arrivals, n + 1) <==> RepeatsOnlyTheNewest(capacity, arrivals, n)
  {
    hide Last, NoRepeats, Remove, FirstSights;
    var order, log := OrderAt(capacity, arrivals, n), FirstSights(capacity, arrivals, n);
    QueueIsSuffixOfFirstSights(capacity, arrivals, n);
    if arrivals[n] in order {
      RefreshChangesNothingIff(order, arrivals[n]);
      if log != [] {
        NewestOfLast(log, capacity);
      } else {
        EmptyQueue(capacity);
      }
    }
  }

  predicate IsLruUpTo(capacity: nat, arrivals: seq<string>, n: nat)
    requires n <= |arrivals|
  {
    forall k :: 0 <= k <= n ==> SameAsLru(capacity, arrivals, k)
  }

  predicate RepeatsOnlyTheNewestUpTo(capacity: nat, arrivals: seq<string>, n: nat)
    requires n <= |arrivals|
  {
    forall k :: 0 <= k < n ==> RepeatsOnlyTheNewest(capacity, arrivals, k)
  }

  lemma UpToNext(capacity: nat, arrivals: seq<string>, n: nat)
    requires 0 < n <= |arrivals|
    ensures IsLruUpTo(capacity, arrivals, n)
            <==> IsLruUpTo(capacity, arrivals, n - 1) && SameAsLru(capacity, arrivals, n)
    ensures RepeatsOnlyTheNewestUpTo(capacity, arrivals, n)
            <==> RepeatsOnlyTheNewestUpTo(capacity, arrivals, n - 1)
                 && RepeatsOnlyTheNewest(capacity, arrivals, n - 1)
  {
    hide SameAsLru, RepeatsOnlyTheNewest;
  }

  /** Throughout a run the store is an LRU store if and only if every duplicate repeats the id
      that was last answered FirstSight. */
  lemma {:induction false} IsLruIff(capacity: nat, arrivals: seq<string>, n: nat)
    requires capacity >= 1 && n <= |arrivals|
    ensures IsLruUpTo(capacity, arrivals, n) <==> RepeatsOnlyTheNewestUpTo(capacity, arrivals, n)
  {
    hide OrderAt, OrderAtLru, IsDuplicate, FirstSights, RepeatsOnlyTheNewest;
    if n > 0 {
      UpToNext(capacity, arrivals, n);
      IsLruIff(capacity, arrivals, n - 1);
      if IsLruUpTo(capacity, arrivals, n - 1) {
        StepIsLruIff(capacity, arrivals, n - 1);
      }
      hide RepeatsOnlyTheNewestUpTo;
    } else {
      LruAtTheStart(capacity, arrivals);
    }
  }

  lemma LruAtTheStart(capacity: nat, arrivals: seq<string>)
    ensures SameAsLru(capacity, arrivals, 0)
  {
  }

  /** The module's own comment calls the store an LRU set. It is first-in first-out: after
      a, b, a, c with room for two, an LRU store still knows a, and this one does not. */
  lemma HitsDoNotRefresh(a: string, b: string, c: string)
    requires a != b && b != c && a != c
    ensures var arrivals := [a, b, a, c, a];
            && !IsDuplicate(2, arrivals, 4)
            && arrivals[4] in OrderAtLru(2, arrivals, 4)
  {
    var arrivals := [a, b, a, c, a];
    assert OrderAt(2, arrivals, 1) == [a];
    assert OrderAt(2, arrivals, 2) == [a, b];
    assert OrderAt(2, arrivals, 3) == [a, b];
    assert OrderAt(2, arrivals, 4) == [b, c];
    assert OrderAtLru(2, arrivals, 1) == [a];
    assert OrderAtLru(2, arrivals, 2) == [a, b];
    assert Remove([b], a) == [b];
    assert [a, b][1..] == [b];
    assert OrderAtLru(2, arrivals, 3) == [b, a];
    assert OrderAtLru(2, arrivals, 4) == [a, c];
  }
}
