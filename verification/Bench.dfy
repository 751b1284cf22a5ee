/** Scoring a model's findings against labels, `score_against_labels` in
crates/ar-cli/src/bench.rs: greedy matching by path and line. */
module Bench {

  /** The part of a finding or a label that matching looks at. */
  datatype Key = Key(path: string, line: nat)

  datatype LabelMatch = LabelMatch(expected: nat, matched: nat, missed: nat, spurious: nat)

  /** How many keys the two lists have in common, with multiplicity: the sum over all keys
      of the smaller of the two counts. */
  function Common(findings: seq<Key>, labels: seq<Key>): nat {
    |multiset(findings) * multiset(labels)|
  }

  /** The keys of the claimed labels. */
  function Picked(labels: seq<Key>, claimed: seq<bool>): multiset<Key>
    requires |labels| == |claimed|
  {
    if labels == [] then multiset{}
    else
      var n := |labels| - 1;
      Picked(labels[..n], claimed[..n]) + if claimed[n] then multiset{labels[n]} else multiset{}
  }

  function CountUnclaimed(claimed: seq<bool>): nat {
    if claimed == [] then 0
    else CountUnclaimed(claimed[..|claimed| - 1]) + if claimed[|claimed| - 1] then 0 else 1
  }

  lemma {:induction false} PickedWithinLabels(labels: seq<Key>, claimed: seq<bool>)
    requires |labels| == |claimed|
    ensures Picked(labels, claimed) <= multiset(labels)
    ensures |Picked(labels, claimed)| + CountUnclaimed(claimed) == |labels|
  {
    if labels != [] {
      var n := |labels| - 1;
      PickedWithinLabels(labels[..n], claimed[..n]);
      assert labels == labels[..n] + [labels[n]];
    }
  }

  lemma {:induction false} PickedAfterClaim(labels: seq<Key>, claimed: seq<bool>, i: nat)
    requires |labels| == |claimed| && i < |labels| && !claimed[i]
    ensures Picked(labels, claimed[i := true]) == Picked(labels, claimed) + multiset{labels[i]}
  {
    var n := |labels| - 1;
    if i < n {
      PickedAfterClaim(labels[..n], claimed[..n], i);
      assert claimed[i := true][..n] == claimed[..n][i := true];
    } else {
      assert claimed[i := true][..n] == claimed[..n];
    }
  }

  predicate IsSpare(labels: seq<Key>, claimed: seq<bool>, k: Key, i: nat)
    requires |labels| == |claimed|
  {
    i < |labels| && !claimed[i] && labels[i] == k
  }

  /** Once every label with this key is claimed, they are all picked. */
  lemma {:induction false} NoSpareMeansAllPicked(labels: seq<Key>, claimed: seq<bool>, k: Key)
    requires |labels| == |claimed|
    requires forall i :: !IsSpare(labels, claimed, k, i)
    ensures Picked(labels, claimed)[k] == multiset(labels)[k]
  {
    if labels != [] {
      var n := |labels| - 1;
      forall i
        ensures !IsSpare(labels[..n], claimed[..n], k, i)
      {
        assert !IsSpare(labels, claimed, k, i);
      }
      NoSpareMeansAllPicked(labels[..n], claimed[..n], k);
      assert !IsSpare(labels, claimed, k, n);
      assert labels == labels[..n] + [labels[n]];
    }
  }

  /** While some label with this key is unclaimed, they are not all picked. */
  lemma SpareMeansNotAllPicked(labels: seq<Key>, claimed: seq<bool>, k: Key, i: nat)
    requires |labels| == |claimed| && IsSpare(labels, claimed, k, i)
    ensures Picked(labels, claimed)[k] < multiset(labels)[k]
  {
    PickedAfterClaim(labels, claimed, i);
    PickedWithinLabels(labels, claimed[i := true]);
    assert Picked(labels, claimed[i := true])[k] <= multiset(labels)[k];
  }

  // ----- Any matching -----

  const UNMATCHED: int := -1

  /** An injective assignment of findings to labels with the same key. */
  ghost predicate IsMatching(findings: seq<Key>, labels: seq<Key>, a: seq<int>) {
    && |a| <= |findings|
    && (forall f :: 0 <= f < |a| && a[f] != UNMATCHED ==> 0 <= a[f] < |labels| && labels[a[f]] == findings[f])
    && (forall f, g :: 0 <= f < g < |a| && a[f] != UNMATCHED ==> a[f] != a[g])
  }

  function Size(a: seq<int>): nat {
    if a == [] then 0
    else Size(a[..|a| - 1]) + if a[|a| - 1] == UNMATCHED then 0 else 1
  }

  function Used(labels: seq<Key>, a: seq<int>): (claimed: seq<bool>)
    ensures |claimed| == |labels|
  {
    seq(|labels|, i => i in a)
  }

  /** The labels that a matching uses are within both lists. */
  lemma {:induction false} UsedWithinBoth(findings: seq<Key>, labels: seq<Key>, a: seq<int>)
    requires IsMatching(findings, labels, a)
    ensures Picked(labels, Used(labels, a)) <= multiset(findings[..|a|])
    ensures |Picked(labels, Used(labels, a))| == Size(a)
  {
    if a == [] {
      NothingUsed(labels);
    } else {
      var n := |a| - 1;
      UsedWithinBoth(findings, labels, a[..n]);
      assert a == a[..n] + [a[n]];
      assert findings[..n + 1] == findings[..n] + [findings[n]];
      UsedStep(labels, a);
      hide Picked, Used;
    }
  }

  /** What the last assignment of a matching adds to the picked labels. */
  lemma UsedStep(labels: seq<Key>, a: seq<int>)
    requires a != []
    requires var i := a[|a| - 1]; i != UNMATCHED ==> 0 <= i < |labels| && i !in a[..|a| - 1]
    ensures var before, i := Used(labels, a[..|a| - 1]), a[|a| - 1];
            if i == UNMATCHED then Used(labels, a) == before
            else Used(labels, a) == before[i := true]
                 && Picked(labels, Used(labels, a)) == Picked(labels, before) + multiset{labels[i]}
  {
    var n := |a| - 1;
    assert a == a[..n] + [a[n]];
    hide Picked;
    if a[n] != UNMATCHED {
      PickedAfterClaim(labels, Used(labels, a[..n]), a[n]);
    }
  }

  lemma {:induction false} NothingUsed(labels: seq<Key>)
    ensures Picked(labels, Used(labels, [])) == multiset{}
  {
    if labels != [] {
      var n := |labels| - 1;
      NothingUsed(labels[..n]);
      assert Used(labels, [])[..n] == Used(labels[..n], []);
    }
  }

  lemma {:induction false} SmallerMultiset(a: multiset<Key>, b: multiset<Key>)
    requires a <= b
    ensures |a| <= |b|
  {
    assert b == a + (b - a);
  }

  /** No matching matches more than the two lists have in common. */
  lemma MatchingAtMostCommon(findings: seq<Key>, labels: seq<Key>, a: seq<int>)
    requires IsMatching(findings, labels, a) && |a| == |findings|
    ensures Size(a) <= Common(findings, labels)
  {
    UsedWithinBoth(findings, labels, a);
    PickedWithinLabels(labels, Used(labels, a));
    assert findings[..|a|] == findings;
    SmallerMultiset(Picked(labels, Used(labels, a)), multiset(findings) * multiset(labels));
  }

  // ----- The greedy matcher -----

  /** One more finding: the intersection grows by its key exactly when the labels still
      have one to spare. */
  lemma IntersectionStep(a: multiset<Key>, b: multiset<Key>, k: Key)
    ensures (a + multiset{k}) * b == if (a * b)[k] < b[k] then a * b + multiset{k} else a * b
  {
  }

  /** The inner loop: claim the first unclaimed label with this key, if there is one. */
  method ClaimFirst(labels: seq<Key>, claimed: array<bool>, k: Key) returns (hit: bool, ghost target: int)
    requires claimed.Length == |labels|
    modifies claimed
    ensures hit ==> 0 <= target && IsSpare(labels, old(claimed[..]), k, target)
    ensures hit ==> claimed[..] == old(claimed[..])[target := true]
    ensures !hit ==> target == UNMATCHED && claimed[..] == old(claimed[..])
    ensures !hit ==> forall i :: !IsSpare(labels, old(claimed[..]), k, i)
  {
    target := UNMATCHED;
    for i := 0 to |labels|
      invariant claimed[..] == old(claimed[..])
      invariant forall j :: 0 <= j < i ==> !IsSpare(labels, old(claimed[..]), k, j)
    {
      if claimed[i] {
        continue;
      }
      if labels[i] == k {
        claimed[i] := true;
        return true, i;
      }
    }
    hit := false;
  }

  /** The labels claimed so far are those that the first `n` findings have in common with
      all labels. */
  ghost predicate ClaimedIsCommon(findings: seq<Key>, labels: seq<Key>, claimed: seq<bool>, n: nat)
    requires n <= |findings|
  {
    |labels| == |claimed| && Picked(labels, claimed) == multiset(findings[..n]) * multiset(labels)
  }

  lemma CommonAfterFinding(findings: seq<Key>, labels: seq<Key>, claimed: seq<bool>, n: nat, hit: bool, target: int)
    requires n < |findings| && ClaimedIsCommon(findings, labels, claimed, n)
    requires hit ==> 0 <= target && IsSpare(labels, claimed, findings[n], target)
    requires !hit ==> forall i :: !IsSpare(labels, claimed, findings[n], i)
    ensures hit ==> ClaimedIsCommon(findings, labels, claimed[target := true], n + 1)
    ensures hit ==> |Picked(labels, claimed[target := true])| == |Picked(labels, claimed)| + 1
    ensures !hit ==> ClaimedIsCommon(findings, labels, claimed, n + 1)
  {
    var k := findings[n];
    assert findings[..n + 1] == findings[..n] + [k];
    IntersectionStep(multiset(findings[..n]), multiset(labels), k);
    if hit {
      SpareMeansNotAllPicked(labels, claimed, k, target);
      PickedAfterClaim(labels, claimed, target);
    } else {
      NoSpareMeansAllPicked(labels, claimed, k);
    }
    hide Picked, IsSpare;
  }

  /** Greedy matching as an assignment, extended by one finding. */
  lemma MatchingExtends(findings: seq<Key>, labels: seq<Key>, a: seq<int>, hit: bool, target: int)
    requires IsMatching(findings, labels, a) && |a| < |findings|
    requires hit ==> 0 <= target && IsSpare(labels, Used(labels, a), findings[|a|], target)
    requires !hit ==> target == UNMATCHED
    ensures IsMatching(findings, labels, a + [target])
    ensures Size(a + [target]) == Size(a) + if hit then 1 else 0
    ensures Used(labels, a + [target]) == if hit then Used(labels, a)[target := true] else Used(labels, a)
  {
    if hit {
      SpareIsFresh(labels, a, findings[|a|], target);
    }
    hide IsMatching, Used, Size, IsSpare;
    AssignmentExtends(findings, labels, a, target);
    AssignmentCounts(labels, a, target);
  }

  lemma SpareIsFresh(labels: seq<Key>, a: seq<int>, k: Key, target: nat)
    requires IsSpare(labels, Used(labels, a), k, target)
    ensures target < |labels| && labels[target] == k && target !in a
  {
  }

  lemma AssignmentExtends(findings: seq<Key>, labels: seq<Key>, a: seq<int>, target: int)
    requires IsMatching(findings, labels, a) && |a| < |findings|
    requires target != UNMATCHED ==> 0 <= target < |labels| && labels[target] == findings[|a|] && target !in a
    ensures IsMatching(findings, labels, a + [target])
  {
  }

  lemma AssignmentCounts(labels: seq<Key>, a: seq<int>, target: int)
    requires target != UNMATCHED ==> 0 <= target < |labels| && target !in a
    ensures Size(a + [target]) == Size(a) + if target == UNMATCHED then 0 else 1
    ensures Used(labels, a + [target])
            == if target == UNMATCHED then Used(labels, a) else Used(labels, a)[target := true]
  {
    hide Used, Picked;
    assert (a + [target])[..|a|] == a;
    UsedStep(labels, a + [target]);
  }

  /** `matched` is the number of common keys, which by MatchingAtMostCommon no matching
      exceeds and which depends on neither list's order. */
  method ScoreAgainstLabels(findings: seq<Key>, labels: seq<Key>) returns (r: LabelMatch, ghost a: seq<int>)
    ensures r.expected == |labels|
    ensures r.matched == Common(findings, labels)
    ensures r.matched + r.missed == |labels|
    ensures r.matched + r.spurious == |findings|
    ensures IsMatching(findings, labels, a) && |a| == |findings| && Size(a) == r.matched
  {
    var claimed := new bool[|labels|](i => false);
    var matched, spurious := 0, 0;
    a := [];
    assert claimed[..] == Used(labels, []);
    NothingUsed(labels);
    for n := 0 to |findings|
      invariant |a| == n && IsMatching(findings, labels, a) && Size(a) == matched
      invariant claimed[..] == Used(labels, a)
      invariant ClaimedIsCommon(findings, labels, claimed[..], n)
      invariant matched == |Picked(labels, claimed[..])|
      invariant matched + spurious == n
    {
      ghost var before := claimed[..];
      var hit: bool;
      ghost var target: int;
      hit, target := ClaimFirst(labels, claimed, findings[n]);
      CommonAfterFinding(findings, labels, before, n, hit, target);
      MatchingExtends(findings, labels, a, hit, target);
      a := a + [target];
      if hit {
        matched := matched + 1;
      } else {
        spurious := spurious + 1;
      }
    }
    assert findings[..|findings|] == findings;
    PickedWithinLabels(labels, claimed[..]);
    var missed := CountMissed(claimed);
    r := LabelMatch(|labels|, matched, missed, spurious);
  }

  method CountMissed(claimed: array<bool>) returns (missed: nat)
    ensures missed == CountUnclaimed(claimed[..])
  {
    missed := 0;
    for i := 0 to claimed.Length
      invariant missed == CountUnclaimed(claimed[..i])
    {
      assert claimed[..i + 1][..i] == claimed[..i];
      if !claimed[i] {
        missed := missed + 1;
      }
    }
    assert claimed[..claimed.Length] == claimed[..];
  }
}
