/** Cluster labels: numpy's `unique` (sorted distinct values) and boolean-mask
    selection `xs[labels == id]`. */
module Labels {

  predicate StrictlyIncreasing(s: seq<int>) {
    forall i, j :: 0 <= i < j < |s| ==> s[i] < s[j]
  }

  /** Adds `x` to a strictly increasing sequence, keeping it strictly increasing. */
  function Insert(x: int, s: seq<int>): (r: seq<int>)
    requires StrictlyIncreasing(s)
    ensures StrictlyIncreasing(r)
    ensures forall y :: y in r <==> y == x || y in s
    ensures |r| <= |s| + 1
  {
    if s == [] then [x]
    else if x < s[0] then [x] + s
    else if x == s[0] then s
    else
      var r := Insert(x, s[1..]);
      assert forall y :: y in r ==> s[0] < y by {
        forall y | y in r
          ensures s[0] < y
        {
          if y in s[1..] {
            var j :| 0 <= j < |s[1..]| && s[1..][j] == y;
            assert s[j + 1] == y;
          }
        }
      }
      assert forall j :: 0 < j < |[s[0]] + r| ==> ([s[0]] + r)[j] in r;
      [s[0]] + r
  }

  /** `np.unique(labels)`: the distinct labels in ascending order. */
  function UniqueSorted(labels: seq<int>): (u: seq<int>)
    ensures StrictlyIncreasing(u)
    ensures forall y :: y in u <==> y in labels
    ensures |u| <= |labels|
  {
    if |labels| == 0 then []
    else Insert(labels[|labels| - 1], UniqueSorted(labels[..|labels| - 1]))
  }

  /** A strictly increasing sequence is determined by its elements, so the
      contract of `UniqueSorted` fixes its result. */
  lemma {:induction false} StrictlyIncreasingUnique(a: seq<int>, b: seq<int>)
    requires StrictlyIncreasing(a) && StrictlyIncreasing(b)
    requires forall y :: y in a <==> y in b
    ensures a == b
    decreases |a|
  {
    assert a != [] ==> a[0] in a && a[0] in b;
    assert b != [] ==> b[0] in b && b[0] in a;
    if a != [] && b != [] {
      forall y
        ensures y in a[1..] <==> y in b[1..]
      {
        if y in a[1..] {
          assert y in b;
          assert y != b[0];
        }
        if y in b[1..] {
          assert y in a;
          assert y != a[0];
        }
      }
      StrictlyIncreasingUnique(a[1..], b[1..]);
      assert a == [a[0]] + a[1..];
      assert b == [b[0]] + b[1..];
    }
  }

  /** The positions the mask `labels == id` selects, in ascending order. */
  function Indices(labels: seq<int>, id: int): (ix: seq<nat>)
    ensures forall j :: 0 <= j < |ix| ==> ix[j] < |labels| && labels[ix[j]] == id
    ensures forall i :: 0 <= i < |labels| && labels[i] == id ==> i in ix
    ensures StrictlyIncreasing(ix)
    ensures |ix| == multiset(labels)[id]
  {
    if |labels| == 0 then []
    else
      var n := |labels| - 1;
      var prev := Indices(labels[..n], id);
      IndicesSnoc(labels, id, prev);
      prev + (if labels[n] == id then [n] else [])
  }

  /** One step of `Indices`: extending the mask positions of all labels but
      the last by the last position when it is selected. */
  lemma IndicesSnoc(labels: seq<int>, id: int, prev: seq<nat>)
    requires |labels| > 0
    requires forall j :: 0 <= j < |prev| ==> prev[j] < |labels| - 1 && labels[prev[j]] == id
    requires forall i :: 0 <= i < |labels| - 1 && labels[i] == id ==> i in prev
    requires StrictlyIncreasing(prev)
    requires |prev| == multiset(labels[..|labels| - 1])[id]
    ensures var ix := prev + (if labels[|labels| - 1] == id then [|labels| - 1] else []);
      && (forall j :: 0 <= j < |ix| ==> ix[j] < |labels| && labels[ix[j]] == id)
      && (forall i :: 0 <= i < |labels| && labels[i] == id ==> i in ix)
      && StrictlyIncreasing(ix)
      && |ix| == multiset(labels)[id]
  {
    var n := |labels| - 1;
    var ix := prev + (if labels[n] == id then [n] else []);
    SnocSorted(prev, n, labels[n] == id);
    SnocCount(labels, id, |prev|);
    assert forall i :: 0 <= i < n ==> labels[..n][i] == labels[i];
  }

  lemma SnocSorted(prev: seq<nat>, n: nat, add: bool)
    requires StrictlyIncreasing(prev)
    requires forall j :: 0 <= j < |prev| ==> prev[j] < n
    ensures StrictlyIncreasing(prev + (if add then [n] else []))
  {
  }

  lemma SnocCount(labels: seq<int>, id: int, c: nat)
    requires |labels| > 0
    requires c == multiset(labels[..|labels| - 1])[id]
    ensures c + (if labels[|labels| - 1] == id then 1 else 0) == multiset(labels)[id]
  {
    var n := |labels| - 1;
    assert labels == labels[..n] + [labels[n]];
    assert multiset(labels) == multiset(labels[..n]) + multiset{labels[n]};
  }

  /** In a strictly increasing sequence a value sits at one position only. */
  lemma PositionUnique(u: seq<int>, k: int)
    requires StrictlyIncreasing(u)
    requires 0 <= k < |u|
    ensures forall k' :: 0 <= k' < |u| ==> (u[k'] == u[k] <==> k' == k)
  {
    forall k' | 0 <= k' < |u| && k' != k
      ensures u[k'] != u[k]
    {
      if k' < k { assert u[k'] < u[k]; } else { assert u[k] < u[k']; }
    }
  }

  /** Position `i` is selected by the mask `labels == id` exactly when it
      carries the label `id`. */
  lemma InIndices(labels: seq<int>, id: int, i: int)
    requires 0 <= i < |labels|
    ensures i in Indices(labels, id) <==> labels[i] == id
  {
    var ix := Indices(labels, id);
    if i in ix {
      var j :| 0 <= j < |ix| && ix[j] == i;
    }
  }

  /** Every position is selected by the mask of exactly one distinct label:
      its own. */
  lemma PositionInExactlyOneMask(labels: seq<int>, i: int) returns (k: int)
    requires 0 <= i < |labels|
    ensures 0 <= k < |UniqueSorted(labels)| && UniqueSorted(labels)[k] == labels[i]
    ensures forall k' :: 0 <= k' < |UniqueSorted(labels)| ==>
      (i in Indices(labels, UniqueSorted(labels)[k']) <==> k' == k)
  {
    var u := UniqueSorted(labels);
    assert labels[i] in u;
    k :| 0 <= k < |u| && u[k] == labels[i];
    PositionUnique(u, k);
    forall k' | 0 <= k' < |u|
      ensures i in Indices(labels, u[k']) <==> k' == k
    {
      InIndices(labels, u[k'], i);
    }
  }

  /** `xs[labels == id]`: the elements of `xs` the mask selects, in their
      original order. */
  function Select<T>(xs: seq<T>, labels: seq<int>, id: int): (r: seq<T>)
    requires |xs| == |labels|
    ensures |r| == |Indices(labels, id)|
    ensures forall j :: 0 <= j < |r| ==> r[j] == xs[Indices(labels, id)[j]]
  {
    if |labels| == 0 then []
    else
      var n := |labels| - 1;
      var prev := Select(xs[..n], labels[..n], id);
      SelectSnoc(xs, labels, id, prev);
      prev + (if labels[n] == id then [xs[n]] else [])
  }

  /** One step of `Select`: the selection from all but the last position,
      extended by the last element when the mask selects it. */
  lemma SelectSnoc<T>(xs: seq<T>, labels: seq<int>, id: int, prev: seq<T>)
    requires |xs| == |labels| > 0
    requires |prev| == |Indices(labels[..|labels| - 1], id)|
    requires forall j :: 0 <= j < |prev| ==>
      prev[j] == xs[..|labels| - 1][Indices(labels[..|labels| - 1], id)[j]]
    ensures var n := |labels| - 1;
      var r := prev + (if labels[n] == id then [xs[n]] else []);
      && |r| == |Indices(labels, id)|
      && forall j :: 0 <= j < |r| ==> r[j] == xs[Indices(labels, id)[j]]
  {
    var n := |labels| - 1;
    var ip := Indices(labels[..n], id);
    var ix := Indices(labels, id);
    assert ix == ip + (if labels[n] == id then [n] else []);
    var r := prev + (if labels[n] == id then [xs[n]] else []);
    forall j | 0 <= j < |r|
      ensures r[j] == xs[ix[j]]
    {
      if j < |prev| {
        assert ix[j] == ip[j] && ip[j] < n;
      }
    }
  }

  /** Sum of the occurrence counts in `labels` of the values in `ids`. */
  function TotalCount(ids: seq<int>, labels: seq<int>): nat {
    if ids == [] then 0 else multiset(labels)[ids[0]] + TotalCount(ids[1..], labels)
  }

  lemma {:induction false} TotalCountSnoc(ids: seq<int>, labels: seq<int>, y: int)
    ensures TotalCount(ids, labels + [y]) == TotalCount(ids, labels) + multiset(ids)[y]
    decreases |ids|
  {
    if ids != [] {
      TotalCountSnoc(ids[1..], labels, y);
      assert ids == [ids[0]] + ids[1..];
      assert multiset(labels + [y]) == multiset(labels) + multiset{y};
    }
  }

  lemma {:induction false} OccursOnce(ids: seq<int>, y: int)
    requires StrictlyIncreasing(ids) && y in ids
    ensures multiset(ids)[y] == 1
    decreases |ids|
  {
    assert ids == [ids[0]] + ids[1..];
    if ids[0] == y {
      assert y !in ids[1..];
    } else {
      OccursOnce(ids[1..], y);
    }
  }

  /** Counting every label once per distinct value accounts for all labels. */
  lemma {:induction false} TotalCountOfUnique(ids: seq<int>, labels: seq<int>)
    requires StrictlyIncreasing(ids)
    requires forall y :: y in labels ==> y in ids
    ensures TotalCount(ids, labels) == |labels|
    decreases |labels|
  {
    if labels == [] {
      TotalCountEmpty(ids);
    } else {
      var n := |labels| - 1;
      assert labels == labels[..n] + [labels[n]];
      TotalCountOfUnique(ids, labels[..n]);
      TotalCountSnoc(ids, labels[..n], labels[n]);
      OccursOnce(ids, labels[n]);
    }
  }

  lemma {:induction false} TotalCountEmpty(ids: seq<int>)
    ensures TotalCount(ids, []) == 0
    decreases |ids|
  {
    if ids != [] {
      TotalCountEmpty(ids[1..]);
    }
  }
}
