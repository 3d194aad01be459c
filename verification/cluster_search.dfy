/** The cluster-count search of the index builder: try every candidate k of
    `range(min_k, max_k + 1, step)` and keep the one with the best
    silhouette score. The clustering and the silhouette metric themselves are
    an uninterpreted `score` function. */
module ClusterSearch {
  import opened Results
  import opened PyRange

  /** Python's `range` refuses a zero step with ValueError. */
  datatype SearchError = ZeroStep

  /** Initial best score; only a candidate scoring strictly above it can win. */
  const Floor: real := -1.0

  /** No candidate scores above the floor, so the running best is never replaced. */
  predicate NoneAboveFloor(score: int -> real, cs: seq<int>) {
    forall j :: 0 <= j < |cs| ==> score(cs[j]) <= Floor
  }

  /** Position `i` holds the first candidate with the maximum score, and that
      maximum lies above the floor. */
  predicate IsFirstMaximum(score: int -> real, cs: seq<int>, i: int) {
    && 0 <= i < |cs|
    && Floor < score(cs[i])
    && (forall j :: 0 <= j < |cs| ==> score(cs[j]) <= score(cs[i]))
    && (forall j :: 0 <= j < i ==> score(cs[j]) < score(cs[i]))
  }

  /** The value the search must return for candidates `cs`: the default when
      nothing beats the floor, otherwise the first candidate with the best score. */
  predicate IsChoice(score: int -> real, cs: seq<int>, default: int, k: int) {
    if NoneAboveFloor(score, cs) then k == default
    else exists i :: 0 <= i < |cs| && IsFirstMaximum(score, cs, i) && cs[i] == k
  }

  /** The candidates `find_optimal_clusters` walks through. */
  function Candidates(minK: int, maxK: int, step: int): seq<int>
    requires step != 0
  {
    Range(minK, maxK + 1, step)
  }

  /** `find_optimal_clusters`: a running best that starts at (-1, min_k) and is
      replaced only by a strictly greater score. */
  method FindOptimalClusters(score: int -> real, minK: int, maxK: int, step: int)
    returns (r: Result<int, SearchError>)
    ensures r.Err? <==> step == 0
    ensures r.Ok? ==> IsChoice(score, Candidates(minK, maxK, step), minK, r.value)
  {
    if step == 0 {
      return Err(ZeroStep);
    }
    ghost var cs := Candidates(minK, maxK, step);
    var bestScore := Floor;
    var bestK := minK;
    var k := minK;
    ghost var i := 0;
    ghost var bi := 0;
    while Continues(k, maxK + 1, step)
      invariant 0 <= i <= |cs|
      invariant cs[i..] == Range(k, maxK + 1, step)
      invariant Floor <= bestScore
      invariant forall j :: 0 <= j < i ==> score(cs[j]) <= bestScore
      invariant bestScore == Floor ==> bestK == minK
      invariant Floor < bestScore ==> 0 <= bi < i && cs[bi] == bestK && score(bestK) == bestScore
      invariant Floor < bestScore ==> forall j :: 0 <= j < bi ==> score(cs[j]) < bestScore
      decreases |cs| - i
    {
      assert cs[i] == k;
      var s := score(k);
      if s > bestScore {
        bestScore := s;
        bestK := k;
        bi := i;
      }
      assert cs[i + 1..] == cs[i..][1..];
      k := k + step;
      i := i + 1;
    }
    assert IsChoice(score, cs, minK, bestK) by {
      if Floor < bestScore {
        assert IsFirstMaximum(score, cs, bi);
      }
    }
    return Ok(bestK);
  }

  /** The contract of the search pins its answer down: two values that both
      satisfy it are equal. */
  lemma ChoiceUnique(score: int -> real, cs: seq<int>, default: int, k1: int, k2: int)
    requires IsChoice(score, cs, default, k1)
    requires IsChoice(score, cs, default, k2)
    ensures k1 == k2
  {
    if !NoneAboveFloor(score, cs) {
      var i1 :| 0 <= i1 < |cs| && IsFirstMaximum(score, cs, i1) && cs[i1] == k1;
      var i2 :| 0 <= i2 < |cs| && IsFirstMaximum(score, cs, i2) && cs[i2] == k2;
    }
  }

  /** With an ascending range that is empty, or with no score above -1, the
      search falls back to `min_k`. */
  lemma ChoiceDefault(score: int -> real, minK: int, maxK: int, step: int, k: int)
    requires step > 0
    requires minK > maxK || NoneAboveFloor(score, Candidates(minK, maxK, step))
    requires IsChoice(score, Candidates(minK, maxK, step), minK, k)
    ensures k == minK
  {
    if minK > maxK {
      assert Candidates(minK, maxK, step) == [];
    }
  }

  /** Position `j` of an ascending candidate range holds `min_k + j*step`,
      which is at most `max_k`. */
  lemma CandidateAt(minK: int, maxK: int, step: int, j: int)
    requires step > 0
    requires 0 <= j < |Candidates(minK, maxK, step)|
    ensures Candidates(minK, maxK, step)[j] == Nth(minK, step, j) <= maxK
  {
    RangeElements(minK, maxK + 1, step);
  }

  /** Every `min_k + i*step` up to `max_k` is a candidate, at position `i`. */
  lemma CandidateIndex(minK: int, maxK: int, step: int, i: nat)
    requires step > 0
    requires Nth(minK, step, i) <= maxK
    ensures i < |Candidates(minK, maxK, step)|
    ensures Candidates(minK, maxK, step)[i] == Nth(minK, step, i)
  {
    RangeComplete(minK, maxK + 1, step, i);
    CandidateAt(minK, maxK, step, i);
  }

  /** With an ascending range, the chosen k is `min_k` or a candidate
      `min_k + i*step` not beyond `max_k`. */
  lemma ChoiceIsCandidate(score: int -> real, minK: int, maxK: int, step: int, k: int)
    requires step > 0
    requires IsChoice(score, Candidates(minK, maxK, step), minK, k)
    ensures k == minK || exists i: nat :: k == Nth(minK, step, i) && k <= maxK
    ensures !NoneAboveFloor(score, Candidates(minK, maxK, step)) ==>
      exists i: nat :: k == Nth(minK, step, i) && k <= maxK
  {
    var cs := Candidates(minK, maxK, step);
    if !NoneAboveFloor(score, cs) {
      var j :| 0 <= j < |cs| && IsFirstMaximum(score, cs, j) && cs[j] == k;
      CandidateAt(minK, maxK, step, j);
    }
  }

  /** With an ascending range and some score above -1, the chosen k scores
      above -1, no candidate up to `max_k` scores more, and every candidate
      smaller than k scores strictly less (ties go to the smallest k). */
  lemma ChoiceIsBest(score: int -> real, minK: int, maxK: int, step: int, k: int)
    requires step > 0
    requires IsChoice(score, Candidates(minK, maxK, step), minK, k)
    requires !NoneAboveFloor(score, Candidates(minK, maxK, step))
    ensures Floor < score(k)
    ensures forall i: nat :: Nth(minK, step, i) <= maxK ==> score(Nth(minK, step, i)) <= score(k)
    ensures forall i: nat :: Nth(minK, step, i) < k ==> score(Nth(minK, step, i)) < score(k)
  {
    var cs := Candidates(minK, maxK, step);
    var j :| 0 <= j < |cs| && IsFirstMaximum(score, cs, j) && cs[j] == k;
    CandidateAt(minK, maxK, step, j);
    forall i: nat | Nth(minK, step, i) <= maxK
      ensures score(Nth(minK, step, i)) <= score(k)
    {
      CandidateIndex(minK, maxK, step, i);
    }
    forall i: nat | Nth(minK, step, i) < k
      ensures score(Nth(minK, step, i)) < score(k)
    {
      CandidateIndex(minK, maxK, step, i);
      NthOrder(minK, step, i, j);
    }
  }
}
