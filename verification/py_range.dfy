/** Python's `range(start, stop, step)` as a sequence of integers. */
module PyRange {

  /** Whether `k` is still inside a range that stops at `stop` (exclusive). */
  predicate Continues(k: int, stop: int, step: int) {
    if step > 0 then k < stop else k > stop
  }

  /** The `i`-th value a stepped range would produce, in range or not. */
  function Nth(start: int, step: int, i: nat): int {
    start + i * step
  }

  /** With a positive step, a smaller value comes from an earlier position. */
  lemma NthOrder(start: int, step: int, i: nat, j: nat)
    requires step > 0
    requires Nth(start, step, i) < Nth(start, step, j)
    ensures i < j
  {
  }

  /** The values `range(start, stop, step)` yields, in order. Python raises
      ValueError for a zero step; callers model that case themselves. */
  function Range(start: int, stop: int, step: int): seq<int>
    requires step != 0
    decreases if step > 0 then stop - start else start - stop
  {
    if Continues(start, stop, step) then [start] + Range(start + step, stop, step) else []
  }

  /** Every yielded value is `start + i*step` at position `i` and lies before `stop`. */
  lemma {:induction false} RangeElements(start: int, stop: int, step: int)
    requires step != 0
    ensures forall i :: 0 <= i < |Range(start, stop, step)| ==>
      Range(start, stop, step)[i] == Nth(start, step, i) && Continues(Range(start, stop, step)[i], stop, step)
    decreases if step > 0 then stop - start else start - stop
  {
    if Continues(start, stop, step) {
      var r := Range(start, stop, step);
      var rest := Range(start + step, stop, step);
      RangeElements(start + step, stop, step);
      forall i | 0 <= i < |r|
        ensures r[i] == Nth(start, step, i) && Continues(r[i], stop, step)
      {
        if i > 0 {
          assert r[i] == rest[i - 1];
          assert Nth(start + step, step, i - 1) == Nth(start, step, i);
        }
      }
    }
  }

  /** No value before `stop` is skipped: `start + i*step` in bounds means the
      range has more than `i` elements. */
  lemma {:induction false} RangeComplete(start: int, stop: int, step: int, i: nat)
    requires step != 0
    requires Continues(Nth(start, step, i), stop, step)
    ensures i < |Range(start, stop, step)|
    decreases i
  {
    if i == 0 {
      assert Continues(start, stop, step);
    } else {
      assert Nth(start, step, i) == Nth(start + step, step, i - 1);
      RangeComplete(start + step, stop, step, i - 1);
    }
  }
}
