/** Python's `range(start, stop, step)` for a positive step, as a sequence of integers.
    (`range` with step 0 raises ValueError; the core only ever steps forward.) */
module Ranges {

  function Range(start: int, stop: int, step: int): (r: seq<int>)
    requires step > 0
    ensures |r| == 0 <==> start >= stop
    ensures forall k :: 0 <= k < |r| ==> start <= r[k] < stop
    decreases stop - start
  {
    if start >= stop then [] else [start] + Range(start + step, stop, step)
  }

  /** Element k of a range is start + k * step, and the range stops at the last such value below stop. */
  lemma {:induction false} RangeAt(start: int, stop: int, step: int, k: nat)
    requires step > 0
    requires k < |Range(start, stop, step)|
    ensures Range(start, stop, step)[k] == start + k * step
    decreases stop - start
  {
    if k > 0 {
      RangeAt(start + step, stop, step, k - 1);
      assert start + step + (k - 1) * step == start + k * step;
    }
  }

  /** Every element of a range at once: element k is start + k * step. */
  lemma RangeElements(start: int, stop: int, step: int)
    requires step > 0
    ensures forall k :: 0 <= k < |Range(start, stop, step)| ==> Range(start, stop, step)[k] == start + k * step
  {
    forall k | 0 <= k < |Range(start, stop, step)| ensures Range(start, stop, step)[k] == start + k * step {
      RangeAt(start, stop, step, k);
    }
  }

  /** The last element of a non-empty range is within one step of stop. */
  lemma {:induction false} RangeComplete(start: int, stop: int, step: int)
    requires step > 0
    requires start < stop
    ensures var r := Range(start, stop, step); r[|r| - 1] + step >= stop
    decreases stop - start
  {
    if start + step < stop {
      RangeComplete(start + step, stop, step);
    }
  }

  /** `range(a, a + n * step, step)` has exactly n elements, the k-th being a + k * step. */
  lemma {:induction false} RangeOfMultiple(start: int, n: nat, step: int)
    requires step > 0
    ensures |Range(start, start + n * step, step)| == n
    ensures forall k :: 0 <= k < n ==> Range(start, start + n * step, step)[k] == start + k * step
    decreases n
  {
    if n > 0 {
      assert start + n * step == (start + step) + (n - 1) * step;
      RangeOfMultiple(start + step, n - 1, step);
      forall k | 0 <= k < n
        ensures Range(start, start + n * step, step)[k] == start + k * step
      {
        if k > 0 {
          assert (start + step) + (k - 1) * step == start + k * step;
        }
      }
    }
  }

  /** Membership in a unit-step range is exactly the half-open interval. */
  lemma {:induction false} UnitRangeMembership(start: int, stop: int, x: int)
    ensures x in Range(start, stop, 1) <==> start <= x < stop
    decreases stop - start
  {
    if start < stop {
      UnitRangeMembership(start + 1, stop, x);
    }
  }
}
