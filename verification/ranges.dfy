/** Python's `range(start, stop, step)` for a positive step, and the ceiling
    division that gives its length. */
module Ranges {

  /** The number of strides of length `step` needed to cover `span` items. */
  function CeilDiv(span: nat, step: nat): nat
    requires step >= 1
    decreases span
  {
    if span == 0 then 0
    else 1 + CeilDiv(if span > step then span - step else 0, step)
  }

  /** `CeilDiv` is the ceiling of `span / step`: the least number of strides
      whose total length reaches `span`. */
  lemma {:induction false} CeilDivBounds(span: nat, step: nat)
    requires step >= 1
    ensures CeilDiv(span, step) * step >= span
    ensures span > 0 ==> (CeilDiv(span, step) - 1) * step < span
    decreases span
  {
    if span > 0 {
      var rest := if span > step then span - step else 0;
      CeilDivBounds(rest, step);
      var q := CeilDiv(rest, step);
      assert (1 + q) * step == step + q * step;
    }
  }

  /** `range(start, stop, step)` with `step >= 1`: `start`, `start + step`, ...
      while below `stop`. */
  function Range(start: int, stop: int, step: nat): (r: seq<int>)
    requires step >= 1
    ensures |r| == if start < stop then CeilDiv(stop - start, step) else 0
    ensures |r| > 0 ==> r[0] == start
    ensures forall k :: 0 <= k < |r| ==> start <= r[k] < stop
    ensures |r| > 0 ==> r[|r| - 1] + step >= stop
    decreases stop - start
  {
    if start >= stop then [] else [start] + Range(start + step, stop, step)
  }

  /** Neighbouring elements of a range are one step apart. */
  lemma {:induction false} RangeStep(start: int, stop: int, step: nat, k: nat)
    requires step >= 1 && k + 1 < |Range(start, stop, step)|
    ensures Range(start, stop, step)[k + 1] == Range(start, stop, step)[k] + step
    decreases k
  {
    var rest := Range(start + step, stop, step);
    assert Range(start, stop, step) == [start] + rest;
    if k > 0 {
      RangeStep(start + step, stop, step, k - 1);
    }
  }

  /** Past its first element, a range is the range one step further on. */
  lemma RangeTail(start: int, stop: int, step: nat, k: nat)
    requires step >= 1 && 0 < k < |Range(start, stop, step)|
    ensures k - 1 < |Range(start + step, stop, step)|
    ensures Range(start, stop, step)[k] == Range(start + step, stop, step)[k - 1]
  {
    assert Range(start, stop, step) == [start] + Range(start + step, stop, step);
  }

  /** Element `k` of a range is `start + k * step`. */
  lemma {:induction false} RangeElement(start: int, stop: int, step: nat, k: nat)
    requires step >= 1 && k < |Range(start, stop, step)|
    ensures Range(start, stop, step)[k] == start + k * step
    decreases k
  {
    if k > 0 {
      RangeElement(start, stop, step, k - 1);
      RangeStep(start, stop, step, k - 1);
      assert (k - 1) * step + step == k * step;
    }
  }

  /** `CeilDiv` is the ceiling of the quotient, written with Euclidean division. */
  lemma CeilDivIsQuotient(span: nat, step: nat)
    requires step >= 1
    ensures CeilDiv(span, step) == (span + step - 1) / step
  {
    var q := CeilDiv(span, step);
    var x := span + step - 1;
    if span == 0 {
      assert x / step == 0;
    } else {
      CeilDivBounds(span, step);
      assert (q - 1) * step == q * step - step;
      assert q * step <= x < q * step + step;
      DivisionUnique(x, step, q);
    }
  }

  /** The quotient is the one multiple that brackets the dividend. */
  lemma DivisionUnique(x: nat, d: nat, q: nat)
    requires d >= 1
    requires q * d <= x < q * d + d
    ensures x / d == q
  {
    var q' := x / d;
    assert q' * d <= x < q' * d + d;
    if q' > q {
      MultiplyMonotone(q + 1, q', d);
    } else if q' < q {
      MultiplyMonotone(q' + 1, q, d);
    }
  }

  lemma {:induction false} MultiplyMonotone(a: nat, b: nat, d: nat)
    requires a <= b
    ensures a * d <= b * d
    decreases b - a
  {
    if a < b {
      MultiplyMonotone(a + 1, b, d);
      assert (a + 1) * d == a * d + d;
    }
  }
}
