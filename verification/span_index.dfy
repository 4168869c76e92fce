/** `indexInRegEx` of lib/utils.js: binary search over regular-expression intervals. */
module SpanIndex {
  import opened Spans

  /**
   * JavaScript's `Math.round(n / 2)` for an integer `n`: the nearest integer
   * to `n / 2`, a tie (odd `n`) going up towards positive infinity.
   */
  function RoundHalf(n: int): (r: int)
    ensures 2 * r - 1 <= n <= 2 * r
  {
    (n + 1) / 2
  }

  /** The probe `mid` of one search step; it never leaves the window. */
  function Midpoint(low: int, high: int): (mid: int)
    requires low <= high
    ensures low <= mid <= high
    ensures mid - low >= high - mid && mid - low <= high - mid + 1
  {
    RoundHalf(low + high)
  }

  /**
   * Whether offset `idx` lies inside one of the intervals of `regExData`.
   * A positive answer is always backed by an interval holding `idx`; a
   * negative one is exact when the intervals are ordered.
   */
  method IndexInRegEx(idx: int, regExData: seq<Interval>) returns (found: bool)
    ensures found ==> Contains(regExData, idx)
    ensures Ordered(regExData) ==> (found <==> Contains(regExData, idx))
  {
    var low, high := 0, |regExData| - 1;
    while low <= high
      invariant 0 <= low <= high + 1 <= |regExData|
      invariant Ordered(regExData) ==>
        forall k :: 0 <= k < |regExData| && Within(regExData[k], idx) ==> low <= k <= high
      decreases high - low + 1
    {
      var mid := Midpoint(low, high);
      var a := regExData[mid];
      if idx >= a.start {
        if idx <= a.end {
          assert Within(regExData[mid], idx);
          return true;
        }
        low := mid + 1;
      } else {
        high := mid - 1;
      }
    }
    return false;
  }
}
