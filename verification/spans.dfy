/**
 * Closed intervals of absolute character offsets, as produced by `parseRegEx`
 * and searched by `indexInRegEx` in lib/utils.js.
 */
module Spans {

  /** An object `{start, end}`; both ends are inclusive. */
  datatype Interval = Interval(start: int, end: int)

  /** Offset `idx` lies in `iv`, counting both ends. */
  predicate Within(iv: Interval, idx: int) {
    iv.start <= idx <= iv.end
  }

  /** Some interval of `spans` holds `idx`. */
  predicate Contains(spans: seq<Interval>, idx: int) {
    exists k :: 0 <= k < |spans| && Within(spans[k], idx)
  }

  /** The starts never decrease along the sequence. */
  predicate SortedByStart(spans: seq<Interval>) {
    forall i, j :: 0 <= i < j < |spans| ==> spans[i].start <= spans[j].start
  }

  /** Every interval ends before any later interval starts. */
  predicate NonOverlapping(spans: seq<Interval>) {
    forall i, j :: 0 <= i < j < |spans| ==> spans[i].end < spans[j].start
  }

  /** The shape the binary search relies on. */
  predicate Ordered(spans: seq<Interval>) {
    SortedByStart(spans) && NonOverlapping(spans)
  }
}
