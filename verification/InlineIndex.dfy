/** The inline index: binary search over a column of the relation itself. */
module InlineIndex {

  // A tuple number has 32 bits; the greatest one stands for no tuple.
  const TUPLE_LIMIT: int := 0x1_0000_0000

  /** How a search ends: at a row, without the value that was asked for, or by reading a row
      behind the last one, where the row buffer holds whatever it held before. */
  datatype Search = Row(row: nat) | Missing | Outside

  predicate Increasing(column: seq<int>) {
    forall i, j | 0 <= i < j < |column| :: column[i] < column[j]
  }

  /** Sorted, with equal values allowed. */
  predicate Sorted(column: seq<int>) {
    forall i, j | 0 <= i < j < |column| :: column[i] <= column[j]
  }

  // ----- Specification

  /** The row a search between `min` and `max` ends at. A search that has to go below the first
      row wraps `max` around and leaves the relation. */
  function Probe(column: seq<int>, target: int, min: nat, max: nat): (r: Search)
    requires min <= max < |column|
    ensures r.Row? ==> min <= r.row <= max
    ensures !r.Missing?
    decreases max - min
  {
    var center := min + (max - min) / 2;
    if target == column[center] then Row(center)
    else if target > column[center] then
      if center < max then Probe(column, target, center + 1, max) else Row(center)
    else if center == 0 then Outside
    else if min < center then Probe(column, target, min, center - 1)
    else Row(center)
  }

  function SearchFor(column: seq<int>, target: int, exact: bool): (r: Search)
    ensures r.Row? ==> r.row < |column|
  {
    if column == [] then Outside
    else
      var r := Probe(column, target, 0, |column| - 1);
      if r.Row? && exact && column[r.row] != target then Missing else r
  }

  /** An unsigned decrement of a tuple number. */
  function Decrement(x: nat): nat { if x == 0 then TUPLE_LIMIT - 1 else x - 1 }

  /** The loop of binary_search. */
  method BinarySearch(column: seq<int>, target: int, exact: bool) returns (r: Search)
    requires |column| < TUPLE_LIMIT / 2 - 1
    ensures r == SearchFor(column, target, exact)
  {
    var max := Decrement(|column|);
    var min := 0;
    var center, value := 0, 0;
    while true
      invariant 0 <= min <= max < TUPLE_LIMIT
      invariant max < |column| ==>
        SearchFor(column, target, false) == Probe(column, target, min, max)
      invariant max >= |column| ==>
        min == 0 && max == TUPLE_LIMIT - 1 && SearchFor(column, target, false) == Outside
      decreases if max >= |column| then 0 else max - min + 1
    {
      center := min + (max - min) / 2;
      if center >= |column| {
        return Outside;
      }
      value := column[center];
      if target > value {
        min := center + 1;
      } else {
        max := Decrement(center);
      }
      if !(min <= max && target != value) {
        break;
      }
    }
    if exact && target != value {
      return Missing;
    }
    r := Row(center);
  }

  // ----- What a search finds

  /** A search leaves the relation if and only if it is empty or the target lies below its first
      value. */
  lemma {:induction false} LeavesTheRelation(column: seq<int>, target: int, min: nat, max: nat)
    requires Sorted(column) && min <= max < |column|
    requires min > 0 ==> column[min - 1] < target
    ensures Probe(column, target, min, max) == Outside <==> target < column[0]
    decreases max - min
  {
    var center := min + (max - min) / 2;
    if target > column[center] && center < max {
      LeavesTheRelation(column, target, center + 1, max);
    } else if target < column[center] && min < center {
      LeavesTheRelation(column, target, min, center - 1);
    }
  }

  /** All rows before `i` hold smaller values than the target and all behind it greater ones. */
  ghost predicate Near(column: seq<int>, target: int, i: nat) {
    && i < |column|
    && (forall k | 0 <= k < i :: column[k] < target)
    && (forall k | i < k < |column| :: column[k] > target)
  }

  ghost predicate Below(column: seq<int>, target: int, i: nat) {
    forall k | 0 <= k < |column| && k < i :: column[k] < target
  }

  ghost predicate Above(column: seq<int>, target: int, i: nat) {
    forall k | i < k < |column| :: column[k] > target
  }

  /** What the value of one row tells about the others. */
  lemma Sides(column: seq<int>, target: int, c: nat)
    requires Increasing(column) && c < |column|
    ensures column[c] < target ==> Below(column, target, c + 1)
    ensures column[c] > target ==> Above(column, target, c) && (c > 0 ==> Above(column, target, c - 1))
    ensures column[c] == target ==> Below(column, target, c) && Above(column, target, c)
    ensures Below(column, target, c + 1) ==> Below(column, target, c)
    ensures Below(column, target, c) && Above(column, target, c) ==> Near(column, target, c)
  {
  }

  lemma {:induction false} ProbeIsNear(column: seq<int>, target: int, min: nat, max: nat)
    requires Increasing(column) && min <= max < |column|
    requires Below(column, target, min) && Above(column, target, max)
    ensures var r := Probe(column, target, min, max); r.Row? ==> Near(column, target, r.row)
    decreases max - min
  {
    hide Increasing, Below, Above, Near;
    var center := min + (max - min) / 2;
    Sides(column, target, center);
    if target > column[center] && center < max {
      ProbeIsNear(column, target, center + 1, max);
    } else if target < column[center] && min < center {
      ProbeIsNear(column, target, min, center - 1);
    }
  }

  /** Targets that no value separates end at the same row. */
  lemma {:induction false} ProbeSame(column: seq<int>, t: int, u: int, min: nat, max: nat)
    requires min <= max < |column|
    requires forall k | 0 <= k < |column| :: (column[k] < t && column[k] < u) || (column[k] > t && column[k] > u)
    ensures Probe(column, t, min, max) == Probe(column, u, min, max)
    decreases max - min
  {
    var center := min + (max - min) / 2;
    if center < max {
      ProbeSame(column, t, u, center + 1, max);
    }
    if min < center {
      ProbeSame(column, t, u, min, center - 1);
    }
  }

  /** An exact search finds its value's row if and only if there is one. */
  lemma ExactSearch(column: seq<int>, target: int)
    requires Increasing(column) && column != [] && column[0] <= target
    ensures match SearchFor(column, target, true)
      case Row(i) => i < |column| && column[i] == target
      case Missing => target !in column
      case Outside => false
  {
    LeavesTheRelation(column, target, 0, |column| - 1);
    ProbeIsNear(column, target, 0, |column| - 1);
  }

  lemma InexactSearch(column: seq<int>, target: int)
    requires Increasing(column) && column != [] && column[0] <= target
    ensures var r := SearchFor(column, target, false); r.Row? && Near(column, target, r.row)
  {
    LeavesTheRelation(column, target, 0, |column| - 1);
    ProbeIsNear(column, target, 0, |column| - 1);
  }

  // ----- Iteration over a range

  /** What range_search finds for two bounds. */
  datatype Span = Span(start: nat, end: nat) | NoSpan | SpanOutside

  function RangeSearch(column: seq<int>, low: int, high: int): (s: Span)
    ensures s.Span? ==> s.start < |column| && s.end < |column|
  {
    var exact := low == high;
    match SearchFor(column, low, exact)
    case Outside => SpanOutside
    case Missing => NoSpan
    case Row(start) =>
      match SearchFor(column, high, exact)
      case Outside => SpanOutside
      case Missing => NoSpan
      case Row(end) => Span(start, end)
  }

  /** The rows between the two ends are all the rows in the range, and at most one more on each
      side. */
  lemma SpanEncloses(column: seq<int>, low: int, high: int)
    requires Increasing(column) && column != [] && column[0] <= low <= high
    ensures match RangeSearch(column, low, high)
      case Span(start, end) =>
        && start <= end < |column|
        && (forall k | 0 <= k < |column| && low <= column[k] <= high :: start <= k <= end)
        && (forall k | start < k < end :: low <= column[k] <= high)
      case NoSpan => low == high && low !in column
      case SpanOutside => false
  {
    if low == high {
      ExactSearch(column, low);
    } else {
      SpanEnds(column, low, high);
    }
  }

  /** The two ends, in whatever order their bounds are. */
  lemma SpanEnds(column: seq<int>, low: int, high: int)
    requires Increasing(column) && column != [] && column[0] <= low && column[0] <= high && low != high
    ensures var s := RangeSearch(column, low, high);
      && s.Span? && Near(column, low, s.start) && Near(column, high, s.end)
      && if low < high then s.start <= s.end else s.end <= s.start
  {
    InexactSearch(column, low);
    InexactSearch(column, high);
    var s := RangeSearch(column, low, high);
    if low < high {
      NearInOrder(column, low, s.start, high, s.end);
    } else {
      NearInOrder(column, high, s.end, low, s.start);
    }
  }

  /** A search for one value that the column has. */
  lemma SpanOfOne(column: seq<int>, v: int)
    requires Increasing(column) && v in column
    ensures var s := RangeSearch(column, v, v); s.Span? && s.start == s.end && Near(column, v, s.start)
  {
    ExactSearch(column, v);
  }

  /** Searches for two targets end in the order of these. */
  lemma NearInOrder(column: seq<int>, low: int, i: nat, high: int, j: nat)
    requires low < high && column != [] && Near(column, low, i) && Near(column, high, j)
    requires Probe(column, low, 0, |column| - 1) == Row(i) && Probe(column, high, 0, |column| - 1) == Row(j)
    ensures i <= j
  {
    if j < i {
      forall k | 0 <= k < |column|
        ensures (column[k] < low && column[k] < high) || (column[k] > low && column[k] > high)
      {
        assert k <= j || column[k] > high;
        assert k >= i || column[k] < low;
      }
      ProbeSame(column, low, high, 0, |column| - 1);
    }
  }

  // ----- Columns with equal values

  /** A search on a sorted column ends at one of the rows with the target, or next to where it would be. */
  lemma {:induction false} ProbeSorted(column: seq<int>, target: int, min: nat, max: nat)
    requires Sorted(column) && min <= max < |column|
    requires Below(column, target, min) && Above(column, target, max)
    ensures var r := Probe(column, target, min, max);
      r.Row? ==> column[r.row] == target || Near(column, target, r.row)
    decreases max - min
  {
    hide Below, Above, Near, Sorted;
    var center := min + (max - min) / 2;
    SidesSorted(column, target, center);
    if target > column[center] && center < max {
      ProbeSorted(column, target, center + 1, max);
    } else if target < column[center] && min < center {
      ProbeSorted(column, target, min, center - 1);
    }
  }

  lemma SidesSorted(column: seq<int>, target: int, c: nat)
    requires Sorted(column) && c < |column|
    ensures column[c] < target ==> Below(column, target, c + 1)
    ensures column[c] > target ==> Above(column, target, c) && (c > 0 ==> Above(column, target, c - 1))
    ensures Below(column, target, c + 1) ==> Below(column, target, c)
    ensures Below(column, target, c) && Above(column, target, c) ==> Near(column, target, c)
  {
  }

  lemma SearchSorted(column: seq<int>, target: int)
    requires Sorted(column) && column != [] && column[0] <= target
    ensures var r := SearchFor(column, target, false); r.Row? && (column[r.row] == target || Near(column, target, r.row))
    ensures SearchFor(column, target, true).Row? <==> target in column
  {
    LeavesTheRelation(column, target, 0, |column| - 1);
    ProbeSorted(column, target, 0, |column| - 1);
  }

  /** Of equal values one row is found: a search for one value finds all rows that have it if and only if
      it occurs at most once. */
  lemma EqualValuesAreLost(column: seq<int>, v: int)
    requires Sorted(column) && column != [] && column[0] <= v
    ensures var span := RangeSearch(column, v, v);
      if v in column then
        && span.Span? && span.start == span.end && column[span.start] == v
        && ((forall k | 0 <= k < |column| && column[k] == v :: span.start <= k <= span.end)
            <==> (forall j, k | 0 <= j < k < |column| :: column[j] != v || column[k] != v))
      else span.NoSpan?
  {
    SearchSorted(column, v);
  }

  lemma SpanIsOrdered(column: seq<int>, low: int, high: int)
    requires Sorted(column) && column != [] && column[0] <= low < high
    ensures var span := RangeSearch(column, low, high);
      span.Span? && span.start <= span.end
  {
    SearchSorted(column, low);
    SearchSorted(column, high);
    var span := RangeSearch(column, low, high);
    if span.end < span.start && column[span.start] != low && column[span.end] != high {
      forall k | 0 <= k < |column|
        ensures (column[k] < low && column[k] < high) || (column[k] > low && column[k] > high)
      {
        assert k <= span.end || column[k] > high;
        assert k >= span.start || column[k] < low;
      }
      ProbeSame(column, low, high, 0, |column| - 1);
    }
  }

  /** Before the row a search ends at, only rows with the target itself are not smaller; behind it only
      such rows are not greater. */
  lemma RowsBesides(column: seq<int>, target: int, i: nat, k: nat)
    requires Sorted(column) && i < |column| && k < |column| && (column[i] == target || Near(column, target, i))
    ensures k < i ==> column[k] in column[..i] && (column[k] >= target ==> column[k] == target)
    ensures k > i ==> column[k] in column[i + 1..] && (column[k] <= target ==> column[k] == target)
  {
    if k < i {
      assert column[k] == column[..i][k];
    } else if k > i {
      assert column[k] == column[i + 1..][k - i - 1];
    }
  }

  /** A search for a range finds all its rows if and only if the rows it ends at are the first one with
      the lower bound, if there is any, and the last one with the upper bound. */
  lemma BoundsLoseRows(column: seq<int>, low: int, high: int)
    requires Sorted(column) && column != [] && column[0] <= low < high
    ensures var span := RangeSearch(column, low, high);
      && span.Span? && span.start <= span.end
      && ((forall k | 0 <= k < |column| && low <= column[k] <= high :: span.start <= k <= span.end)
          <==> low !in column[..span.start] && high !in column[span.end + 1..])
  {
    hide Sorted, Near, RangeSearch, SearchFor;
    SpanIsOrdered(column, low, high);
    SpanRows(column, low, high);
    var span := RangeSearch(column, low, high);
    forall k | 0 <= k < |column|
      ensures k < span.start ==> column[k] in column[..span.start] && (column[k] >= low ==> column[k] == low)
      ensures k > span.end ==> column[k] in column[span.end + 1..] && (column[k] <= high ==> column[k] == high)
    {
      RowsBesides(column, low, span.start, k);
      RowsBesides(column, high, span.end, k);
    }
  }

  lemma SpanRows(column: seq<int>, low: int, high: int)
    requires Sorted(column) && column != [] && column[0] <= low < high
    ensures var span := RangeSearch(column, low, high);
      && span.Span? && (column[span.start] == low || Near(column, low, span.start))
      && (column[span.end] == high || Near(column, high, span.end))
  {
    SearchSorted(column, low);
    SearchSorted(column, high);
  }

  ghost predicate AtMostOnce(column: seq<int>, v: int) {
    forall j, k | 0 <= j < k < |column| :: column[j] != v || column[k] != v
  }

  /** In particular a search whose bounds occur at most once finds all rows of its range, whatever equal
      values lie between. */
  lemma BoundsThatOccurOnce(column: seq<int>, low: int, high: int)
    requires Sorted(column) && column != [] && column[0] <= low < high
    requires AtMostOnce(column, low) && AtMostOnce(column, high)
    ensures var span := RangeSearch(column, low, high);
      span.Span? && forall k | 0 <= k < |column| && low <= column[k] <= high :: span.start <= k <= span.end
  {
    hide RangeSearch, AtMostOnce, Near;
    BoundsLoseRows(column, low, high);
    SpanRows(column, low, high);
    var span := RangeSearch(column, low, high);
    NotBesides(column, low, span.start);
    NotBesides(column, high, span.end);
  }

  lemma NotBesides(column: seq<int>, target: int, i: nat)
    requires i < |column| && (column[i] == target || Near(column, target, i)) && AtMostOnce(column, target)
    ensures target !in column[..i] && target !in column[i + 1..]
  {
    var before, behind := column[..i], column[i + 1..];
    forall k | 0 <= k < |before|
      ensures before[k] != target
    {
      assert before[k] == column[k];
    }
    forall k | 0 <= k < |behind|
      ensures behind[k] != target
    {
      assert behind[k] == column[i + 1 + k];
    }
  }

  /** Both happen: of the rows with 5 and 6, a search from 5 to 6 finds just the middle two, though all
      four are in the range. */
  lemma RangeOfEqualValues()
    ensures RangeSearch([5, 5, 6, 6], 5, 6) == Span(1, 2)
  {
    var column := [5, 5, 6, 6];
    assert Probe(column, 5, 0, 3) == Row(1);
    assert Probe(column, 6, 2, 3) == Row(2);
  }

  /** Searches leave the relation for exactly these bounds. */
  lemma SpanLeaves(column: seq<int>, low: int, high: int)
    requires Sorted(column)
    ensures RangeSearch(column, low, high) == SpanOutside <==> column == [] || low < column[0] || high < column[0]
  {
    if column != [] {
      LeavesTheRelation(column, low, 0, |column| - 1);
      LeavesTheRelation(column, high, 0, |column| - 1);
    }
  }

  /** What an iterator returns: a row, the end, or a read behind the relation. */
  datatype Next = Tuple(row: nat) | NoTuple | Undefined

  /** An index iterator with the two tuple numbers its search has cached. */
  class Iterator {
    const column: seq<int>
    const low: int
    const high: int
    var nextItemNo: nat
    var cachedStart: nat
    var cachedEnd: nat

    constructor (column: seq<int>, low: int, high: int)
      ensures this.column == column && this.low == low && this.high == high && Fresh()
    {
      this.column, this.low, this.high := column, low, high;
      nextItemNo, cachedStart, cachedEnd := 0, 0, 0;
    }

    predicate Fresh()
      reads this
    {
      nextItemNo == 0
    }

    ghost predicate Valid()
      reads this
    {
      && |column| < TUPLE_LIMIT / 2 - 1
      && (nextItemNo > 0 ==> RangeSearch(column, low, high) == Span(cachedStart, cachedEnd))
    }

    /** The first row that is still to come, and the row behind the last one. The start of the
        range comes first even when the end lies before it. */
    ghost function Pending(): (r: (nat, nat))
      reads this
      ensures r.0 <= r.1 <= |column|
    {
      match RangeSearch(column, low, high)
      case Span(start, end) =>
        var stop := if start <= end then end + 1 else start + 1;
        if start + nextItemNo < stop then (start + nextItemNo, stop) else (stop, stop)
      case _ => (0, 0)
    }

    method SearchRange() returns (span: Span)
      requires |column| < TUPLE_LIMIT / 2 - 1
      ensures span == RangeSearch(column, low, high)
    {
      var exact := low == high;
      var start := BinarySearch(column, low, exact);
      if start.Outside? {
        return SpanOutside;
      } else if start.Missing? {
        return NoSpan;
      }
      var end := BinarySearch(column, high, exact);
      if end.Outside? {
        return SpanOutside;
      } else if end.Missing? {
        return NoSpan;
      }
      span := Span(start.row, end.row);
    }

    /** Returns the next row of the range, if any. */
    method GetNext() returns (r: Next)
      requires Valid()
      modifies this
      ensures Valid()
      ensures RangeSearch(column, low, high) == SpanOutside <==> r == Undefined
      ensures var (from, to) := old(Pending());
        if from < to then r == Tuple(from) && Pending() == (from + 1, to) && !Fresh()
        else !r.Tuple? && nextItemNo == old(nextItemNo) && Pending() == old(Pending())
    {
      if nextItemNo == 0 {
        var span := SearchRange();
        if !span.Span? {
          cachedStart, cachedEnd := 0, 0;
          return if span.SpanOutside? then Undefined else NoTuple;
        }
        cachedStart, cachedEnd := span.start, span.end;
        nextItemNo := nextItemNo + 1;
        return Tuple(cachedStart);
      } else if cachedStart + nextItemNo <= cachedEnd {
        r := Tuple(cachedStart + nextItemNo);
        nextItemNo := nextItemNo + 1;
        return;
      }
      r := NoTuple;
    }
  }
}
