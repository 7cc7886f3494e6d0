/**
 * The comparison-only part of a one-dimensional coordinate axis (`CoordinateAxis1D`): cell edges and
 * bounds, the searches that map a coordinate value to a cell index, subsetting an axis by a range,
 * and the derived minimum, maximum and direction. Values are modelled as integers; the routines
 * modelled here only compare and copy them.
 */
module CoordAxis1D {
  import opened Wrappers
  import opened Ranges

  predicate NonDecreasing(s: seq<int>)
  {
    forall i, j :: 0 <= i < j < |s| ==> s[i] <= s[j]
  }

  predicate NonIncreasing(s: seq<int>)
  {
    forall i, j :: 0 <= i < j < |s| ==> s[i] >= s[j]
  }

  predicate StrictlyIncreasing(s: seq<int>)
  {
    forall i, j :: 0 <= i < j < |s| ==> s[i] < s[j]
  }

  predicate StrictlyDecreasing(s: seq<int>)
  {
    forall i, j :: 0 <= i < j < |s| ==> s[i] > s[j]
  }

  /** Cell i contains the target: `low[i] <= target <= high[i]`. */
  predicate Hit(low: seq<int>, high: seq<int>, target: int, i: int)
    requires 0 <= i < |low| && |low| == |high|
  {
    low[i] <= target && target <= high[i]
  }

  /** Number of cells among the first n that contain the target. */
  function HitCount(low: seq<int>, high: seq<int>, target: int, n: nat): nat
    requires n <= |low| && |low| == |high|
  {
    if n == 0 then 0 else HitCount(low, high, target, n - 1) + (if Hit(low, high, target, n - 1) then 1 else 0)
  }

  /** The last of the first n cells that contains the target, or -1. */
  function LastHit(low: seq<int>, high: seq<int>, target: int, n: nat): int
    requires n <= |low| && |low| == |high|
  {
    if n == 0 then -1 else if Hit(low, high, target, n - 1) then n - 1 else LastHit(low, high, target, n - 1)
  }

  /**
   * No hit means no cell contains the target; exactly one hit means `LastHit` is the one cell that does.
   */
  lemma {:induction false} HitCountMeaning(low: seq<int>, high: seq<int>, target: int, n: nat)
    requires n <= |low| && |low| == |high|
    ensures HitCount(low, high, target, n) == 0 <==> forall i :: 0 <= i < n ==> !Hit(low, high, target, i)
    ensures HitCount(low, high, target, n) == 1 ==>
      0 <= LastHit(low, high, target, n) < n && forall i :: 0 <= i < n ==> (Hit(low, high, target, i) <==> i == LastHit(low, high, target, n))
  {
    if n > 0 {
      HitCountMeaning(low, high, target, n - 1);
    }
  }

  /** `findSingleHit(low, high, target)`: how many cells contain the target, and the last of them. */
  method FindSingleHit(low: seq<int>, high: seq<int>, target: int) returns (hits: nat, idxFound: int)
    requires |low| == |high|
    ensures hits == HitCount(low, high, target, |low|)
    ensures idxFound == LastHit(low, high, target, |low|)
  {
    hits := 0;
    idxFound := -1;
    for i := 0 to |low|
      invariant hits == HitCount(low, high, target, i)
      invariant idxFound == LastHit(low, high, target, i)
    {
      if low[i] <= target && target <= high[i] {
        hits := hits + 1;
        idxFound := i;
      }
    }
  }

  /** The values of `s` at the indexes of `r`, in r's order. */
  function Pick<T>(s: seq<T>, r: Range): (p: seq<T>)
    requires r.Valid() && r.last < |s|
    ensures |p| == r.Length()
  {
    seq(r.Length(), i requires 0 <= i < r.Length() => (ElementIn(r, i); s[r.Element(i)]))
  }

  lemma ElementIn(r: Range, i: int)
    requires r.Valid() && 0 <= i < r.Length()
    ensures r.first <= r.Element(i) <= r.last
    ensures i == r.Length() - 1 ==> r.Element(i) == r.last
  {
    ElementOnStride(r, i);
    Span(r);
    assert r.Elements()[i] == r.Element(i);
  }

  lemma ElementsIncrease(r: Range, i: int, j: int)
    requires r.Valid() && 0 <= i < j < r.Length()
    ensures r.Element(i) < r.Element(j)
  {
    assert r.Element(j) - r.Element(i) == (j - i) * r.stride;
    MulPositive(j - i, r.stride);
  }

  lemma MulPositive(a: int, b: int)
    requires a >= 1 && b >= 1
    ensures a * b >= 1
  {
  }

  /** A section of a strictly monotone sequence keeps its direction. */
  lemma PickKeepsDirection(s: seq<int>, r: Range)
    requires r.Valid() && r.last < |s|
    ensures StrictlyIncreasing(s) ==> StrictlyIncreasing(Pick(s, r))
    ensures StrictlyDecreasing(s) ==> StrictlyDecreasing(Pick(s, r))
  {
    var p := Pick(s, r);
    if StrictlyIncreasing(s) {
      forall i, j | 0 <= i < j < |p| ensures p[i] < p[j] {
        PickAt(s, r, i);
        PickAt(s, r, j);
        ElementsIncrease(r, i, j);
      }
    }
    if StrictlyDecreasing(s) {
      forall i, j | 0 <= i < j < |p| ensures p[i] > p[j] {
        PickAt(s, r, i);
        PickAt(s, r, j);
        ElementsIncrease(r, i, j);
      }
    }
  }

  lemma PickAt<T>(s: seq<T>, r: Range, i: int)
    requires r.Valid() && r.last < |s| && 0 <= i < r.Length()
    ensures r.first <= r.Element(i) <= r.last && Pick(s, r)[i] == s[r.Element(i)]
  {
    ElementIn(r, i);
  }

  /** `doRead`'s direction test: ascending for fewer than two values, else when the first is below the second. */
  function AscendingTest(coords: seq<int>): (r: bool)
    ensures StrictlyIncreasing(coords) ==> r
    ensures StrictlyDecreasing(coords) && |coords| >= 2 ==> !r
  {
    |coords| < 2 || coords[0] < coords[1]
  }

  /** The ascending half of `findCoordElementIrregular` over `n + 1 = |edge|` edges. */
  ghost predicate AscendingAnswer(edge: seq<int>, target: int, bounded: bool, r: int)
    requires |edge| >= 2
  {
    var n := |edge| - 1;
    (target < edge[0] ==> r == (if bounded then 0 else -1)) &&
    (edge[0] <= target && target > edge[n] ==> r == (if bounded then n - 1 else -1)) &&
    (edge[0] <= target <= edge[n] ==> 0 <= r < n && edge[r] <= target && (edge[r] == target || target <= edge[r + 1])) &&
    (StrictlyIncreasing(edge) ==> forall k :: 0 <= k < n && edge[k] == target ==> r == k)
  }

  /** The descending half of `findCoordElementIrregular`, the mirror image of the ascending one. */
  ghost predicate DescendingAnswer(edge: seq<int>, target: int, bounded: bool, r: int)
    requires |edge| >= 2
  {
    var n := |edge| - 1;
    (target > edge[0] ==> r == (if bounded then 0 else -1)) &&
    (edge[0] >= target && target < edge[n] ==> r == (if bounded then n - 1 else -1)) &&
    (edge[0] >= target >= edge[n] ==> 0 <= r < n && edge[r] >= target && (edge[r] == target || target >= edge[r + 1])) &&
    (StrictlyDecreasing(edge) ==> forall k :: 0 <= k < n && edge[k] == target ==> r == k)
  }

  datatype SectionError = InvalidRange

  class CoordinateAxis1D {
    const isNumeric: bool
    const isContiguous: bool
    const isRegular: bool
    var isInterval: bool
    var isAscending: bool
    var coords: seq<int>
    var edge: seq<int>
    var bound1: seq<int>
    var bound2: seq<int>
    var names: Option<seq<string>>

    constructor (isNumeric: bool, isContiguous: bool, isRegular: bool, isInterval: bool, coords: seq<int>, edge: seq<int>,
                 bound1: seq<int>, bound2: seq<int>, names: Option<seq<string>>)
      ensures this.isNumeric == isNumeric && this.isContiguous == isContiguous && this.isRegular == isRegular
      ensures this.isInterval == isInterval && this.coords == coords && this.edge == edge
      ensures this.bound1 == bound1 && this.bound2 == bound2 && this.names == names
      ensures isAscending == AscendingTest(coords)
    {
      this.isNumeric := isNumeric;
      this.isContiguous := isContiguous;
      this.isRegular := isRegular;
      this.isInterval := isInterval;
      this.coords := coords;
      this.edge := edge;
      this.bound1 := bound1;
      this.bound2 := bound2;
      this.names := names;
      this.isAscending := AscendingTest(coords);
    }

    /** `doRead` for a numeric axis: takes the values and sets the direction flag. */
    method DoRead(values: seq<int>)
      requires isNumeric
      modifies this
      ensures coords == values && isAscending == AscendingTest(values)
      ensures edge == old(edge) && bound1 == old(bound1) && bound2 == old(bound2) && names == old(names) && isInterval == old(isInterval)
    {
      coords := values;
      isAscending := AscendingTest(values);
    }

    /** `getMinValue`: the smaller of the first and last coordinate. */
    function MinValue(): (v: int)
      requires isNumeric && |coords| > 0
      reads this
      ensures v <= coords[0] && v <= coords[|coords| - 1] && (v == coords[0] || v == coords[|coords| - 1])
    {
      if coords[0] <= coords[|coords| - 1] then coords[0] else coords[|coords| - 1]
    }

    /** `getMaxValue`: the larger of the first and last coordinate. */
    function MaxValue(): (v: int)
      requires isNumeric && |coords| > 0
      reads this
      ensures v >= coords[0] && v >= coords[|coords| - 1] && (v == coords[0] || v == coords[|coords| - 1])
    {
      if coords[0] >= coords[|coords| - 1] then coords[0] else coords[|coords| - 1]
    }

    /** On a monotone axis the first and last coordinate bound every coordinate. */
    lemma MinMaxBoundAll()
      requires isNumeric && |coords| > 0
      requires NonDecreasing(coords) || NonIncreasing(coords)
      ensures forall i :: 0 <= i < |coords| ==> MinValue() <= coords[i] <= MaxValue()
    {
      var n := |coords|;
      forall i | 0 <= i < n ensures MinValue() <= coords[i] <= MaxValue() {
        if NonDecreasing(coords) {
          if 0 < i { assert coords[0] <= coords[i]; }
          if i < n - 1 { assert coords[i] <= coords[n - 1]; }
        } else {
          if 0 < i { assert coords[0] >= coords[i]; }
          if i < n - 1 { assert coords[i] >= coords[n - 1]; }
        }
      }
    }

    /**
     * The answer of `findCoordElementIrregular(target, bounded)` on a contiguous axis. Outside the
     * edges it is -1, or the nearest end cell when bounded. Inside, it is a cell whose lower edge is at
     * most the target and whose upper edge is at least the target, or whose lower edge equals it; all
     * mirrored when the axis descends. On strictly monotone edges an edge equal to the target is found
     * exactly.
     */
    ghost predicate IrregularAnswer(target: int, bounded: bool, r: int)
      requires |coords| >= 1 && |edge| == |coords| + 1
      reads this
    {
      (isAscending ==> AscendingAnswer(edge, target, bounded, r)) &&
      (!isAscending ==> DescendingAnswer(edge, target, bounded, r))
    }

    /** `findCoordElementIrregular(target, bounded)`: binary search over the edges of a contiguous axis. */
    method FindCoordElementIrregular(target: int, bounded: bool) returns (r: int)
      requires |coords| >= 1 && |edge| == |coords| + 1
      ensures IrregularAnswer(target, bounded, r)
    {
      var n := |coords|;
      var low := 0;
      var high := n;
      if isAscending {
        if target < edge[low] {
          return if bounded then 0 else -1;
        } else if target > edge[high] {
          return if bounded then n - 1 else -1;
        }
        while high > low + 1
          invariant 0 <= low < high <= n
          invariant edge[low] <= target <= edge[high]
          invariant StrictlyIncreasing(edge) ==> forall k :: 0 <= k < n && edge[k] == target ==> low <= k < high
          decreases high - low
        {
          var mid := (low + high) / 2;
          var midVal := edge[mid];
          if midVal == target {
            return mid;
          } else if midVal < target {
            low := mid;
          } else {
            high := mid;
          }
        }
        return low;
      } else {
        if target > edge[low] {
          return if bounded then 0 else -1;
        } else if target < edge[high] {
          return if bounded then n - 1 else -1;
        }
        while high > low + 1
          invariant 0 <= low < high <= n
          invariant edge[low] >= target >= edge[high]
          invariant StrictlyDecreasing(edge) ==> forall k :: 0 <= k < n && edge[k] == target ==> low <= k < high
          decreases high - low
        {
          var mid := (low + high) / 2;
          var midVal := edge[mid];
          if midVal == target {
            return mid;
          } else if midVal < target {
            high := mid;
          } else {
            low := mid;
          }
        }
        return high - 1;
      }
    }

    /** On sorted edges an in-range ascending search lands in a cell that brackets the target. */
    lemma IrregularCellBrackets(target: int, r: int)
      requires |coords| >= 1 && |edge| == |coords| + 1 && NonDecreasing(edge)
      requires 0 <= r < |coords| && edge[r] <= target && (edge[r] == target || target <= edge[r + 1]) && target <= edge[|coords|]
      ensures edge[r] <= target <= edge[r + 1]
    {
      if edge[r] == target {
        assert edge[r] <= edge[r + 1];
      }
    }

    /**
     * The answer of `findCoordElementNonContiguous(target, bounded)`. Outside the bounds it is -1, or
     * the nearest end cell when bounded. Inside, a single cell containing the target is the answer; no
     * such cell gives -1 unless bounded; otherwise (several cells, or none when bounded) the nearest
     * midpoint search decides. The cells are `bound1[i] .. bound2[i]`, with the two arrays trading
     * places when the axis descends.
     */
    ghost predicate NonContiguousAnswer(target: int, bounded: bool, findClosest: int -> int, r: int)
      requires |bound1| >= 1 && |bound1| == |bound2|
      reads this
    {
      var n := |bound1|;
      var inRange := if isAscending then bound1[0] <= target <= bound2[n - 1] else bound1[0] >= target >= bound2[n - 1];
      var low := if isAscending then bound1 else bound2;
      var high := if isAscending then bound2 else bound1;
      (isAscending && target < bound1[0] ==> r == (if bounded then 0 else -1)) &&
      (isAscending && bound1[0] <= target && target > bound2[n - 1] ==> r == (if bounded then n - 1 else -1)) &&
      (!isAscending && target > bound1[0] ==> r == (if bounded then 0 else -1)) &&
      (!isAscending && bound1[0] >= target && target < bound2[n - 1] ==> r == (if bounded then n - 1 else -1)) &&
      (inRange && !bounded && (forall i :: 0 <= i < n ==> !Hit(low, high, target, i)) ==> r == -1) &&
      (inRange && HitCount(low, high, target, n) == 1 ==> 0 <= r < n && forall i :: 0 <= i < n ==> (Hit(low, high, target, i) <==> i == r)) &&
      (inRange && HitCount(low, high, target, n) != 1 && (bounded || HitCount(low, high, target, n) >= 2) ==> r == findClosest(target))
    }

    /** `findCoordElementNonContiguous(target, bounded)`: counts the cells whose bounds contain the target. */
    method FindCoordElementNonContiguous(target: int, bounded: bool, findClosest: int -> int) returns (r: int)
      requires |bound1| >= 1 && |bound1| == |bound2|
      ensures NonContiguousAnswer(target, bounded, findClosest, r)
    {
      var n := |bound1|;
      if isAscending {
        if target < bound1[0] {
          return if bounded then 0 else -1;
        } else if target > bound2[n - 1] {
          return if bounded then n - 1 else -1;
        }
        var hits, idx := FindSingleHit(bound1, bound2, target);
        HitCountMeaning(bound1, bound2, target, n);
        if hits == 0 && !bounded {
          return -1;
        }
        if hits == 1 {
          return idx;
        }
        return findClosest(target);
      } else {
        if target > bound1[0] {
          return if bounded then 0 else -1;
        } else if target < bound2[n - 1] {
          return if bounded then n - 1 else -1;
        }
        var hits, idx := FindSingleHit(bound2, bound1, target);
        HitCountMeaning(bound2, bound1, target, n);
        if hits == 0 && !bounded {
          return -1;
        }
        if hits == 1 {
          return idx;
        }
        return findClosest(target);
      }
    }

    /** `findCoordElement(coordVal)`: the regular, contiguous or non-contiguous search, unbounded. */
    method FindCoordElement(target: int, findRegular: (int, bool) -> int, findClosest: int -> int) returns (r: int)
      requires isNumeric
      requires !isRegular && isContiguous ==> |coords| >= 1 && |edge| == |coords| + 1
      requires !isRegular && !isContiguous ==> |bound1| >= 1 && |bound1| == |bound2|
      ensures isRegular ==> r == findRegular(target, false)
      ensures !isRegular && isContiguous ==> IrregularAnswer(target, false, r)
      ensures !isRegular && !isContiguous ==> NonContiguousAnswer(target, false, findClosest, r)
    {
      if isRegular {
        r := findRegular(target, false);
      } else if isContiguous {
        r := FindCoordElementIrregular(target, false);
      } else {
        r := FindCoordElementNonContiguous(target, false, findClosest);
      }
    }

    /** `findCoordElementBounded(coordVal)`: a one-element axis answers 0, otherwise the bounded search. */
    method FindCoordElementBounded(target: int, findRegular: (int, bool) -> int, findClosest: int -> int) returns (r: int)
      requires isNumeric
      requires !isRegular && isContiguous ==> |coords| >= 1 && |edge| == |coords| + 1
      requires !isRegular && !isContiguous ==> |bound1| >= 1 && |bound1| == |bound2|
      ensures |coords| == 1 ==> r == 0
      ensures |coords| != 1 && isRegular ==> r == findRegular(target, true)
      ensures |coords| != 1 && !isRegular && isContiguous ==> IrregularAnswer(target, true, r) && 0 <= r < |coords|
      ensures |coords| != 1 && !isRegular && !isContiguous ==> NonContiguousAnswer(target, true, findClosest, r)
    {
      if |coords| == 1 {
        return 0;
      }
      if isRegular {
        r := findRegular(target, true);
      } else if isContiguous {
        r := FindCoordElementIrregular(target, true);
      } else {
        r := FindCoordElementNonContiguous(target, true, findClosest);
      }
    }

    /**
     * `makeBoundsFromEdges`: cell i runs from edge i to edge i + 1; the two bound arrays trade places
     * when the first lower bound is above the first upper bound.
     */
    method MakeBoundsFromEdges()
      requires |edge| == |coords| + 1
      modifies this
      ensures coords == old(coords) && edge == old(edge) && names == old(names) && isAscending == old(isAscending)
      ensures isInterval == old(isInterval)
      ensures |coords| == 0 ==> bound1 == old(bound1) && bound2 == old(bound2)
      ensures |coords| > 0 && edge[0] <= edge[1] ==> bound1 == edge[..|coords|] && bound2 == edge[1..]
      ensures |coords| > 0 && edge[0] > edge[1] ==> bound1 == edge[1..] && bound2 == edge[..|coords|]
      ensures |coords| > 0 ==> bound1[0] <= bound2[0]
    {
      var size := |coords|;
      if size == 0 {
        return;
      }
      var b1 := new int[size];
      var b2 := new int[size];
      for i := 0 to size
        invariant coords == old(coords) && edge == old(edge) && names == old(names) && isAscending == old(isAscending)
        invariant isInterval == old(isInterval)
        invariant forall k :: 0 <= k < i ==> b1[k] == edge[k] && b2[k] == edge[k + 1]
      {
        b1[i] := edge[i];
        b2[i] := edge[i + 1];
      }
      if b1[0] > b2[0] {
        var temp := b1;
        b1 := b2;
        b2 := temp;
      }
      bound1 := b1[..];
      bound2 := b2[..];
    }

    /**
     * `section(r)`: the axis restricted to the indexes of r. Coordinates and names are picked at r's
     * indexes; the new edges are the old edges at r's indexes followed by the edge closing r's last cell
     * (from the upper bounds on an interval axis). An index past the axis is an invalid range.
     */
    method Section(r: Range, isRegularAfter: bool) returns (res: Result<CoordinateAxis1D, SectionError>)
      requires r.Valid()
      requires names.Some? ==> |names.value| == |coords|
      requires isNumeric && !isInterval ==> |edge| == |coords| + 1
      requires isNumeric && isInterval ==> |bound1| == |coords| && |bound2| == |coords|
      ensures res.Err? <==> r.last >= |coords|
      ensures res.Ok? ==> fresh(res.value)
      ensures res.Ok? && isNumeric ==> res.value.coords == Pick(coords, r)
      ensures res.Ok? && isNumeric && !isInterval ==> res.value.edge == Pick(edge, r) + [edge[r.last + 1]]
      ensures res.Ok? && isNumeric && isInterval ==>
        res.value.bound1 == Pick(bound1, r) && res.value.bound2 == Pick(bound2, r) && res.value.edge == Pick(bound1, r) + [bound2[r.last]]
      ensures res.Ok? && names.Some? ==> res.value.names == Some(Pick(names.value, r))
      ensures res.Ok? ==> res.value.isNumeric == isNumeric && res.value.isInterval == isInterval && res.value.isRegular == isRegularAfter
      ensures res.Ok? ==> res.value.isContiguous == isContiguous && res.value.isAscending == isAscending
    {
      if r.last >= |coords| {
        return Err(InvalidRange);
      }
      var len := r.Length();
      var newCoords := coords;
      var newEdge := edge;
      var newBound1 := bound1;
      var newBound2 := bound2;
      var newNames := names;
      if isNumeric {
        newCoords := PickValues(coords, r);
        if isInterval {
          newBound1 := PickValues(bound1, r);
          newBound2 := PickValues(bound2, r);
          newEdge := IntervalEdges(bound1, bound2, r);
        } else {
          newEdge := SectionEdges(edge, r);
        }
      }
      if names.Some? {
        var picked := PickNames(names.value, r);
        newNames := Some(picked);
      }
      var result := new CoordinateAxis1D(isNumeric, isContiguous, isRegularAfter, isInterval, newCoords, newEdge, newBound1, newBound2, newNames);
      result.isAscending := isAscending;
      return Ok(result);
    }
  }

  /** The copy loop of `section` for one array. */
  method PickValues(s: seq<int>, r: Range) returns (p: seq<int>)
    requires r.Valid() && r.last < |s|
    ensures p == Pick(s, r)
  {
    var len := r.Length();
    var a := new int[len];
    for idx := 0 to len
      invariant forall j :: 0 <= j < idx ==> a[j] == Pick(s, r)[j]
    {
      ElementIn(r, idx);
      a[idx] := s[r.Element(idx)];
    }
    p := a[..];
  }

  method PickNames(s: seq<string>, r: Range) returns (p: seq<string>)
    requires r.Valid() && r.last < |s|
    ensures p == Pick(s, r)
  {
    var len := r.Length();
    var a := new string[len];
    for idx := 0 to len
      invariant forall j :: 0 <= j < idx ==> a[j] == Pick(s, r)[j]
    {
      ElementIn(r, idx);
      a[idx] := s[r.Element(idx)];
    }
    p := a[..];
  }

  /** The edge loop of `section`: each step writes two slots, the second of which the next step overwrites. */
  method SectionEdges(edge: seq<int>, r: Range) returns (p: seq<int>)
    requires r.Valid() && r.last + 1 < |edge|
    ensures p == Pick(edge, r) + [edge[r.last + 1]]
  {
    var len := r.Length();
    var newEdge := new int[len + 1];
    for idx := 0 to len
      invariant forall j :: 0 <= j < idx ==> newEdge[j] == Pick(edge, r)[j]
      invariant idx > 0 ==> newEdge[idx] == edge[r.Element(idx - 1) + 1]
    {
      ElementIn(r, idx);
      var oldIdx := r.Element(idx);
      newEdge[idx] := edge[oldIdx];
      newEdge[idx + 1] := edge[oldIdx + 1];
    }
    ElementIn(r, len - 1);
    p := newEdge[..];
  }

  /** The interval-axis edge loop of `section`: lower bounds at r's indexes, then the last upper bound. */
  method IntervalEdges(bound1: seq<int>, bound2: seq<int>, r: Range) returns (p: seq<int>)
    requires r.Valid() && r.last < |bound1| && |bound1| == |bound2|
    ensures p == Pick(bound1, r) + [bound2[r.last]]
  {
    var len := r.Length();
    var newEdge := new int[len + 1];
    for idx := 0 to len
      invariant forall j :: 0 <= j < idx ==> newEdge[j] == Pick(bound1, r)[j]
      invariant idx > 0 ==> newEdge[idx] == bound2[r.Element(idx - 1)]
    {
      ElementIn(r, idx);
      var oldIdx := r.Element(idx);
      newEdge[idx] := bound1[oldIdx];
      newEdge[idx + 1] := bound2[oldIdx];
    }
    ElementIn(r, len - 1);
    p := newEdge[..];
  }

  /** Bounds made from ascending edges have every lower bound at most its upper bound. */
  lemma BoundsFromAscendingEdges(edge: seq<int>, n: nat)
    requires |edge| == n + 1 && n > 0 && NonDecreasing(edge)
    ensures forall i :: 0 <= i < n ==> edge[..n][i] <= edge[1..][i]
  {
    forall i | 0 <= i < n ensures edge[..n][i] <= edge[1..][i] {
      assert edge[..n][i] == edge[i] && edge[1..][i] == edge[i + 1];
    }
  }
}
