/**
 * The index bookkeeping of an NcML outer-dimension aggregation (`AggregationOuterDimension`): each
 * nested dataset owns a contiguous interval `[aggStart, aggEnd)` of the aggregated outer dimension, a
 * wanted strided range is translated into each dataset's own index space, and the pieces read from
 * the datasets are laid end to end in the result.
 */
module Aggregation {
  import opened Wrappers
  import opened JavaInt
  import opened JavaStrings
  import opened Ranges

  datatype AggType = JoinExisting | JoinNew | ForecastModelRunCollection | Union

  datatype AggError = ArrayIndexOutOfBounds | InvalidRange(reason: RangeError) | DimensionNotFound

  /**
   * The coordinate count `getNcoords` settles on: a positive stored count is kept, otherwise the
   * length of the aggregation dimension in the dataset's file is taken; none when the file has no
   * such dimension.
   */
  function KnownCount(ncoord: int, fileDimLength: Option<int>): (r: Option<int>)
    ensures ncoord > 0 ==> r == Some(ncoord)
    ensures ncoord <= 0 ==> r == fileDimLength
  {
    if ncoord > 0 then Some(ncoord) else fileDimLength
  }

  /** `lo <= x < hi`, the half-open intervals the aggregation works with. */
  predicate Within(x: int, lo: int, hi: int)
  {
    lo <= x < hi
  }

  /**
   * One nested dataset of the aggregation (`DatasetOuterDimension`). `fileDimLength` is what opening
   * the dataset's file and looking up the aggregation dimension gives: its length, or none when the
   * file has no dimension of that name.
   */
  class DatasetOuterDimension {
    const id: string
    const fileDimLength: Option<int>
    var ncoord: int
    var aggStart: int
    var aggEnd: int

    constructor (id: string, ncoord: int, fileDimLength: Option<int>)
      ensures this.id == id && this.ncoord == ncoord && this.fileDimLength == fileDimLength
      ensures aggStart == 0 && aggEnd == 0
    {
      this.id := id;
      this.ncoord := ncoord;
      this.fileDimLength := fileDimLength;
      aggStart := 0;
      aggEnd := 0;
    }

    /**
     * `getNcoords()`: a positive stored count is returned as it is; otherwise the file's dimension
     * length is read and stored, and a file without the dimension is an IllegalArgumentException.
     */
    method GetNcoords() returns (r: Result<int, AggError>)
      modifies this
      ensures old(ncoord) > 0 ==> r == Ok(old(ncoord)) && ncoord == old(ncoord)
      ensures old(ncoord) <= 0 && fileDimLength.Some? ==> r == Ok(fileDimLength.value) && ncoord == fileDimLength.value
      ensures old(ncoord) <= 0 && fileDimLength.None? ==> r == Err(DimensionNotFound) && ncoord == old(ncoord)
      ensures aggStart == old(aggStart) && aggEnd == old(aggEnd)
    {
      if ncoord <= 0 {
        if fileDimLength.None? {
          return Err(DimensionNotFound);
        }
        ncoord := fileDimLength.value;
      }
      return Ok(ncoord);
    }

    /**
     * `setStartEnd(aggStart)`: the dataset takes the next `getNcoords()` indexes from `aggStart` on
     * (int arithmetic) and returns that count. When the count cannot be read, `aggStart` is already
     * set and the error propagates.
     */
    method SetStartEnd(aggStart: int) returns (r: Result<int, AggError>)
      modifies this
      ensures this.aggStart == aggStart
      ensures r.Ok? <==> KnownCount(old(ncoord), fileDimLength).Some?
      ensures r.Ok? ==> Some(ncoord) == KnownCount(old(ncoord), fileDimLength)
      ensures r.Ok? ==> r.value == ncoord && aggEnd == Wrap32(aggStart + ncoord)
      ensures r.Err? ==> r.error == DimensionNotFound && ncoord == old(ncoord) && aggEnd == old(aggEnd)
    {
      this.aggStart := aggStart;
      r := GetNcoords();
      if r.Ok? {
        aggEnd := Wrap32(aggStart + r.value);
      }
    }

    /** `isNeeded(wantStart, wantStop)`: the wanted interval shares an index with this dataset's interval. */
    function IsNeeded(wantStart: int, wantStop: int): (r: bool)
      reads this
      ensures r ==> wantStart < wantStop
      ensures aggStart < aggEnd ==> (r <==> exists x :: Within(x, wantStart, wantStop) && Within(x, aggStart, aggEnd))
    {
      if wantStart >= wantStop then false
      else
        var r := wantStart < aggEnd && wantStop > aggStart;
        assert r && aggStart < aggEnd ==> Within(Max(wantStart, aggStart), wantStart, wantStop) && Within(Max(wantStart, aggStart), aggStart, aggEnd);
        r
    }

    /**
     * `getNestedJoinRange(totalRange)`: the part of the wanted range that falls in this dataset,
     * shifted to the dataset's own indexes and with the same stride, or `None` when nothing is wanted here.
     */
    function NestedJoinRange(total: Range): (r: Option<Range>)
      requires total.Valid()
      reads this
      ensures r.Some? ==> r.value.Valid() && r.value.stride == total.stride
    {
      var wantStart := total.first;
      var wantStop := total.last + 1;
      if !IsNeeded(wantStart, wantStop) then None
      else
        var firstInInterval := total.FirstInInterval(aggStart);
        if firstInInterval < 0 || firstInInterval >= aggEnd then None
        else
          FirstInIntervalIsLeast(total, aggStart);
          ElementsCharacterized(total, firstInInterval);
          var start := Max(firstInInterval, wantStart) - aggStart;
          var stop := Min(aggEnd, wantStop) - aggStart;
          Some(MakeRange(start, stop - 1, total.stride).value)
    }
  }

  /**
   * The nested range is `None` exactly when no wanted index lies in `[aggStart, aggEnd)`; otherwise its
   * elements, shifted by `aggStart`, are exactly the wanted indexes inside the dataset's interval.
   */
  lemma NestedJoinRangeElements(d: DatasetOuterDimension, total: Range, x: int)
    requires total.Valid()
    ensures var r := d.NestedJoinRange(total);
      (r.None? <==> forall e :: e in total.Elements() ==> !Within(e, d.aggStart, d.aggEnd)) &&
      (r.Some? ==> (x in r.value.Elements() <==> x + d.aggStart in total.Elements() && Within(x + d.aggStart, d.aggStart, d.aggEnd)))
  {
    var r := d.NestedJoinRange(total);
    var lo, hi := d.aggStart, d.aggEnd;
    var f := total.FirstInInterval(lo);
    FirstInIntervalIsLeast(total, lo);
    Span(total);
    if !d.IsNeeded(total.first, total.last + 1) {
      forall e | e in total.Elements() ensures !Within(e, lo, hi) {
        ElementsCharacterized(total, e);
        if Within(e, lo, hi) {
          assert Within(e, total.first, total.last + 1);
          assert false;
        }
      }
    } else if f < 0 || f >= hi {
      forall e | e in total.Elements() ensures !Within(e, lo, hi) {
      }
    } else {
      ElementsCharacterized(total, f);
      assert f in total.Elements() && Within(f, lo, hi);
      var start := f - lo;
      var stop := Min(hi, total.last + 1) - lo;
      MakeRangeElements(start, stop - 1, total.stride, x);
      var y := x + lo;
      ElementsCharacterized(total, y);
      StrideShift(y, f, total.first, total.stride);
    }
  }

  /** Two indexes on the same stride grid measure their distance to a third in the same residue class. */
  lemma StrideShift(y: int, f: int, first: int, stride: int)
    requires stride >= 1 && (f - first) % stride == 0
    ensures (y - f) % stride == 0 <==> (y - first) % stride == 0
  {
    var k := (f - first) / stride;
    assert f - first == k * stride;
    assert y - first == (y - f) + k * stride;
    ModShift(y - f, k, stride);
  }

  lemma ModShift(a: int, k: int, m: int)
    requires m >= 1
    ensures (a + k * m) % m == a % m
  {
    var q := a / m;
    assert a == q * m + a % m;
    assert a + k * m == (q + k) * m + a % m;
    DivModUnique(a + k * m, m, q + k, a % m);
  }

  /**
   * `DatasetOuterDimension.read`: when the file's own outer range ends before the wanted last index, the
   * request is cut at the file's last index, keeping first and stride.
   */
  function ClampToFile(full: Range, want: Range): (r: Result<Range, RangeError>)
    requires full.Valid() && want.Valid()
    ensures r.Ok? ==> r.value.Valid() && r.value.first == want.first && r.value.stride == want.stride
  {
    if full.last < want.last then MakeRange(want.first, full.last, want.stride) else Ok(want)
  }

  /**
   * The clamped request fails exactly when the file ends before the wanted first index, and otherwise
   * holds exactly the wanted indexes that the file has.
   */
  lemma ClampToFileElements(full: Range, want: Range, x: int)
    requires full.Valid() && want.Valid()
    ensures var r := ClampToFile(full, want);
      (r.Err? <==> full.last < want.first) &&
      (r.Ok? ==> (x in r.value.Elements() <==> x in want.Elements() && x <= full.last))
  {
    ElementsCharacterized(want, x);
    if full.last < want.last {
      if full.last >= want.first {
        MakeRangeElements(want.first, full.last, want.stride, x);
      }
    }
  }

  /**
   * `calendarsEquivalent(a, b)`: two missing calendars agree, a missing and a present one do not, and
   * two present ones agree when equal.
   */
  function CalendarsEquivalent(a: Option<string>, b: Option<string>): (r: bool)
    ensures r <==> a == b
  {
    if a.Some? then
      b.Some? && b.value == a.value
    else
      b.None?
  }

  /**
   * `extractCoordNameFromFilename(loc)`: the text after the last '/', cut before its last '#' when
   * that '#' is not the first character. The name holds no '/', and it is the file name itself
   * exactly when no such '#' cuts it.
   */
  function ExtractCoordNameFromFilename(loc: string): (r: string)
    ensures var tail := AfterLast(loc, '/');
      '/' !in r && r <= tail &&
      (r == tail <==> LastIndexOfChar(tail, '#') <= 0) &&
      (r != tail ==> 0 < |r| && tail[|r|] == '#' && '#' !in tail[|r| + 1..])
  {
    CutBeforeLast(AfterLast(loc, '/'), '#')
  }

  /** Sum of a sequence of counts, from the left. */
  function Sum(s: seq<int>): int
  {
    if s == [] then 0 else Sum(s[..|s| - 1]) + s[|s| - 1]
  }

  /**
   * A chain of abutting intervals starting at 0, each `counts[i]` long in int arithmetic, starts at
   * the (wrapped) prefix sums of the counts and ends at the (wrapped) total.
   */
  lemma {:induction false} ChainIsPrefixSum(counts: seq<int>, starts: seq<int>, n: nat)
    requires |starts| == |counts| && n <= |counts|
    requires |starts| > 0 ==> starts[0] == 0
    requires forall i :: 0 <= i < |starts| - 1 ==> starts[i + 1] == Wrap32(starts[i] + counts[i])
    ensures n < |starts| ==> starts[n] == Wrap32(Sum(counts[..n]))
    ensures n > 0 ==> Wrap32(starts[n - 1] + counts[n - 1]) == Wrap32(Sum(counts[..n]))
  {
    if n > 0 {
      ChainIsPrefixSum(counts, starts, n - 1);
      assert counts[..n][..n - 1] == counts[..n - 1];
      if n - 1 == 0 {
        assert Sum(counts[..0]) == 0;
      }
      WrapAdd(Sum(counts[..n - 1]), counts[n - 1]);
      WrapAdd(starts[n - 1], counts[n - 1]);
      assert Wrap32(starts[n - 1]) == starts[n - 1] by {
        if n - 1 > 0 {
          assert starts[n - 1] == Wrap32(starts[n - 2] + counts[n - 2]);
        }
      }
    }
  }

  /** With non-negative counts whose total fits an int, the prefix sums do not wrap. */
  lemma {:induction false} PrefixSumsFit(counts: seq<int>, n: nat)
    requires n <= |counts| && (forall i :: 0 <= i < |counts| ==> counts[i] >= 0) && Sum(counts) <= INT_MAX
    ensures 0 <= Sum(counts[..n]) <= Sum(counts) && Wrap32(Sum(counts[..n])) == Sum(counts[..n])
    decreases |counts| - n
  {
    if n < |counts| {
      PrefixSumsFit(counts, n + 1);
      assert counts[..n + 1][..n] == counts[..n];
      SumNonNegative(counts[..n]);
    } else {
      assert counts[..n] == counts;
      SumNonNegative(counts);
    }
  }

  lemma {:induction false} SumNonNegative(s: seq<int>)
    requires forall i :: 0 <= i < |s| ==> s[i] >= 0
    ensures Sum(s) >= 0
  {
    if s != [] {
      SumNonNegative(s[..|s| - 1]);
    }
  }

  /** A cached variable (`CacheVar`): its data per nested dataset id. */
  class CacheVar {
    const varName: string
    var dataMap: map<string, seq<int>>

    constructor (varName: string)
      ensures this.varName == varName && dataMap == map[]
    {
      this.varName := varName;
      dataMap := map[];
    }

    /** `reset()`: keeps exactly the entries whose id is that of a current dataset. */
    method Reset(ids: seq<string>)
      modifies this
      ensures dataMap == map id | id in old(dataMap) && id in ids :: old(dataMap)[id]
    {
      var newMap: map<string, seq<int>> := map[];
      for i := 0 to |ids|
        invariant dataMap == old(dataMap)
        invariant newMap == map id | id in dataMap && id in ids[..i] :: dataMap[id]
      {
        var id := ids[i];
        assert ids[..i + 1] == ids[..i] + [id];
        if id in dataMap {
          newMap := newMap[id := dataMap[id]];
        }
      }
      assert ids[..|ids|] == ids;
      dataMap := newMap;
    }
  }

  /** No two cache entries share a variable name. */
  predicate UniqueNames(list: seq<CacheVar>)
  {
    forall i, j :: 0 <= i < j < |list| ==> list[i].varName != list[j].varName
  }

  /** A prefix followed by m zeros: cut at the prefix, and again k further on. */
  lemma PaddedSlices(p: seq<int>, m: nat, k: nat)
    requires k <= m
    ensures (p + seq(m, _ => 0))[..|p|] == p
    ensures (p + seq(m, _ => 0))[|p| + k..] == seq(m - k, _ => 0)
  {
    assert (p + seq(m, _ => 0))[..|p|] == p;
    assert (p + seq(m, _ => 0))[|p| + k..] == seq(m - k, _ => 0);
  }

  /** `Array.arraycopy(src, 0, dest, destPos, src.size)`: the whole source lands at `destPos`, nothing else changes. */
  method ArrayCopy(src: seq<int>, dest: array<int>, destPos: nat)
    requires destPos + |src| <= dest.Length
    modifies dest
    ensures dest[..] == old(dest[..destPos]) + src + old(dest[destPos + |src|..])
  {
    forall j | 0 <= j < |src| {
      dest[destPos + j] := src[j];
    }
    assert dest[..] == old(dest[..destPos]) + src + old(dest[destPos + |src|..]);
  }

  /** The starts and the total of a chain of abutting intervals from 0 on, as prefix sums of the counts. */
  lemma ChainSums(counts: seq<int>, starts: seq<int>, ends: seq<int>, total: int)
    requires |starts| == |counts| == |ends|
    requires |starts| > 0 ==> starts[0] == 0
    requires forall k :: 0 <= k < |ends| ==> ends[k] == Wrap32(starts[k] + counts[k])
    requires forall k :: 0 <= k < |starts| - 1 ==> starts[k + 1] == ends[k]
    requires total == if |ends| == 0 then 0 else ends[|ends| - 1]
    ensures forall k :: 0 <= k < |starts| ==> starts[k] == Wrap32(Sum(counts[..k]))
    ensures total == Wrap32(Sum(counts))
  {
    forall k | 0 <= k < |starts|
      ensures starts[k] == Wrap32(Sum(counts[..k]))
    {
      ChainIsPrefixSum(counts, starts, k);
    }
    assert counts[..|counts|] == counts;
    if |counts| > 0 {
      ChainIsPrefixSum(counts, starts, |counts|);
    }
  }

  /** Wrapped prefix sums of non-negative counts whose sum fits an int are the exact prefix sums. */
  lemma ChainSumsFit(counts: seq<int>, starts: seq<int>, total: int)
    requires |starts| == |counts|
    requires forall k :: 0 <= k < |counts| ==> counts[k] >= 0
    requires Sum(counts) <= INT_MAX
    requires forall k :: 0 <= k < |starts| ==> starts[k] == Wrap32(Sum(counts[..k]))
    requires total == Wrap32(Sum(counts))
    ensures total == Sum(counts) && forall k :: 0 <= k < |starts| ==> starts[k] == Sum(counts[..k])
  {
    PrefixSumsFit(counts, |counts|);
    assert counts[..|counts|] == counts;
    forall k | 0 <= k < |starts|
      ensures starts[k] == Sum(counts[..k])
    {
      PrefixSumsFit(counts, k);
    }
  }

  /** The outer-dimension aggregation: its nested datasets, the total length and the cache list. */
  class AggregationOuterDimension {
    const aggType: AggType
    const datasets: seq<DatasetOuterDimension>
    var totalCoords: int
    var cacheList: seq<CacheVar>

    constructor (aggType: AggType, datasets: seq<DatasetOuterDimension>)
      ensures this.aggType == aggType && this.datasets == datasets && totalCoords == 0 && cacheList == []
    {
      this.aggType := aggType;
      this.datasets := datasets;
      totalCoords := 0;
      cacheList := [];
    }

    /** Pairwise different dataset objects, as the dataset list holds. */
    predicate DistinctDatasets()
    {
      forall i, j :: 0 <= i < j < |datasets| ==> datasets[i] != datasets[j]
    }

    /** The abutting intervals `buildCoords` gives the datasets, from 0 on, and the total length. */
    predicate Abutting()
      reads this, datasets
    {
      (|datasets| > 0 ==> datasets[0].aggStart == 0) &&
      (forall k :: 0 <= k < |datasets| ==> datasets[k].aggEnd == Wrap32(datasets[k].aggStart + datasets[k].ncoord)) &&
      (forall k :: 0 <= k < |datasets| - 1 ==> datasets[k + 1].aggStart == datasets[k].aggEnd) &&
      totalCoords == if |datasets| == 0 then 0 else datasets[|datasets| - 1].aggEnd
    }

    /** The forecast-model-run case of `buildCoords`: every dataset has one coordinate. */
    method SetSingleCoords()
      modifies datasets
      ensures forall k :: 0 <= k < |datasets| ==> datasets[k].ncoord == 1
      ensures forall k :: 0 <= k < |datasets| ==>
        datasets[k].aggStart == old(datasets[k].aggStart) && datasets[k].aggEnd == old(datasets[k].aggEnd)
    {
      for i := 0 to |datasets|
        invariant forall k :: 0 <= k < i ==> datasets[k].ncoord == 1
        invariant forall k :: 0 <= k < |datasets| ==>
          datasets[k].aggStart == old(datasets[k].aggStart) && datasets[k].aggEnd == old(datasets[k].aggEnd)
      {
        datasets[i].ncoord := 1;
      }
    }

    /** The datasets' coordinate counts, in dataset order. */
    ghost function Counts(): (c: seq<int>)
      reads datasets
      ensures |c| == |datasets| && forall k :: 0 <= k < |c| ==> c[k] == datasets[k].ncoord
    {
      seq(|datasets|, k reads datasets => if 0 <= k < |datasets| then datasets[k].ncoord else 0)
    }

    /** The datasets' interval starts, in dataset order. */
    ghost function Starts(): (c: seq<int>)
      reads datasets
      ensures |c| == |datasets| && forall k :: 0 <= k < |c| ==> c[k] == datasets[k].aggStart
    {
      seq(|datasets|, k reads datasets => if 0 <= k < |datasets| then datasets[k].aggStart else 0)
    }

    /** The datasets' interval ends, in dataset order. */
    ghost function Ends(): (c: seq<int>)
      reads datasets
      ensures |c| == |datasets| && forall k :: 0 <= k < |c| ==> c[k] == datasets[k].aggEnd
    {
      seq(|datasets|, k reads datasets => if 0 <= k < |datasets| then datasets[k].aggEnd else 0)
    }

    /**
     * Abutting intervals start at the int-wrapped prefix sums of the counts, and the total is the
     * wrapped sum of all counts; with non-negative counts whose sum fits an int, nothing wraps.
     */
    lemma AbuttingIsPrefixSum()
      requires Abutting()
      ensures forall k :: 0 <= k < |datasets| ==> datasets[k].aggStart == Wrap32(Sum(Counts()[..k]))
      ensures totalCoords == Wrap32(Sum(Counts()))
      ensures (forall k :: 0 <= k < |datasets| ==> datasets[k].ncoord >= 0) && Sum(Counts()) <= INT_MAX ==>
        totalCoords == Sum(Counts()) && forall k :: 0 <= k < |datasets| ==> datasets[k].aggStart == Sum(Counts()[..k])
    {
      var counts, starts, ends := Counts(), Starts(), Ends();
      assert forall k :: 0 <= k < |ends| ==> ends[k] == Wrap32(starts[k] + counts[k]);
      assert forall k :: 0 <= k < |starts| - 1 ==> starts[k + 1] == ends[k];
      ChainSums(counts, starts, ends, totalCoords);
      if (forall k :: 0 <= k < |counts| ==> counts[k] >= 0) && Sum(counts) <= INT_MAX {
        ChainSumsFit(counts, starts, totalCoords);
      }
    }

    /** Every dataset's coordinate count can be settled: stored and positive, or found in its file. */
    predicate CountsKnown()
      reads datasets
    {
      forall k :: 0 <= k < |datasets| ==> KnownCount(datasets[k].ncoord, datasets[k].fileDimLength).Some?
    }

    /**
     * The `setStartEnd` loop of `buildCoords`. It fails exactly when some dataset's count cannot be
     * settled; otherwise every dataset holds its settled count and the intervals abut from 0 on.
     */
    method AssignIntervals() returns (r: Result<(), AggError>)
      requires DistinctDatasets()
      modifies this, datasets
      ensures r.Ok? <==> old(CountsKnown())
      ensures r.Err? ==> r.error == DimensionNotFound
      ensures r.Ok? ==> Abutting()
      ensures r.Ok? ==> forall k :: 0 <= k < |datasets| ==>
        Some(datasets[k].ncoord) == KnownCount(old(datasets[k].ncoord), datasets[k].fileDimLength)
      ensures cacheList == old(cacheList)
    {
      totalCoords := 0;
      for i := 0 to |datasets|
        invariant cacheList == old(cacheList)
        invariant forall k :: i <= k < |datasets| ==> datasets[k].ncoord == old(datasets[k].ncoord)
        invariant forall k :: 0 <= k < i ==> Some(datasets[k].ncoord) == KnownCount(old(datasets[k].ncoord), datasets[k].fileDimLength)
        invariant i == 0 ==> totalCoords == 0
        invariant i > 0 ==> totalCoords == datasets[i - 1].aggEnd && datasets[0].aggStart == 0
        invariant forall k :: 0 <= k < i ==> datasets[k].aggEnd == Wrap32(datasets[k].aggStart + datasets[k].ncoord)
        invariant forall k :: 0 <= k < i - 1 ==> datasets[k + 1].aggStart == datasets[k].aggEnd
      {
        var n := datasets[i].SetStartEnd(totalCoords);
        if n.Err? {
          assert KnownCount(old(datasets[i].ncoord), datasets[i].fileDimLength).None?;
          return Err(n.error);
        }
        totalCoords := Wrap32(totalCoords + n.value);
      }
      return Ok(());
    }

    /**
     * `buildCoords`: a forecast-model-run collection gives every dataset one coordinate; then the
     * datasets take abutting intervals from 0 on, and `totalCoords` is where the last one ends. Only a
     * dataset whose count has to be read from a file without the dimension makes it fail.
     */
    method BuildCoords() returns (r: Result<(), AggError>)
      requires DistinctDatasets()
      modifies this, datasets
      ensures aggType == ForecastModelRunCollection ==> r.Ok?
      ensures aggType != ForecastModelRunCollection ==> (r.Ok? <==> old(CountsKnown()))
      ensures r.Ok? ==> Abutting()
      ensures r.Ok? ==> forall k :: 0 <= k < |datasets| ==>
        Some(datasets[k].ncoord) ==
          if aggType == ForecastModelRunCollection then Some(1) else KnownCount(old(datasets[k].ncoord), datasets[k].fileDimLength)
      ensures cacheList == old(cacheList)
    {
      if aggType == ForecastModelRunCollection {
        SetSingleCoords();
      }
      r := AssignIntervals();
    }

    /** `findCacheVariable(varName)`: the first cache entry with that name. */
    method FindCacheVariable(varName: string) returns (r: Option<CacheVar>)
      ensures r.None? <==> forall k :: 0 <= k < |cacheList| ==> cacheList[k].varName != varName
      ensures r.Some? ==> exists k :: 0 <= k < |cacheList| && cacheList[k] == r.value && r.value.varName == varName &&
                                      forall j :: 0 <= j < k ==> cacheList[j].varName != varName
    {
      for i := 0 to |cacheList|
        invariant forall j :: 0 <= j < i ==> cacheList[j].varName != varName
      {
        if cacheList[i].varName == varName {
          return Some(cacheList[i]);
        }
      }
      return None;
    }

    /** `addCacheVariable(varName, dtype)`: appends a new entry unless one with that name exists. */
    method AddCacheVariable(varName: string)
      modifies this
      ensures (exists k :: 0 <= k < |old(cacheList)| && old(cacheList)[k].varName == varName) ==> cacheList == old(cacheList)
      ensures (forall k :: 0 <= k < |old(cacheList)| ==> old(cacheList)[k].varName != varName) ==>
        |cacheList| == |old(cacheList)| + 1 && cacheList[..|old(cacheList)|] == old(cacheList) &&
        fresh(cacheList[|old(cacheList)|]) && cacheList[|old(cacheList)|].varName == varName
      ensures UniqueNames(old(cacheList)) ==> UniqueNames(cacheList)
      ensures totalCoords == old(totalCoords)
    {
      var found := FindCacheVariable(varName);
      if found.Some? {
        return;
      }
      var cv := new CacheVar(varName);
      cacheList := cacheList + [cv];
    }

    /** The pieces `reallyRead(section)` reads from datasets 0 .. n - 1, laid end to end. */
    function Pieces(joinRange: Range, readPiece: (nat, Range) -> seq<int>, n: nat): (s: seq<int>)
      requires joinRange.Valid() && n <= |datasets|
      reads datasets
    {
      if n == 0 then []
      else
        var prev := Pieces(joinRange, readPiece, n - 1);
        match datasets[n - 1].NestedJoinRange(joinRange)
        case None => prev
        case Some(nested) => prev + readPiece(n - 1, nested)
    }

    lemma {:induction false} PiecesGrow(joinRange: Range, readPiece: (nat, Range) -> seq<int>, k: nat, n: nat)
      requires joinRange.Valid() && k <= n <= |datasets|
      ensures Pieces(joinRange, readPiece, k) <= Pieces(joinRange, readPiece, n)
      decreases n - k
    {
      if k < n {
        PiecesGrow(joinRange, readPiece, k, n - 1);
      }
    }

    /**
     * `reallyRead(mainv, section)`, sequential branch: every dataset with a nested range contributes the
     * piece read for it, copied at `destPos`, which then advances by the piece's size; the rest of the
     * section stays zero. A piece that does not fit raises ArrayIndexOutOfBounds.
     */
    method ReallyRead(joinRange: Range, sectionSize: nat, readPiece: (nat, Range) -> seq<int>) returns (r: Result<array<int>, AggError>)
      requires joinRange.Valid()
      ensures var all := Pieces(joinRange, readPiece, |datasets|);
        (r.Ok? <==> |all| <= sectionSize) &&
        (r.Ok? ==> fresh(r.value) && r.value[..] == all + seq(sectionSize - |all|, _ => 0))
      ensures r.Err? ==> r.error == ArrayIndexOutOfBounds
    {
      var sectionData := new int[sectionSize](_ => 0);
      var destPos := 0;
      for i := 0 to |datasets|
        invariant destPos == |Pieces(joinRange, readPiece, i)| <= sectionSize
        invariant sectionData[..] == Pieces(joinRange, readPiece, i) + seq(sectionSize - destPos, _ => 0)
      {
        ghost var done := Pieces(joinRange, readPiece, i);
        var nested := datasets[i].NestedJoinRange(joinRange);
        if nested.None? {
          continue;
        }
        var varData := readPiece(i, nested.value);
        if destPos + |varData| > sectionSize {
          PiecesGrow(joinRange, readPiece, i + 1, |datasets|);
          return Err(ArrayIndexOutOfBounds);
        }
        PaddedSlices(done, sectionSize - destPos, |varData|);
        ArrayCopy(varData, sectionData, destPos);
        destPos := destPos + |varData|;
      }
      return Ok(sectionData);
    }
  }
}
