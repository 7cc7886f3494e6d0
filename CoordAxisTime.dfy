/**
 * The date-list part of a time coordinate axis (`CoordinateAxis1DTime`). A calendar date is modelled
 * by its millisecond count, which is what date comparison and differences use.
 */
module CoordAxisTime {
  import opened Wrappers
  import opened JavaInt
  import opened Ranges
  import opened CoordAxis1D

  /** The first index whose date is after `d`, or the length when there is none. */
  function FirstAfter(dates: seq<int>, d: int): (k: nat)
    ensures k <= |dates|
    ensures forall j :: 0 <= j < k ==> dates[j] <= d
    ensures k < |dates| ==> d < dates[k]
  {
    if dates == [] || d < dates[0] then 0 else 1 + FirstAfter(dates[1..], d)
  }

  /** The millisecond offsets of the dates from the first one. */
  function MsecOffsets(dates: seq<int>): (c: seq<int>)
    ensures |c| == |dates|
    ensures |dates| > 0 ==> c[0] == 0
    ensures forall i :: 0 <= i < |dates| ==> c[i] + dates[0] == dates[i]
  {
    seq(|dates|, i requires 0 <= i < |dates| => dates[i] - dates[0])
  }

  /** Offsets from the first date keep the order of the dates. */
  lemma MsecOffsetsKeepOrder(dates: seq<int>)
    ensures StrictlyIncreasing(dates) ==> StrictlyIncreasing(MsecOffsets(dates))
    ensures NonDecreasing(dates) ==> NonDecreasing(MsecOffsets(dates))
  {
    var c := MsecOffsets(dates);
    if StrictlyIncreasing(dates) {
      forall i, j | 0 <= i < j < |c| ensures c[i] < c[j] {
        assert c[i] + dates[0] == dates[i] && c[j] + dates[0] == dates[j];
      }
    }
    if NonDecreasing(dates) {
      forall i, j | 0 <= i < j < |c| ensures c[i] <= c[j] {
        assert c[i] + dates[0] == dates[i] && c[j] + dates[0] == dates[j];
      }
    }
  }

  class CoordinateAxis1DTime {
    const orgNumeric: bool
    var cdates: seq<int>
    var coords: seq<int>

    constructor (orgNumeric: bool, cdates: seq<int>)
      ensures this.orgNumeric == orgNumeric && this.cdates == cdates && coords == []
    {
      this.orgNumeric := orgNumeric;
      this.cdates := cdates;
      coords := [];
    }

    /** `findTimeIndexFromCalendarDate(d)`: one before the first date after `d`, but not below 0. */
    method FindTimeIndexFromCalendarDate(d: int) returns (r: int)
      ensures r == Max(0, FirstAfter(cdates, d) - 1)
    {
      var index := 0;
      while index < |cdates|
        invariant 0 <= index <= |cdates|
        invariant forall j :: 0 <= j < index ==> cdates[j] <= d
      {
        if d < cdates[index] {
          break;
        }
        index := index + 1;
      }
      FirstAfterIs(cdates, d, index);
      return Max(0, index - 1);
    }

    /**
     * On ascending dates the time index is the cell `time(i) <= d < time(i+1)`, 0 before the first date
     * and n - 1 from the last date on; it is always between 0 and max(n - 1, 0).
     */
    lemma TimeIndexBrackets(d: int)
      requires NonDecreasing(cdates)
      ensures var r := Max(0, FirstAfter(cdates, d) - 1);
        var n := |cdates|;
        0 <= r <= Max(n - 1, 0) &&
        (n == 0 ==> r == 0) &&
        (n > 0 && d < cdates[0] ==> r == 0) &&
        (n > 0 && d >= cdates[n - 1] ==> r == n - 1) &&
        (n > 0 && cdates[0] <= d < cdates[n - 1] ==> cdates[r] <= d < cdates[r + 1])
    {
      var n := |cdates|;
      var k := FirstAfter(cdates, d);
      if n > 0 && d >= cdates[n - 1] && k < n {
        assert cdates[k] <= cdates[n - 1];
      }
      if n > 0 && cdates[0] <= d < cdates[n - 1] {
        assert k > 0;
      }
    }

    /** `hasCalendarDate(date)`: the date is one of the axis dates. */
    method HasCalendarDate(date: int) returns (r: bool)
      ensures r <==> date in cdates
    {
      for i := 0 to |cdates|
        invariant date !in cdates[..i]
      {
        if date == cdates[i] {
          return true;
        }
        assert cdates[..i + 1] == cdates[..i] + [cdates[i]];
      }
      assert cdates[..|cdates|] == cdates;
      return false;
    }

    /** `getCalendarDateRange`: first and last date, or none for an empty axis. */
    function CalendarDateRange(): (r: Option<(int, int)>)
      reads this
      ensures r.None? <==> |cdates| == 0
      ensures r.Some? ==> r.value.0 == cdates[0] && r.value.1 == cdates[|cdates| - 1]
    {
      var last := |cdates|;
      if last > 0 then Some((cdates[0], cdates[last - 1])) else None
    }

    /** On ascending dates the date range covers every date. */
    lemma CalendarDateRangeCovers()
      requires NonDecreasing(cdates)
      ensures forall i :: 0 <= i < |cdates| ==> CalendarDateRange().value.0 <= cdates[i] <= CalendarDateRange().value.1
    {
      var n := |cdates|;
      forall i | 0 <= i < n ensures cdates[0] <= cdates[i] <= cdates[n - 1] {
        if 0 < i { assert cdates[0] <= cdates[i]; }
        if i < n - 1 { assert cdates[i] <= cdates[n - 1]; }
      }
    }

    /**
     * `section(r)`: the dates at r's indexes, in r's order; an index past the axis is an invalid range.
     * The axis section taken first picks the coordinates at the same indexes once they have been read
     * (one per date); coordinates not yet read stay unread.
     */
    method Section(r: Range) returns (res: Result<CoordinateAxis1DTime, SectionError>)
      requires r.Valid()
      ensures res.Err? <==> r.last >= |cdates|
      ensures res.Ok? ==> fresh(res.value) && res.value.cdates == Pick(cdates, r) && res.value.orgNumeric == orgNumeric
      ensures res.Ok? && |coords| == |cdates| ==> res.value.coords == Pick(coords, r)
      ensures res.Ok? && |coords| != |cdates| ==> res.value.coords == []
    {
      if r.last >= |cdates| {
        return Err(InvalidRange);
      }
      var cdateSection: seq<int> := [];
      for idx := 0 to r.Length()
        invariant |cdateSection| == idx
        invariant forall j :: 0 <= j < idx ==> cdateSection[j] == Pick(cdates, r)[j]
      {
        PickAt(cdates, r, idx);
        cdateSection := cdateSection + [cdates[r.Element(idx)]];
      }
      var s := new CoordinateAxis1DTime(orgNumeric, cdateSection);
      if |coords| == |cdates| {
        var picked := PickValues(coords, r);
        s.coords := picked;
      }
      return Ok(s);
    }

    /** `readValues`: for a non-numeric original the coordinates are the millisecond offsets from the first date. */
    method ReadValues(numericValues: seq<int>)
      modifies this
      ensures !orgNumeric ==> coords == MsecOffsets(cdates)
      ensures orgNumeric ==> coords == numericValues
      ensures cdates == old(cdates)
    {
      if !orgNumeric {
        coords := MsecOffsets(cdates);
      } else {
        coords := numericValues;
      }
    }
  }

  lemma {:induction false} FirstAfterIs(dates: seq<int>, d: int, k: nat)
    requires k <= |dates| && (forall j :: 0 <= j < k ==> dates[j] <= d) && (k < |dates| ==> d < dates[k])
    ensures FirstAfter(dates, d) == k
    decreases k
  {
    if k > 0 {
      assert dates[0] <= d;
      assert forall j :: 0 <= j < k - 1 ==> dates[1..][j] == dates[j + 1];
      FirstAfterIs(dates[1..], d, k - 1);
    }
  }
}
