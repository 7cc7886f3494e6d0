/**
 * The strided index range of the ucar.ma2 array library (`ucar.ma2.Range`): `first`, `last` and `stride`
 * with `first >= 0`, `stride >= 1` and `last` normalised to the last element actually reached.
 */
module Ranges {
  import opened Wrappers
  import opened JavaInt

  datatype Range = Range(first: int, last: int, stride: int)
  {
    ghost predicate Valid()
    {
      first >= 0 && stride >= 1 && first <= last && (last - first) % stride == 0
    }

    /** Number of elements. */
    function Length(): (n: nat)
      requires Valid()
      ensures n >= 1
    {
      (last - first) / stride + 1
    }

    /** `element(i)`: the i-th index of the range. */
    function Element(i: int): (e: int)
      requires Valid() && 0 <= i < Length()
    {
      first + i * stride
    }

    /** All indexes of the range, in order. */
    function Elements(): (s: seq<int>)
      requires Valid()
      ensures |s| == Length()
    {
      seq(Length(), i requires 0 <= i < Length() => first + i * stride)
    }

    /** `getFirstInInterval(start)`: the first element at or after `start`, or -1. */
    function FirstInInterval(start: int): int
      requires Valid()
    {
      if start > last then -1
      else if start <= first then first
      else if stride == 1 then start
      else
        var offset := start - first;
        var i := offset / stride;
        first + (if offset % stride == 0 then i else i + 1) * stride
    }
  }

  datatype RangeError = NegativeFirst | LastBeforeFirst | NonPositiveStride

  /** `new Range(first, last, stride)`: rejects a bad argument, otherwise normalises `last`. */
  function MakeRange(first: int, last: int, stride: int): (r: Result<Range, RangeError>)
    ensures r.Ok? ==> r.value.Valid()
    ensures r.Ok? <==> first >= 0 && first <= last && stride >= 1
    ensures r.Ok? ==> r.value.first == first && r.value.stride == stride && first <= r.value.last <= last
    ensures r.Ok? ==> r.value.Length() == 1 + (last - first) / stride
  {
    if first < 0 then Err(NegativeFirst)
    else if last < first then Err(LastBeforeFirst)
    else if stride < 1 then Err(NonPositiveStride)
    else
      var n := 1 + (last - first) / stride;
      NormalisedLast(last - first, stride);
      Ok(Range(first, first + (n - 1) * stride, stride))
  }

  /** Arithmetic behind the normalisation of `last`. */
  lemma NormalisedLast(d: int, stride: int)
    requires d >= 0 && stride >= 1
    ensures var k := d / stride;
      k >= 0 && 0 <= k * stride <= d && (k * stride) % stride == 0 && (k * stride) / stride == k
  {
    var k := d / stride;
    assert d == k * stride + d % stride;
    MulLe(stride, 0, k);
    DivModUnique(k * stride, stride, k, 0);
  }

  /** `new Range(n)` for n >= 1: the indexes 0 .. n-1. */
  function RangeOfLength(n: int): (r: Range)
    requires n >= 1
    ensures r.Valid() && r.Elements() == seq(n, i => i)
  {
    Range(0, n - 1, 1)
  }

  // ---------------------------------------------------------------- properties

  /** The distance from first to last is (length - 1) strides. */
  lemma Span(r: Range)
    requires r.Valid()
    ensures r.last - r.first == (r.Length() - 1) * r.stride
    ensures r.Elements()[r.Length() - 1] == r.last && r.Elements()[0] == r.first
  {
    var d := r.last - r.first;
    assert d == (d / r.stride) * r.stride + d % r.stride;
  }

  lemma ElementOnStride(r: Range, i: int)
    requires r.Valid() && 0 <= i < r.Length()
    ensures var x := r.Elements()[i];
      r.first <= x <= r.last && (x - r.first) % r.stride == 0 && (x - r.first) / r.stride == i
  {
    Span(r);
    var x := r.Elements()[i];
    assert x - r.first == i * r.stride;
    MulLe(r.stride, 0, i);
    MulLe(r.stride, i, r.Length() - 1);
    DivModUnique(x - r.first, r.stride, i, 0);
  }

  lemma OnStrideIsElement(r: Range, x: int)
    requires r.Valid() && r.first <= x <= r.last && (x - r.first) % r.stride == 0
    ensures 0 <= (x - r.first) / r.stride < r.Length()
    ensures r.Elements()[(x - r.first) / r.stride] == x
  {
    var n := r.Length();
    Span(r);
    var i := (x - r.first) / r.stride;
    assert x - r.first == i * r.stride + (x - r.first) % r.stride;
    if i > n - 1 {
      MulLe(r.stride, n, i);
      assert false;
    }
    if i < 0 {
      MulLe(r.stride, i, -1);
      assert false;
    }
  }

  /** An index is an element of a range exactly when it is on the stride between first and last. */
  lemma ElementsCharacterized(r: Range, x: int)
    requires r.Valid()
    ensures x in r.Elements() <==> r.first <= x <= r.last && (x - r.first) % r.stride == 0
  {
    if x in r.Elements() {
      var i :| 0 <= i < r.Length() && r.Elements()[i] == x;
      ElementOnStride(r, i);
    }
    if r.first <= x <= r.last && (x - r.first) % r.stride == 0 {
      OnStrideIsElement(r, x);
    }
  }

  /** The normalised constructor keeps exactly the indexes on the stride between first and last. */
  lemma MakeRangeElements(first: int, last: int, stride: int, x: int)
    requires MakeRange(first, last, stride).Ok?
    ensures var r := MakeRange(first, last, stride).value;
      x in r.Elements() <==> first <= x <= last && (x - first) % stride == 0
  {
    var r := MakeRange(first, last, stride).value;
    ElementsCharacterized(r, x);
    if first <= x <= last && (x - first) % stride == 0 {
      var i := (x - first) / stride;
      var k := (last - first) / stride;
      assert x - first == i * stride + (x - first) % stride;
      assert last - first == k * stride + (last - first) % stride;
      if i > k {
        MulLe(stride, k + 1, i);
        assert false;
      }
      MulLe(stride, i, k);
      assert r.last == first + k * stride;
    }
  }

  /** The rounded-up index inside the range, as a position k of the element sequence. */
  lemma RoundUpIndex(r: Range, start: int) returns (k: int)
    requires r.Valid() && r.first < start <= r.last
    ensures 0 <= k < r.Length()
    ensures r.FirstInInterval(start) == r.Elements()[k]
    ensures (k - 1) * r.stride < start - r.first <= k * r.stride
  {
    Span(r);
    var n := r.Length();
    var offset := start - r.first;
    var i := offset / r.stride;
    k := if offset % r.stride == 0 then i else i + 1;
    assert offset == i * r.stride + offset % r.stride;
    if r.stride == 1 {
      DivModUnique(offset, 1, offset, 0);
    }
    if k >= n {
      MulLe(r.stride, n - 1, k - 1);
      assert false;
    }
    MulLe(r.stride, 0, i);
  }

  /** `getFirstInInterval(start)` is the least element >= start, or -1 when every element is below it. */
  lemma FirstInIntervalIsLeast(r: Range, start: int)
    requires r.Valid()
    ensures var f := r.FirstInInterval(start);
      (f == -1 <==> forall e :: e in r.Elements() ==> e < start) &&
      (f != -1 ==> f in r.Elements() && f >= start && forall e :: e in r.Elements() && e >= start ==> f <= e)
  {
    var els := r.Elements();
    Span(r);
    if start > r.last {
      forall e | e in els ensures e < start {
        ElementsCharacterized(r, e);
      }
    } else if start <= r.first {
      assert els[0] in els;
      forall e | e in els ensures r.first <= e {
        ElementsCharacterized(r, e);
      }
    } else {
      var k := RoundUpIndex(r, start);
      ElementOnStride(r, k);
      assert els[k] in els;
      forall e | e in els && e >= start ensures els[k] <= e {
        var j :| 0 <= j < r.Length() && els[j] == e;
        RoundedUpIsLeast(r, start, k, j);
      }
    }
  }

  lemma RoundedUpIsLeast(r: Range, start: int, k: int, j: int)
    requires r.Valid() && 0 <= k < r.Length() && 0 <= j < r.Length()
    requires (k - 1) * r.stride < start - r.first <= k * r.stride
    requires r.first + j * r.stride >= start
    ensures r.first + k * r.stride <= r.first + j * r.stride
  {
    if j < k {
      MulLe(r.stride, j, k - 1);
    } else {
      MulLe(r.stride, k, j);
    }
  }
}
