/**
 * The HDF5 tile arithmetic: an N-dimensional index point is mapped to the coordinate of the
 * chunk ("tile") that holds it and to the row-major number of that tile in the tile grid.
 */
module Tiling {
  import opened JavaInt

  /** Product of the entries (1 for the empty sequence). */
  function Prod(s: seq<int>): int
  {
    if s == [] then 1 else s[0] * Prod(s[1..])
  }

  /** Inner product of two sequences of the same length. */
  function Dot(a: seq<int>, b: seq<int>): int
    requires |a| == |b|
  {
    if a == [] then 0 else a[0] * b[0] + Dot(a[1..], b[1..])
  }

  /** Row-major strides of a grid with `counts[k]` cells along dimension k. */
  function RowMajorStrides(counts: seq<int>): (r: seq<int>)
    ensures |r| == |counts|
  {
    if counts == [] then [] else [Prod(counts[1..])] + RowMajorStrides(counts[1..])
  }

  /** The declared shape padded so that each dimension is at least one chunk long. */
  function PaddedShape(shape: seq<int>, chunk: seq<int>): (r: seq<int>)
    requires |shape| <= |chunk|
    ensures |r| == |shape|
  {
    seq(|shape|, i requires 0 <= i < |shape| => Max(shape[i], chunk[i]))
  }

  /** Number of tiles along each dimension: `(shape + chunk - 1) / chunk` in Java arithmetic. */
  function TileCounts(shape: seq<int>, chunk: seq<int>): (r: seq<int>)
    requires |shape| <= |chunk|
    requires forall i :: 0 <= i < |shape| ==> chunk[i] > 0
    ensures |r| == |shape|
  {
    seq(|shape|, i requires 0 <= i < |shape| => JDiv(shape[i] + chunk[i] - 1, chunk[i]))
  }

  /** The tile coordinate of a point over its first `useRank` dimensions, as Java integer division. */
  function TileOfPoint(chunk: seq<int>, useRank: nat, pt: seq<int>): (r: seq<int>)
    requires useRank <= |pt| && useRank <= |chunk|
    requires forall i :: 0 <= i < useRank ==> chunk[i] > 0
    ensures |r| == useRank
  {
    seq(useRank, i requires 0 <= i < useRank => JDiv(pt[i], chunk[i]))
  }

  /** A tile coordinate that lies inside a grid with the given counts. */
  predicate InGrid(counts: seq<int>, t: seq<int>)
  {
    |t| == |counts| && forall i :: 0 <= i < |t| ==> 0 <= t[i] < counts[i]
  }

  predicate AllPositive(s: seq<int>)
  {
    forall i :: 0 <= i < |s| ==> s[i] >= 1
  }

  // ---------------------------------------------------------------- arithmetic helpers

  lemma ProdPositive(s: seq<int>)
    requires AllPositive(s)
    ensures Prod(s) >= 1
  {
    if s != [] {
      ProdPositive(s[1..]);
      MulLe(Prod(s[1..]), 1, s[0]);
    }
  }

  /** Every suffix product of positive counts is at most the whole product. */
  lemma {:induction false} ProdSuffixLe(s: seq<int>, k: nat)
    requires AllPositive(s) && k <= |s|
    ensures 1 <= Prod(s[k..]) <= Prod(s)
  {
    if k == 0 {
      assert s[0..] == s;
      ProdPositive(s);
    } else {
      assert s[1..][k - 1..] == s[k..];
      ProdSuffixLe(s[1..], k - 1);
      MulLe(Prod(s[1..]), 1, s[0]);
    }
  }

  lemma ProdStep(s: seq<int>, k: nat)
    requires k < |s|
    ensures Prod(s[k..]) == s[k] * Prod(s[k + 1..])
  {
    assert s[k..][1..] == s[k + 1..];
  }

  lemma {:induction false} StrideAt(counts: seq<int>, k: nat)
    requires k < |counts|
    ensures RowMajorStrides(counts)[k] == Prod(counts[k + 1..])
  {
    if k > 0 {
      StrideAt(counts[1..], k - 1);
      assert counts[1..][k..] == counts[k + 1..];
    }
  }

  lemma {:induction false} DotSnoc(a: seq<int>, b: seq<int>, i: nat)
    requires |a| == |b| && i < |a|
    ensures Dot(a[..i + 1], b[..i + 1]) == Dot(a[..i], b[..i]) + a[i] * b[i]
  {
    if i > 0 {
      assert a[..i + 1][1..] == a[1..][..i];
      assert b[..i + 1][1..] == b[1..][..i];
      assert a[..i][1..] == a[1..][..i - 1];
      assert b[..i][1..] == b[1..][..i - 1];
      DotSnoc(a[1..], b[1..], i - 1);
    }
  }

  // ---------------------------------------------------------------- padding and tile counts

  /** Each padded dimension is at least the declared size and at least one chunk. */
  lemma PaddedCoversChunk(shape: seq<int>, chunk: seq<int>, i: nat)
    requires |shape| <= |chunk| && i < |shape|
    ensures PaddedShape(shape, chunk)[i] >= shape[i]
    ensures PaddedShape(shape, chunk)[i] >= chunk[i]
    ensures PaddedShape(shape, chunk)[i] == shape[i] || PaddedShape(shape, chunk)[i] == chunk[i]
  {
  }

  /** The Java expression `(s + c - 1) / c` is the ceiling of s/c, and it is at least 1 once s >= c. */
  lemma TileCountIsCeiling(s: int, c: int)
    requires c > 0 && s >= c
    ensures var n := JDiv(s + c - 1, c);
      n >= 1 && (n - 1) * c < s <= n * c
  {
    var n := (s + c - 1) / c;
    var r := (s + c - 1) % c;
    assert s + c - 1 == n * c + r && 0 <= r < c;
    assert n * c == s + c - 1 - r;
    assert (n - 1) * c == n * c - c;
    if n < 1 {
      MulLe(c, n, 0);
    }
  }

  /** Every tile count of a padded shape is the ceiling of shape over chunk. */
  lemma TileCountsAreCeilings(shape: seq<int>, chunk: seq<int>)
    requires |shape| <= |chunk|
    requires forall i :: 0 <= i < |shape| ==> chunk[i] > 0
    ensures var counts := TileCounts(PaddedShape(shape, chunk), chunk);
      forall i :: 0 <= i < |shape| ==>
        (counts[i] - 1) * chunk[i] < PaddedShape(shape, chunk)[i] <= counts[i] * chunk[i]
  {
    var padded := PaddedShape(shape, chunk);
    forall i | 0 <= i < |shape|
      ensures var n := TileCounts(padded, chunk)[i];
        (n - 1) * chunk[i] < padded[i] <= n * chunk[i]
    {
      TileCountIsCeiling(padded[i], chunk[i]);
    }
  }

  /** Every tile count of a padded shape is at least 1. */
  lemma TileCountsPositive(shape: seq<int>, chunk: seq<int>)
    requires |shape| <= |chunk|
    requires forall i :: 0 <= i < |shape| ==> chunk[i] > 0
    ensures AllPositive(TileCounts(PaddedShape(shape, chunk), chunk))
  {
    var padded := PaddedShape(shape, chunk);
    forall i | 0 <= i < |shape|
      ensures TileCounts(padded, chunk)[i] >= 1
    {
      TileCountIsCeiling(padded[i], chunk[i]);
    }
  }

  // ---------------------------------------------------------------- row-major order

  /** The strides are row-major: the last is 1 and each is the next one times the next count. */
  lemma StridesRowMajor(counts: seq<int>)
    requires |counts| > 0
    ensures RowMajorStrides(counts)[|counts| - 1] == 1
    ensures forall k :: 0 <= k < |counts| - 1 ==>
      RowMajorStrides(counts)[k] == RowMajorStrides(counts)[k + 1] * counts[k + 1]
  {
    StrideAt(counts, |counts| - 1);
    assert counts[|counts|..] == [];
    forall k | 0 <= k < |counts| - 1
      ensures RowMajorStrides(counts)[k] == RowMajorStrides(counts)[k + 1] * counts[k + 1]
    {
      StrideStep(counts, k);
    }
  }

  lemma StrideStep(counts: seq<int>, k: nat)
    requires k + 1 < |counts|
    ensures RowMajorStrides(counts)[k] == RowMajorStrides(counts)[k + 1] * counts[k + 1]
  {
    StrideAt(counts, k);
    StrideAt(counts, k + 1);
    ProdStep(counts, k + 1);
  }

  /** A number written as p * a + d with a digit 0 <= d < p has one such representation. */
  lemma DigitsUnique(p: int, a: int, b: int, da: int, db: int)
    requires 0 <= da < p && 0 <= db < p && p * a + da == p * b + db
    ensures a == b
  {
    if a < b {
      assert p * (a + 1) == p * a + p;
      MulLe(p, a + 1, b);
    } else if b < a {
      assert p * (b + 1) == p * b + p;
      MulLe(p, b + 1, a);
    }
  }

  /** A tile coordinate inside the grid has a row-major number in [0, product of counts). */
  lemma {:induction false} RowMajorInRange(counts: seq<int>, t: seq<int>)
    requires InGrid(counts, t)
    ensures 0 <= Dot(RowMajorStrides(counts), t) < Prod(counts)
  {
    if counts != [] {
      var p := Prod(counts[1..]);
      assert InGrid(counts[1..], t[1..]);
      RowMajorInRange(counts[1..], t[1..]);
      var d := Dot(RowMajorStrides(counts[1..]), t[1..]);
      assert Dot(RowMajorStrides(counts), t) == p * t[0] + d;
      MulLe(p, 0, t[0]);
      MulLe(p, t[0] + 1, counts[0]);
      assert p * (t[0] + 1) == p * t[0] + p;
    }
  }

  /** Two tile coordinates inside the grid with the same row-major number are equal. */
  lemma {:induction false} RowMajorInjective(counts: seq<int>, t: seq<int>, u: seq<int>)
    requires InGrid(counts, t) && InGrid(counts, u)
    requires Dot(RowMajorStrides(counts), t) == Dot(RowMajorStrides(counts), u)
    ensures t == u
  {
    if counts != [] {
      var p := Prod(counts[1..]);
      assert InGrid(counts[1..], t[1..]) && InGrid(counts[1..], u[1..]);
      RowMajorInRange(counts[1..], t[1..]);
      RowMajorInRange(counts[1..], u[1..]);
      var dt := Dot(RowMajorStrides(counts[1..]), t[1..]);
      var du := Dot(RowMajorStrides(counts[1..]), u[1..]);
      assert p * t[0] + dt == p * u[0] + du;
      DigitsUnique(p, t[0], u[0], dt, du);
      RowMajorInjective(counts[1..], t[1..], u[1..]);
      assert t == [t[0]] + t[1..] && u == [u[0]] + u[1..];
    }
  }

  /** A point inside the padded shape lies in a tile that is inside the tile grid. */
  lemma PointTileInGrid(s: int, c: int, p: int)
    requires c > 0 && s >= c && 0 <= p < s
    ensures 0 <= JDiv(p, c) < JDiv(s + c - 1, c)
  {
    TileCountIsCeiling(s, c);
    var n := JDiv(s + c - 1, c);
    var t := p / c;
    assert t * c <= p;
    if t >= n {
      MulLe(c, n, t);
      assert false;
    }
  }

  // ---------------------------------------------------------------- the constructor's three loops

  /** First loop of the constructor: `shape[i] = max(shape[i], chunk[i])`. */
  method PadShape(shape0: seq<int>, chunk0: seq<int>) returns (sh: array<int>)
    requires |shape0| <= |chunk0|
    ensures sh[..] == PaddedShape(shape0, chunk0)
  {
    sh := new int[|shape0|];
    for i := 0 to |shape0|
      invariant forall j :: 0 <= j < i ==> sh[j] == Max(shape0[j], chunk0[j])
    {
      sh[i] := Max(shape0[i], chunk0[i]);
    }
  }

  /** Second loop: `tileSize[i] = (shape[i] + chunk[i] - 1) / chunk[i]`. */
  method CountTiles(sh: seq<int>, chunk0: seq<int>) returns (ts: array<int>)
    requires |sh| <= |chunk0|
    requires forall i :: 0 <= i < |sh| ==> chunk0[i] > 0
    requires forall i :: 0 <= i < |sh| ==> sh[i] + chunk0[i] - 1 <= INT_MAX
    ensures ts[..] == TileCounts(sh, chunk0)
  {
    ts := new int[|sh|];
    for i := 0 to |sh|
      invariant forall j :: 0 <= j < i ==> ts[j] == JDiv(sh[j] + chunk0[j] - 1, chunk0[j])
    {
      ts[i] := JDiv(sh[i] + chunk0[i] - 1, chunk0[i]);
    }
  }

  /** Third loop: strides from the last dimension backwards with a running product `strider`. */
  method RowMajorStrideArray(counts: seq<int>) returns (st: array<int>)
    requires AllPositive(counts) && Prod(counts) <= INT_MAX
    ensures st[..] == RowMajorStrides(counts)
  {
    var n := |counts|;
    st := new int[n];
    var strider := 1;
    var k := n;
    assert counts[n..] == [];
    while k > 0
      invariant 0 <= k <= n
      invariant strider == Prod(counts[k..])
      invariant forall j :: k <= j < n ==> st[j] == Prod(counts[j + 1..])
    {
      k := k - 1;
      st[k] := strider;
      ProdStep(counts, k);
      ProdSuffixLe(counts, k);
      strider := Wrap32(strider * counts[k]);
    }
    forall j | 0 <= j < n
      ensures st[..][j] == RowMajorStrides(counts)[j]
    {
      StrideAt(counts, j);
    }
  }

  // ---------------------------------------------------------------- the Tiling object

  /** A Tiling: the padded shape, the chunk shape, and the row-major strides over the tile grid. */
  class Tiling {
    const rank: nat
    const shape: seq<int>
    const chunk: seq<int>
    const stride: seq<int>
    /** The tile counts; a local of the constructor that fixes the strides. */
    ghost const tileSize: seq<int>

    ghost predicate Valid()
    {
      rank == |shape| == |stride| == |tileSize| && rank <= |chunk| &&
      (forall i :: 0 <= i < rank ==> chunk[i] > 0 && shape[i] >= chunk[i]) &&
      tileSize == TileCounts(shape, chunk) &&
      AllPositive(tileSize) &&
      stride == RowMajorStrides(tileSize) &&
      Prod(tileSize) <= INT_MAX
    }

    /**
     * Builds the tiling of `shape0` by `chunk0`. `chunk0` may be longer than `shape0` (the HDF5 storage
     * layout carries the element size as an extra trailing dimension); the extra entries are ignored.
     * The requires exclude int overflow in the ceiling numerator and in the running stride product.
     */
    constructor (shape0: seq<int>, chunk0: seq<int>)
      requires |shape0| <= |chunk0|
      requires forall i :: 0 <= i < |shape0| ==> chunk0[i] > 0
      requires forall i :: 0 <= i < |shape0| ==> Max(shape0[i], chunk0[i]) + chunk0[i] - 1 <= INT_MAX
      requires Prod(TileCounts(PaddedShape(shape0, chunk0), chunk0)) <= INT_MAX
      ensures Valid()
      ensures rank == |shape0| && chunk == chunk0 && shape == PaddedShape(shape0, chunk0)
      ensures tileSize == TileCounts(PaddedShape(shape0, chunk0), chunk0)
    {
      var sh := PadShape(shape0, chunk0);
      var ts := CountTiles(sh[..], chunk0);
      TileCountsPositive(shape0, chunk0);
      var st := RowMajorStrideArray(ts[..]);
      rank := |shape0|;
      shape := sh[..];
      chunk := chunk0;
      stride := st[..];
      tileSize := ts[..];
    }

    /** `tile(pt)` as a value: the first min(rank, |pt|) coordinates floor-divided by the chunk size. */
    ghost function TileOf(pt: seq<int>): (r: seq<int>)
      requires Valid()
      ensures |r| == Min(rank, |pt|)
      ensures forall i :: 0 <= i < |r| && pt[i] >= 0 ==> 0 <= r[i] * chunk[i] <= pt[i] < (r[i] + 1) * chunk[i]
    {
      TileOfPoint(chunk, Min(rank, |pt|), pt)
    }

    /** `order(pt)` as a value: the Java-int sum of stride[i] * tile[i]. */
    ghost function OrderOf(pt: seq<int>): (r: int)
      requires Valid()
      ensures IsInt32(r)
    {
      var u := Min(rank, |pt|);
      Wrap32(Dot(stride[..u], TileOf(pt)))
    }

    /** `compare(p1, p2)` as a value: the Java-int difference of the two orders. */
    ghost function CompareOf(p1: seq<int>, p2: seq<int>): (r: int)
      requires Valid()
      ensures IsInt32(r)
      ensures p1 == p2 ==> r == 0
    {
      Wrap32(OrderOf(p1) - OrderOf(p2))
    }

    /** A point of the padded index space (no bounds check is made by `tile`; this is for the lemmas). */
    ghost predicate InShape(pt: seq<int>)
    {
      |pt| == rank && rank <= |shape| && forall i :: 0 <= i < rank ==> 0 <= pt[i] < shape[i]
    }

    method Tile(pt: seq<int>) returns (tile: array<int>)
      requires Valid()
      ensures tile.Length == Min(rank, |pt|)
      ensures tile[..] == TileOf(pt)
    {
      var useRank := Min(rank, |pt|);
      tile := new int[useRank];
      for i := 0 to useRank
        invariant forall j :: 0 <= j < i ==> tile[j] == JDiv(pt[j], chunk[j])
      {
        tile[i] := JDiv(pt[i], chunk[i]);
      }
    }

    method Order(pt: seq<int>) returns (order: int)
      requires Valid()
      ensures order == OrderOf(pt)
    {
      var tile := Tile(pt);
      order := 0;
      var useRank := Min(rank, |pt|);
      ghost var t := tile[..];
      ghost var s := stride[..useRank];
      for i := 0 to useRank
        invariant tile[..] == t
        invariant order == Wrap32(Dot(s[..i], t[..i]))
      {
        DotSnoc(s, t, i);
        WrapAdd(Dot(s[..i], t[..i]), stride[i] * tile[i]);
        order := Wrap32(order + Wrap32(stride[i] * tile[i]));
      }
      assert s[..useRank] == s && t[..useRank] == t;
    }

    method Compare(p1: seq<int>, p2: seq<int>) returns (c: int)
      requires Valid()
      ensures c == CompareOf(p1, p2)
    {
      var o1 := Order(p1);
      var o2 := Order(p2);
      c := Wrap32(o1 - o2);
    }

    // ------------------------------------------------------------ properties

    /** The strides over the tile grid are row-major. */
    lemma StrideIsRowMajor()
      requires Valid() && rank > 0
      ensures stride[rank - 1] == 1
      ensures forall k :: 0 <= k < rank - 1 ==> stride[k] == stride[k + 1] * tileSize[k + 1]
    {
      StridesRowMajor(tileSize);
    }

    /** `tile` has min(rank, |pt|) components; extra point coordinates and extra chunk entries are ignored. */
    lemma TileLength(pt: seq<int>)
      requires Valid()
      ensures |TileOf(pt)| == if |pt| < rank then |pt| else rank
      ensures forall i :: 0 <= i < |TileOf(pt)| && pt[i] >= 0 ==> TileOf(pt)[i] == pt[i] / chunk[i]
    {
    }

    /** Every point whose coordinates lie in the chunk-sized cell at `cell` gets exactly that tile. */
    lemma TileOfCell(pt: seq<int>, cell: seq<int>)
      requires Valid() && |pt| == rank && |cell| == rank
      requires forall i :: 0 <= i < rank ==> 0 <= cell[i] && cell[i] * chunk[i] <= pt[i] < (cell[i] + 1) * chunk[i]
      ensures TileOf(pt) == cell
    {
      forall i | 0 <= i < rank
        ensures TileOf(pt)[i] == cell[i]
      {
        MulLe(chunk[i], 0, cell[i]);
        DivModUnique(pt[i], chunk[i], cell[i], pt[i] - cell[i] * chunk[i]);
      }
    }

    /** All points inside one tile get the same order. */
    lemma SameTileSameOrder(p: seq<int>, q: seq<int>, cell: seq<int>)
      requires Valid() && |p| == rank && |q| == rank && |cell| == rank
      requires forall i :: 0 <= i < rank ==> 0 <= cell[i] && cell[i] * chunk[i] <= p[i] < (cell[i] + 1) * chunk[i]
      requires forall i :: 0 <= i < rank ==> cell[i] * chunk[i] <= q[i] < (cell[i] + 1) * chunk[i]
      ensures OrderOf(p) == OrderOf(q)
      ensures CompareOf(p, q) == 0
    {
      TileOfCell(p, cell);
      TileOfCell(q, cell);
    }

    /** Inside the padded shape, a point's tile is in the grid and its order is in [0, number of tiles). */
    lemma OrderInRange(pt: seq<int>)
      requires Valid() && InShape(pt)
      ensures InGrid(tileSize, TileOf(pt))
      ensures 0 <= OrderOf(pt) < Prod(tileSize)
      ensures OrderOf(pt) == Dot(stride, TileOf(pt))
    {
      forall i | 0 <= i < rank
        ensures 0 <= TileOf(pt)[i] < tileSize[i]
      {
        PointTileInGrid(shape[i], chunk[i], pt[i]);
      }
      assert stride[..rank] == stride;
      RowMajorInRange(tileSize, TileOf(pt));
    }

    /** Inside the padded shape, two points have the same order exactly when they are in the same tile. */
    lemma OrderInjective(p: seq<int>, q: seq<int>)
      requires Valid() && InShape(p) && InShape(q)
      ensures OrderOf(p) == OrderOf(q) <==> TileOf(p) == TileOf(q)
    {
      OrderInRange(p);
      OrderInRange(q);
      if OrderOf(p) == OrderOf(q) {
        RowMajorInjective(tileSize, TileOf(p), TileOf(q));
      }
    }

    /** Inside the padded shape, compare does not wrap, is zero exactly on equal tiles, and is antisymmetric. */
    lemma CompareOnShape(p: seq<int>, q: seq<int>)
      requires Valid() && InShape(p) && InShape(q)
      ensures CompareOf(p, q) == OrderOf(p) - OrderOf(q)
      ensures CompareOf(p, q) == 0 <==> TileOf(p) == TileOf(q)
      ensures CompareOf(p, q) == -CompareOf(q, p)
    {
      OrderInRange(p);
      OrderInRange(q);
      OrderInjective(p, q);
    }

    /** Inside the padded shape, compare is a total preorder: transitive and total. */
    lemma CompareIsPreorder(p: seq<int>, q: seq<int>, r: seq<int>)
      requires Valid() && InShape(p) && InShape(q) && InShape(r)
      ensures CompareOf(p, q) <= 0 || CompareOf(q, p) <= 0
      ensures CompareOf(p, q) <= 0 && CompareOf(q, r) <= 0 ==> CompareOf(p, r) <= 0
    {
      CompareOnShape(p, q);
      CompareOnShape(q, r);
      CompareOnShape(p, r);
    }
  }
}
