/**
 * The type-specific read layer of the HDF5 reader (`H5iosp`): where each element read through a
 * layout lands in the result, where its 16-byte heap id is taken from, and how structure records
 * are placed and their heap members resolved. The file, the layouts and the heap readers are
 * parameters: a layout is the sequence of chunks it delivers, a heap reader a function.
 */
module ReadAssembler {
  import opened Wrappers
  import opened JavaInt
  import Tiling

  /** Size of a global heap id in the file (and of an `hvl_t` vlen instance). */
  const HEAP_ID_SIZE: int := 16
  const VLEN_T_SIZE: int := 16

  datatype ReadError =
    | IOError                                    // IOException / EOFException from a reader
    | IndexOutOfBounds                           // array or buffer index out of range
    | NegativeArraySize                          // new T[n] with n < 0
    | IllegalStructureSize(calcSize: int, recSize: int)

  /** One chunk a layout delivers: file position, first source element, first destination element, count. */
  datatype Chunk = Chunk(srcPos: int, srcElem: int, destElem: int, nelems: nat)

  // ---------------------------------------------------------------- fill-only variables

  /** `computeSize` of a section: the product of its range lengths. */
  function ComputeSize(shape: seq<nat>): int
  {
    Tiling.Prod(shape)
  }

  lemma {:induction false} ComputeSizeNonNegative(shape: seq<nat>)
    ensures ComputeSize(shape) >= 0
    decreases |shape|
  {
    if shape != [] {
      assert shape[1..] == shape[1..];
      ComputeSizeNonNegative(shape[1..]);
      MulLe(shape[0], 0, ComputeSize(shape[1..]));
    }
  }

  /**
   * A variable that only has its fill value: `(int) computeSize` copies of the fill value; a negative
   * length after the cast is a NegativeArraySizeException.
   */
  function FillOnly<T>(shape: seq<nat>, fill: T): (r: Result<seq<T>, ReadError>)
    ensures r.Ok? <==> Wrap32(ComputeSize(shape)) >= 0
    ensures r.Ok? ==> |r.value| == Wrap32(ComputeSize(shape)) && forall k :: 0 <= k < |r.value| ==> r.value[k] == fill
  {
    var n := Wrap32(ComputeSize(shape));
    if n < 0 then Err(NegativeArraySize) else Ok(seq(n, _ => fill))
  }

  /** Without int overflow the fill-only result has exactly `computeSize` elements. */
  lemma FillOnlySize<T>(shape: seq<nat>, fill: T)
    requires ComputeSize(shape) <= INT_MAX
    ensures FillOnly(shape, fill).Ok? && |FillOnly(shape, fill).value| == ComputeSize(shape)
  {
    ComputeSizeNonNegative(shape);
  }

  // ---------------------------------------------------------------- read path selection

  /** A CDM data type as far as the reader needs it. */
  datatype DataType = DataType(code: int, size: int)

  datatype TypeInfo = TypeInfo(hdfType: int, endian: int, byteSize: int, isVString: bool, baseType: DataType, baseEndian: int)

  datatype VarInfo = VarInfo(useFillValue: bool, filtered: bool, chunked: bool, typeInfo: TypeInfo, timeType: DataType)

  /** What the unfiltered path reads with: data type, element size, fill value and byte order. */
  datatype ReadParams<F> = ReadParams(dataType: DataType, elemSize: int, fill: F, endian: int)

  datatype ReadPath<F> =
    | FillOnlyRead
    | FilteredRead(littleEndian: bool, vlenStrings: bool)
    | LayoutRead(params: ReadParams<F>, chunked: bool)

  /**
   * The dispatch of `readData`: fill-only first (no layout is built), then the filtered layout, then
   * a tiled or regular layout whose type parameters depend on the HDF5 type class (2 time, 8 enum, 9 vlen).
   */
  function ChooseReadPath<F>(v: VarInfo, dataType: DataType, elemSize: int, fill: F, defaultFill: DataType -> F): (r: ReadPath<F>)
    ensures r.FillOnlyRead? <==> v.useFillValue
    ensures r.FilteredRead? <==> !v.useFillValue && v.filtered
    ensures r.FilteredRead? ==> (r.littleEndian <==> v.typeInfo.endian != 0) && r.vlenStrings == v.typeInfo.isVString
    ensures r.LayoutRead? ==> r.chunked == v.chunked
    ensures r.LayoutRead? && v.typeInfo.hdfType !in {2, 8, 9} ==> r.params == ReadParams(dataType, elemSize, fill, v.typeInfo.endian)
    ensures r.LayoutRead? && v.typeInfo.hdfType in {2, 8} ==>
      r.params.elemSize == r.params.dataType.size && r.params.fill == defaultFill(r.params.dataType)
    ensures r.LayoutRead? && v.typeInfo.hdfType == 2 ==> r.params.dataType == v.timeType && r.params.endian == v.typeInfo.endian
    ensures r.LayoutRead? && v.typeInfo.hdfType == 8 ==> r.params.dataType == v.typeInfo.baseType && r.params.endian == v.typeInfo.baseEndian
    ensures r.LayoutRead? && v.typeInfo.hdfType == 9 ==>
      r.params == ReadParams(dataType, v.typeInfo.byteSize, fill, v.typeInfo.endian)
  {
    if v.useFillValue then FillOnlyRead
    else if v.filtered then FilteredRead(v.typeInfo.endian != 0, v.typeInfo.isVString)
    else
      var t := v.typeInfo;
      var params :=
        if t.hdfType == 2 then ReadParams(v.timeType, v.timeType.size, defaultFill(v.timeType), t.endian)
        else if t.hdfType == 8 then ReadParams(t.baseType, t.baseType.size, defaultFill(t.baseType), t.baseEndian)
        else if t.hdfType == 9 then ReadParams(dataType, t.byteSize, fill, t.endian)
        else ReadParams(dataType, elemSize, fill, t.endian);
      LayoutRead(params, v.chunked)
  }

  // ---------------------------------------------------------------- placing values read one by one

  /**
   * Reads the values at `addrs` in order and stores them in consecutive slots from `start`. As in a
   * Java array assignment, the value is read before the slot index is checked.
   */
  function Fill<T>(a: seq<Option<T>>, start: int, addrs: seq<int>, read: int -> Option<T>): Result<seq<Option<T>>, ReadError>
    decreases |addrs|
  {
    if addrs == [] then Ok(a)
    else
      match read(addrs[0])
      case None => Err(IOError)
      case Some(v) =>
        if 0 <= start < |a| then Fill(a[start := Some(v)], start + 1, addrs[1..], read)
        else Err(IndexOutOfBounds)
  }

  predicate AllReadable<T>(addrs: seq<int>, read: int -> Option<T>)
  {
    forall k :: 0 <= k < |addrs| ==> read(addrs[k]).Some?
  }

  /** A run fits the slots when it is empty or lies inside them. */
  predicate RunFits(start: int, len: nat, size: int)
  {
    len == 0 || (0 <= start && start + len <= size)
  }

  /**
   * `Fill` succeeds exactly when every address can be read and the run fits; then slot `start + k`
   * holds the value read at `addrs[k]` and every other slot is unchanged.
   */
  lemma {:induction false} FillResult<T>(a: seq<Option<T>>, start: int, addrs: seq<int>, read: int -> Option<T>)
    ensures Fill(a, start, addrs, read).Ok? <==> AllReadable(addrs, read) && RunFits(start, |addrs|, |a|)
    ensures Fill(a, start, addrs, read).Ok? ==>
      var r := Fill(a, start, addrs, read).value;
      |r| == |a| &&
      (forall k :: 0 <= k < |a| && !(start <= k < start + |addrs|) ==> r[k] == a[k]) &&
      (forall k :: 0 <= k < |addrs| ==> r[start + k] == read(addrs[k]))
    decreases |addrs|
  {
    if addrs != [] {
      var rest := addrs[1..];
      assert forall k :: 0 <= k < |rest| ==> rest[k] == addrs[k + 1];
      match read(addrs[0])
      case None =>
      case Some(v) =>
        if 0 <= start < |a| {
          var a' := a[start := Some(v)];
          FillResult(a', start + 1, rest, read);
          if Fill(a', start + 1, rest, read).Ok? {
            var r := Fill(a', start + 1, rest, read).value;
            forall k | 0 <= k < |addrs|
              ensures r[start + k] == read(addrs[k])
            {
              if k > 0 {
                assert r[start + 1 + (k - 1)] == read(rest[k - 1]);
              }
            }
          }
        }
    }
  }

  /** Two consecutive runs fill like one run over the concatenated addresses. */
  lemma {:induction false} FillAppend<T>(a: seq<Option<T>>, start: int, xs: seq<int>, ys: seq<int>, read: int -> Option<T>)
    ensures Fill(a, start, xs + ys, read) ==
      match Fill(a, start, xs, read)
      case Err(e) => Err(e)
      case Ok(b) => Fill(b, start + |xs|, ys, read)
    decreases |xs|
  {
    if xs != [] {
      assert (xs + ys)[0] == xs[0];
      assert (xs + ys)[1..] == xs[1..] + ys;
      match read(xs[0])
      case None =>
      case Some(v) =>
        if 0 <= start < |a| {
          FillAppend(a[start := Some(v)], start + 1, xs[1..], ys, read);
        }
    } else {
      assert xs + ys == ys;
    }
  }

  // ---------------------------------------------------------------- consecutive reads (strings, vlens, opaque)

  /** Element i of a chunk sits at `srcPos + elemSize * i`, the product taken in int arithmetic. */
  function ChunkAddresses(c: Chunk, elemSize: int): (r: seq<int>)
    ensures |r| == c.nelems
  {
    seq(c.nelems, i => c.srcPos + Wrap32(elemSize * i))
  }

  /** The addresses of all delivered chunks in order; a `null` chunk is skipped. */
  function LayoutAddresses(chunks: seq<Option<Chunk>>, elemSize: int): seq<int>
  {
    if chunks == [] then []
    else (if chunks[0].None? then [] else ChunkAddresses(chunks[0].value, elemSize)) + LayoutAddresses(chunks[1..], elemSize)
  }

  lemma {:induction false} LayoutAddressesAppend(xs: seq<Option<Chunk>>, ys: seq<Option<Chunk>>, elemSize: int)
    ensures LayoutAddresses(xs + ys, elemSize) == LayoutAddresses(xs, elemSize) + LayoutAddresses(ys, elemSize)
    decreases |xs|
  {
    if xs == [] {
      assert xs + ys == ys;
    } else {
      assert (xs + ys)[0] == xs[0];
      assert (xs + ys)[1..] == xs[1..] + ys;
      LayoutAddressesAppend(xs[1..], ys, elemSize);
    }
  }

  lemma LayoutAddressesStep(chunks: seq<Option<Chunk>>, k: nat, elemSize: int)
    requires k < |chunks|
    ensures LayoutAddresses(chunks[k..], elemSize) ==
      (if chunks[k].None? then [] else ChunkAddresses(chunks[k].value, elemSize)) + LayoutAddresses(chunks[k + 1..], elemSize)
  {
    assert chunks[k..][0] == chunks[k] && chunks[k..][1..] == chunks[k + 1..];
  }

  /** Element i of chunk j is address number (elements of the chunks before j) + i. */
  lemma LayoutAddressOf(chunks: seq<Option<Chunk>>, elemSize: int, j: nat, i: nat)
    requires j < |chunks| && chunks[j].Some? && i < chunks[j].value.nelems
    ensures var before := |LayoutAddresses(chunks[..j], elemSize)|;
      before + i < |LayoutAddresses(chunks, elemSize)| &&
      LayoutAddresses(chunks, elemSize)[before + i] == chunks[j].value.srcPos + Wrap32(elemSize * i)
  {
    assert chunks == chunks[..j] + chunks[j..];
    LayoutAddressesAppend(chunks[..j], chunks[j..], elemSize);
    assert chunks[j..][0] == chunks[j];
  }

  /** The result of a loop `sa[count++] = read(chunk.getSrcPos() + elemSize * i)` over all chunks. */
  function ConsecutiveRead<T>(chunks: seq<Option<Chunk>>, totalNelems: int, elemSize: int, read: int -> Option<T>): Result<seq<Option<T>>, ReadError>
  {
    var size := Wrap32(totalNelems);
    if size < 0 then Err(NegativeArraySize)
    else Fill(seq(size, _ => None), 0, LayoutAddresses(chunks, elemSize), read)
  }

  /**
   * The consecutive read succeeds exactly when every address is readable and there are no more
   * elements than slots; slot k then holds the value at the k-th address and the rest stay null.
   */
  lemma ConsecutiveReadSlots<T>(chunks: seq<Option<Chunk>>, totalNelems: int, elemSize: int, read: int -> Option<T>)
    requires 0 <= totalNelems <= INT_MAX
    ensures var addrs := LayoutAddresses(chunks, elemSize);
      var r := ConsecutiveRead(chunks, totalNelems, elemSize, read);
      (r.Ok? <==> AllReadable(addrs, read) && |addrs| <= totalNelems) &&
      (r.Ok? ==>
        |r.value| == totalNelems &&
        (forall k :: 0 <= k < |addrs| ==> r.value[k] == read(addrs[k])) &&
        (forall k :: |addrs| <= k < totalNelems ==> r.value[k] == None))
  {
    FillResult(seq(totalNelems, _ => None), 0, LayoutAddresses(chunks, elemSize), read);
  }

  /** The inner loop over one chunk: its elements go to consecutive slots from `count`. */
  method ReadChunkElements<T>(sa: array<Option<T>>, count: int, chunk: Chunk, elemSize: int, read: int -> Option<T>)
    returns (r: Result<int, ReadError>)
    modifies sa
    ensures var spec := Fill(old(sa[..]), count, ChunkAddresses(chunk, elemSize), read);
      r.Ok? == spec.Ok? && (r.Ok? ==> r.value == count + chunk.nelems && sa[..] == spec.value) && (r.Err? ==> r.error == spec.error)
  {
    ghost var addrs := ChunkAddresses(chunk, elemSize);
    ghost var spec := Fill(sa[..], count, addrs, read);
    assert addrs[0..] == addrs;
    var pos := count;
    for i := 0 to chunk.nelems
      invariant pos == count + i
      invariant spec == Fill(sa[..], pos, addrs[i..], read)
    {
      assert addrs[i..][0] == chunk.srcPos + Wrap32(elemSize * i);
      assert addrs[i..][1..] == addrs[i + 1..];
      var v := read(chunk.srcPos + Wrap32(elemSize * i));
      if v.None? {
        return Err(IOError);
      }
      if pos < 0 || pos >= sa.Length {
        return Err(IndexOutOfBounds);
      }
      sa[pos] := Some(v.value);
      pos := pos + 1;
    }
    assert addrs[chunk.nelems..] == [];
    return Ok(pos);
  }

  /** The read loop shared by vlen data (`getHeapDataArray`), heap strings and opaque records. */
  method ReadConsecutive<T>(chunks: seq<Option<Chunk>>, totalNelems: int, elemSize: int, read: int -> Option<T>)
    returns (r: Result<array<Option<T>>, ReadError>)
    ensures var spec := ConsecutiveRead(chunks, totalNelems, elemSize, read);
      r.Ok? == spec.Ok? && (r.Ok? ==> r.value[..] == spec.value) && (r.Err? ==> r.error == spec.error)
  {
    var size := Wrap32(totalNelems);
    if size < 0 {
      return Err(NegativeArraySize);
    }
    var sa := new Option<T>[size](_ => None);
    ghost var spec := ConsecutiveRead(chunks, totalNelems, elemSize, read);
    assert sa[..] == seq(size, _ => None);
    assert chunks[0..] == chunks;
    var count := 0;
    for k := 0 to |chunks|
      invariant spec == Fill(sa[..], count, LayoutAddresses(chunks[k..], elemSize), read)
    {
      LayoutAddressesStep(chunks, k, elemSize);
      if chunks[k].None? {
        assert LayoutAddresses(chunks[k..], elemSize) == LayoutAddresses(chunks[k + 1..], elemSize);
        continue;
      }
      FillAppend(sa[..], count, ChunkAddresses(chunks[k].value, elemSize), LayoutAddresses(chunks[k + 1..], elemSize), read);
      var next := ReadChunkElements(sa, count, chunks[k].value, elemSize, read);
      if next.Err? {
        return Err(next.error);
      }
      count := next.value;
    }
    assert chunks[|chunks|..] == [];
    return Ok(sa);
  }

  // ---------------------------------------------------------------- filtered vlen strings

  /** A chunk of a filtered layout together with the bytes `getByteBuffer` produced for it. */
  datatype BufferChunk = BufferChunk(chunk: Chunk, buffer: seq<bv8>)

  /** The heap ids of a filtered chunk: element `srcElem + i` at byte `(srcElem + i) * 16`, in int arithmetic. */
  function HeapIdOffsets(c: Chunk): (r: seq<int>)
    ensures |r| == c.nelems
  {
    seq(c.nelems, i => Wrap32((c.srcElem + i) * HEAP_ID_SIZE))
  }

  /** The chunks placed one after another, each at its own `(int) destElem`. */
  function PlaceChunks<S>(a: seq<Option<S>>, chunks: seq<BufferChunk>, readHeapString: (seq<bv8>, int) -> Option<S>): Result<seq<Option<S>>, ReadError>
    decreases |chunks|
  {
    if chunks == [] then Ok(a)
    else
      var c := chunks[0];
      match Fill(a, Wrap32(c.chunk.destElem), HeapIdOffsets(c.chunk), StringReader(c.buffer, readHeapString))
      case Err(e) => Err(e)
      case Ok(b) => PlaceChunks(b, chunks[1..], readHeapString)
  }

  /** `readFilteredStringData`. */
  function FilteredStrings<S>(chunks: seq<BufferChunk>, totalNelems: int, readHeapString: (seq<bv8>, int) -> Option<S>): Result<seq<Option<S>>, ReadError>
  {
    var size := Wrap32(totalNelems);
    if size < 0 then Err(NegativeArraySize) else PlaceChunks(seq(size, _ => None), chunks, readHeapString)
  }

  /** The destination slots of chunk c of a filtered layout. */
  predicate InRun(c: Chunk, k: int)
  {
    Wrap32(c.destElem) <= k < Wrap32(c.destElem) + c.nelems
  }

  predicate ChunkReadable<S>(c: BufferChunk, readHeapString: (seq<bv8>, int) -> Option<S>)
  {
    forall i :: 0 <= i < c.chunk.nelems ==> readHeapString(c.buffer, HeapIdOffsets(c.chunk)[i]).Some?
  }

  /** The destination runs are inside the result and do not overlap, and every heap id can be read. */
  ghost predicate WellPlaced<S>(chunks: seq<BufferChunk>, size: int, readHeapString: (seq<bv8>, int) -> Option<S>)
  {
    (forall j :: 0 <= j < |chunks| ==> RunFits(Wrap32(chunks[j].chunk.destElem), chunks[j].chunk.nelems, size)) &&
    (forall j :: 0 <= j < |chunks| ==> ChunkReadable(chunks[j], readHeapString)) &&
    (forall j, j', k :: 0 <= j < j' < |chunks| && InRun(chunks[j].chunk, k) ==> !InRun(chunks[j'].chunk, k))
  }

  lemma ReadableFill<S>(c: BufferChunk, readHeapString: (seq<bv8>, int) -> Option<S>)
    requires ChunkReadable(c, readHeapString)
    ensures AllReadable(HeapIdOffsets(c.chunk), StringReader(c.buffer, readHeapString))
  {
  }

  lemma WellPlacedTail<S>(chunks: seq<BufferChunk>, size: int, readHeapString: (seq<bv8>, int) -> Option<S>)
    requires |chunks| > 0 && WellPlaced(chunks, size, readHeapString)
    ensures WellPlaced(chunks[1..], size, readHeapString)
  {
    var rest := chunks[1..];
    forall j, j', k | 0 <= j < j' < |rest| && InRun(rest[j].chunk, k)
      ensures !InRun(rest[j'].chunk, k)
    {
      assert rest[j] == chunks[j + 1] && rest[j'] == chunks[j' + 1];
    }
  }

  /** Placing well-placed chunks succeeds and leaves every slot outside their runs alone. */
  lemma {:induction false} PlaceChunksFrame<S>(a: seq<Option<S>>, chunks: seq<BufferChunk>, readHeapString: (seq<bv8>, int) -> Option<S>)
    requires WellPlaced(chunks, |a|, readHeapString)
    ensures PlaceChunks(a, chunks, readHeapString).Ok?
    ensures var r := PlaceChunks(a, chunks, readHeapString).value;
      |r| == |a| &&
      forall k :: 0 <= k < |a| && (forall j :: 0 <= j < |chunks| ==> !InRun(chunks[j].chunk, k)) ==> r[k] == a[k]
    decreases |chunks|
  {
    if chunks != [] {
      var c := chunks[0];
      ReadableFill(c, readHeapString);
      FillResult(a, Wrap32(c.chunk.destElem), HeapIdOffsets(c.chunk), StringReader(c.buffer, readHeapString));
      var b := Fill(a, Wrap32(c.chunk.destElem), HeapIdOffsets(c.chunk), StringReader(c.buffer, readHeapString)).value;
      WellPlacedTail(chunks, |a|, readHeapString);
      PlaceChunksFrame(b, chunks[1..], readHeapString);
      forall k | 0 <= k < |a| && (forall j :: 0 <= j < |chunks| ==> !InRun(chunks[j].chunk, k))
        ensures (forall j :: 0 <= j < |chunks[1..]| ==> !InRun(chunks[1..][j].chunk, k)) && b[k] == a[k]
      {
        assert !InRun(chunks[0].chunk, k);
        forall j | 0 <= j < |chunks[1..]|
          ensures !InRun(chunks[1..][j].chunk, k)
        {
          assert chunks[1..][j] == chunks[j + 1];
        }
      }
    }
  }

  /** For well-placed chunks, the slots of the first chunk are resolved from its heap ids. */
  lemma PlaceChunksHead<S>(a: seq<Option<S>>, chunks: seq<BufferChunk>, readHeapString: (seq<bv8>, int) -> Option<S>, i: nat)
    requires WellPlaced(chunks, |a|, readHeapString)
    requires chunks != [] && i < chunks[0].chunk.nelems
    ensures PlaceChunks(a, chunks, readHeapString).Ok?
    ensures var r := PlaceChunks(a, chunks, readHeapString).value;
      Wrap32(chunks[0].chunk.destElem) + i < |r| &&
      r[Wrap32(chunks[0].chunk.destElem) + i] == readHeapString(chunks[0].buffer, HeapIdOffsets(chunks[0].chunk)[i])
  {
    var c := chunks[0];
    var rest := chunks[1..];
    ReadableFill(c, readHeapString);
    FillResult(a, Wrap32(c.chunk.destElem), HeapIdOffsets(c.chunk), StringReader(c.buffer, readHeapString));
    var b := Fill(a, Wrap32(c.chunk.destElem), HeapIdOffsets(c.chunk), StringReader(c.buffer, readHeapString)).value;
    WellPlacedTail(chunks, |a|, readHeapString);
    PlaceChunksFrame(b, rest, readHeapString);
    var k := Wrap32(c.chunk.destElem) + i;
    assert InRun(c.chunk, k);
    forall j' | 0 <= j' < |rest|
      ensures !InRun(rest[j'].chunk, k)
    {
      assert rest[j'] == chunks[j' + 1];
    }
    assert PlaceChunks(a, chunks, readHeapString) == PlaceChunks(b, rest, readHeapString);
  }

  /** For well-placed chunks, slot `destElem + i` of chunk j is resolved from the heap id of its element i. */
  lemma {:induction false} PlaceChunksSlot<S>(a: seq<Option<S>>, chunks: seq<BufferChunk>, readHeapString: (seq<bv8>, int) -> Option<S>, j: nat, i: nat)
    requires WellPlaced(chunks, |a|, readHeapString)
    requires j < |chunks| && i < chunks[j].chunk.nelems
    ensures PlaceChunks(a, chunks, readHeapString).Ok?
    ensures var r := PlaceChunks(a, chunks, readHeapString).value;
      Wrap32(chunks[j].chunk.destElem) + i < |r| &&
      r[Wrap32(chunks[j].chunk.destElem) + i] == readHeapString(chunks[j].buffer, HeapIdOffsets(chunks[j].chunk)[i])
    decreases |chunks|
  {
    if j == 0 {
      PlaceChunksHead(a, chunks, readHeapString, i);
    } else {
      var c := chunks[0];
      var rest := chunks[1..];
      ReadableFill(c, readHeapString);
      FillResult(a, Wrap32(c.chunk.destElem), HeapIdOffsets(c.chunk), StringReader(c.buffer, readHeapString));
      var b := Fill(a, Wrap32(c.chunk.destElem), HeapIdOffsets(c.chunk), StringReader(c.buffer, readHeapString)).value;
      WellPlacedTail(chunks, |a|, readHeapString);
      assert chunks[j] == rest[j - 1];
      PlaceChunksSlot(b, rest, readHeapString, j - 1, i);
      assert PlaceChunks(a, chunks, readHeapString) == PlaceChunks(b, rest, readHeapString);
    }
  }

  /** Every slot of every well-placed chunk, as `PlaceChunksSlot` states for one. */
  lemma PlaceChunksSlots<S>(a: seq<Option<S>>, chunks: seq<BufferChunk>, readHeapString: (seq<bv8>, int) -> Option<S>)
    requires WellPlaced(chunks, |a|, readHeapString)
    ensures PlaceChunks(a, chunks, readHeapString).Ok?
    ensures var r := PlaceChunks(a, chunks, readHeapString).value;
      |r| == |a| &&
      forall j, i :: 0 <= j < |chunks| && 0 <= i < chunks[j].chunk.nelems ==>
        r[Wrap32(chunks[j].chunk.destElem) + i] == readHeapString(chunks[j].buffer, HeapIdOffsets(chunks[j].chunk)[i])
  {
    PlaceChunksFrame(a, chunks, readHeapString);
    var r := PlaceChunks(a, chunks, readHeapString).value;
    forall j, i | 0 <= j < |chunks| && 0 <= i < chunks[j].chunk.nelems
      ensures r[Wrap32(chunks[j].chunk.destElem) + i] == readHeapString(chunks[j].buffer, HeapIdOffsets(chunks[j].chunk)[i])
    {
      PlaceChunksSlot(a, chunks, readHeapString, j, i);
    }
  }

  /** The inner loop of `readFilteredStringData` over one chunk. */
  method ReadChunkHeapStrings<S>(sa: array<Option<S>>, c: BufferChunk, readHeapString: (seq<bv8>, int) -> Option<S>)
    returns (r: Result<(), ReadError>)
    modifies sa
    ensures var spec := Fill(old(sa[..]), Wrap32(c.chunk.destElem), HeapIdOffsets(c.chunk), StringReader(c.buffer, readHeapString));
      r.Ok? == spec.Ok? && (r.Ok? ==> sa[..] == spec.value) && (r.Err? ==> r.error == spec.error)
  {
    var chunk := c.chunk;
    var bb := c.buffer;
    ghost var read := StringReader(bb, readHeapString);
    ghost var offsets := HeapIdOffsets(chunk);
    var destPos := Wrap32(chunk.destElem);
    ghost var spec := Fill(sa[..], destPos, offsets, read);
    assert offsets[0..] == offsets;
    ghost var start := destPos;
    for i := 0 to chunk.nelems
      invariant destPos == start + i
      invariant spec == Fill(sa[..], destPos, offsets[i..], read)
    {
      assert offsets[i..][0] == Wrap32((chunk.srcElem + i) * HEAP_ID_SIZE);
      assert offsets[i..][1..] == offsets[i + 1..];
      var s := readHeapString(bb, Wrap32((chunk.srcElem + i) * HEAP_ID_SIZE));
      if s.None? {
        return Err(IOError);
      }
      if destPos < 0 || destPos >= sa.Length {
        return Err(IndexOutOfBounds);
      }
      sa[destPos] := Some(s.value);
      destPos := destPos + 1;
    }
    assert offsets[chunk.nelems..] == [];
    return Ok(());
  }

  /** `readFilteredStringData`: each chunk's heap ids resolved into the slots from its destination element. */
  method ReadFilteredStrings<S>(chunks: seq<BufferChunk>, totalNelems: int, readHeapString: (seq<bv8>, int) -> Option<S>)
    returns (r: Result<array<Option<S>>, ReadError>)
    ensures var spec := FilteredStrings(chunks, totalNelems, readHeapString);
      r.Ok? == spec.Ok? && (r.Ok? ==> r.value[..] == spec.value) && (r.Err? ==> r.error == spec.error)
  {
    var size := Wrap32(totalNelems);
    if size < 0 {
      return Err(NegativeArraySize);
    }
    var sa := new Option<S>[size](_ => None);
    ghost var spec := FilteredStrings(chunks, totalNelems, readHeapString);
    assert sa[..] == seq(size, _ => None);
    assert chunks[0..] == chunks;
    for k := 0 to |chunks|
      invariant spec == PlaceChunks(sa[..], chunks[k..], readHeapString)
    {
      assert chunks[k..][0] == chunks[k] && chunks[k..][1..] == chunks[k + 1..];
      var step := ReadChunkHeapStrings(sa, chunks[k], readHeapString);
      if step.Err? {
        return Err(step.error);
      }
    }
    assert chunks[|chunks|..] == [];
    return Ok(sa);
  }

  // ---------------------------------------------------------------- vlen results

  /** `prefixrank` of `readData`: the index of the leftmost negative (vlen) dimension, or 0 if there is none. */
  method PrefixRank(shape: seq<int>) returns (prefixrank: nat)
    ensures prefixrank == 0 || prefixrank < |shape|
    ensures prefixrank > 0 ==> shape[prefixrank] < 0
    ensures forall i :: 0 <= i < prefixrank ==> shape[i] >= 0
    ensures prefixrank == 0 && |shape| > 0 && shape[0] >= 0 ==> forall i :: 0 <= i < |shape| ==> shape[i] >= 0
  {
    prefixrank := 0;
    for i := 0 to |shape|
      invariant prefixrank == 0
      invariant forall i' :: 0 <= i' < i ==> shape[i'] >= 0
    {
      if shape[i] < 0 {
        prefixrank := i;
        break;
      }
    }
  }

  /** A vlen read result: the single vlen array, or the vlen elements over the fixed leading shape. */
  datatype VlenArray<V> = Scalar(value: Option<V>) | Nested(shape: seq<int>, elems: seq<Option<V>>)

  /**
   * With prefix rank 0 the single vlen array `data[0]` is returned, otherwise all of them over
   * `shape[..prefixrank]`. No data is an error either way: `data[0]` is out of bounds, and
   * `Array.makeVlenArray` takes the element type from its first array.
   */
  function VlenResult<V>(data: seq<Option<V>>, shape: seq<int>, prefixrank: nat): (r: Result<VlenArray<V>, ReadError>)
    requires prefixrank <= |shape|
    ensures r.Ok? <==> |data| > 0
    ensures r.Err? ==> r.error == IndexOutOfBounds
    ensures prefixrank == 0 && r.Ok? ==> r.value == Scalar(data[0])
    ensures prefixrank > 0 && r.Ok? ==> r.value.Nested? && r.value.elems == data && r.value.shape == shape[..prefixrank]
  {
    if |data| == 0 then Err(IndexOutOfBounds)
    else if prefixrank == 0 then Ok(Scalar(data[0]))
    else Ok(Nested(shape[..prefixrank], data))
  }

  // ---------------------------------------------------------------- structure records

  /** Byte offset of a chunk in the record array: `(int) destElem * recsize` in int arithmetic. */
  function ChunkByteOffset(c: Chunk, recsize: int): int
  {
    Wrap32(Wrap32(c.destElem) * recsize)
  }

  /** Byte length of a chunk: `nelems * recsize` in int arithmetic. */
  function ChunkByteLength(c: Chunk, recsize: int): int
  {
    Wrap32(c.nelems * recsize)
  }

  /** Without overflow the chunk lands at byte destElem * recsize with nelems * recsize bytes. */
  lemma ChunkBytesExact(c: Chunk, recsize: int)
    requires IsInt32(c.destElem) && IsInt32(c.destElem * recsize) && IsInt32(c.nelems * recsize)
    ensures ChunkByteOffset(c, recsize) == c.destElem * recsize
    ensures ChunkByteLength(c, recsize) == c.nelems * recsize
  {
  }

  /** Where a chunk's bytes go in the record array (`off`, `len`) and where they start in the file (`src`). */
  datatype Span = Span(off: int, len: int, src: int)

  function ChunkSpan(c: Chunk, recsize: int): Span
  {
    Span(ChunkByteOffset(c, recsize), ChunkByteLength(c, recsize), c.srcPos)
  }

  /**
   * `raf.seek(src); raf.readFully(byteArray, off, len)`: a length that is not positive reads nothing;
   * otherwise bounds first, then end of file.
   */
  function CopySpan(b: seq<bv8>, sp: Span, file: seq<bv8>): (r: Result<seq<bv8>, ReadError>)
    ensures r.Ok? ==> |r.value| == |b|
    ensures sp.len <= 0 ==> r == Ok(b)
    ensures sp.len > 0 ==> (r.Ok? <==> 0 <= sp.off && sp.off + sp.len <= |b| && 0 <= sp.src && sp.src + sp.len <= |file|)
    ensures sp.len > 0 && (sp.off < 0 || sp.off + sp.len > |b|) ==> r == Err(IndexOutOfBounds)
  {
    if sp.len <= 0 then Ok(b)
    else if sp.off < 0 || sp.off + sp.len > |b| then Err(IndexOutOfBounds)
    else if sp.src < 0 || sp.src + sp.len > |file| then Err(IOError)
    else Ok(b[..sp.off] + file[sp.src..sp.src + sp.len] + b[sp.off + sp.len..])
  }

  /** The copy of one chunk of a structure read. */
  function CopyChunk(b: seq<bv8>, c: Chunk, recsize: int, file: seq<bv8>): (r: Result<seq<bv8>, ReadError>)
    ensures r.Ok? ==> |r.value| == |b|
  {
    CopySpan(b, ChunkSpan(c, recsize), file)
  }

  function CopyChunks(b: seq<bv8>, chunks: seq<Option<Chunk>>, recsize: int, file: seq<bv8>): (r: Result<seq<bv8>, ReadError>)
    ensures r.Ok? ==> |r.value| == |b|
    decreases |chunks|
  {
    if chunks == [] then Ok(b)
    else if chunks[0].None? then CopyChunks(b, chunks[1..], recsize, file)
    else
      match CopyChunk(b, chunks[0].value, recsize, file)
      case Err(e) => Err(e)
      case Ok(b') => CopyChunks(b', chunks[1..], recsize, file)
  }

  /** The structure read: `new byte[(int) (recsize * totalNelems)]`, then every chunk copied in. */
  function StructureBytes(chunks: seq<Option<Chunk>>, recsize: int, totalNelems: int, file: seq<bv8>): (r: Result<seq<bv8>, ReadError>)
    ensures Wrap32(recsize * totalNelems) < 0 ==> r == Err(NegativeArraySize)
    ensures r.Ok? ==> |r.value| == Wrap32(recsize * totalNelems)
  {
    var size := Wrap32(recsize * totalNelems);
    if size < 0 then Err(NegativeArraySize) else CopyChunks(seq(size, _ => 0), chunks, recsize, file)
  }

  // The copy of a list of chunks, stated over their spans so that the byte arithmetic stays out of the induction.

  function ChunkSpans(chunks: seq<Option<Chunk>>, recsize: int): (r: seq<Option<Span>>)
    ensures |r| == |chunks|
    ensures forall j :: 0 <= j < |chunks| ==> r[j] == if chunks[j].Some? then Some(ChunkSpan(chunks[j].value, recsize)) else None
  {
    seq(|chunks|, j requires 0 <= j < |chunks| => if chunks[j].Some? then Some(ChunkSpan(chunks[j].value, recsize)) else None)
  }

  function CopySpans(b: seq<bv8>, spans: seq<Option<Span>>, file: seq<bv8>): Result<seq<bv8>, ReadError>
    decreases |spans|
  {
    if spans == [] then Ok(b)
    else if spans[0].None? then CopySpans(b, spans[1..], file)
    else
      match CopySpan(b, spans[0].value, file)
      case Err(e) => Err(e)
      case Ok(b') => CopySpans(b', spans[1..], file)
  }

  lemma {:induction false} CopyChunksIsSpans(b: seq<bv8>, chunks: seq<Option<Chunk>>, recsize: int, file: seq<bv8>)
    ensures CopyChunks(b, chunks, recsize, file) == CopySpans(b, ChunkSpans(chunks, recsize), file)
    decreases |chunks|
  {
    if chunks != [] {
      var spans := ChunkSpans(chunks, recsize);
      assert spans[1..] == ChunkSpans(chunks[1..], recsize);
      if chunks[0].None? {
        CopyChunksIsSpans(b, chunks[1..], recsize, file);
      } else {
        var step := CopyChunk(b, chunks[0].value, recsize, file);
        if step.Ok? {
          CopyChunksIsSpans(step.value, chunks[1..], recsize, file);
        }
      }
    }
  }

  predicate InSpan(sp: Span, k: int)
  {
    sp.off <= k < sp.off + sp.len
  }

  predicate SpanFits(sp: Span, size: int, file: seq<bv8>)
  {
    0 <= sp.off && 0 <= sp.len && sp.off + sp.len <= size && 0 <= sp.src && sp.src + sp.len <= |file|
  }

  /** Every delivered span fits the array and the file, and no two delivered spans overlap. */
  ghost predicate SpansDisjoint(spans: seq<Option<Span>>, size: int, file: seq<bv8>)
  {
    (forall j :: 0 <= j < |spans| && spans[j].Some? ==> SpanFits(spans[j].value, size, file)) &&
    (forall j, j', k :: 0 <= j < j' < |spans| && spans[j].Some? && spans[j'].Some? && InSpan(spans[j].value, k) ==>
      !InSpan(spans[j'].value, k))
  }

  /** Chunk c covers byte k of the record array. */
  predicate InBytes(c: Chunk, recsize: int, k: int)
  {
    InSpan(ChunkSpan(c, recsize), k)
  }

  /** Every delivered chunk fits the array and the file, and no two delivered chunks overlap. */
  ghost predicate ChunksDisjoint(chunks: seq<Option<Chunk>>, recsize: int, size: int, file: seq<bv8>)
  {
    SpansDisjoint(ChunkSpans(chunks, recsize), size, file)
  }

  lemma CopySpanBytes(b: seq<bv8>, sp: Span, file: seq<bv8>)
    requires SpanFits(sp, |b|, file)
    ensures CopySpan(b, sp, file).Ok?
    ensures var r := CopySpan(b, sp, file).value;
      (forall k :: 0 <= k < |b| && !InSpan(sp, k) ==> r[k] == b[k]) &&
      (forall k :: 0 <= k < |b| && InSpan(sp, k) ==> r[k] == file[sp.src + (k - sp.off)])
  {
  }

  /** A chunk that fits copies its file bytes to its byte offset and leaves the rest of the array alone. */
  lemma CopyChunkBytes(b: seq<bv8>, c: Chunk, recsize: int, file: seq<bv8>)
    requires SpanFits(ChunkSpan(c, recsize), |b|, file)
    ensures CopyChunk(b, c, recsize, file).Ok?
    ensures var r := CopyChunk(b, c, recsize, file).value;
      (forall k :: 0 <= k < |b| && !InBytes(c, recsize, k) ==> r[k] == b[k]) &&
      (forall k :: 0 <= k < |b| && InBytes(c, recsize, k) ==> r[k] == file[c.srcPos + (k - ChunkByteOffset(c, recsize))])
  {
    CopySpanBytes(b, ChunkSpan(c, recsize), file);
  }

  lemma SpansDisjointTail(b: seq<bv8>, b': seq<bv8>, spans: seq<Option<Span>>, file: seq<bv8>)
    requires spans != [] && |b'| == |b| && SpansDisjoint(spans, |b|, file)
    ensures SpansDisjoint(spans[1..], |b'|, file)
  {
    var rest := spans[1..];
    assert forall j :: 0 <= j < |rest| ==> rest[j] == spans[j + 1];
  }

  /** Copying disjoint spans that fit succeeds and leaves every byte no span covers alone. */
  lemma {:induction false} CopySpansFrame(b: seq<bv8>, spans: seq<Option<Span>>, file: seq<bv8>)
    requires SpansDisjoint(spans, |b|, file)
    ensures CopySpans(b, spans, file).Ok?
    ensures var r := CopySpans(b, spans, file).value;
      |r| == |b| &&
      (forall k :: 0 <= k < |b| && (forall j :: 0 <= j < |spans| && spans[j].Some? ==> !InSpan(spans[j].value, k)) ==> r[k] == b[k])
    decreases |spans|
  {
    if spans != [] {
      var rest := spans[1..];
      var b' := if spans[0].None? then b else CopySpan(b, spans[0].value, file).value;
      if spans[0].Some? {
        CopySpanBytes(b, spans[0].value, file);
      }
      SpansDisjointTail(b, b', spans, file);
      CopySpansFrame(b', rest, file);
      forall k | 0 <= k < |b| && (forall j :: 0 <= j < |spans| && spans[j].Some? ==> !InSpan(spans[j].value, k))
        ensures (forall j :: 0 <= j < |rest| && rest[j].Some? ==> !InSpan(rest[j].value, k)) && b'[k] == b[k]
      {
        assert forall j :: 0 <= j < |rest| ==> rest[j] == spans[j + 1];
      }
    }
  }

  /** For disjoint spans that fit, a byte of the first span is copied from its file position. */
  lemma CopySpansHead(b: seq<bv8>, spans: seq<Option<Span>>, file: seq<bv8>, k: nat)
    requires SpansDisjoint(spans, |b|, file)
    requires spans != [] && spans[0].Some? && k < |b| && InSpan(spans[0].value, k)
    ensures CopySpans(b, spans, file).Ok?
    ensures var r := CopySpans(b, spans, file).value;
      k < |r| && r[k] == file[spans[0].value.src + (k - spans[0].value.off)]
  {
    var sp := spans[0].value;
    var rest := spans[1..];
    CopySpanBytes(b, sp, file);
    var b' := CopySpan(b, sp, file).value;
    assert b'[k] == file[sp.src + (k - sp.off)];
    SpansDisjointTail(b, b', spans, file);
    CopySpansFrame(b', rest, file);
    forall j' | 0 <= j' < |rest| && rest[j'].Some?
      ensures !InSpan(rest[j'].value, k)
    {
      assert rest[j'] == spans[j' + 1];
    }
    assert CopySpans(b, spans, file) == CopySpans(b', rest, file);
  }

  /** For disjoint spans that fit, byte k of span j is copied from its file position. */
  lemma {:induction false} CopySpansByte(b: seq<bv8>, spans: seq<Option<Span>>, file: seq<bv8>, j: nat, k: nat)
    requires SpansDisjoint(spans, |b|, file)
    requires j < |spans| && spans[j].Some? && k < |b| && InSpan(spans[j].value, k)
    ensures CopySpans(b, spans, file).Ok?
    ensures var r := CopySpans(b, spans, file).value;
      k < |r| && r[k] == file[spans[j].value.src + (k - spans[j].value.off)]
    decreases |spans|
  {
    if j == 0 {
      CopySpansHead(b, spans, file, k);
    } else {
      var rest := spans[1..];
      var b' := if spans[0].None? then b else CopySpan(b, spans[0].value, file).value;
      if spans[0].Some? {
        CopySpanBytes(b, spans[0].value, file);
      }
      SpansDisjointTail(b, b', spans, file);
      assert spans[j] == rest[j - 1];
      CopySpansByte(b', rest, file, j - 1, k);
      assert CopySpans(b, spans, file) == CopySpans(b', rest, file);
    }
  }

  /**
   * For disjoint chunks that fit, chunk j's bytes land at its byte offset, copied from its file
   * position; bytes no chunk covers keep their value.
   */
  lemma CopyChunksBytes(b: seq<bv8>, chunks: seq<Option<Chunk>>, recsize: int, file: seq<bv8>)
    requires ChunksDisjoint(chunks, recsize, |b|, file)
    ensures CopyChunks(b, chunks, recsize, file).Ok?
    ensures var r := CopyChunks(b, chunks, recsize, file).value;
      |r| == |b| &&
      (forall k :: 0 <= k < |b| && (forall j :: 0 <= j < |chunks| && chunks[j].Some? ==> !InBytes(chunks[j].value, recsize, k)) ==> r[k] == b[k]) &&
      (forall j, k :: 0 <= j < |chunks| && chunks[j].Some? && 0 <= k < |b| && InBytes(chunks[j].value, recsize, k) ==>
        r[k] == file[chunks[j].value.srcPos + (k - ChunkByteOffset(chunks[j].value, recsize))])
  {
    var spans := ChunkSpans(chunks, recsize);
    CopyChunksIsSpans(b, chunks, recsize, file);
    CopySpansFrame(b, spans, file);
    var r := CopySpans(b, spans, file).value;
    forall k | 0 <= k < |b| && (forall j :: 0 <= j < |chunks| && chunks[j].Some? ==> !InBytes(chunks[j].value, recsize, k))
      ensures r[k] == b[k]
    {
      assert forall j :: 0 <= j < |spans| && spans[j].Some? ==> !InSpan(spans[j].value, k);
    }
    forall j, k | 0 <= j < |chunks| && chunks[j].Some? && 0 <= k < |b| && InBytes(chunks[j].value, recsize, k)
      ensures r[k] == file[chunks[j].value.srcPos + (k - ChunkByteOffset(chunks[j].value, recsize))]
    {
      CopySpansByte(b, spans, file, j, k);
    }
  }

  /** A sequence that holds `piece` from `off` on and `before` elsewhere is `before` with `piece` spliced in. */
  lemma Splice(a: seq<bv8>, before: seq<bv8>, off: nat, piece: seq<bv8>)
    requires |a| == |before| && off + |piece| <= |a|
    requires forall k :: 0 <= k < |a| && !(off <= k < off + |piece|) ==> a[k] == before[k]
    requires forall k :: off <= k < off + |piece| ==> a[k] == piece[k - off]
    ensures a == before[..off] + piece + before[off + |piece|..]
  {
  }

  /** The copy of one chunk: `readFully` of `len` file bytes into the array at `off`; nothing when `len` is not positive. */
  method CopyChunkInto(byteArray: array<bv8>, c: Chunk, recsize: int, file: seq<bv8>) returns (r: Result<(), ReadError>)
    modifies byteArray
    ensures var spec := CopyChunk(old(byteArray[..]), c, recsize, file);
      r.Ok? == spec.Ok? && (r.Ok? ==> byteArray[..] == spec.value) && (r.Err? ==> r.error == spec.error)
  {
    var off := ChunkByteOffset(c, recsize);
    var len := ChunkByteLength(c, recsize);
    if len <= 0 {
      return Ok(());
    }
    if off < 0 || off + len > byteArray.Length {
      return Err(IndexOutOfBounds);
    }
    if c.srcPos < 0 || c.srcPos + len > |file| {
      return Err(IOError);
    }
    ghost var before := byteArray[..];
    for i := 0 to len
      invariant forall k :: 0 <= k < byteArray.Length && !(off <= k < off + i) ==> byteArray[k] == before[k]
      invariant forall k :: off <= k < off + i ==> byteArray[k] == file[c.srcPos + (k - off)]
    {
      byteArray[off + i] := file[c.srcPos + i];
    }
    Splice(byteArray[..], before, off, file[c.srcPos..c.srcPos + len]);
    return Ok(());
  }

  /** The STRUCTURE branch of `readData`: the record bytes of every chunk in one array. */
  method ReadStructureBytes(chunks: seq<Option<Chunk>>, recsize: int, totalNelems: int, file: seq<bv8>)
    returns (r: Result<array<bv8>, ReadError>)
    ensures var spec := StructureBytes(chunks, recsize, totalNelems, file);
      r.Ok? == spec.Ok? && (r.Ok? ==> r.value[..] == spec.value) && (r.Err? ==> r.error == spec.error)
  {
    var size := Wrap32(recsize * totalNelems);
    if size < 0 {
      return Err(NegativeArraySize);
    }
    var byteArray := new bv8[size](_ => 0);
    ghost var spec := StructureBytes(chunks, recsize, totalNelems, file);
    assert byteArray[..] == seq(size, _ => 0);
    assert chunks[0..] == chunks;
    for k := 0 to |chunks|
      invariant spec == CopyChunks(byteArray[..], chunks[k..], recsize, file)
    {
      assert chunks[k..][0] == chunks[k] && chunks[k..][1..] == chunks[k + 1..];
      if chunks[k].None? {
        continue;
      }
      var step := CopyChunkInto(byteArray, chunks[k].value, recsize, file);
      if step.Err? {
        return Err(step.error);
      }
    }
    assert chunks[|chunks|..] == [];
    return Ok(byteArray);
  }

  /** The record size check of `convertStructure`: a record smaller than its members is an IOException. */
  function StructureSize(recSize: int, calcSize: int): (r: Result<int, ReadError>)
    ensures r.Ok? <==> recSize >= calcSize
    ensures r.Ok? ==> r.value == recSize
    ensures r.Err? ==> r.error == IllegalStructureSize(calcSize, recSize)
  {
    if recSize < calcSize then Err(IllegalStructureSize(calcSize, recSize)) else Ok(recSize)
  }

  // ---------------------------------------------------------------- structure members

  /** `RandomAccessFile.LITTLE_ENDIAN`. */
  const LITTLE_ENDIAN: int := 1

  /** A member variable of a structure, with its nested members when it is itself a structure. */
  datatype MemberVar = MemberVar(isString: bool, isVariableLength: bool, endian: int, dataPos: int, isStructure: bool, nested: seq<MemberVar>)

  /** What `convertStructure` sets on a member: byte order (unset for a negative endian), data offset, nested members. */
  datatype MemberSetup = MemberSetup(littleEndian: Option<bool>, dataParam: int, nested: Option<seq<MemberSetup>>)

  predicate NeedsHeap(m: MemberVar)
  {
    m.isString || m.isVariableLength
  }

  /** All members of a member tree, each followed by its nested members. */
  ghost function AllMembers(ms: seq<MemberVar>): seq<MemberVar>
    decreases ms
  {
    if ms == [] then []
    else
      assert ms[0] in ms;
      [ms[0]] + (if ms[0].isStructure then AllMembers(ms[0].nested) else []) + AllMembers(ms[1..])
  }

  predicate AnyHeap(s: seq<MemberVar>)
  {
    exists k :: 0 <= k < |s| && NeedsHeap(s[k])
  }

  ghost predicate TreeHasHeap(ms: seq<MemberVar>)
  {
    AnyHeap(AllMembers(ms))
  }

  lemma AnyHeapConcat(a: seq<MemberVar>, b: seq<MemberVar>)
    ensures AnyHeap(a + b) <==> AnyHeap(a) || AnyHeap(b)
  {
    if AnyHeap(a + b) {
      var k :| 0 <= k < |a + b| && NeedsHeap((a + b)[k]);
      if k >= |a| {
        assert b[k - |a|] == (a + b)[k];
      }
    }
    if AnyHeap(a) {
      var k :| 0 <= k < |a| && NeedsHeap(a[k]);
      assert (a + b)[k] == a[k];
    }
    if AnyHeap(b) {
      var k :| 0 <= k < |b| && NeedsHeap(b[k]);
      assert (a + b)[|a| + k] == b[k];
    }
  }

  lemma {:induction false} AllMembersAppend(xs: seq<MemberVar>, ys: seq<MemberVar>)
    ensures AllMembers(xs + ys) == AllMembers(xs) + AllMembers(ys)
    decreases |xs|
  {
    if xs == [] {
      assert xs + ys == ys;
    } else {
      assert (xs + ys)[0] == xs[0];
      assert (xs + ys)[1..] == xs[1..] + ys;
      AllMembersAppend(xs[1..], ys);
    }
  }

  /** Whether a heap member occurs among the first i + 1 members or their nested members. */
  lemma TreeHasHeapStep(ms: seq<MemberVar>, i: nat)
    requires i < |ms|
    ensures TreeHasHeap(ms[..i + 1]) <==>
      TreeHasHeap(ms[..i]) || NeedsHeap(ms[i]) || (ms[i].isStructure && TreeHasHeap(ms[i].nested))
  {
    AllMembersAppend(ms[..i], [ms[i]]);
    assert ms[..i + 1] == ms[..i] + [ms[i]];
    var sub := if ms[i].isStructure then AllMembers(ms[i].nested) else [];
    assert [ms[i]][1..] == [];
    assert AllMembers([ms[i]]) == [ms[i]] + sub + [];
    AnyHeapConcat(AllMembers(ms[..i]), [ms[i]] + sub + []);
    AnyHeapConcat([ms[i]] + sub, []);
    AnyHeapConcat([ms[i]], sub);
    assert AnyHeap([ms[i]]) <==> NeedsHeap(ms[i]) by {
      if NeedsHeap(ms[i]) {
        assert [ms[i]][0] == ms[i];
      }
    }
    assert !AnyHeap([]);
  }

  /** The setup of one member: byte order when endian >= 0 (little iff LITTLE_ENDIAN), offset cast to int. */
  function SetupOf(m: MemberVar, nested: Option<seq<MemberSetup>>): (r: MemberSetup)
    ensures r.littleEndian.Some? <==> m.endian >= 0
    ensures r.littleEndian.Some? ==> (r.littleEndian.value <==> m.endian == LITTLE_ENDIAN)
    ensures r.dataParam == Wrap32(m.dataPos)
  {
    MemberSetup(if m.endian >= 0 then Some(m.endian == LITTLE_ENDIAN) else None, Wrap32(m.dataPos), nested)
  }

  /**
   * The recursive `convertStructure(s, sm)`: sets every member up and reports whether any member,
   * at any depth, is a STRING or variable length and so lives on the heap.
   */
  method ConvertMembers(ms: seq<MemberVar>) returns (hasHeap: bool, setup: seq<MemberSetup>)
    ensures hasHeap <==> TreeHasHeap(ms)
    ensures |setup| == |ms|
    ensures forall i :: 0 <= i < |ms| ==> setup[i].nested.Some? == ms[i].isStructure
    ensures forall i :: 0 <= i < |ms| ==> setup[i] == SetupOf(ms[i], setup[i].nested)
    decreases ms
  {
    hasHeap := false;
    setup := [];
    assert ms[..0] == [];
    for i := 0 to |ms|
      invariant hasHeap <==> TreeHasHeap(ms[..i])
      invariant |setup| == i
      invariant forall i' :: 0 <= i' < i ==> setup[i'].nested.Some? == ms[i'].isStructure
      invariant forall i' :: 0 <= i' < i ==> setup[i'] == SetupOf(ms[i'], setup[i'].nested)
    {
      var m := ms[i];
      TreeHasHeapStep(ms, i);
      if m.isString || m.isVariableLength {
        hasHeap := true;
      }
      var nestedSetup: Option<seq<MemberSetup>> := None;
      if m.isStructure {
        assert m in ms;
        var nestedHeap, nestSm := ConvertMembers(m.nested);
        nestedSetup := Some(nestSm);
        hasHeap := hasHeap || nestedHeap;
      }
      setup := setup + [SetupOf(m, nestedSetup)];
    }
    assert ms[..|ms|] == ms;
  }

  // ---------------------------------------------------------------- heap members of structure records

  function Unsigned(v: int): int
  {
    if v < 0 then v + TWO32 else v
  }

  function Reverse4(b: seq<bv8>): (r: seq<bv8>)
    requires |b| == 4
    ensures |r| == 4
  {
    [b[3], b[2], b[1], b[0]]
  }

  lemma ByteRoundTrip(x: int)
    requires 0 <= x < 256
    ensures (x as bv8) as int == x
  {
    assert x % 256 == x;
  }

  lemma Digits(w: int)
    requires 0 <= w < TWO32
    ensures 0 <= w / 0x100_0000 < 0x100
    ensures w == w / 0x100_0000 * 0x100_0000 + w / 0x1_0000 % 0x100 * 0x1_0000 + w / 0x100 % 0x100 * 0x100 + w % 0x100
  {
    var a := w / 0x100;
    var b := a / 0x100;
    var c := b / 0x100;
    assert w == a * 0x100 + w % 0x100;
    assert a == b * 0x100 + a % 0x100;
    assert b == c * 0x100 + b % 0x100;
    assert w / 0x1_0000 == b;
    assert w / 0x100_0000 == c;
  }

  /** The four bytes of an unsigned 32-bit value, most significant first. */
  function Pack(w: int): (r: seq<bv8>)
    requires 0 <= w < TWO32
    ensures |r| == 4
  {
    Digits(w);
    [(w / 0x100_0000) as bv8, (w / 0x1_0000 % 0x100) as bv8, (w / 0x100 % 0x100) as bv8, (w % 0x100) as bv8]
  }

  function Unpack(b: seq<bv8>): int
    requires |b| == 4
  {
    b[0] as int * 0x100_0000 + b[1] as int * 0x1_0000 + b[2] as int * 0x100 + b[3] as int
  }

  lemma UnpackPack(w: int)
    requires 0 <= w < TWO32
    ensures Unpack(Pack(w)) == w
  {
    Digits(w);
    ByteRoundTrip(w / 0x100_0000);
    ByteRoundTrip(w / 0x1_0000 % 0x100);
    ByteRoundTrip(w / 0x100 % 0x100);
    ByteRoundTrip(w % 0x100);
  }

  /** The bytes `ByteBuffer.putInt` writes for an int, in little- or big-endian order. */
  function IntBytes(v: int, little: bool): (r: seq<bv8>)
    requires IsInt32(v)
    ensures |r| == 4
  {
    var be := Pack(Unsigned(v));
    if little then Reverse4(be) else be
  }

  /** `ByteBuffer.getInt` in the same byte order. */
  function BytesInt(b: seq<bv8>, little: bool): int
    requires |b| == 4
  {
    var x := Unpack(if little then Reverse4(b) else b);
    if x > INT_MAX then x - TWO32 else x
  }

  /** An int written by `putInt` reads back unchanged in the same byte order. */
  lemma IntBytesRoundTrip(v: int, little: bool)
    requires IsInt32(v)
    ensures BytesInt(IntBytes(v, little), little) == v
  {
    var be := Pack(Unsigned(v));
    UnpackPack(Unsigned(v));
    if little {
      assert Reverse4(Reverse4(be)) == be;
    }
  }

  /** `bb.putInt(pos, v)`: four bytes at `pos`, or IndexOutOfBoundsException past the limit. */
  function PutInt(bytes: seq<bv8>, pos: int, v: int, little: bool): (r: Result<seq<bv8>, ReadError>)
    requires IsInt32(v)
    ensures r.Ok? <==> 0 <= pos && pos + 4 <= |bytes|
    ensures r.Ok? ==> |r.value| == |bytes| && r.value[pos..pos + 4] == IntBytes(v, little)
    ensures r.Ok? ==> forall k :: 0 <= k < |bytes| && !(pos <= k < pos + 4) ==> r.value[k] == bytes[k]
    ensures r.Err? ==> r.error == IndexOutOfBounds
  {
    if pos < 0 || pos + 4 > |bytes| then Err(IndexOutOfBounds)
    else
      var r := bytes[..pos] + IntBytes(v, little) + bytes[pos + 4..];
      assert r[pos..pos + 4] == IntBytes(v, little);
      Ok(r)
  }

  /** `getHeapString` on the buffer `buf`, as a function of the heap id's byte position. */
  function StringReader<S>(buf: seq<bv8>, readHeapString: (seq<bv8>, int) -> Option<S>): int -> Option<S>
  {
    a => readHeapString(buf, a)
  }

  /** `getHeapDataArray` on the buffer `buf` in the member's byte order, as a function of the instance's byte position. */
  function VlenReader<V>(buf: seq<bv8>, readHeapVlen: (seq<bv8>, int, bool) -> Option<V>, littleEndian: bool): int -> Option<V>
  {
    a => readHeapVlen(buf, a, littleEndian)
  }

  /** Reads every address in order; `None` as soon as one read fails. */
  function ReadAll<T>(addrs: seq<int>, read: int -> Option<T>): (r: Option<seq<T>>)
    ensures r.Some? <==> AllReadable(addrs, read)
    ensures r.Some? ==> |r.value| == |addrs| && forall k :: 0 <= k < |addrs| ==> Some(r.value[k]) == read(addrs[k])
    decreases |addrs|
  {
    if addrs == [] then Some([])
    else
      match read(addrs[0])
      case None => None
      case Some(v) =>
        match ReadAll(addrs[1..], read)
        case None => (assert !AllReadable(addrs[1..], read); assert forall k :: 0 <= k < |addrs[1..]| ==> addrs[1..][k] == addrs[k + 1]; None)
        case Some(vs) => Some([v] + vs)
  }

  /** Values that every read produced, in order, are what ReadAll returns. */
  lemma {:induction false} ReadAllIs<T>(addrs: seq<int>, read: int -> Option<T>, vs: seq<T>)
    requires |vs| == |addrs| && forall k :: 0 <= k < |addrs| ==> Some(vs[k]) == read(addrs[k])
    ensures ReadAll(addrs, read) == Some(vs)
    decreases |addrs|
  {
    if addrs != [] {
      assert forall k :: 0 <= k < |addrs| - 1 ==> addrs[1..][k] == addrs[k + 1] && vs[1..][k] == vs[k + 1];
      ReadAllIs(addrs[1..], read, vs[1..]);
      assert vs == [vs[0]] + vs[1..];
    }
  }

  /** `prefixrank` of `convertHeap`: the index of the first negative dimension, or the rank if none. */
  function FirstNegative(shape: seq<int>): (r: nat)
    ensures r <= |shape|
    ensures forall i :: 0 <= i < r ==> shape[i] >= 0
    ensures r < |shape| ==> shape[r] < 0
  {
    if shape == [] || shape[0] < 0 then 0 else 1 + FirstNegative(shape[1..])
  }

  lemma ProdSnoc(s: seq<int>, k: nat)
    requires k < |s|
    ensures Tiling.Prod(s[..k + 1]) == Tiling.Prod(s[..k]) * s[k]
    decreases k
  {
    if k > 0 {
      assert s[..k + 1][1..] == s[1..][..k];
      assert s[..k][1..] == s[1..][..k - 1];
      ProdSnoc(s[1..], k - 1);
    } else {
      assert s[..1][1..] == [];
    }
  }

  /**
   * The loop of `convertHeap` that sizes a vlen member: the rank up to the first negative dimension
   * and the int product of the dimensions before it, the number of vlen instances.
   */
  method VlenFieldCount(fieldshape: seq<int>) returns (prefixrank: nat, size: int)
    ensures prefixrank == FirstNegative(fieldshape)
    ensures size == Wrap32(Tiling.Prod(fieldshape[..prefixrank]))
  {
    prefixrank := 0;
    size := 1;
    while prefixrank < |fieldshape|
      invariant prefixrank <= |fieldshape|
      invariant forall i :: 0 <= i < prefixrank ==> fieldshape[i] >= 0
      invariant size == Wrap32(Tiling.Prod(fieldshape[..prefixrank]))
    {
      if fieldshape[prefixrank] < 0 {
        break;
      }
      ProdSnoc(fieldshape, prefixrank);
      WrapMul(Tiling.Prod(fieldshape[..prefixrank]), fieldshape[prefixrank]);
      size := Wrap32(size * fieldshape[prefixrank]);
      prefixrank := prefixrank + 1;
    }
    FirstNegativeIs(fieldshape, prefixrank);
  }

  lemma {:induction false} FirstNegativeIs(s: seq<int>, r: nat)
    requires r <= |s| && (forall i :: 0 <= i < r ==> s[i] >= 0) && (r < |s| ==> s[r] < 0)
    ensures FirstNegative(s) == r
    decreases r
  {
    if r > 0 {
      assert s[0] >= 0;
      assert forall i :: 0 <= i < r - 1 ==> s[1..][i] == s[i + 1];
      FirstNegativeIs(s[1..], r - 1);
    }
  }

  datatype MemberKind = StringMember | VlenMember | PlainMember

  /** A structure member as `convertHeap` sees it: kind, offset in the record, element count, shape, vlen byte order. */
  datatype HeapMember = HeapMember(kind: MemberKind, dataParam: int, size: int, shape: seq<int>, littleEndian: bool)

  /** An object on the heap of an `ArrayStructureBB`. */
  datatype HeapObject<S, V> = HeapStrings(strings: seq<S>) | HeapVlen(vlen: VlenArray<V>)

  /** The heap ids of a STRING member: `destPos + i * 16`. */
  function StringIdAddrs(destPos: int, size: nat): (r: seq<int>)
    ensures |r| == size
  {
    seq(size, i => Wrap32(destPos + i * HEAP_ID_SIZE))
  }

  /** The vlen instances of a vlen member, one `hvl_t` (16 bytes) after another from `startPos`. */
  function VlenAddrs(startPos: int, size: nat): (r: seq<int>)
    ensures |r| == size
  {
    seq(size, i => Wrap32(startPos + i * VLEN_T_SIZE))
  }

  /** With prefix rank 0 the single instance, otherwise all instances over the leading shape. */
  function VlenField<V>(vs: seq<V>, shape: seq<int>, prefixrank: nat): VlenArray<V>
    requires prefixrank <= |shape| && |vs| > 0
  {
    if prefixrank == 0 then Scalar(Some(vs[0])) else Nested(shape[..prefixrank], seq(|vs|, i requires 0 <= i < |vs| => Some(vs[i])))
  }

  /**
   * One member of one record in `convertHeap`. A STRING member reads `size` heap ids at 16-byte steps
   * from `pos + dataParam`, appends the strings to the heap and overwrites the slot with their heap
   * index; a vlen member does the same with its instances; any other member is left alone.
   */
  function ConvertMember<S, V>(bytes: seq<bv8>, heap: seq<HeapObject<S, V>>, pos: int, m: HeapMember,
                               readHeapString: (seq<bv8>, int) -> Option<S>, readHeapVlen: (seq<bv8>, int, bool) -> Option<V>,
                               nativeLittle: bool): Result<(seq<bv8>, seq<HeapObject<S, V>>), ReadError>
  {
    match m.kind
    case PlainMember => Ok((bytes, heap))
    case StringMember => ConvertString(bytes, heap, pos, m, readHeapString, nativeLittle)
    case VlenMember => ConvertVlen(bytes, heap, pos, m, readHeapVlen, nativeLittle)
  }

  /** The STRING branch of `convertHeap`. */
  function ConvertString<S, V>(bytes: seq<bv8>, heap: seq<HeapObject<S, V>>, pos: int, m: HeapMember,
                               readHeapString: (seq<bv8>, int) -> Option<S>, nativeLittle: bool)
    : (r: Result<(seq<bv8>, seq<HeapObject<S, V>>), ReadError>)
    ensures m.size < 0 ==> r == Err(NegativeArraySize)
    ensures r.Ok? ==> |r.value.0| == |bytes| && |r.value.1| == |heap| + 1 && r.value.1[..|heap|] == heap
    ensures r.Ok? ==> r.value.1[|heap|].HeapStrings? && |r.value.1[|heap|].strings| == m.size
  {
    var destPos := Wrap32(pos + m.dataParam);
    if m.size < 0 then Err(NegativeArraySize)
    else
      match ReadAll(StringIdAddrs(destPos, m.size), StringReader(bytes, readHeapString))
      case None => Err(IOError)
      case Some(strs) => StoreIndex(bytes, heap, destPos, HeapStrings(strs), nativeLittle)
  }

  /**
   * The vlen object `v` holds what was read from the `size` heap ids at `slot`: the first one alone
   * when the member has no fixed leading dimension, otherwise all of them over that leading shape.
   */
  ghost predicate VlenRead<V>(v: VlenArray<V>, bytes: seq<bv8>, slot: int, size: nat, m: HeapMember,
                              readHeapVlen: (seq<bv8>, int, bool) -> Option<V>)
  {
    var prefixrank := FirstNegative(m.shape);
    (prefixrank == 0 ==> size > 0 && v == Scalar(readHeapVlen(bytes, VlenAddrs(slot, size)[0], m.littleEndian))) &&
    (prefixrank > 0 ==>
      v.Nested? && v.shape == m.shape[..prefixrank] && |v.elems| == size &&
      forall i :: 0 <= i < size ==> v.elems[i] == readHeapVlen(bytes, VlenAddrs(slot, size)[i], m.littleEndian))
  }

  /** The vlen branch of `convertHeap`. */
  function ConvertVlen<S, V>(bytes: seq<bv8>, heap: seq<HeapObject<S, V>>, pos: int, m: HeapMember,
                             readHeapVlen: (seq<bv8>, int, bool) -> Option<V>, nativeLittle: bool)
    : (r: Result<(seq<bv8>, seq<HeapObject<S, V>>), ReadError>)
    ensures Wrap32(Tiling.Prod(m.shape[..FirstNegative(m.shape)])) < 0 ==> r == Err(NegativeArraySize)
    ensures Wrap32(Tiling.Prod(m.shape[..FirstNegative(m.shape)])) == 0 ==> r.Err?
    ensures r.Ok? ==> |r.value.0| == |bytes| && |r.value.1| == |heap| + 1 && r.value.1[..|heap|] == heap
    ensures r.Ok? ==> r.value.1[|heap|].HeapVlen?
    ensures var slot := Wrap32(pos + m.dataParam); var size := Wrap32(Tiling.Prod(m.shape[..FirstNegative(m.shape)]));
      r.Ok? <==> size > 0 && AllReadable(VlenAddrs(slot, size), VlenReader(bytes, readHeapVlen, m.littleEndian)) &&
                 0 <= slot && slot + 4 <= |bytes|
    ensures var slot := Wrap32(pos + m.dataParam); var prefixrank := FirstNegative(m.shape);
      var size := Wrap32(Tiling.Prod(m.shape[..prefixrank]));
      r.Ok? ==> size > 0 && VlenRead(r.value.1[|heap|].vlen, bytes, slot, size, m, readHeapVlen)
  {
    var startPos := Wrap32(pos + m.dataParam);
    var prefixrank := FirstNegative(m.shape);
    var size := Wrap32(Tiling.Prod(m.shape[..prefixrank]));
    if size < 0 then Err(NegativeArraySize)
    else
      match ReadAll(VlenAddrs(startPos, size), VlenReader(bytes, readHeapVlen, m.littleEndian))
      case None => Err(IOError)
      case Some(vs) =>
        if |vs| == 0 then Err(IndexOutOfBounds)
        else StoreIndex(bytes, heap, startPos, HeapVlen(VlenField(vs, m.shape, prefixrank)), nativeLittle)
  }

  /** `bb.putInt(pos, addObjectToHeap(obj))`: the object appended to the heap, its index written at `pos`. */
  function StoreIndex<S, V>(bytes: seq<bv8>, heap: seq<HeapObject<S, V>>, pos: int, obj: HeapObject<S, V>, nativeLittle: bool)
    : (r: Result<(seq<bv8>, seq<HeapObject<S, V>>), ReadError>)
    ensures r.Ok? <==> 0 <= pos && pos + 4 <= |bytes|
    ensures r.Ok? ==> r.value.1 == heap + [obj] && |r.value.0| == |bytes|
    ensures r.Err? ==> r.error == IndexOutOfBounds
  {
    match PutInt(bytes, pos, Wrap32(|heap|), nativeLittle)
    case Err(e) => Err(e)
    case Ok(b) => Ok((b, heap + [obj]))
  }

  /** One heap object appended and only the four bytes of `slot` rewritten, with that object's heap index. */
  ghost predicate SlotWritten<S, V>(bytes: seq<bv8>, heap: seq<HeapObject<S, V>>, slot: int, r: (seq<bv8>, seq<HeapObject<S, V>>), nativeLittle: bool)
  {
    |r.1| == |heap| + 1 && r.1[..|heap|] == heap &&
    |r.0| == |bytes| && 0 <= slot && slot + 4 <= |bytes| &&
    r.0[slot..slot + 4] == IntBytes(Wrap32(|heap|), nativeLittle) &&
    (forall k :: 0 <= k < |bytes| && !(slot <= k < slot + 4) ==> r.0[k] == bytes[k])
  }

  lemma StringMemberEffect<S, V>(bytes: seq<bv8>, heap: seq<HeapObject<S, V>>, pos: int, m: HeapMember,
                                 readHeapString: (seq<bv8>, int) -> Option<S>, readHeapVlen: (seq<bv8>, int, bool) -> Option<V>,
                                 nativeLittle: bool)
    requires m.kind == StringMember
    ensures var r := ConvertMember(bytes, heap, pos, m, readHeapString, readHeapVlen, nativeLittle);
      var slot := Wrap32(pos + m.dataParam);
      (r.Ok? <==> m.size >= 0 && AllReadable(StringIdAddrs(slot, m.size), StringReader(bytes, readHeapString)) &&
                  0 <= slot && slot + 4 <= |bytes|) &&
      (r.Ok? ==>
        SlotWritten(bytes, heap, slot, r.value, nativeLittle) &&
        var strs := r.value.1[|heap|];
        strs.HeapStrings? && |strs.strings| == m.size &&
        forall i :: 0 <= i < m.size ==> Some(strs.strings[i]) == readHeapString(bytes, StringIdAddrs(slot, m.size)[i]))
  {
  }

  lemma VlenMemberEffect<S, V>(bytes: seq<bv8>, heap: seq<HeapObject<S, V>>, pos: int, m: HeapMember,
                               readHeapString: (seq<bv8>, int) -> Option<S>, readHeapVlen: (seq<bv8>, int, bool) -> Option<V>,
                               nativeLittle: bool)
    requires m.kind == VlenMember
    ensures var r := ConvertMember(bytes, heap, pos, m, readHeapString, readHeapVlen, nativeLittle);
      var slot := Wrap32(pos + m.dataParam); var size := Wrap32(Tiling.Prod(m.shape[..FirstNegative(m.shape)]));
      (r.Ok? <==> size > 0 && AllReadable(VlenAddrs(slot, size), VlenReader(bytes, readHeapVlen, m.littleEndian)) &&
                  0 <= slot && slot + 4 <= |bytes|) &&
      (r.Ok? ==>
        SlotWritten(bytes, heap, slot, r.value, nativeLittle) &&
        r.value.1[|heap|].HeapVlen? && VlenRead(r.value.1[|heap|].vlen, bytes, slot, size, m, readHeapVlen))
  {
  }

  /**
   * What converting one member does: a heap member adds exactly one heap object holding what was read
   * and rewrites only the four bytes of its slot, with the object's heap index; the STRING branch
   * succeeds exactly when the count is non-negative, every heap id reads and the slot lies in the buffer,
   * the vlen branch exactly when the instance count is positive, every heap id reads and the slot lies
   * in the buffer.
   */
  lemma ConvertMemberEffect<S, V>(bytes: seq<bv8>, heap: seq<HeapObject<S, V>>, pos: int, m: HeapMember,
                                  readHeapString: (seq<bv8>, int) -> Option<S>, readHeapVlen: (seq<bv8>, int, bool) -> Option<V>,
                                  nativeLittle: bool)
    ensures var r := ConvertMember(bytes, heap, pos, m, readHeapString, readHeapVlen, nativeLittle);
      m.kind == PlainMember ==> r == Ok((bytes, heap))
    ensures var r := ConvertMember(bytes, heap, pos, m, readHeapString, readHeapVlen, nativeLittle);
      r.Ok? && m.kind != PlainMember ==>
      var slot := Wrap32(pos + m.dataParam);
      |r.value.1| == |heap| + 1 && r.value.1[..|heap|] == heap &&
      |r.value.0| == |bytes| && 0 <= slot && slot + 4 <= |bytes| &&
      r.value.0[slot..slot + 4] == IntBytes(Wrap32(|heap|), nativeLittle) &&
      (forall k :: 0 <= k < |bytes| && !(slot <= k < slot + 4) ==> r.value.0[k] == bytes[k])
    ensures var r := ConvertMember(bytes, heap, pos, m, readHeapString, readHeapVlen, nativeLittle);
      r.Ok? && m.kind == StringMember ==>
      var strs := r.value.1[|heap|];
      strs.HeapStrings? && |strs.strings| == m.size &&
      forall i :: 0 <= i < m.size ==> Some(strs.strings[i]) == readHeapString(bytes, StringIdAddrs(Wrap32(pos + m.dataParam), m.size)[i])
    ensures var r := ConvertMember(bytes, heap, pos, m, readHeapString, readHeapVlen, nativeLittle);
      m.kind == StringMember ==> (r.Ok? <==>
      m.size >= 0 && AllReadable(StringIdAddrs(Wrap32(pos + m.dataParam), m.size), StringReader(bytes, readHeapString)) &&
      0 <= Wrap32(pos + m.dataParam) && Wrap32(pos + m.dataParam) + 4 <= |bytes|)
    ensures var r := ConvertMember(bytes, heap, pos, m, readHeapString, readHeapVlen, nativeLittle);
      var slot := Wrap32(pos + m.dataParam); var size := Wrap32(Tiling.Prod(m.shape[..FirstNegative(m.shape)]));
      m.kind == VlenMember ==>
      (r.Ok? <==> size > 0 && AllReadable(VlenAddrs(slot, size), VlenReader(bytes, readHeapVlen, m.littleEndian)) &&
                  0 <= slot && slot + 4 <= |bytes|) &&
      (r.Ok? ==> r.value.1[|heap|].HeapVlen? && VlenRead(r.value.1[|heap|].vlen, bytes, slot, size, m, readHeapVlen))
  {
    if m.kind == StringMember {
      StringMemberEffect(bytes, heap, pos, m, readHeapString, readHeapVlen, nativeLittle);
    } else if m.kind == VlenMember {
      VlenMemberEffect(bytes, heap, pos, m, readHeapString, readHeapVlen, nativeLittle);
    }
  }

  /** A scalar vlen member (no fixed leading dimension) always has exactly one instance. */
  lemma ScalarVlenHasOneInstance(shape: seq<int>)
    requires FirstNegative(shape) == 0
    ensures Wrap32(Tiling.Prod(shape[..FirstNegative(shape)])) == 1
  {
    assert shape[..0] == [];
  }

  /** `convertHeap(asbb, pos, sm)`: the members of one record in order. */
  function ConvertRecord<S, V>(bytes: seq<bv8>, heap: seq<HeapObject<S, V>>, pos: int, members: seq<HeapMember>,
                               readHeapString: (seq<bv8>, int) -> Option<S>, readHeapVlen: (seq<bv8>, int, bool) -> Option<V>,
                               nativeLittle: bool): Result<(seq<bv8>, seq<HeapObject<S, V>>), ReadError>
    decreases |members|
  {
    if members == [] then Ok((bytes, heap))
    else
      match ConvertMember(bytes, heap, pos, members[0], readHeapString, readHeapVlen, nativeLittle)
      case Err(e) => Err(e)
      case Ok(state) => ConvertRecord(state.0, state.1, pos, members[1..], readHeapString, readHeapVlen, nativeLittle)
  }

  /** Number of STRING and vlen members: the heap objects one record adds. */
  function HeapMemberCount(members: seq<HeapMember>): nat
  {
    if members == [] then 0 else (if members[0].kind == PlainMember then 0 else 1) + HeapMemberCount(members[1..])
  }

  /** A converted record adds one heap object per STRING or vlen member and keeps the buffer length. */
  lemma {:induction false} ConvertRecordGrowth<S, V>(bytes: seq<bv8>, heap: seq<HeapObject<S, V>>, pos: int, members: seq<HeapMember>,
                                                     readHeapString: (seq<bv8>, int) -> Option<S>, readHeapVlen: (seq<bv8>, int, bool) -> Option<V>,
                                                     nativeLittle: bool)
    ensures var r := ConvertRecord(bytes, heap, pos, members, readHeapString, readHeapVlen, nativeLittle);
      r.Ok? ==> |r.value.0| == |bytes| && |r.value.1| == |heap| + HeapMemberCount(members) && heap <= r.value.1
    decreases |members|
  {
    if members != [] {
      var step := ConvertMember(bytes, heap, pos, members[0], readHeapString, readHeapVlen, nativeLittle);
      ConvertMemberEffect(bytes, heap, pos, members[0], readHeapString, readHeapVlen, nativeLittle);
      if step.Ok? {
        ConvertRecordGrowth(step.value.0, step.value.1, pos, members[1..], readHeapString, readHeapVlen, nativeLittle);
      }
    }
  }

  /** The record loop of `convertStructure`: `step` on records i .. n - 1, record i at byte `destPos`, which advances by `recSize` in int arithmetic. */
  function RecordsLoop<St>(st: St, i: int, n: int, destPos: int, recSize: int, step: (St, int) -> Result<St, ReadError>): Result<St, ReadError>
    decreases n - i
  {
    if i >= n then Ok(st)
    else
      match step(st, destPos)
      case Err(e) => Err(e)
      case Ok(next) => RecordsLoop(next, i + 1, n, Wrap32(destPos + recSize), recSize, step)
  }

  /** `convertHeap` on one record, as a step of the record loop. */
  function RecordStep<S, V>(members: seq<HeapMember>, readHeapString: (seq<bv8>, int) -> Option<S>,
                            readHeapVlen: (seq<bv8>, int, bool) -> Option<V>, nativeLittle: bool)
    : ((seq<bv8>, seq<HeapObject<S, V>>), int) -> Result<(seq<bv8>, seq<HeapObject<S, V>>), ReadError>
  {
    (st: (seq<bv8>, seq<HeapObject<S, V>>), pos: int) => ConvertRecord(st.0, st.1, pos, members, readHeapString, readHeapVlen, nativeLittle)
  }

  /** Records `i .. n - 1` of `convertStructure`. */
  function ConvertRecordsFrom<S, V>(bytes: seq<bv8>, heap: seq<HeapObject<S, V>>, i: int, n: int, destPos: int, recSize: int,
                                    members: seq<HeapMember>, readHeapString: (seq<bv8>, int) -> Option<S>,
                                    readHeapVlen: (seq<bv8>, int, bool) -> Option<V>, nativeLittle: bool): Result<(seq<bv8>, seq<HeapObject<S, V>>), ReadError>
  {
    RecordsLoop((bytes, heap), i, n, destPos, recSize, RecordStep(members, readHeapString, readHeapVlen, nativeLittle))
  }

  /** A step that keeps the buffer length and appends c heap objects. */
  predicate StepGrows<H(==)>(step: ((seq<bv8>, seq<H>), int) -> Result<(seq<bv8>, seq<H>), ReadError>, st: (seq<bv8>, seq<H>), pos: int, c: nat)
  {
    var r := step(st, pos);
    r.Ok? ==> |r.value.0| == |st.0| && |r.value.1| == |st.1| + c && st.1 <= r.value.1
  }

  lemma GrowthCombine<T>(heap: seq<T>, heap1: seq<T>, heap2: seq<T>, c: nat, k: nat, m: int)
    requires m == k + 1
    requires |heap1| == |heap| + c && |heap2| == |heap1| + k * c
    requires heap <= heap1 && heap1 <= heap2
    ensures |heap2| == |heap| + m * c && heap <= heap2
  {
    assert m * c == k * c + c;
  }

  /** k = n - i loop steps that each append c heap objects append k * c of them. */
  lemma {:induction false} RecordsLoopGrowth<H>(st: (seq<bv8>, seq<H>), i: int, n: int, destPos: int, recSize: int,
                                                step: ((seq<bv8>, seq<H>), int) -> Result<(seq<bv8>, seq<H>), ReadError>, c: nat, k: nat)
    requires k == n - i
    requires forall st': (seq<bv8>, seq<H>), pos: int :: StepGrows(step, st', pos, c)
    ensures var r := RecordsLoop(st, i, n, destPos, recSize, step);
      r.Ok? ==> |r.value.0| == |st.0| && |r.value.1| == |st.1| + k * c && st.1 <= r.value.1
    decreases k
  {
    if i < n {
      assert StepGrows(step, st, destPos, c);
      match step(st, destPos)
      case Err(_) =>
      case Ok(next) =>
        RecordsLoopGrowth(next, i + 1, n, Wrap32(destPos + recSize), recSize, step, c, k - 1);
        var r := RecordsLoop(next, i + 1, n, Wrap32(destPos + recSize), recSize, step);
        if r.Ok? {
          GrowthCombine(st.1, next.1, r.value.1, c, k - 1, k);
        }
    } else {
      assert k * c == 0;
    }
  }

  /** Converting records i .. n - 1, k = n - i of them, adds HeapMemberCount objects per record to the heap. */
  lemma ConvertRecordsGrowth<S, V>(bytes: seq<bv8>, heap: seq<HeapObject<S, V>>, i: int, n: int, destPos: int, recSize: int,
                                   members: seq<HeapMember>, readHeapString: (seq<bv8>, int) -> Option<S>,
                                   readHeapVlen: (seq<bv8>, int, bool) -> Option<V>, nativeLittle: bool, k: nat)
    requires k == n - i
    ensures var r := ConvertRecordsFrom(bytes, heap, i, n, destPos, recSize, members, readHeapString, readHeapVlen, nativeLittle);
      r.Ok? ==> |r.value.0| == |bytes| && |r.value.1| == |heap| + k * HeapMemberCount(members) && heap <= r.value.1
  {
    var step := RecordStep(members, readHeapString, readHeapVlen, nativeLittle);
    var c := HeapMemberCount(members);
    forall st: (seq<bv8>, seq<HeapObject<S, V>>), pos: int
      ensures StepGrows(step, st, pos, c)
    {
      ConvertRecordGrowth(st.0, st.1, pos, members, readHeapString, readHeapVlen, nativeLittle);
    }
    RecordsLoopGrowth((bytes, heap), i, n, destPos, recSize, step, c, k);
  }

  /**
   * `convertStructure(s, layout, shape, byteArray)` after the member set-up: the record size check,
   * then, when some member lives on the heap, `convertHeap` on every record.
   */
  function ConvertStructure<S, V>(bytes: seq<bv8>, recSize: int, calcSize: int, hasHeap: bool, totalNelems: int,
                                  members: seq<HeapMember>, readHeapString: (seq<bv8>, int) -> Option<S>,
                                  readHeapVlen: (seq<bv8>, int, bool) -> Option<V>, nativeLittle: bool): (r: Result<(seq<bv8>, seq<HeapObject<S, V>>), ReadError>)
    ensures recSize < calcSize ==> r == Err(IllegalStructureSize(calcSize, recSize))
    ensures recSize >= calcSize && !hasHeap ==> r == Ok((bytes, []))
  {
    match StructureSize(recSize, calcSize)
    case Err(e) => Err(e)
    case Ok(_) =>
      if !hasHeap then Ok((bytes, []))
      else ConvertRecordsFrom(bytes, [], 0, totalNelems, 0, recSize, members, readHeapString, readHeapVlen, nativeLittle)
  }

  /** A structure read adds HeapMemberCount objects per record to an initially empty heap, or none without heap members. */
  lemma ConvertStructureHeap<S, V>(bytes: seq<bv8>, recSize: int, calcSize: int, hasHeap: bool, totalNelems: nat,
                                   members: seq<HeapMember>, readHeapString: (seq<bv8>, int) -> Option<S>,
                                   readHeapVlen: (seq<bv8>, int, bool) -> Option<V>, nativeLittle: bool)
    ensures var r := ConvertStructure(bytes, recSize, calcSize, hasHeap, totalNelems, members, readHeapString, readHeapVlen, nativeLittle);
      (recSize < calcSize ==> r == Err(IllegalStructureSize(calcSize, recSize))) &&
      (r.Ok? ==> |r.value.0| == |bytes| && |r.value.1| == (if hasHeap then totalNelems * HeapMemberCount(members) else 0)) &&
      (!hasHeap && recSize >= calcSize ==> r == Ok((bytes, [])))
  {
    if hasHeap && recSize >= calcSize {
      ConvertRecordsGrowth(bytes, [], 0, totalNelems, 0, recSize, members, readHeapString, readHeapVlen, nativeLittle, totalNelems);
    }
  }

  /** The heap-id loop of the STRING branch: one 16-byte heap id after another from `destPos`. */
  method ReadHeapIds<S>(buf: seq<bv8>, destPos: int, size: nat, readHeapString: (seq<bv8>, int) -> Option<S>)
    returns (r: Option<seq<S>>)
    ensures r == ReadAll(StringIdAddrs(destPos, size), StringReader(buf, readHeapString))
  {
    ghost var addrs := StringIdAddrs(destPos, size);
    ghost var read := StringReader(buf, readHeapString);
    var result: seq<S> := [];
    for i := 0 to size
      invariant |result| == i
      invariant forall k :: 0 <= k < i ==> Some(result[k]) == read(addrs[k])
    {
      var s := readHeapString(buf, Wrap32(destPos + i * HEAP_ID_SIZE));
      if s.None? {
        assert read(addrs[i]) == s;
        assert !AllReadable(addrs, read);
        return None;
      }
      result := result + [s.value];
    }
    ReadAllIs(addrs, read, result);
    return Some(result);
  }

  /** The instance loop of the vlen branch: one `hvl_t` after another from `startPos`, stopping at the first that does not read. */
  method ReadVlenInstances<V>(buf: seq<bv8>, startPos: int, size: nat, littleEndian: bool, readHeapVlen: (seq<bv8>, int, bool) -> Option<V>)
    returns (r: Option<seq<V>>)
    requires IsInt32(startPos)
    ensures r == ReadAll(VlenAddrs(startPos, size), VlenReader(buf, readHeapVlen, littleEndian))
  {
    ghost var addrs := VlenAddrs(startPos, size);
    ghost var read := VlenReader(buf, readHeapVlen, littleEndian);
    var fieldarray: seq<V> := [];
    var destPos := startPos;
    for i := 0 to size
      invariant |fieldarray| == i
      invariant destPos == Wrap32(startPos + i * VLEN_T_SIZE)
      invariant forall k :: 0 <= k < i ==> Some(fieldarray[k]) == read(addrs[k])
    {
      var v := readHeapVlen(buf, destPos, littleEndian);
      if v.None? {
        assert read(addrs[i]) == v;
        assert !AllReadable(addrs, read);
        return None;
      }
      fieldarray := fieldarray + [v.value];
      WrapAdd(startPos + i * VLEN_T_SIZE, VLEN_T_SIZE);
      destPos := Wrap32(destPos + VLEN_T_SIZE);
    }
    ReadAllIs(addrs, read, fieldarray);
    return Some(fieldarray);
  }

  /** What a conversion step reports: the new bytes and heap when it succeeds, its error otherwise. */
  function Outcome<S, V>(r: Result<(), ReadError>, bytes: seq<bv8>, heap: seq<HeapObject<S, V>>)
    : Result<(seq<bv8>, seq<HeapObject<S, V>>), ReadError>
  {
    if r.Ok? then Ok((bytes, heap)) else Err(r.error)
  }

  /** An `ArrayStructureBB`: the record bytes and the heap of strings and vlens they refer to. */
  class StructureBB<S, V> {
    var bytes: seq<bv8>
    var heap: seq<HeapObject<S, V>>

    constructor (bytes0: seq<bv8>)
      ensures bytes == bytes0 && heap == []
    {
      bytes := bytes0;
      heap := [];
    }

    /** `addObjectToHeap`: appends and returns the new object's index. */
    method AddObjectToHeap(obj: HeapObject<S, V>) returns (index: int)
      modifies this
      ensures heap == old(heap) + [obj] && bytes == old(bytes)
      ensures index == Wrap32(|old(heap)|)
    {
      index := Wrap32(|heap|);
      heap := heap + [obj];
    }

    /** `bb.putInt(pos, addObjectToHeap(obj))`: the object goes on the heap and its index into the record's slot. */
    method StoreHeapIndex(pos: int, obj: HeapObject<S, V>, nativeLittle: bool) returns (r: Result<(), ReadError>)
      modifies this
      ensures Outcome(r, bytes, heap) == StoreIndex(old(bytes), old(heap), pos, obj, nativeLittle)
    {
      var index := AddObjectToHeap(obj);
      if pos < 0 || pos + 4 > |bytes| {
        return Err(IndexOutOfBounds);
      }
      bytes := bytes[..pos] + IntBytes(index, nativeLittle) + bytes[pos + 4..];
      return Ok(());
    }

    /** The STRING branch of `convertHeap`. */
    method ConvertStringMember(pos: int, m: HeapMember, readHeapString: (seq<bv8>, int) -> Option<S>, nativeLittle: bool)
      returns (r: Result<(), ReadError>)
      modifies this
      ensures var spec := ConvertString(old(bytes), old(heap), pos, m, readHeapString, nativeLittle);
        Outcome(r, bytes, heap) == spec
    {
      var size := m.size;
      var destPos := Wrap32(pos + m.dataParam);
      if size < 0 {
        return Err(NegativeArraySize);
      }
      var read := ReadHeapIds(bytes, destPos, size, readHeapString);
      if read.None? {
        return Err(IOError);
      }
      var result := read.value;
      assert ConvertString(bytes, heap, pos, m, readHeapString, nativeLittle) == StoreIndex(bytes, heap, destPos, HeapStrings(result), nativeLittle);
      r := StoreHeapIndex(destPos, HeapStrings(result), nativeLittle);
    }

    /** The vlen branch of `convertHeap`. */
    method ConvertVlenMember(pos: int, m: HeapMember, readHeapVlen: (seq<bv8>, int, bool) -> Option<V>, nativeLittle: bool)
      returns (r: Result<(), ReadError>)
      modifies this
      ensures var spec := ConvertVlen(old(bytes), old(heap), pos, m, readHeapVlen, nativeLittle);
        Outcome(r, bytes, heap) == spec
    {
      var startPos := Wrap32(pos + m.dataParam);
      var prefixrank, size := VlenFieldCount(m.shape);
      if size < 0 {
        return Err(NegativeArraySize);
      }
      var read := ReadVlenInstances(bytes, startPos, size, m.littleEndian, readHeapVlen);
      if read.None? {
        return Err(IOError);
      }
      var fieldarray := read.value;
      if |fieldarray| == 0 {
        return Err(IndexOutOfBounds);
      }
      assert ConvertVlen(bytes, heap, pos, m, readHeapVlen, nativeLittle)
        == StoreIndex(bytes, heap, startPos, HeapVlen(VlenField(fieldarray, m.shape, prefixrank)), nativeLittle);
      r := StoreHeapIndex(startPos, HeapVlen(VlenField(fieldarray, m.shape, prefixrank)), nativeLittle);
    }

    /** `convertHeap(asbb, pos, sm)`: every member of the record at byte `pos`. */
    method ConvertHeap(pos: int, members: seq<HeapMember>, readHeapString: (seq<bv8>, int) -> Option<S>,
                       readHeapVlen: (seq<bv8>, int, bool) -> Option<V>, nativeLittle: bool)
      returns (r: Result<(), ReadError>)
      modifies this
      ensures var spec := ConvertRecord(old(bytes), old(heap), pos, members, readHeapString, readHeapVlen, nativeLittle);
        Outcome(r, bytes, heap) == spec
    {
      ghost var spec := ConvertRecord(bytes, heap, pos, members, readHeapString, readHeapVlen, nativeLittle);
      assert members[0..] == members;
      for j := 0 to |members|
        invariant spec == ConvertRecord(bytes, heap, pos, members[j..], readHeapString, readHeapVlen, nativeLittle)
      {
        var m := members[j];
        assert members[j..][0] == m && members[j..][1..] == members[j + 1..];
        if m.kind == StringMember {
          var step := ConvertStringMember(pos, m, readHeapString, nativeLittle);
          if step.Err? {
            return Err(step.error);
          }
        } else if m.kind == VlenMember {
          var step := ConvertVlenMember(pos, m, readHeapVlen, nativeLittle);
          if step.Err? {
            return Err(step.error);
          }
        }
      }
      assert members[|members|..] == [];
      return Ok(());
    }

    /** The record loop of `convertStructure`: `convertHeap` at `destPos`, then `destPos += recSize`. */
    method ConvertRecords(totalNelems: int, recSize: int, members: seq<HeapMember>, readHeapString: (seq<bv8>, int) -> Option<S>,
                          readHeapVlen: (seq<bv8>, int, bool) -> Option<V>, nativeLittle: bool)
      returns (r: Result<(), ReadError>)
      modifies this
      ensures var spec := ConvertRecordsFrom(old(bytes), old(heap), 0, totalNelems, 0, recSize, members, readHeapString, readHeapVlen, nativeLittle);
        Outcome(r, bytes, heap) == spec
    {
      ghost var spec := ConvertRecordsFrom(bytes, heap, 0, totalNelems, 0, recSize, members, readHeapString, readHeapVlen, nativeLittle);
      var destPos := 0;
      var i := 0;
      while i < totalNelems
        invariant spec == ConvertRecordsFrom(bytes, heap, i, totalNelems, destPos, recSize, members, readHeapString, readHeapVlen, nativeLittle)
        decreases totalNelems - i
      {
        var step := ConvertHeap(destPos, members, readHeapString, readHeapVlen, nativeLittle);
        if step.Err? {
          return Err(step.error);
        }
        destPos := Wrap32(destPos + recSize);
        i := i + 1;
      }
      return Ok(());
    }
  }
}
