/**
 * The HDF5 filtered-chunk reader (`H5tiledLayoutBB` and its inner `DataChunk`): layout parameters,
 * the chunk size check, the chunk offset, and the reverse filter pipeline that rebuilds one
 * chunk's bytes (filter ids 1 deflate, 2 shuffle, 3 Fletcher-32, as in the Filter Pipeline Message,
 * section IV.A.2.l of the HDF5 File Format Specification).
 */
module FilterPipeline {
  import opened Wrappers
  import opened JavaInt
  import opened JavaStrings
  import opened Ranges
  import Permutations

  const DEFAULT_ZIP_BUFFER_SIZE: int := 512
  /** The largest byte array the reader is willing to allocate. */
  const MAX_ARRAY_LEN: int := INT_MAX - 8

  const FILTER_DEFLATE: int := 1
  const FILTER_SHUFFLE: int := 2
  const FILTER_FLETCHER32: int := 3

  /** One entry of the filter pipeline message: its id and its client data values. */
  datatype Filter = Filter(id: int, data: seq<int>)

  /** A chunk as the B-tree delivers it. */
  datatype StoredChunk = StoredChunk(size: int, offset: seq<int>, filterMask: bv32, filePos: int)

  datatype FilterError =
    | ChunkTooLarge(size: int)           // IllegalArgumentException from the DataChunk constructor
    | ReadPastEnd                        // EOFException from readFully
    | InflateFailed                      // IOException from java.util.zip
    | NegativeCapacity(capacity: int)    // IllegalArgumentException from new ByteArrayOutputStream
    | MissingShuffleParameter            // f.data[0] on an empty array
    | ChecksumTooShort(length: int)      // new byte[length - 4] with length < 4
    | UnknownFilter(id: int)             // RuntimeException("Unknown filter type=")

  /**
   * The deflate decoder: compressed bytes, the InflaterInputStream buffer size and the initial
   * capacity of the output stream; `None` where java.util.zip throws.
   */
  type Inflater = (seq<bv8>, int, nat) -> Option<seq<bv8>>

  // ---------------------------------------------------------------- layout parameters

  /** Chunk rank: the storage rank for CHAR data, otherwise one less (the element size is dropped). */
  function ChunkRank(isChar: bool, storageSize: seq<int>): (n: nat)
    requires |storageSize| >= 1
    ensures n <= |storageSize|
    ensures isChar <==> n == |storageSize|
    ensures !isChar ==> n + 1 == |storageSize|
  {
    if isChar then |storageSize| else |storageSize| - 1
  }

  /** For CHAR data a want section of lower rank than the storage gets a trailing range of length 1. */
  function ChunkWantSection(isChar: bool, want: seq<Range>, storageSize: seq<int>): (r: seq<Range>)
    ensures isChar && |want| < |storageSize| ==> |r| == |want| + 1 && r[|want|] == Range(0, 0, 1)
    ensures !(isChar && |want| < |storageSize|) ==> r == want
    ensures want <= r
  {
    if isChar && |want| < |storageSize| then want + [Range(0, 0, 1)] else want
  }

  /** The inflate buffer size: a positive int property value, otherwise 512. */
  function InflateBufferSize(property: Option<string>): (r: int)
    ensures r >= 1
    ensures r != DEFAULT_ZIP_BUFFER_SIZE ==> property.Some? && ParseInt(property.value) == Some(r)
    ensures property.Some? && ParseInt(property.value).Some? && ParseInt(property.value).value > 0 ==>
      r == ParseInt(property.value).value
  {
    match property
    case None => DEFAULT_ZIP_BUFFER_SIZE
    case Some(text) =>
      match ParseInt(text)
      case None => DEFAULT_ZIP_BUFFER_SIZE
      case Some(size) => if size <= 0 then DEFAULT_ZIP_BUFFER_SIZE else size
  }

  /** `DataChunk` constructor: a stored size outside [0, MAX_ARRAY_LEN] is rejected. */
  function CheckChunk(c: StoredChunk): (r: Result<StoredChunk, FilterError>)
    ensures r.Ok? <==> 0 <= c.size <= MAX_ARRAY_LEN
    ensures r.Ok? ==> r.value == c
    ensures r.Err? ==> r.error == ChunkTooLarge(c.size)
  {
    if c.size < 0 || c.size > MAX_ARRAY_LEN then Err(ChunkTooLarge(c.size)) else Ok(c)
  }

  /** `getOffset`: the B-tree offset cut to the chunk rank (the element-size coordinate is dropped). */
  function ChunkOffset(offset: seq<int>, nChunkDims: nat): (r: seq<int>)
    ensures |r| == Min(|offset|, nChunkDims)
    ensures r <= offset
  {
    if |offset| > nChunkDims then offset[..nChunkDims] else offset
  }

  /** `isBitSet(val, bitno)`: bit `bitno` of `val`, where Java's `>>>` uses only the low 5 bits of `bitno`. */
  function IsBitSet(val: bv32, bitno: nat): bool
  {
    Bit(val, bitno % 32)
  }

  /** Bit `k` of `val`, for a shift distance below 32. */
  function Bit(val: bv32, k: nat): bool
    requires k < 32
  {
    (val >> k) & 1 != 0
  }

  /** Shifting by `bitno` and by `bitno + 32` reads the same bit. */
  lemma IsBitSetPeriodic(val: bv32, bitno: nat)
    ensures IsBitSet(val, bitno) == IsBitSet(val, bitno + 32)
  {
    assert (bitno + 32) % 32 == bitno % 32;
  }

  /** A mask with the single bit k set skips exactly the filters whose index is k modulo 32. */
  lemma IsBitSetSingle(k: bv32, bitno: nat)
    requires k < 32
    ensures IsBitSet(1 << k, bitno) <==> (bitno % 32) as bv32 == k
  {
  }

  /** The empty mask skips no filter. */
  lemma IsBitSetZero(bitno: nat)
    ensures !IsBitSet(0, bitno)
  {
  }

  // ---------------------------------------------------------------- shuffle

  /** The quotient of a position below m * n by n is a block index below m. */
  lemma QuotientBelow(p: int, m: int, n: int)
    requires n >= 1 && 0 <= p < m * n
    ensures 0 <= p / n < m
  {
    var q := p / n;
    if q >= m {
      MulLe(n, m, q);
      assert false;
    }
  }

  /** Block a, offset b of blocks of length m lies inside n blocks. */
  lemma BlockBound(a: int, b: int, m: int, n: int)
    requires 0 <= a < n && 0 <= b < m
    ensures 0 <= a * m + b < m * n
  {
    MulLe(m, a + 1, n);
    MulLe(m, 0, a);
  }

  /** Position a * m + b splits back into block a and offset b. */
  lemma BlockSplit(a: int, b: int, m: int, n: int)
    requires 0 <= a < n && 0 <= b < m
    ensures 0 <= a * m + b < m * n
    ensures (a * m + b) / m == a && (a * m + b) % m == b
  {
    BlockBound(a, b, m, n);
    DivModUnique(a * m + b, m, a, b);
  }

  /** Position in the shuffled bytes that supplies output byte p (of a length m * n prefix). */
  function UnshuffleSource(p: int, m: int, n: int): (q: int)
    requires n >= 1 && 0 <= p < m * n
    ensures 0 <= q < m * n
  {
    QuotientBelow(p, m, n);
    BlockBound(p % n, p / n, m, n);
    p % n * m + p / n
  }

  /** Position in the unshuffled bytes that supplies shuffled byte q (of a length m * n sequence). */
  function ShuffleSource(q: int, m: int, n: int): (p: int)
    requires m >= 1 && 0 <= q < m * n
    ensures 0 <= p < m * n
  {
    QuotientBelow(q, n, m);
    BlockBound(q % m, q / m, n, m);
    q % m * n + q / m
  }

  /** Whole elements of a byte sequence of element size n. */
  lemma WholeElements(len: nat, n: int)
    requires n >= 1
    ensures 0 <= len / n * n <= len
    ensures len % n == 0 ==> len / n * n == len
  {
  }

  /**
   * The byte de-interleave of `shuffle(data, n)` for n > 1: with m = |s| / n, output byte i*n + j
   * is input byte j*m + i; bytes past m*n stay 0 as in the freshly allocated Java array.
   */
  function Unshuffle(s: seq<bv8>, n: int): (r: seq<bv8>)
    requires n > 1
    ensures |r| == |s|
    ensures forall p :: |s| / n * n <= p < |s| ==> r[p] == 0
  {
    var m := |s| / n;
    WholeElements(|s|, n);
    seq(|s|, p requires 0 <= p < |s| => if p < m * n then s[UnshuffleSource(p, m, n)] else 0)
  }

  /** What `shuffle` returns: the input itself for n <= 1, otherwise the de-interleave. */
  function ShuffleResult(s: seq<bv8>, n: int): (r: seq<bv8>)
  {
    if n <= 1 then s else Unshuffle(s, n)
  }

  /**
   * The forward byte interleave the HDF5 writer applies (the commented-out loop of `shuffle`):
   * byte k of element e goes to position k*m + e.
   */
  function Shuffle(s: seq<bv8>, n: int): (r: seq<bv8>)
    requires n >= 1 && |s| % n == 0
    ensures |r| == |s|
  {
    var m := |s| / n;
    WholeElements(|s|, n);
    seq(|s|, q requires 0 <= q < |s| => if m >= 1 then s[ShuffleSource(q, m, n)] else 0)
  }

  /** Output byte i*n + j of `shuffle` is input byte j*m + i, and the bytes past m*n are 0. */
  lemma UnshuffleAt(s: seq<bv8>, n: int, m: int, i: int, j: int)
    requires n > 1 && m == |s| / n && 0 <= i < m && 0 <= j < n
    ensures 0 <= i * n + j < |s| && 0 <= j * m + i < |s|
    ensures Unshuffle(s, n)[i * n + j] == s[j * m + i]
  {
    WholeElements(|s|, n);
    BlockSplit(i, j, n, m);
    BlockBound(j, i, m, n);
  }

  /** De-interleaving undoes the interleave. */
  lemma UnshuffleShuffle(s: seq<bv8>, n: int)
    requires n > 1 && |s| % n == 0
    ensures Unshuffle(Shuffle(s, n), n) == s
  {
    var m := |s| / n;
    var t := Shuffle(s, n);
    WholeElements(|s|, n);
    forall p | 0 <= p < |s|
      ensures Unshuffle(t, n)[p] == s[p]
    {
      QuotientBelow(p, m, n);
      BlockSplit(p % n, p / n, m, n);
      assert p / n * n + p % n == p;
    }
  }

  /** Interleaving undoes the de-interleave. */
  lemma ShuffleUnshuffle(s: seq<bv8>, n: int)
    requires n > 1 && |s| % n == 0
    ensures Shuffle(Unshuffle(s, n), n) == s
  {
    var m := |s| / n;
    var t := Unshuffle(s, n);
    WholeElements(|s|, n);
    forall q | 0 <= q < |s|
      ensures Shuffle(t, n)[q] == s[q]
    {
      QuotientBelow(q, n, m);
      BlockSplit(q % m, q / m, n, m);
      assert q / m * m + q % m == q;
    }
  }

  /** Distinct output positions read distinct input positions. */
  lemma UnshuffleSourceInjective(p: int, p': int, m: int, n: int)
    requires n >= 1 && 0 <= p < m * n && 0 <= p' < m * n
    requires UnshuffleSource(p, m, n) == UnshuffleSource(p', m, n)
    ensures p == p'
  {
    QuotientBelow(p, m, n);
    QuotientBelow(p', m, n);
    BlockSplit(p % n, p / n, m, n);
    BlockSplit(p' % n, p' / n, m, n);
    assert p / n * n + p % n == p;
    assert p' / n * n + p' % n == p';
  }

  /** For whole elements the de-interleave only moves bytes around: it keeps the byte multiset. */
  lemma UnshufflePermutes(s: seq<bv8>, n: int)
    requires n > 1 && |s| % n == 0
    ensures multiset(Unshuffle(s, n)) == multiset(s)
  {
    var m := |s| / n;
    var t := Unshuffle(s, n);
    WholeElements(|s|, n);
    var idx := seq(|t|, p => if 0 <= p < m * n then UnshuffleSource(p, m, n) else 0);
    forall i, j | 0 <= i < j < |t|
      ensures idx[i] != idx[j]
    {
      if idx[i] == idx[j] {
        UnshuffleSourceInjective(i, j, m, n);
      }
    }
    Permutations.InjectiveReindexing(s, t, idx);
  }

  /** Row i of the de-interleave ends where row i + 1 begins, inside the array. */
  lemma RowEnd(i: int, n: int, m: int, len: int)
    requires 0 <= i < m && n >= 1 && m * n <= len
    ensures i * n + n == (i + 1) * n <= len
  {
    MulLe(n, i + 1, m);
  }

  /** `r` agrees with the de-interleave of `s` below `upto` and is still zero from `upto` on. */
  ghost predicate FilledUpTo(r: seq<bv8>, s: seq<bv8>, n: int, upto: int)
    requires n > 1
  {
    |r| == |s| &&
    (forall p :: 0 <= p < upto && p < |s| ==> r[p] == Unshuffle(s, n)[p]) &&
    (forall p :: 0 <= p < |r| && upto <= p ==> r[p] == 0)
  }

  /** One pass of the outer loop of `shuffle`: fills output row i, positions i*n .. i*n + n - 1. */
  method UnshuffleRow(data: array<bv8>, count: array<int>, result: array<bv8>, n: int, m: int, i: int)
    requires result != data
    requires n > 1 && m == data.Length / n && 0 <= i < m
    requires count.Length == n && forall k :: 0 <= k < n ==> count[k] == k * m
    requires FilledUpTo(result[..], data[..], n, i * n)
    modifies result
    ensures FilledUpTo(result[..], data[..], n, (i + 1) * n)
  {
    WholeElements(data.Length, n);
    RowEnd(i, n, m, data.Length);
    ghost var row := i * n;
    for j := 0 to n
      invariant FilledUpTo(result[..], data[..], n, row + j)
    {
      UnshuffleAt(data[..], n, m, i, j);
      result[i * n + j] := data[i + count[j]];
    }
  }

  /** `shuffle(data, n)`: the same array for n <= 1, otherwise a new de-interleaved array. */
  method UnshuffleArray(data: array<bv8>, n: int) returns (result: array<bv8>)
    ensures n <= 1 ==> result == data
    ensures result[..] == ShuffleResult(data[..], n)
  {
    if n <= 1 {
      return data;
    }
    var len := data.Length;
    var m := len / n;
    WholeElements(len, n);
    var count := new int[n];
    for k := 0 to n
      invariant forall k' :: 0 <= k' < k ==> count[k'] == k' * m
    {
      count[k] := k * m;
    }
    result := new bv8[len](_ => 0);
    for i := 0 to m
      invariant FilledUpTo(result[..], data[..], n, i * n)
      invariant forall k :: 0 <= k < n ==> count[k] == k * m
    {
      UnshuffleRow(data, count, result, n, m, i);
    }
    UnshuffleTail(data[..], n, result[..]);
  }

  /** Past the whole elements both the de-interleave and the zero-filled array hold 0. */
  lemma UnshuffleTail(s: seq<bv8>, n: int, r: seq<bv8>)
    requires n > 1 && FilledUpTo(r, s, n, |s| / n * n)
    ensures r == Unshuffle(s, n)
  {
  }

  // ---------------------------------------------------------------- Fletcher-32 and one filter step

  /** `checkfletcher32`: all but the last 4 bytes; fewer than 4 bytes is a negative array size. */
  method StripFletcher32(org: array<bv8>) returns (r: Result<array<bv8>, FilterError>)
    ensures r.Ok? <==> org.Length >= 4
    ensures r.Ok? ==> r.value[..] == org[..org.Length - 4]
    ensures r.Err? ==> r.error == ChecksumTooShort(org.Length)
  {
    if org.Length < 4 {
      return Err(ChecksumTooShort(org.Length));
    }
    var result := new bv8[org.Length - 4];
    for i := 0 to result.Length
      invariant forall j :: 0 <= j < i ==> result[j] == org[j]
    {
      result[i] := org[i];
    }
    return Ok(result);
  }

  /** Initial output capacity handed to the output stream of `inflate`: min(8 * length, MAX_ARRAY_LEN), exactly. */
  function InflateCapacity(compressedLength: nat): (r: nat)
    ensures r <= MAX_ARRAY_LEN && r <= 8 * compressedLength
    ensures r == 8 * compressedLength || r == MAX_ARRAY_LEN
  {
    Min(8 * compressedLength, MAX_ARRAY_LEN)
  }

  /** The same capacity as written, `Math.min(8 * compressed.length, MAX_ARRAY_LEN)` in 32-bit int arithmetic. */
  function InflateCapacityAsWritten(compressedLength: nat): (r: int)
    ensures r <= MAX_ARRAY_LEN
  {
    Min(Wrap32(8 * compressedLength), MAX_ARRAY_LEN)
  }

  /** The two agree while 8 * length fits an int. */
  lemma InflateCapacityAgrees(compressedLength: nat)
    requires 8 * compressedLength <= INT_MAX
    ensures InflateCapacityAsWritten(compressedLength) == InflateCapacity(compressedLength)
  {
  }

  /**
   * A 256 MiB deflated chunk passes the chunk size check, but the capacity as written is negative,
   * so `new ByteArrayOutputStream(len)` throws IllegalArgumentException.
   */
  lemma InflateCapacityOverflows()
    ensures CheckChunk(StoredChunk(0x1000_0000, [], 0, 0)).Ok?
    ensures InflateCapacityAsWritten(0x1000_0000) < 0
    ensures InflateCapacity(0x1000_0000) == MAX_ARRAY_LEN
  {
  }

  /**
   * The deflate step, given the initial capacity of the output stream (also the copy buffer size):
   * a negative capacity throws before anything is read, otherwise the decoder's answer.
   */
  function InflateStep(data: seq<bv8>, inflate: Inflater, bufferSize: int, capacity: int): (r: Result<seq<bv8>, FilterError>)
    ensures capacity < 0 <==> r == Err(NegativeCapacity(capacity))
    ensures capacity >= 0 ==> (r.Ok? <==> inflate(data, bufferSize, capacity).Some?)
    ensures capacity >= 0 && r.Ok? ==> Some(r.value) == inflate(data, bufferSize, capacity)
    ensures capacity >= 0 && r.Err? ==> r.error == InflateFailed
  {
    if capacity < 0 then Err(NegativeCapacity(capacity))
    else
      match inflate(data, bufferSize, capacity)
      case None => Err(InflateFailed)
      case Some(d) => Ok(d)
  }

  /** One filter applied in the read direction, with the deflate capacity computed as written. */
  function ApplyFilter(f: Filter, data: seq<bv8>, inflate: Inflater, bufferSize: int): (r: Result<seq<bv8>, FilterError>)
    ensures f.id !in {FILTER_DEFLATE, FILTER_SHUFFLE, FILTER_FLETCHER32} ==> r == Err(UnknownFilter(f.id))
    ensures f.id == FILTER_DEFLATE ==> r == InflateStep(data, inflate, bufferSize, InflateCapacityAsWritten(|data|))
    ensures f.id == FILTER_FLETCHER32 ==> (r.Ok? <==> |data| >= 4) && (r.Ok? ==> r.value == data[..|data| - 4])
    ensures f.id == FILTER_SHUFFLE ==> (r.Ok? <==> |f.data| > 0) && (r.Ok? ==> r.value == ShuffleResult(data, f.data[0]) && |r.value| == |data|)
    ensures f.id == FILTER_SHUFFLE && |f.data| == 0 ==> r == Err(MissingShuffleParameter)
  {
    if f.id == FILTER_DEFLATE then InflateStep(data, inflate, bufferSize, InflateCapacityAsWritten(|data|))
    else if f.id == FILTER_SHUFFLE then
      if |f.data| == 0 then Err(MissingShuffleParameter) else Ok(ShuffleResult(data, f.data[0]))
    else if f.id == FILTER_FLETCHER32 then
      if |data| < 4 then Err(ChecksumTooShort(|data|)) else Ok(data[..|data| - 4])
    else Err(UnknownFilter(f.id))
  }

  /** The same filter with the deflate capacity computed without overflow. */
  function ApplyFilterCorrected(f: Filter, data: seq<bv8>, inflate: Inflater, bufferSize: int): (r: Result<seq<bv8>, FilterError>)
    ensures r.Err? ==> !r.error.NegativeCapacity?
    ensures f.id == FILTER_DEFLATE ==> r == InflateStep(data, inflate, bufferSize, InflateCapacity(|data|))
    ensures f.id != FILTER_DEFLATE ==> r == ApplyFilter(f, data, inflate, bufferSize)
  {
    if f.id == FILTER_DEFLATE then InflateStep(data, inflate, bufferSize, InflateCapacity(|data|))
    else ApplyFilter(f, data, inflate, bufferSize)
  }

  /** While 8 * length fits an int, the filter as written and the corrected filter agree. */
  lemma CorrectedFilterAgrees(f: Filter, data: seq<bv8>, inflate: Inflater, bufferSize: int)
    requires 8 * |data| <= INT_MAX
    ensures ApplyFilter(f, data, inflate, bufferSize) == ApplyFilterCorrected(f, data, inflate, bufferSize)
  {
    InflateCapacityAgrees(|data|);
  }

  /**
   * A 256 MiB deflated chunk: the filter as written throws on the negative capacity whatever the
   * decoder would do, while the corrected filter hands the chunk to the decoder with capacity MAX_ARRAY_LEN.
   */
  lemma DeflateOverflowRejected(f: Filter, data: seq<bv8>, inflate: Inflater, bufferSize: int)
    requires f.id == FILTER_DEFLATE && |data| == 0x1000_0000
    ensures ApplyFilter(f, data, inflate, bufferSize).Err?
    ensures ApplyFilter(f, data, inflate, bufferSize).error.NegativeCapacity?
    ensures ApplyFilterCorrected(f, data, inflate, bufferSize) == InflateStep(data, inflate, bufferSize, MAX_ARRAY_LEN)
  {
    InflateCapacityOverflows();
  }

  /**
   * The read pipeline: filters from the last one down to the first, skipping filter i when bit i of
   * the chunk's mask is set; the first failing filter ends it.
   */
  function Unfilter(filters: seq<Filter>, mask: bv32, data: seq<bv8>, inflate: Inflater, bufferSize: int): (r: Result<seq<bv8>, FilterError>)
    ensures filters == [] ==> r == Ok(data)
    ensures r.Err? ==> exists i :: 0 <= i < |filters| && !IsBitSet(mask, i)
    decreases |filters|
  {
    if filters == [] then Ok(data)
    else
      var i := |filters| - 1;
      var step := if IsBitSet(mask, i) then Ok(data) else ApplyFilter(filters[i], data, inflate, bufferSize);
      match step
      case Err(e) => Err(e)
      case Ok(d) => Unfilter(filters[..i], mask, d, inflate, bufferSize)
  }

  /** A filter whose id is unknown stops the pipeline unless its mask bit skips it. */
  lemma UnknownFilterRejected(filters: seq<Filter>, mask: bv32, data: seq<bv8>, inflate: Inflater, bufferSize: int)
    requires |filters| > 0
    requires filters[|filters| - 1].id !in {FILTER_DEFLATE, FILTER_SHUFFLE, FILTER_FLETCHER32}
    ensures Unfilter(filters, mask, data, inflate, bufferSize).Err? <==> !IsBitSet(mask, |filters| - 1) || Unfilter(filters[..|filters| - 1], mask, data, inflate, bufferSize).Err?
  {
  }

  /** With every bit of the mask set, the chunk's bytes are returned unchanged. */
  lemma {:induction false} AllSkipped(filters: seq<Filter>, mask: bv32, data: seq<bv8>, inflate: Inflater, bufferSize: int)
    requires forall i :: 0 <= i < |filters| ==> IsBitSet(mask, i)
    ensures Unfilter(filters, mask, data, inflate, bufferSize) == Ok(data)
    decreases |filters|
  {
    if filters != [] {
      AllSkipped(filters[..|filters| - 1], mask, data, inflate, bufferSize);
    }
  }

  // ---------------------------------------------------------------- the write direction

  /** One filter in the write direction: deflate, interleave, or append the 4 checksum bytes. */
  function FilterStep(f: Filter, data: seq<bv8>, deflate: seq<bv8> -> seq<bv8>, checksum: seq<bv8> -> seq<bv8>): Option<seq<bv8>>
  {
    if f.id == FILTER_DEFLATE then Some(deflate(data))
    else if f.id == FILTER_SHUFFLE then
      if |f.data| == 0 then None
      else if f.data[0] <= 1 then Some(data)
      else if |data| % f.data[0] != 0 then None
      else Some(Shuffle(data, f.data[0]))
    else if f.id == FILTER_FLETCHER32 then Some(data + checksum(data))
    else None
  }

  /** The writer's pipeline: filters from the first to the last, skipping those whose mask bit is set. */
  function Refilter(filters: seq<Filter>, mask: bv32, data: seq<bv8>, deflate: seq<bv8> -> seq<bv8>, checksum: seq<bv8> -> seq<bv8>): Option<seq<bv8>>
    decreases |filters|
  {
    if filters == [] then Some(data)
    else
      var i := |filters| - 1;
      match Refilter(filters[..i], mask, data, deflate, checksum)
      case None => None
      case Some(d) => if IsBitSet(mask, i) then Some(d) else FilterStep(filters[i], d, deflate, checksum)
  }

  lemma StepRoundTrip(f: Filter, data: seq<bv8>, encoded: seq<bv8>, deflate: seq<bv8> -> seq<bv8>, checksum: seq<bv8> -> seq<bv8>, inflate: Inflater, bufferSize: int)
    requires forall x, b, c :: inflate(deflate(x), b, c) == Some(x)
    requires forall x :: InflateCapacityAsWritten(|deflate(x)|) >= 0
    requires forall x :: |checksum(x)| == 4
    requires FilterStep(f, data, deflate, checksum) == Some(encoded)
    ensures ApplyFilter(f, encoded, inflate, bufferSize) == Ok(data)
  {
    if f.id == FILTER_SHUFFLE && f.data[0] > 1 {
      UnshuffleShuffle(data, f.data[0]);
    }
    if f.id == FILTER_FLETCHER32 {
      assert encoded[..|encoded| - 4] == data;
    }
  }

  /** Reading back what the writer's pipeline produced yields the original bytes. */
  lemma {:induction false} PipelineRoundTrip(filters: seq<Filter>, mask: bv32, data: seq<bv8>, encoded: seq<bv8>, deflate: seq<bv8> -> seq<bv8>, checksum: seq<bv8> -> seq<bv8>, inflate: Inflater, bufferSize: int)
    requires forall x, b, c :: inflate(deflate(x), b, c) == Some(x)
    requires forall x :: InflateCapacityAsWritten(|deflate(x)|) >= 0
    requires forall x :: |checksum(x)| == 4
    requires Refilter(filters, mask, data, deflate, checksum) == Some(encoded)
    ensures Unfilter(filters, mask, encoded, inflate, bufferSize) == Ok(data)
    decreases |filters|
  {
    if filters != [] {
      var i := |filters| - 1;
      var d := Refilter(filters[..i], mask, data, deflate, checksum).value;
      if !IsBitSet(mask, i) {
        StepRoundTrip(filters[i], d, encoded, deflate, checksum, inflate, bufferSize);
      }
      PipelineRoundTrip(filters[..i], mask, data, d, deflate, checksum, inflate, bufferSize);
    }
  }

  /** The body of the filter loop of `getByteBuffer` for one filter: exactly `ApplyFilter` on the array's bytes. */
  method ApplyFilterArray(f: Filter, data: array<bv8>, inflate: Inflater, bufferSize: int) returns (r: Result<array<bv8>, FilterError>)
    ensures var spec := ApplyFilter(f, data[..], inflate, bufferSize);
      r.Ok? == spec.Ok? && (r.Ok? ==> r.value[..] == spec.value) && (r.Err? ==> r.error == spec.error)
  {
    if f.id == FILTER_DEFLATE {
      var capacity := InflateCapacityAsWritten(data.Length);
      if capacity < 0 {
        return Err(NegativeCapacity(capacity));
      }
      var out := inflate(data[..], bufferSize, capacity);
      if out.None? {
        return Err(InflateFailed);
      }
      var inflated := new bv8[|out.value|](k requires 0 <= k < |out.value| => out.value[k]);
      assert inflated[..] == out.value;
      return Ok(inflated);
    } else if f.id == FILTER_SHUFFLE {
      if |f.data| == 0 {
        return Err(MissingShuffleParameter);
      }
      var unshuffled := UnshuffleArray(data, f.data[0]);
      return Ok(unshuffled);
    } else if f.id == FILTER_FLETCHER32 {
      r := StripFletcher32(data);
    } else {
      return Err(UnknownFilter(f.id));
    }
  }

  // ---------------------------------------------------------------- the layout object

  /** The parameters of one filtered, chunked read (fields of `H5tiledLayoutBB`). */
  class TiledLayoutBB {
    const filters: seq<Filter>
    const want: seq<Range>
    const chunkSize: seq<int>
    const elemSize: int
    const nChunkDims: nat
    const inflateBufferSize: int

    /** `storageSize` is the chunk shape of the storage layout message, whose last entry is the element size. */
    constructor (isChar: bool, wantSection: seq<Range>, storageSize: seq<int>, filters0: seq<Filter>, bufferSizeProperty: Option<string>)
      requires |storageSize| >= 1
      ensures filters == filters0
      ensures want == ChunkWantSection(isChar, wantSection, storageSize)
      ensures nChunkDims == ChunkRank(isChar, storageSize)
      ensures chunkSize == storageSize[..nChunkDims]
      ensures elemSize == storageSize[|storageSize| - 1]
      ensures inflateBufferSize == InflateBufferSize(bufferSizeProperty)
    {
      filters := filters0;
      want := ChunkWantSection(isChar, wantSection, storageSize);
      var n := ChunkRank(isChar, storageSize);
      nChunkDims := n;
      chunkSize := storageSize[..n];
      elemSize := storageSize[|storageSize| - 1];
      inflateBufferSize := InflateBufferSize(bufferSizeProperty);
    }

    /**
     * `getByteBuffer`: reads the chunk's stored bytes from `file` and runs the filters backwards.
     * The result is exactly what the read pipeline `Unfilter` gives.
     */
    method ReadChunk(chunk: StoredChunk, file: seq<bv8>, inflate: Inflater) returns (r: Result<array<bv8>, FilterError>)
      requires CheckChunk(chunk).Ok?
      ensures var fromFile := 0 <= chunk.filePos && chunk.filePos + chunk.size <= |file|;
        (r.Ok? <==> fromFile && Unfilter(filters, chunk.filterMask, file[chunk.filePos..chunk.filePos + chunk.size], inflate, inflateBufferSize).Ok?) &&
        (r.Ok? ==> r.value[..] == Unfilter(filters, chunk.filterMask, file[chunk.filePos..chunk.filePos + chunk.size], inflate, inflateBufferSize).value) &&
        (fromFile && r.Err? ==> r.error == Unfilter(filters, chunk.filterMask, file[chunk.filePos..chunk.filePos + chunk.size], inflate, inflateBufferSize).error)
      ensures !(0 <= chunk.filePos && chunk.filePos + chunk.size <= |file|) ==> r == Err(ReadPastEnd)
    {
      if chunk.filePos < 0 || chunk.filePos + chunk.size > |file| {
        return Err(ReadPastEnd);
      }
      ghost var stored := file[chunk.filePos..chunk.filePos + chunk.size];
      var data := new bv8[chunk.size](k requires 0 <= k < chunk.size => file[chunk.filePos + k]);
      assert data[..] == stored;
      var i := |filters| - 1;
      assert filters[..i + 1] == filters;
      while i >= 0
        invariant -1 <= i < |filters|
        invariant Unfilter(filters, chunk.filterMask, stored, inflate, inflateBufferSize) ==
          Unfilter(filters[..i + 1], chunk.filterMask, data[..], inflate, inflateBufferSize)
      {
        assert filters[..i + 1][..i] == filters[..i];
        if !IsBitSet(chunk.filterMask, i) {
          var out := ApplyFilterArray(filters[i], data, inflate, inflateBufferSize);
          if out.Err? {
            return Err(out.error);
          }
          data := out.value;
        }
        i := i - 1;
      }
      assert filters[..0] == [];
      return Ok(data);
    }

    /** `getOffset` of a chunk of this layout. */
    function Offset(chunk: StoredChunk): (r: seq<int>)
      ensures |r| == Min(|chunk.offset|, nChunkDims) && r <= chunk.offset
    {
      ChunkOffset(chunk.offset, nChunkDims)
    }
  }
}
