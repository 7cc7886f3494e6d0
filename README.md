# netcdf-java read and catalogue core, modelled in Dafny

This project models several parts of the netCDF-Java (CDM) library:

- **HDF5 chunked read path:**
  - the tile arithmetic of `Tiling`;
  - the per-chunk filter pipeline of `H5tiledLayoutBB` (deflate, shuffle, Fletcher-32 and the filter mask);
  - the type-specific placement layer of `H5iosp`: fill-only reads, heap ids for strings and vlens, prefix rank, structure records and the conversion of heap members.
- **Index bookkeeping** of an NcML outer-dimension aggregation (`AggregationOuterDimension`).
- **Comparison-only searches and sections** of 1-D coordinate axes (`CoordinateAxis1D`, `CoordinateAxis1DTime`).
- **Three string parsers:**
  - the THREDDS collection specification (`CollectionSpecParser`);
  - the GRIB `.ncx4` index naming and update decisions (`GribCdmIndex`);
  - the CF-1.x convention helpers (`CF1Convention`).

How the Java becomes Dafny:

- Java `int` arithmetic is written out. `JavaInt.Wrap32` gives two's-complement wrap-around, `JDiv` truncating division, and `bv32` the `>>>` shift.
- Strings are `seq<char>`. `JavaStrings` holds the `String` methods the core calls, such as `indexOf`, `lastIndexOf`, `trim`, `toLowerCase` (ASCII), `Integer.parseInt` and `StringUtil2.replace/remove`.
- Everything the core reaches through code that is not shown becomes a parameter. That covers the file (a byte sequence), layouts (sequences of chunks), B-tree and heap readers, the inflater, the protobuf parser, `SimpleUnit.isCompatible` and `breakupConventionNames`.
- Imperative Java keeps its form. Classes with the fields the source updates (`Tiling`, `TiledLayoutBB`, `StructureBB`, `DatasetOuterDimension`, `AggregationOuterDimension`, `CacheVar`, `CoordinateAxis1D`, `CoordinateAxis1DTime`, `GribCdmIndex`, `AttributeList`) have loop methods. Each method is proved against a specification function, and lemmas state what the source promises about that function.

Files:

- `Wrappers.dfy`: Option and Result.
- `JavaInt.dfy`, `JavaStrings.dfy`: Java semantics.
- `Ranges.dfy`: `ucar.ma2.Range` as a value.
- `Permutations.dfy`: a reindexing lemma for multisets.
- One file per core component: `Tiling.dfy`, `FilterPipeline.dfy`, `ReadAssembler.dfy`, `Aggregation.dfy`, `CoordAxis1D.dfy`, `CoordAxisTime.dfy`, `CollectionSpec.dfy`, `GribIndex.dfy`, `CF1.dfy`.

## Model

| member | source | states |
|---|---|---|
| Tiling.PaddedCoversChunk | cdm/core/src/main/java/ucar/nc2/iosp/hdf5/Tiling.java:37-41 | each padded dimension is the larger of the declared size and the chunk size, so it holds at least one chunk |
| Tiling.TileCountsAreCeilings | cdm/core/src/main/java/ucar/nc2/iosp/hdf5/Tiling.java:44-47 | each tile count is the least n with n * chunk >= padded size (the ceiling), and at least 1 |
| Tiling.TileCountIsCeiling | cdm/core/src/main/java/ucar/nc2/iosp/hdf5/Tiling.java:44-47 | the truncating division (s + c - 1) / c is the ceiling of s / c |
| Tiling.TileCountsPositive | cdm/core/src/main/java/ucar/nc2/iosp/hdf5/Tiling.java:44-47 | every tile count is positive |
| Tiling.StridesRowMajor | cdm/core/src/main/java/ucar/nc2/iosp/hdf5/Tiling.java:49-54 | the last stride is 1 and stride[k] = stride[k+1] * count[k+1] |
| Tiling.RowMajorInRange | cdm/core/src/main/java/ucar/nc2/iosp/hdf5/Tiling.java:49-54 | a tile coordinate inside the grid has a row-major number in [0, product of counts) |
| Tiling.RowMajorInjective | cdm/core/src/main/java/ucar/nc2/iosp/hdf5/Tiling.java:49-54 | two grid coordinates with the same row-major number are equal |
| Tiling.PointTileInGrid | cdm/core/src/main/java/ucar/nc2/iosp/hdf5/Tiling.java:81 | a point inside a padded dimension lies in a tile inside the grid |
| Tiling.PadShape | cdm/core/src/main/java/ucar/nc2/iosp/hdf5/Tiling.java:40-41 | the padding loop fills exactly the padded shape |
| Tiling.CountTiles | cdm/core/src/main/java/ucar/nc2/iosp/hdf5/Tiling.java:44-47 | the tile-count loop fills exactly the ceiling counts |
| Tiling.RowMajorStrideArray | cdm/core/src/main/java/ucar/nc2/iosp/hdf5/Tiling.java:49-54 | the running-strider loop fills exactly the row-major strides |
| Tiling.Tiling.constructor | cdm/core/src/main/java/ucar/nc2/iosp/hdf5/Tiling.java:34-55 | shape rank at most chunk rank, extra chunk dimensions ignored; shape, tile counts and strides as specified |
| Tiling.Tiling.Tile | cdm/core/src/main/java/ucar/nc2/iosp/hdf5/Tiling.java:70-84 | the tile has min(rank, \|pt\|) entries, each the point's coordinate truncating-divided by the chunk size |
| Tiling.Tiling.Order | cdm/core/src/main/java/ucar/nc2/iosp/hdf5/Tiling.java:92-99 | the Java-int sum of stride[i] * tile[i] |
| Tiling.Tiling.Compare | cdm/core/src/main/java/ucar/nc2/iosp/hdf5/Tiling.java:108-110 | the Java-int difference of the two orders |
| Tiling.Tiling.TileOf | cdm/core/src/main/java/ucar/nc2/iosp/hdf5/Tiling.java:70-84 | one tile coordinate per used dimension; a non-negative coordinate lies in its tile: tile * chunk <= pt < (tile + 1) * chunk |
| Tiling.Tiling.OrderOf | cdm/core/src/main/java/ucar/nc2/iosp/hdf5/Tiling.java:92-99 | the order is a Java int; its range and injectivity are the OrderInRange and OrderInjective lemmas |
| Tiling.Tiling.CompareOf | cdm/core/src/main/java/ucar/nc2/iosp/hdf5/Tiling.java:108-110 | the compare is a Java int and is 0 for a point compared with itself |
| Tiling.Tiling.StrideIsRowMajor | cdm/core/src/main/java/ucar/nc2/iosp/hdf5/Tiling.java:49-54 | the tiling's strides are row-major over its tile grid |
| Tiling.Tiling.TileLength | cdm/core/src/main/java/ucar/nc2/iosp/hdf5/Tiling.java:70-84 | tile length is min(\|pt\|, rank), and non-negative coordinates are floor-divided; no bounds check against the shape |
| Tiling.Tiling.TileOfCell | cdm/core/src/main/java/ucar/nc2/iosp/hdf5/Tiling.java:70-84 | every point inside cell c (c * chunk <= p < (c+1) * chunk) has tile c |
| Tiling.Tiling.SameTileSameOrder | cdm/core/src/main/java/ucar/nc2/iosp/hdf5/Tiling.java:92-110 | all points of one tile have the same order and compare 0 |
| Tiling.Tiling.OrderInRange | cdm/core/src/main/java/ucar/nc2/iosp/hdf5/Tiling.java:92-99 | inside the padded shape the order does not wrap and lies in [0, number of tiles) |
| Tiling.Tiling.OrderInjective | cdm/core/src/main/java/ucar/nc2/iosp/hdf5/Tiling.java:92-99 | inside the padded shape, equal orders iff equal tiles |
| Tiling.Tiling.CompareOnShape | cdm/core/src/main/java/ucar/nc2/iosp/hdf5/Tiling.java:108-110 | inside the padded shape, compare is the exact difference, zero iff same tile, and antisymmetric |
| Tiling.Tiling.CompareIsPreorder | cdm/core/src/main/java/ucar/nc2/iosp/hdf5/Tiling.java:108-110 | inside the padded shape, compare is total and transitive |
| FilterPipeline.ChunkRank | cdm/core/src/main/java/ucar/nc2/iosp/hdf5/H5tiledLayoutBB.java:88-91 | nChunkDims is the storage rank for CHAR data and one less otherwise |
| FilterPipeline.ChunkWantSection | cdm/core/src/main/java/ucar/nc2/iosp/hdf5/H5tiledLayoutBB.java:81-85 | CHAR data with a short wanted section gets a trailing range 0:0; otherwise the section is unchanged |
| FilterPipeline.InflateBufferSize | cdm/core/src/main/java/ucar/nc2/iosp/hdf5/H5tiledLayoutBB.java:98-107 | the inflate buffer is 512 unless the property parses to a positive int, which is then the size |
| FilterPipeline.CheckChunk | cdm/core/src/main/java/ucar/nc2/iosp/hdf5/H5tiledLayoutBB.java:179-189 | a chunk is accepted iff its size is in [0, Integer.MAX_VALUE - 8]; otherwise the error names the size |
| FilterPipeline.ChunkOffset | cdm/core/src/main/java/ucar/nc2/iosp/hdf5/H5tiledLayoutBB.java:192-199 | the offset is cut to its first nChunkDims components |
| FilterPipeline.IsBitSetPeriodic | cdm/core/src/main/java/ucar/nc2/iosp/hdf5/H5tiledLayoutBB.java:327-329 | `>>>` uses the shift count mod 32, so bit i and bit i + 32 are the same test |
| FilterPipeline.IsBitSetSingle | cdm/core/src/main/java/ucar/nc2/iosp/hdf5/H5tiledLayoutBB.java:327-329 | in a mask with only bit k set, exactly bit k (mod 32) tests as set |
| FilterPipeline.IsBitSetZero | cdm/core/src/main/java/ucar/nc2/iosp/hdf5/H5tiledLayoutBB.java:327-329 | a zero mask skips no filter |
| FilterPipeline.UnshuffleAt | cdm/core/src/main/java/ucar/nc2/iosp/hdf5/H5tiledLayoutBB.java:318-322 | result[i*n + j] == data[j*m + i] with m = length / n |
| FilterPipeline.Unshuffle | cdm/core/src/main/java/ucar/nc2/iosp/hdf5/H5tiledLayoutBB.java:304-325 | the de-interleave keeps the length, and the bytes past m * n stay 0 as in the fresh Java array |
| FilterPipeline.Shuffle | cdm/core/src/main/java/ucar/nc2/iosp/hdf5/H5tiledLayoutBB.java:310-317 | the writer's interleave keeps the length; it and Unshuffle are inverse (UnshuffleShuffle, ShuffleUnshuffle) |
| FilterPipeline.UnshuffleShuffle | cdm/core/src/main/java/ucar/nc2/iosp/hdf5/H5tiledLayoutBB.java:310-322 | un-shuffling the forward interleave of the commented loop gives back the original bytes |
| FilterPipeline.ShuffleUnshuffle | cdm/core/src/main/java/ucar/nc2/iosp/hdf5/H5tiledLayoutBB.java:310-322 | interleaving the un-shuffled bytes gives back the input, so the two are inverse |
| FilterPipeline.UnshufflePermutes | cdm/core/src/main/java/ucar/nc2/iosp/hdf5/H5tiledLayoutBB.java:304-322 | un-shuffling keeps the multiset of bytes |
| FilterPipeline.UnshuffleRow | cdm/core/src/main/java/ucar/nc2/iosp/hdf5/H5tiledLayoutBB.java:319-321 | one row of the nested loop fills result positions i*n .. i*n + n - 1 correctly |
| FilterPipeline.UnshuffleArray | cdm/core/src/main/java/ucar/nc2/iosp/hdf5/H5tiledLayoutBB.java:296-325 | n <= 1 returns the same array; otherwise a fresh array with the un-shuffled bytes |
| FilterPipeline.StripFletcher32 | cdm/core/src/main/java/ucar/nc2/iosp/hdf5/H5tiledLayoutBB.java:288-294 | the input without its last 4 bytes; shorter input is an error |
| FilterPipeline.InflateCapacity | cdm/core/src/main/java/ucar/nc2/iosp/hdf5/H5tiledLayoutBB.java:254 | the intended initial size of the output stream (also the copy buffer size): the smaller of 8 * compressed length and MAX_ARRAY_LEN, at most both and equal to one, computed without overflow |
| FilterPipeline.InflateCapacityAsWritten | cdm/core/src/main/java/ucar/nc2/iosp/hdf5/H5tiledLayoutBB.java:254 | the same value as written, with the product wrapped to an int; never above MAX_ARRAY_LEN |
| FilterPipeline.InflateCapacityAgrees | cdm/core/src/main/java/ucar/nc2/iosp/hdf5/H5tiledLayoutBB.java:254 | when 8 * length fits an int, the written and the corrected values agree |
| FilterPipeline.InflateCapacityOverflows | cdm/core/src/main/java/ucar/nc2/iosp/hdf5/H5tiledLayoutBB.java:254 | a 2^28-byte chunk passes the size check, yet the written value is negative while the corrected one is MAX_ARRAY_LEN |
| FilterPipeline.ApplyFilter | cdm/core/src/main/java/ucar/nc2/iosp/hdf5/H5tiledLayoutBB.java:216-261 | id 1 inflates with the capacity as written; id 2 gives the un-shuffle of the data by data[0] (so the data unchanged for an element size of at most 1), and MissingShuffleParameter without data[0]; id 3 strips the 4-byte checksum and fails below 4 bytes; any other id is UnknownFilter |
| FilterPipeline.InflateStep | cdm/core/src/main/java/ucar/nc2/iosp/hdf5/H5tiledLayoutBB.java:247-261 | a negative capacity is exactly the IllegalArgumentException of `new ByteArrayOutputStream`; otherwise success and bytes are those of the decoder, and its failure is InflateFailed |
| FilterPipeline.ApplyFilterCorrected | cdm/core/src/main/java/ucar/nc2/iosp/hdf5/H5tiledLayoutBB.java:216-227 | the same filter with the corrected capacity: never a negative-capacity error; identical to ApplyFilter for every other id |
| FilterPipeline.CorrectedFilterAgrees | cdm/core/src/main/java/ucar/nc2/iosp/hdf5/H5tiledLayoutBB.java:254 | while 8 * length fits an int, the as-written and the corrected filter give the same result |
| FilterPipeline.DeflateOverflowRejected | cdm/core/src/main/java/ucar/nc2/iosp/hdf5/H5tiledLayoutBB.java:254-255 | a 2^28-byte deflated chunk makes the as-written filter fail with a negative capacity whatever the decoder does, while the corrected filter hands it to the decoder with capacity MAX_ARRAY_LEN |
| FilterPipeline.Unfilter | cdm/core/src/main/java/ucar/nc2/iosp/hdf5/H5tiledLayoutBB.java:209-228 | no filters return the stored bytes; an error can only come from a filter whose mask bit is clear |
| FilterPipeline.UnknownFilterRejected | cdm/core/src/main/java/ucar/nc2/iosp/hdf5/H5tiledLayoutBB.java:209-227 | an unknown last filter fails the chunk exactly when its mask bit is clear, or an earlier filter already fails |
| FilterPipeline.AllSkipped | cdm/core/src/main/java/ucar/nc2/iosp/hdf5/H5tiledLayoutBB.java:209-215 | with every mask bit set the stored bytes pass through unchanged |
| FilterPipeline.StepRoundTrip | cdm/core/src/main/java/ucar/nc2/iosp/hdf5/H5tiledLayoutBB.java:216-221 | each known filter undoes its writer-side encoding, under the same conditions as the pipeline round trip |
| FilterPipeline.PipelineRoundTrip | cdm/core/src/main/java/ucar/nc2/iosp/hdf5/H5tiledLayoutBB.java:209-228 | running the filters backwards, skipping masked ones, undoes the writer's forward pipeline, for decoders that invert the encoder and deflated outputs whose capacity as written is not negative |
| FilterPipeline.TiledLayoutBB.constructor | cdm/core/src/main/java/ucar/nc2/iosp/hdf5/H5tiledLayoutBB.java:65-114 | rank, chunk size, element size (last storage dimension), wanted section and buffer size as the layout derives them |
| FilterPipeline.ApplyFilterArray | cdm/core/src/main/java/ucar/nc2/iosp/hdf5/H5tiledLayoutBB.java:216-227 | one filter on the chunk's bytes: success, result and error exactly those of the filter function |
| FilterPipeline.TiledLayoutBB.ReadChunk | cdm/core/src/main/java/ucar/nc2/iosp/hdf5/H5tiledLayoutBB.java:201-239 | a chunk outside the file is ReadPastEnd; otherwise the stored bytes run through the filters from last to first, with success, result and error exactly those of the pipeline function |
| FilterPipeline.TiledLayoutBB.Offset | cdm/core/src/main/java/ucar/nc2/iosp/hdf5/H5tiledLayoutBB.java:192-199 | the chunk offset cut to the layout's chunk rank |
| ReadAssembler.FillOnly | cdm/core/src/main/java/ucar/nc2/iosp/hdf5/H5iosp.java:137-142 | (int) computeSize copies of the fill value; a negative cast length fails |
| ReadAssembler.FillOnlySize | cdm/core/src/main/java/ucar/nc2/iosp/hdf5/H5iosp.java:137-142 | without overflow, exactly computeSize elements |
| ReadAssembler.ChooseReadPath | cdm/core/src/main/java/ucar/nc2/iosp/hdf5/H5iosp.java:137-192 | fill-only first, then filtered (byte order from endian), then a tiled or regular layout whose type, size, fill and endian follow hdfType 2, 8 or 9 |
| ReadAssembler.FillResult | cdm/core/src/main/java/ucar/nc2/iosp/hdf5/H5iosp.java:279-283 | a run of reads succeeds iff all reads succeed and the run fits; slot start + k gets read k, the other slots are unchanged |
| ReadAssembler.FillAppend | cdm/core/src/main/java/ucar/nc2/iosp/hdf5/H5iosp.java:275-284 | two consecutive runs fill like one run |
| ReadAssembler.LayoutAddressesAppend | cdm/core/src/main/java/ucar/nc2/iosp/hdf5/H5iosp.java:275-283 | the address list of concatenated chunk lists is the concatenation |
| ReadAssembler.LayoutAddressOf | cdm/core/src/main/java/ucar/nc2/iosp/hdf5/H5iosp.java:275-283 | element i of chunk j is read at srcPos + elemSize * i and is number (elements before chunk j) + i |
| ReadAssembler.ConsecutiveReadSlots | cdm/core/src/main/java/ucar/nc2/iosp/hdf5/H5iosp.java:273-284 | the vlen/string read succeeds iff every address reads and there are at most totalNelems elements; slot k holds read k |
| ReadAssembler.ReadChunkElements | cdm/core/src/main/java/ucar/nc2/iosp/hdf5/H5iosp.java:279-283 | the inner loop stores one chunk's elements in consecutive slots from count |
| ReadAssembler.ReadConsecutive | cdm/core/src/main/java/ucar/nc2/iosp/hdf5/H5iosp.java:540-551 | the chunk loop of the vlen, STRING and opaque reads gives the consecutive-read result |
| ReadAssembler.PlaceChunksFrame | cdm/core/src/main/java/ucar/nc2/iosp/hdf5/H5iosp.java:202-218 | well-placed filtered chunks always succeed and leave the slots outside their runs alone |
| ReadAssembler.PlaceChunksSlots | cdm/core/src/main/java/ucar/nc2/iosp/hdf5/H5iosp.java:202-218 | slot destElem + i of a chunk holds the heap string at byte (srcElem + i) * 16 of its buffer |
| ReadAssembler.PlaceChunksSlot | cdm/core/src/main/java/ucar/nc2/iosp/hdf5/H5iosp.java:202-218 | for well-placed chunks, placing succeeds and slot destElem + i of chunk j holds the string that the chunk's i-th heap id names |
| ReadAssembler.ReadChunkHeapStrings | cdm/core/src/main/java/ucar/nc2/iosp/hdf5/H5iosp.java:211-215 | the inner loop resolves one chunk's heap ids into slots from its destination element |
| ReadAssembler.ReadFilteredStrings | cdm/core/src/main/java/ucar/nc2/iosp/hdf5/H5iosp.java:202-218 | readFilteredStringData gives the placement function's result |
| ReadAssembler.PrefixRank | cdm/core/src/main/java/ucar/nc2/iosp/hdf5/H5iosp.java:285-291 | the index of the leftmost negative dimension, or 0 when there is none (or it is dimension 0) |
| ReadAssembler.VlenResult | cdm/core/src/main/java/ucar/nc2/iosp/hdf5/H5iosp.java:292-300 | no data is an IndexOutOfBounds error at every prefix rank; otherwise prefix rank 0 gives data[0] and a positive prefix rank all elements over shape[..prefixrank] |
| ReadAssembler.CopySpan | cdm/core/src/main/java/ucar/nc2/iosp/hdf5/H5iosp.java:334-335 | a length that is not positive leaves the array as it is; otherwise success exactly when the span fits the array and the file, a span outside the array being IndexOutOfBounds |
| ReadAssembler.ChunkBytesExact | cdm/core/src/main/java/ucar/nc2/iosp/hdf5/H5iosp.java:335-336 | without overflow a record chunk lands at byte destElem * recsize with nelems * recsize bytes |
| ReadAssembler.CopyChunkBytes | cdm/core/src/main/java/ucar/nc2/iosp/hdf5/H5iosp.java:335-336 | a fitting chunk copies its file bytes to its offset and leaves the rest of the array alone |
| ReadAssembler.CopyChunksBytes | cdm/core/src/main/java/ucar/nc2/iosp/hdf5/H5iosp.java:327-337 | for disjoint fitting chunks each byte of a chunk comes from its file position; bytes no chunk covers keep their value |
| ReadAssembler.CopySpansByte | cdm/core/src/main/java/ucar/nc2/iosp/hdf5/H5iosp.java:327-337 | for disjoint spans that fit, copying succeeds and a byte inside span j holds the file byte at that span's source plus its offset in the span |
| ReadAssembler.CopyChunkInto | cdm/core/src/main/java/ucar/nc2/iosp/hdf5/H5iosp.java:335-336 | seek and readFully into the array: the copy function's result, in place |
| ReadAssembler.ReadStructureBytes | cdm/core/src/main/java/ucar/nc2/iosp/hdf5/H5iosp.java:323-337 | a fresh array of (int) (recsize * totalNelems) bytes with every chunk copied in |
| ReadAssembler.StructureBytes | cdm/core/src/main/java/ucar/nc2/iosp/hdf5/H5iosp.java:323-337 | a negative (int) (recsize * totalNelems) is NegativeArraySize; a successful read is exactly that many bytes long |
| ReadAssembler.StructureSize | cdm/core/src/main/java/ucar/nc2/iosp/hdf5/H5iosp.java:370-375 | a record smaller than its members is an illegal-size error; otherwise the record size is kept |
| ReadAssembler.SetupOf | cdm/core/src/main/java/ucar/nc2/iosp/hdf5/H5iosp.java:401-406 | byte order only for endian >= 0 (little iff LITTLE_ENDIAN); data offset is (int) dataPos |
| ReadAssembler.ConvertMembers | cdm/core/src/main/java/ucar/nc2/iosp/hdf5/H5iosp.java:393-421 | hasHeap iff some member at any depth is STRING or variable length; every member set up, nested members for structures |
| ReadAssembler.IntBytesRoundTrip | cdm/core/src/main/java/ucar/nc2/iosp/hdf5/H5iosp.java:453 | an int written by putInt reads back in the same byte order |
| ReadAssembler.UnpackPack | cdm/core/src/main/java/ucar/nc2/iosp/hdf5/H5iosp.java:453 | four big-endian bytes of an unsigned 32-bit value read back as that value |
| ReadAssembler.PutInt | cdm/core/src/main/java/ucar/nc2/iosp/hdf5/H5iosp.java:453 | four bytes at pos and nothing else changed; past the limit an IndexOutOfBounds error |
| ReadAssembler.ReadAll | cdm/core/src/main/java/ucar/nc2/iosp/hdf5/H5iosp.java:448-449 | all values read in order, or none when any read fails |
| ReadAssembler.FirstNegative | cdm/core/src/main/java/ucar/nc2/iosp/hdf5/H5iosp.java:463-469 | the first negative dimension, or the rank when there is none |
| ReadAssembler.VlenFieldCount | cdm/core/src/main/java/ucar/nc2/iosp/hdf5/H5iosp.java:462-469 | prefix rank is the first negative dimension; size is the int product of the dimensions before it |
| ReadAssembler.ScalarVlenHasOneInstance | cdm/core/src/main/java/ucar/nc2/iosp/hdf5/H5iosp.java:482-483 | a vlen member with no fixed leading dimension has exactly one instance |
| ReadAssembler.StringIdAddrs | cdm/core/src/main/java/ucar/nc2/iosp/hdf5/H5iosp.java:446-449 | size heap-id positions destPos + i * 16 |
| ReadAssembler.VlenAddrs | cdm/core/src/main/java/ucar/nc2/iosp/hdf5/H5iosp.java:474-480 | size vlen instance positions 16 bytes apart from startPos |
| ReadAssembler.ConvertMemberEffect | cdm/core/src/main/java/ucar/nc2/iosp/hdf5/H5iosp.java:443-513 | a heap member adds one heap object and rewrites only its 4-byte slot with the object's index; other members change nothing; the STRING case succeeds iff the count is non-negative, every heap id reads and the slot fits, and stores the strings read; the vlen case succeeds iff the instance count is positive, every heap id reads and the slot fits, and stores the instances read |
| ReadAssembler.ConvertString | cdm/core/src/main/java/ucar/nc2/iosp/hdf5/H5iosp.java:443-453 | a negative size is NegativeArraySize; on success the buffer keeps its length and the heap grows by one string array of `size` strings, the old heap untouched |
| ReadAssembler.ConvertVlen | cdm/core/src/main/java/ucar/nc2/iosp/hdf5/H5iosp.java:455-491 | a negative instance count is NegativeArraySize; success exactly when the count is positive, every heap id at 16-byte steps from the slot reads and the slot lies in the buffer; then the buffer keeps its length and the heap grows by one vlen object, the old heap untouched, holding the first instance read (no fixed leading dimension) or all instances read over the leading shape |
| ReadAssembler.ConvertRecordGrowth | cdm/core/src/main/java/ucar/nc2/iosp/hdf5/H5iosp.java:439-515 | one record adds one heap object per STRING or vlen member and keeps the buffer length |
| ReadAssembler.ConvertRecordsGrowth | cdm/core/src/main/java/ucar/nc2/iosp/hdf5/H5iosp.java:382-388 | converting records i .. n - 1 extends the heap by that many objects per record |
| ReadAssembler.ConvertStructureHeap | cdm/core/src/main/java/ucar/nc2/iosp/hdf5/H5iosp.java:361-390 | a structure read fails on the size check or adds heap-member-count objects per record, none without heap members |
| ReadAssembler.ConvertStructure | cdm/core/src/main/java/ucar/nc2/iosp/hdf5/H5iosp.java:361-390 | a record size below the computed size is IllegalStructureSize; without heap members the bytes are returned unchanged with an empty heap |
| ReadAssembler.ReadHeapIds | cdm/core/src/main/java/ucar/nc2/iosp/hdf5/H5iosp.java:446-449 | the loop reads the heap string at destPos + 16 i (32-bit wrap) for i < size, in order; no result when any of them cannot be read |
| ReadAssembler.ReadVlenInstances | cdm/core/src/main/java/ucar/nc2/iosp/hdf5/H5iosp.java:474-480 | the loop reads the vlen instance at startPos + 16 i (32-bit wrap) for i < size, in order, with the member's byte order; no result when any of them cannot be read |
| ReadAssembler.StructureBB.StoreHeapIndex | cdm/core/src/main/java/ucar/nc2/iosp/hdf5/H5iosp.java:451-453 | the object is added to the heap and its index overwrites the four bytes at destPos; a position outside the buffer is an index error |
| ReadAssembler.StructureBB.AddObjectToHeap | cdm/core/src/main/java/ucar/nc2/iosp/hdf5/H5iosp.java:451 | appends the object and returns its index |
| ReadAssembler.StructureBB.ConvertStringMember | cdm/core/src/main/java/ucar/nc2/iosp/hdf5/H5iosp.java:443-453 | the STRING branch, in place: the member-conversion function's result |
| ReadAssembler.StructureBB.ConvertVlenMember | cdm/core/src/main/java/ucar/nc2/iosp/hdf5/H5iosp.java:455-513 | the vlen branch, in place: the member-conversion function's result |
| ReadAssembler.StructureBB.ConvertHeap | cdm/core/src/main/java/ucar/nc2/iosp/hdf5/H5iosp.java:439-515 | every member of one record, in order |
| ReadAssembler.StructureBB.ConvertRecords | cdm/core/src/main/java/ucar/nc2/iosp/hdf5/H5iosp.java:382-388 | the record loop with destPos advancing by recSize |
| Aggregation.KnownCount | cdm/core/src/main/java/ucar/nc2/ncml/AggregationOuterDimension.java:684-697 | a positive stored count is the count; otherwise the file's dimension length, none when the file lacks the dimension |
| Aggregation.DatasetOuterDimension.GetNcoords | cdm/core/src/main/java/ucar/nc2/ncml/AggregationOuterDimension.java:684-697 | a positive stored count is returned unchanged; otherwise the dimension length is stored and returned, and a missing dimension is an error that changes nothing |
| Aggregation.DatasetOuterDimension.SetStartEnd | cdm/core/src/main/java/ucar/nc2/ncml/AggregationOuterDimension.java:708-712 | aggStart is stored; it succeeds exactly when the count is known, then returns that count with aggEnd = aggStart + count (int arithmetic); a missing dimension changes neither count nor aggEnd |
| Aggregation.DatasetOuterDimension.IsNeeded | cdm/core/src/main/java/ucar/nc2/ncml/AggregationOuterDimension.java:751-756 | false for an empty want interval; for a dataset with aggStart < aggEnd, true iff the two intervals share an index |
| Aggregation.DatasetOuterDimension.NestedJoinRange | cdm/core/src/main/java/ucar/nc2/ncml/AggregationOuterDimension.java:725-741 | a valid range with the wanted stride, or none |
| Aggregation.NestedJoinRangeElements | cdm/core/src/main/java/ucar/nc2/ncml/AggregationOuterDimension.java:725-741 | none iff no wanted index falls in [aggStart, aggEnd); otherwise the elements shifted by aggStart are exactly those wanted indexes |
| Aggregation.ClampToFile | cdm/core/src/main/java/ucar/nc2/ncml/AggregationOuterDimension.java:806-812 | a request running past the file's last index is cut there, keeping first and stride |
| Aggregation.ClampToFileElements | cdm/core/src/main/java/ucar/nc2/ncml/AggregationOuterDimension.java:806-812 | clamping fails iff the file ends before the first wanted index; else it keeps exactly the wanted indexes the file has |
| Aggregation.CalendarsEquivalent | cdm/core/src/main/java/ucar/nc2/ncml/AggregationOuterDimension.java:262-277 | two missing calendars agree, one missing does not, two present agree iff equal |
| Aggregation.ExtractCoordNameFromFilename | cdm/core/src/main/java/ucar/nc2/ncml/AggregationOuterDimension.java:609-616 | holds no '/'; a prefix of the text after the last '/', all of it exactly when that text has no '#' past position 0, otherwise ended right before its last '#' |
| JavaStrings.AfterLast | cdm/core/src/main/java/ucar/nc2/ncml/AggregationOuterDimension.java:610-611 | the text after the last given character, all of it when there is none: holds no such character, ends the text, right after that character when shorter |
| JavaStrings.CutBeforeLast | cdm/core/src/main/java/ucar/nc2/ncml/AggregationOuterDimension.java:612-614 | a prefix of the text, all of it exactly when its last such character is at position 0 or missing, otherwise exactly up to that character |
| Aggregation.ChainIsPrefixSum | cdm/core/src/main/java/ucar/nc2/ncml/AggregationOuterDimension.java:159-163 | the abutting starts are the wrapped prefix sums of the counts; the last end is the wrapped total |
| Aggregation.PrefixSumsFit | cdm/core/src/main/java/ucar/nc2/ncml/AggregationOuterDimension.java:159-163 | when the total fits an int no prefix sum wraps |
| Aggregation.ChainSums | cdm/core/src/main/java/ucar/nc2/ncml/AggregationOuterDimension.java:159-163 | every start of an abutting chain from 0 on is the wrapped prefix sum of the counts before it, and the total is the wrapped sum of all counts |
| Aggregation.ChainSumsFit | cdm/core/src/main/java/ucar/nc2/ncml/AggregationOuterDimension.java:159-163 | with non-negative counts whose sum fits an int, those starts and the total are the exact sums |
| Aggregation.AggregationOuterDimension.AbuttingIsPrefixSum | cdm/core/src/main/java/ucar/nc2/ncml/AggregationOuterDimension.java:159-163 | after `buildCoords` each dataset's aggStart is the wrapped sum of the earlier datasets' counts and totalCoords the wrapped sum of all; with non-negative counts summing within an int they are the exact sums |
| Aggregation.CacheVar.Reset | cdm/core/src/main/java/ucar/nc2/ncml/AggregationOuterDimension.java:851-860 | keeps exactly the entries whose id is a current dataset's |
| Aggregation.AggregationOuterDimension.SetSingleCoords | cdm/core/src/main/java/ucar/nc2/ncml/AggregationOuterDimension.java:152-157 | every dataset gets one coordinate, and every aggStart and aggEnd keeps its value |
| Aggregation.AggregationOuterDimension.AssignIntervals | cdm/core/src/main/java/ucar/nc2/ncml/AggregationOuterDimension.java:159-163 | succeeds exactly when every dataset's count is known, then the datasets get abutting intervals from 0 on, each with its known count, and totalCoords is where the last ends; otherwise DimensionNotFound |
| Aggregation.AggregationOuterDimension.BuildCoords | cdm/core/src/main/java/ucar/nc2/ncml/AggregationOuterDimension.java:149-164 | forecast-model-run collections get one coordinate per dataset and always succeed; otherwise success exactly when every count is known; on success abutting intervals; the cache variables are untouched |
| Aggregation.AggregationOuterDimension.FindCacheVariable | cdm/core/src/main/java/ucar/nc2/ncml/AggregationOuterDimension.java:132-137 | the first entry with that name, or none iff there is no such entry |
| Aggregation.AggregationOuterDimension.AddCacheVariable | cdm/core/src/main/java/ucar/nc2/ncml/AggregationOuterDimension.java:126-130 | unchanged when the name is present, else one fresh entry appended; unique names stay unique |
| Aggregation.AggregationOuterDimension.PiecesGrow | cdm/core/src/main/java/ucar/nc2/ncml/AggregationOuterDimension.java:404-425 | the pieces of the first k datasets are a prefix of those of the first n |
| Aggregation.AggregationOuterDimension.ReallyRead | cdm/core/src/main/java/ucar/nc2/ncml/AggregationOuterDimension.java:392-427 | datasets without a nested range skipped, pieces copied end to end, the rest zero; a piece that does not fit is an index error |
| Aggregation.ArrayCopy | cdm/core/src/main/java/ucar/nc2/ncml/AggregationOuterDimension.java:423 | the piece lands at destPos and every other element of the section is unchanged |
| CoordAxis1D.HitCountMeaning | cdm/core/src/main/java/ucar/nc2/dataset/CoordinateAxis1D.java:667-678 | zero hits iff no cell contains the target; with one hit the index found is that cell |
| CoordAxis1D.FindSingleHit | cdm/core/src/main/java/ucar/nc2/dataset/CoordinateAxis1D.java:667-678 | the number of cells with low <= target <= high and the last such index |
| CoordAxis1D.PickKeepsDirection | cdm/core/src/main/java/ucar/nc2/dataset/CoordinateAxis1D.java:135-140 | a section of strictly monotone coordinates is monotone the same way |
| CoordAxis1D.AscendingTest | cdm/core/src/main/java/ucar/nc2/dataset/CoordinateAxis1D.java:760-763 | strictly increasing coordinates are ascending; strictly decreasing ones of size >= 2 are not |
| CoordAxis1D.CoordinateAxis1D.constructor | cdm/core/src/main/java/ucar/nc2/dataset/CoordinateAxis1D.java:1009-1020 | the fields as given, isAscending from the ascending test |
| CoordAxis1D.CoordinateAxis1D.DoRead | cdm/core/src/main/java/ucar/nc2/dataset/CoordinateAxis1D.java:755-764 | stores the read values and sets isAscending (size < 2 or coords[0] < coords[1]) |
| CoordAxis1D.CoordinateAxis1D.MinValue | cdm/core/src/main/java/ucar/nc2/dataset/CoordinateAxis1D.java:254-261 | the smaller of the first and last coordinate |
| CoordAxis1D.CoordinateAxis1D.MaxValue | cdm/core/src/main/java/ucar/nc2/dataset/CoordinateAxis1D.java:264-271 | the larger of the first and last coordinate |
| CoordAxis1D.CoordinateAxis1D.MinMaxBoundAll | cdm/core/src/main/java/ucar/nc2/dataset/CoordinateAxis1D.java:254-271 | on monotone coordinates min and max bound every coordinate |
| CoordAxis1D.CoordinateAxis1D.FindCoordElementIrregular | cdm/core/src/main/java/ucar/nc2/dataset/CoordinateAxis1D.java:556-606 | ascending (mirrored when descending): below the first edge -1, or 0 when bounded; above the last -1, or n - 1 when bounded; in range a cell r with edge[r] <= target <= edge[r+1]; a target on an edge of strictly monotone edges gives that edge's index |
| CoordAxis1D.CoordinateAxis1D.IrregularCellBrackets | cdm/core/src/main/java/ucar/nc2/dataset/CoordinateAxis1D.java:569-581 | on ascending edges the cell found brackets the target |
| CoordAxis1D.CoordinateAxis1D.FindCoordElementNonContiguous | cdm/core/src/main/java/ucar/nc2/dataset/CoordinateAxis1D.java:625-664 | range checks on bound1[0] and bound2[n-1], giving -1 or the end cell when bounded; in range one hit returns it, no hit is -1 unless bounded, two or more hits (or none when bounded) return the closest-midpoint index |
| CoordAxis1D.CoordinateAxis1D.FindCoordElement | cdm/core/src/main/java/ucar/nc2/dataset/CoordinateAxis1D.java:449-459 | regular axes give the regular search; contiguous ones the full unbounded irregular answer; non-contiguous ones the full unbounded non-contiguous answer |
| CoordAxis1D.CoordinateAxis1D.FindCoordElementBounded | cdm/core/src/main/java/ucar/nc2/dataset/CoordinateAxis1D.java:467-481 | a one-element axis gives 0; otherwise the bounded regular, irregular (always in [0, n)) or non-contiguous answer |
| CoordAxis1D.CoordinateAxis1D.MakeBoundsFromEdges | cdm/core/src/main/java/ucar/nc2/dataset/CoordinateAxis1D.java:984-1002 | bound1 = edge[..n] and bound2 = edge[1..], swapped when bound1[0] > bound2[0]; unchanged for an empty axis; coordinates, edges, names, direction and the interval flag unchanged |
| CoordAxis1D.CoordinateAxis1D.Section | cdm/core/src/main/java/ucar/nc2/dataset/CoordinateAxis1D.java:128-180 | coordinates, names and bounds at r's indexes; edges at r's indexes plus the edge after the last; the flags and the direction carried over; an index past the axis is an error |
| CoordAxis1D.PickValues | cdm/core/src/main/java/ucar/nc2/dataset/CoordinateAxis1D.java:135-139 | the loop collects the values at r's indexes |
| CoordAxis1D.PickNames | cdm/core/src/main/java/ucar/nc2/dataset/CoordinateAxis1D.java:168-175 | the loop collects the names at r's indexes |
| CoordAxis1D.SectionEdges | cdm/core/src/main/java/ucar/nc2/dataset/CoordinateAxis1D.java:158-164 | every overwritten edge slot ends as edge at r's indexes plus the edge after the last |
| CoordAxis1D.IntervalEdges | cdm/core/src/main/java/ucar/nc2/dataset/CoordinateAxis1D.java:143-152 | interval edges end as bound1 at r's indexes plus bound2 of the last |
| CoordAxis1D.BoundsFromAscendingEdges | cdm/core/src/main/java/ucar/nc2/dataset/CoordinateAxis1D.java:989-1001 | on ascending edges bound1[i] <= bound2[i], so no swap happens |
| CoordAxisTime.FirstAfter | cdm/core/src/main/java/ucar/nc2/dataset/CoordinateAxis1DTime.java:155-160 | the first index whose date is after d, every date before it at most d |
| CoordAxisTime.MsecOffsets | cdm/core/src/main/java/ucar/nc2/dataset/CoordinateAxis1DTime.java:206-207 | coords[i] + date 0 = date i, so coords[0] = 0 |
| CoordAxisTime.MsecOffsetsKeepOrder | cdm/core/src/main/java/ucar/nc2/dataset/CoordinateAxis1DTime.java:206-207 | the offsets keep the dates' order |
| CoordAxisTime.CoordinateAxis1DTime.FindTimeIndexFromCalendarDate | cdm/core/src/main/java/ucar/nc2/dataset/CoordinateAxis1DTime.java:153-162 | max(0, first index after d minus 1) |
| CoordAxisTime.CoordinateAxis1DTime.TimeIndexBrackets | cdm/core/src/main/java/ucar/nc2/dataset/CoordinateAxis1DTime.java:153-162 | on ascending dates time(i) <= d < time(i+1); 0 before the first and n - 1 from the last date on; always in [0, max(n - 1, 0)] |
| CoordAxisTime.CoordinateAxis1DTime.HasCalendarDate | cdm/core/src/main/java/ucar/nc2/dataset/CoordinateAxis1DTime.java:170-177 | true iff the date is one of the axis dates |
| CoordAxisTime.CoordinateAxis1DTime.CalendarDateRange | cdm/core/src/main/java/ucar/nc2/dataset/CoordinateAxis1DTime.java:111-115 | none iff empty, else (first, last) |
| CoordAxisTime.CoordinateAxis1DTime.CalendarDateRangeCovers | cdm/core/src/main/java/ucar/nc2/dataset/CoordinateAxis1DTime.java:111-115 | on ascending dates the range covers every date |
| CoordAxisTime.CoordinateAxis1DTime.Section | cdm/core/src/main/java/ucar/nc2/dataset/CoordinateAxis1DTime.java:83-93 | the dates at r's indexes in r's order, and the coordinates at those indexes once read; an index past the axis is an error |
| CoordAxisTime.CoordinateAxis1DTime.ReadValues | cdm/core/src/main/java/ucar/nc2/dataset/CoordinateAxis1DTime.java:203-213 | non-numeric originals get the millisecond offsets, numeric ones the read values |
| CollectionSpec.DotsBetween | cdm/core/src/main/java/thredds/inventory/CollectionSpecParser.java:102-105 | positions from .. to - 1 become '.', the rest kept; a position past the end is an index error |
| CollectionSpec.ReplaceWithDots | cdm/core/src/main/java/thredds/inventory/CollectionSpecParser.java:102-105 | the StringBuilder loop gives DotsBetween(text, posFormat, posFormat2 - 1) |
| CollectionSpec.ParseFilter | cdm/core/src/main/java/thredds/inventory/CollectionSpecParser.java:91-121 | a date-format mark exactly when the filter has a '#', and it is a prefix of the filter; the only failure is the StringIndexOutOfBounds of a filter with two or more '#' |
| CollectionSpec.Parse | cdm/core/src/main/java/thredds/inventory/CollectionSpecParser.java:63-124 | subdirectories exactly when "/**/" occurs after position 0; then the root is the text before its first occurrence, otherwise the text before the last '/' when that is past position 0, else the working directory; the filter is the rest after the marker or the '/' when at least two characters long, with its mark and expression from ParseFilter, and only its failure fails the parse; filterOnName set and spec the trimmed text |
| CollectionSpec.ParseRest | cdm/core/src/main/java/thredds/inventory/CollectionSpecParser.java:87-123 | the filter is the text after the filter position when at least two characters long, and the parse fails exactly when ParseFilter fails on it; root and subdirectories as given |
| CollectionSpec.GlobSplit | cdm/core/src/main/java/thredds/inventory/CollectionSpecParser.java:67-90 | for root + "/**/" + name with a root free of '*': root and subdirectories as split, the name filtered as ParseFilter says when at least two characters long |
| CollectionSpec.NoGlobSplit | cdm/core/src/main/java/thredds/inventory/CollectionSpecParser.java:73-90 | for dir + "/" + name with no '/' in name: the directory as root, no subdirectories, the name filtered as ParseFilter says when at least two characters long |
| CollectionSpec.NoHashFilter | cdm/core/src/main/java/thredds/inventory/CollectionSpecParser.java:114-117 | no mark, the regular expression is the filter verbatim |
| CollectionSpec.OneHashFilter | cdm/core/src/main/java/thredds/inventory/CollectionSpecParser.java:108-112 | the mark is the whole filter, the expression the text before '#' then "*" |
| CollectionSpec.TwoHashFilter | cdm/core/src/main/java/thredds/inventory/CollectionSpecParser.java:94-106 | the mark runs up to the second '#'; the expression drops both marks and dots out the characters between them |
| CollectionSpec.TwoHashParts | cdm/core/src/main/java/thredds/inventory/CollectionSpecParser.java:94-106 | for a#b#c: mark a#b, expression a, one '.' per character of b, then c |
| CollectionSpec.DocumentedExample | cdm/core/src/main/java/thredds/inventory/CollectionSpecParser.java:23-29 | the documented GFS example: mark "GFS_Alaska_191km_#yyyyMMdd_HHmm" and 13 dots |
| CollectionSpec.DocumentedSpec | cdm/core/src/main/java/thredds/inventory/CollectionSpecParser.java:23-29 | the documented subdirectory spec: the root before "/**/", subdirectories on, the mark "GFS_Alaska_191km_#yyyyMMdd_HHmm" and the expression with 13 dots |
| CollectionSpec.DocumentedFlatSpec | cdm/core/src/main/java/thredds/inventory/CollectionSpecParser.java:32-40 | the documented flat spec: the directory as root, no subdirectories, no mark, the expression `.*\.grb` verbatim |
| CollectionSpec.ThreeHashOverrun | cdm/core/src/main/java/thredds/inventory/CollectionSpecParser.java:97-104 | a#b#c# with no further '#': the dot loop runs one past the shortened text, a StringIndexOutOfBounds |
| CollectionSpec.FromRootAndRegExp | cdm/core/src/main/java/thredds/inventory/CollectionSpecParser.java:126-133 | trailing '/' removed from the root, subdirectories on, spec = root + "/" + regExp and also the filter, filterOnName off, no mark |
| GribIndex.MakeIndexFile | grib/src/main/java/ucar/nc2/grib/collection/GribCdmIndex.java:123-126 | in the given directory; the name is the collection name with ' ' turned into '_', then ".ncx4" |
| GribIndex.IndexFilename | grib/src/main/java/ucar/nc2/grib/collection/GribCdmIndex.java:129-131 | the text after the last separator ('\\' counted as '/'), containing neither |
| GribIndex.MakeNameFromIndexFilename | grib/src/main/java/ucar/nc2/grib/collection/GribCdmIndex.java:128-134 | strips the last five characters of the file name (an index error when shorter); with the ".ncx4" suffix the result plus the suffix is the name |
| GribIndex.IndexNameRoundTrip | grib/src/main/java/ucar/nc2/grib/collection/GribCdmIndex.java:123-134 | the name recovered from the index file's path is the blank-replaced collection name, for names without '/' or '\\' |
| GribIndex.NameFromIndexFile | grib/src/main/java/ucar/nc2/grib/collection/GribCdmIndex.java:856-859 | the file name up to its last '.' when that '.' is past position 0, else the whole name |
| GribIndex.IndexFileNameRoundTrip | grib/src/main/java/ucar/nc2/grib/collection/GribCdmIndex.java:856-859 | the name taken from a written index file is the blank-replaced collection name |
| GribIndex.GetType | grib/src/main/java/ucar/nc2/grib/collection/GribCdmIndex.java:145-166 | each of the four magic strings gives its type and anything else none; a file shorter than the magic cannot be read |
| GribIndex.GetTypeOfWrittenIndex | grib/src/main/java/ucar/nc2/grib/collection/GribCdmIndex.java:151-165 | an index starting with a type's magic is read back as that type |
| GribIndex.IsUpdateNeeded | grib/src/main/java/ucar/nc2/grib/collection/GribCdmIndex.java:427-456 | never means no update and no deletion; no index means an update without deletion; an unreadable index is deleted and rebuilt; a deleted index is always rebuilt |
| GribIndex.UpdateDecisionTable | grib/src/main/java/ucar/nc2/grib/collection/GribCdmIndex.java:427-456 | no update iff never, or nocheck with a good index; delete iff an update is allowed and an existing index is bad |
| GribIndex.OpenGribCollectionFromDataFile | grib/src/main/java/ucar/nc2/grib/collection/GribCdmIndex.java:829-838 | one or two attempts starting with the given update type; a first success is returned at once, and the result is that of the last attempt |
| GribIndex.RetryAtMostOnce | grib/src/main/java/ucar/nc2/grib/collection/GribCdmIndex.java:829-838 | one attempt, or two when the first fails and the type is neither never nor always; the retry uses always and its result is returned |
| GribIndex.OpenIndexResult | grib/src/main/java/ucar/nc2/grib/collection/GribCdmIndex.java:950-966 | succeeds only when recordLength fits an int and the index size is in [0, 100000000]; then it is the parse of that many bytes |
| GribIndex.GribCdmIndex.OpenIndex | grib/src/main/java/ucar/nc2/grib/collection/GribCdmIndex.java:937-972 | true iff the index opens; the parsed message is stored then, the field kept otherwise |
| CF1.ExtractVersion | cdm/core/src/main/java/ucar/nc2/dataset/conv/CF1Convention.java:64-75 | -1 without the "CF-1." prefix; otherwise the int parse of the rest, -1 when it fails |
| CF1.ExtractVersionOfDecimal | cdm/core/src/main/java/ucar/nc2/dataset/conv/CF1Convention.java:64-75 | "CF-1." followed by the decimal digits of n gives n |
| CF1.FirstVersion | cdm/core/src/main/java/ucar/nc2/dataset/conv/CF1Convention.java:55-61 | -1 iff no name has a version, else the version of the first name that has one |
| CF1.Version | cdm/core/src/main/java/ucar/nc2/dataset/conv/CF1Convention.java:49-62 | the whole string's version when non-negative, else the first version among the parts |
| CF1.GetVersion | cdm/core/src/main/java/ucar/nc2/dataset/conv/CF1Convention.java:49-62 | the loop with early return computes Version |
| CF1.VersionOfConventionName | cdm/core/src/main/java/ucar/nc2/dataset/conv/CF1Convention.java:49-53 | "CF-1.n" has version n whatever the parts |
| CF1.AcknowledgesGeometry | cdm/core/src/main/java/ucar/nc2/dataset/conv/CF1Convention.java:196-197 | simple geometry needs a Conventions attribute with version >= 8 |
| CF1.GeometryFromCF18 | cdm/core/src/main/java/ucar/nc2/dataset/conv/CF1Convention.java:196-197 | "CF-1.n" acknowledges simple geometry iff n >= 8 |
| CF1.GetZisPositive | cdm/core/src/main/java/ucar/nc2/dataset/conv/CF1Convention.java:84-102 | up or down; down iff the units are present, non-empty and compatible with millibar |
| CF1.VerticalCoordinateByLowerCase | cdm/core/src/main/java/ucar/nc2/dataset/conv/CF1Convention.java:104-108 | a name matches the list ignoring case iff its lower-case form is listed |
| CF1.LowerCaseList | cdm/core/src/main/java/ucar/nc2/dataset/conv/CF1Convention.java:104-108 | every listed name is already lower case |
| CF1.FindVerticalCoordinate | cdm/core/src/main/java/ucar/nc2/dataset/conv/CF1Convention.java:400-404 | the loop finds a match iff the name is a vertical coordinate |
| CF1.GetAxisType | cdm/core/src/main/java/ucar/nc2/dataset/conv/CF1Convention.java:394-410 | GeoZ when the trimmed standard name is a vertical coordinate, before any other test; otherwise what the other tests give |
| CF1.MightNeedCorrected | cdm/core/src/main/java/ucar/nc2/dataset/conv/CF1Convention.java:500-508 | marked exactly when "wcdas" occurs in the lower-cased production location and "ground segment" and "awips" in the lower-cased ICD version; the trims cannot change that |
| JavaStrings.ContainsTrim | cdm/core/src/main/java/ucar/nc2/dataset/conv/CF1Convention.java:501-502 | a word starting and ending with a character `trim` keeps occurs in `s.trim()` exactly when it occurs in `s` |
| CF1.MightNeedCorrectedIgnoresCase | cdm/core/src/main/java/ucar/nc2/dataset/conv/CF1Convention.java:500-508 | the GOES-16 trigger does not depend on case |
| CF1.FindIgnoreCase | cdm/core/src/main/java/ucar/nc2/dataset/conv/CF1Convention.java:512 | the first attribute whose name matches ignoring case, or none iff there is none |
| CF1.AddAttributeTo | cdm/core/src/main/java/ucar/nc2/dataset/conv/CF1Convention.java:516 | an attribute of the same name is replaced in place, otherwise the new one is appended |
| CF1.RemoveFirst | cdm/core/src/main/java/ucar/nc2/dataset/conv/CF1Convention.java:517 | the first equal attribute is removed; without one nothing changes |
| CF1.RemoveFirstAt | cdm/core/src/main/java/ucar/nc2/dataset/conv/CF1Convention.java:517 | removing the first occurrence at index i is dropping index i |
| CF1.RenameEffect | cdm/core/src/main/java/ucar/nc2/dataset/conv/CF1Convention.java:512-519 | the copy under the new name is added and exactly the found attribute is removed; nothing else is added |
| CF1.Rename | cdm/core/src/main/java/ucar/nc2/dataset/conv/CF1Convention.java:512-519 | no attribute matching the old name, or one without values, leaves the list unchanged; the list never grows and loses at most one attribute |
| CF1.RenameAll | cdm/core/src/main/java/ucar/nc2/dataset/conv/CF1Convention.java:509-521 | no corrections leave the list unchanged; each correction loses at most one attribute and none adds one |
| CF1.RenameKeeps | cdm/core/src/main/java/ucar/nc2/dataset/conv/CF1Convention.java:512-519 | a rename keeps every attribute that neither matches the old name nor has the new one |
| CF1.RenameFinds | cdm/core/src/main/java/ucar/nc2/dataset/conv/CF1Convention.java:512-519 | a rename leaves the first case-insensitive match of any unrelated name unchanged |
| CF1.Goes16RenamesBoth | cdm/core/src/main/java/ucar/nc2/dataset/conv/CF1Convention.java:495-524 | a marked file with "semi_minor" and "semi_major" values (any case) ends with semi_minor_axis and semi_major_axis carrying those values, with nothing else new, and with every attribute that neither rename matches or names kept |
| CF1.Goes16Corrected | cdm/core/src/main/java/ucar/nc2/dataset/conv/CF1Convention.java:495-524 | nothing changes unless both global values are present and mark the file |
| CF1.Goes16RenamesSemiMinor | cdm/core/src/main/java/ucar/nc2/dataset/conv/CF1Convention.java:509-521 | a "semi_minor" attribute with values becomes "semi_minor_axis" with those values; every other attribute was there before |
| CF1.AttributeList.FindAttributeIgnoreCase | cdm/core/src/main/java/ucar/nc2/dataset/conv/CF1Convention.java:512 | an attribute of the list matching ignoring case, or none iff none matches |
| CF1.AttributeList.AddAttribute | cdm/core/src/main/java/ucar/nc2/dataset/conv/CF1Convention.java:516 | the list after adding, in place |
| CF1.AttributeList.Remove | cdm/core/src/main/java/ucar/nc2/dataset/conv/CF1Convention.java:517 | the list after removing, in place |
| CF1.AttributeList.RenameAttribute | cdm/core/src/main/java/ucar/nc2/dataset/conv/CF1Convention.java:512-519 | one correction entry, in place |
| CF1.AttributeList.RenameAllAttributes | cdm/core/src/main/java/ucar/nc2/dataset/conv/CF1Convention.java:510-521 | the corrections applied one after another in map order, in place: the list-level renaming of all of them |
| CF1.AttributeList.CorrectGoes16 | cdm/core/src/main/java/ucar/nc2/dataset/conv/CF1Convention.java:495-524 | the trigger, then both corrections in map order: the corrected attribute list |

## Left out

- Deflate decompression is opaque: `Inflater` is a parameter. It receives the compressed bytes, the `InflaterInputStream` buffer size, and the `Math.min` value of line 254, which is both the initial size of the `ByteArrayOutputStream` and the buffer size given to `IO.copyB`. Nothing caps the decoder's output and no property of the decoder is checked. The zlib stream format is not modelled.
- `IO.copyB` is not part of this model. What the copy does with a buffer of size 0 (at 2^29 compressed bytes, 8 * length wraps to 0) is left to the `Inflater` parameter.
- File access, the B-tree chunk iterator, the regular and tiled layouts, and the `H5header` heap readers are parameters. None of their code is part of this model, so layout iteration order and heap-id decoding are not proved.
- The concurrent branch of `AggregationOuterDimension.reallyRead` is not modelled: it uses an executor and a completion service.
- The length of the aggregation dimension in a dataset's file is the `fileDimLength` constructor parameter; `None` stands for a file where `findDimension` returns null.
- The rest of the aggregation is not modelled: file acquisition, `readTimeCoordinates`, `promoteGlobalAttributes`, `rebuildDataset`, `PromoteVar` and `CoordValueVar`. They are file plumbing and double-valued date conversion.
- The cancel-task checks are not modelled; each only returns early with null.
- Aggregation.DatasetOuterDimension.IsNeeded: `wantStop = last + 1` is taken without int wrap. The ranges come from `Range`, whose last index is not near `Integer.MAX_VALUE`.
- Floating point is out of scope: `findCoordElementRegular`, `findClosest`, `calcIsRegular`, `makeEdges`, `correctLongitudeWrap`, the midpoints in `makeBoundsFromAux`, and the NaN filtering. Coordinates are modelled as `int`. The regular search and `findClosest` are parameters, and `isRegular` after a section is a parameter.
- CoordAxis1D.CoordinateAxis1D.FindCoordElementIrregular: the midpoint `(low + high) / 2` is taken without int overflow, because an axis has fewer than 2^30 edges.
- Dates are their millisecond counts. ISO formatting of HDF5 time values (hdfType 2) and `CalendarDate` parsing are left out.
- CHAR conversion (`convertByteToChar`), reference conversion (`convertReference`) and the `Array` factories are left out. They are type wrappers around the placed values.
- ReadAssembler.ReadStructureBytes: the byte count is `(int) (recsize * totalNelems)`, with the long product truncated to an int. The long product itself is taken without 64-bit wrap.
- ReadAssembler.StructureBB.AddObjectToHeap: `ArrayStructureBB.addObjectToHeap` is not part of this model. It is assumed to append and return the new index.
- The byte order of the `ByteBuffer` returned by `getByteBuffer`, and `ByteOrder.nativeOrder()`, are parameters.
- Regular expressions are kept as their source text. `Pattern.compile` and matching are not modelled, nor are `File.exists` and the `errlog` message.
- `System.getProperty("user.dir")` is the `workingDir` parameter of `CollectionSpec.Parse`.
- The class comment of `CollectionSpecParser` (line 35) gives the flat example's root as "Q:/grid/grib/grib1/data/agg/", with a trailing '/'. The code at line 77 cuts before that '/', and `CollectionSpec.Parse` and `DocumentedFlatSpec` follow the code.
- GRIB index building, the index caches, `makeTopIndexFileFromConfig`, the protobuf message and the command-line tool are left out. Magic strings and the parser are parameters.
- GribIndex.OpenIndexResult: the effect of a negative `recordLength` on `skipBytes` is inside the `afterRecords` parameter.
- The file deletion in `isUpdateNeeded` is the `deleteIndex` output flag.
- `java.io.File` is modelled as directory + "/" + name, with `getName` as the text after the last '/'. Platform separators are not modelled.
- `breakupConventionNames`, `SimpleUnit.isCompatible` and the rest of `getAxisType` (the superclass tests) are parameters.
- The other `augmentDataset` transforms are left out.
- The attribute container is not part of this model. `findAttributeIgnoreCase`, `addAttribute` (replace by exact name, else append) and `remove` (first equal attribute) follow the `AttributeContainerMutable` contract as assumed here.
- Case handling is ASCII only. `toLowerCase` and `equalsIgnoreCase` are not modelled for non-ASCII letters.
- Tiling.Tiling.constructor: requires every chunk size to be positive. With a zero chunk size the Java `(shape + chunk - 1) / chunk` throws ArithmeticException, which is not modelled.
- Tiling.Tiling.constructor: also requires that the ceiling numerators and the product of the tile counts fit an int. Padding, tile counts and strides are stated only for such shapes.
- Tiling.Tiling.Order: the order and compare wrap like Java ints. Exact orders and the preorder are proved only for points inside the padded shape.
- FilterPipeline.PipelineRoundTrip: holds for deflated outputs whose capacity as written is not negative. Beyond that the as-written read path throws (see Findings), so no round trip is claimed there.
- ReadAssembler.VlenResult: `Array.makeVlenArray` is not part of this model. It is assumed to take the element type from its first array, so that an empty vlen read throws at every prefix rank, as the vlen member conversion does.
- ReadAssembler.ConvertVlen: a member whose endian is negative gets no byte order in `convertStructure` (H5iosp.java:401-403), and `bo.equals` at line 459 would then throw NullPointerException. `HeapMember` always carries a byte order, so that case is not modelled.
- ReadAssembler.CopySpan: `RandomAccessFile` is not part of this model. `readFully` is taken to copy nothing for a length that is not positive, to throw IndexOutOfBounds for a span outside the array and EOFException (IOError) for one past the end of the file; what `seek` does with a negative position when nothing is read is not modelled.
- ReadAssembler.ConvertString: `m.setDataObject(ByteOrder.nativeOrder())` at line 444 changes the member for later readers. It is not modelled; the index is written in the native order either way.
- CF1.ExtractVersion: `Integer.parseInt` accepts any Unicode decimal digit (e.g. "CF-1.٨"), while `ParseInt` accepts only '0'..'9'. Other decimal digits give -1 here.

## Findings

| source | as written | input that shows it | evidently intended | confidence | as-written member | corrected member |
|---|---|---|---|---|---|---|
| cdm/core/src/main/java/ucar/nc2/iosp/hdf5/H5tiledLayoutBB.java:254 | `Math.min(8 * compressed.length, MAX_ARRAY_LEN)` multiplies in int arithmetic | a stored chunk of 2^28 bytes passes the size check; then 8 * 2^28 wraps to a negative int, so `new ByteArrayOutputStream(len)` throws IllegalArgumentException before anything is inflated | the initial size is min(8 * length, MAX_ARRAY_LEN), computed in long arithmetic | not executed | FilterPipeline.InflateCapacityAsWritten, FilterPipeline.InflateCapacityOverflows, FilterPipeline.ApplyFilter, FilterPipeline.DeflateOverflowRejected | FilterPipeline.InflateCapacity, FilterPipeline.ApplyFilterCorrected, FilterPipeline.CorrectedFilterAgrees |

The read path (`ApplyFilter`, and through it `Unfilter` and `TiledLayoutBB.ReadChunk`) follows line 254 as written, so it throws where the Java throws. `ApplyFilterCorrected` is the filter with the intended capacity. `CorrectedFilterAgrees` shows the two differ only where 8 * length overflows an int.
