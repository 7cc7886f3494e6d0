/**
 * The decision logic of the GRIB CDM index utilities (`GribCdmIndex`): the names of ".ncx4" index files,
 * the index type read from the magic string at the start of an index, whether an index must be
 * rebuilt, the retry when opening a collection from a data file fails, and the size checks on the
 * index header.
 */
module GribIndex {
  import opened Wrappers
  import opened JavaInt
  import opened JavaStrings

  const NCX_SUFFIX: string := ".ncx4"

  /** `java.io.File(directory, child)`; its path is the directory, '/' and the child. */
  datatype File = File(directory: string, name: string)
  {
    function Path(): string { directory + "/" + name }
  }

  datatype NameError = StringIndexOutOfBounds

  /** `makeIndexFile`: blanks of the collection name become '_' and ".ncx4" is appended. */
  function MakeIndexFile(collectionName: string, directory: string): (f: File)
    ensures f.directory == directory
    ensures |f.name| == |collectionName| + |NCX_SUFFIX| && EndsWith(f.name, NCX_SUFFIX)
    ensures forall i :: 0 <= i < |collectionName| ==>
      f.name[i] == if collectionName[i] == ' ' then '_' else collectionName[i]
  {
    ReplaceCharPointwise(collectionName, ' ', '_');
    File(directory, ReplaceChar(collectionName, ' ', "_") + NCX_SUFFIX)
  }

  /** The file name part of an index path once '\\' is turned into '/': the text after the last '/'. */
  function IndexFilename(idxPathname: string): (r: string)
    ensures '/' !in r && '\\' !in r
    ensures var p := ReplaceChar(idxPathname, '\\', "/");
      |r| <= |p| && r == p[|p| - |r|..] && (r != p ==> p[|p| - |r| - 1] == '/')
  {
    var p := ReplaceChar(idxPathname, '\\', "/");
    AfterLast(p, '/')
  }

  /**
   * `makeNameFromIndexFilename`: the index file name with its last five characters cut off. The
   * assertion that they are ".ncx4" is not enabled at run time; a file name shorter than that makes
   * `substring` throw.
   */
  function MakeNameFromIndexFilename(idxPathname: string): (r: Result<string, NameError>)
    ensures var idxFilename := IndexFilename(idxPathname);
      (r.Ok? <==> |idxFilename| >= |NCX_SUFFIX|) &&
      (r.Ok? ==> '/' !in r.value && '\\' !in r.value && r.value <= idxFilename) &&
      (r.Ok? && EndsWith(idxFilename, NCX_SUFFIX) ==> r.value + NCX_SUFFIX == idxFilename)
  {
    var idxFilename := IndexFilename(idxPathname);
    if |idxFilename| < |NCX_SUFFIX| then Err(StringIndexOutOfBounds)
    else
      NameWithoutSuffix(idxFilename);
      Ok(idxFilename[..|idxFilename| - |NCX_SUFFIX|])
  }

  /** What cutting the suffix off a file name without separators leaves. */
  lemma NameWithoutSuffix(idxFilename: string)
    requires |idxFilename| >= |NCX_SUFFIX| && '/' !in idxFilename && '\\' !in idxFilename
    ensures var name := idxFilename[..|idxFilename| - |NCX_SUFFIX|];
      '/' !in name && '\\' !in name && name <= idxFilename &&
      (EndsWith(idxFilename, NCX_SUFFIX) ==> name + NCX_SUFFIX == idxFilename)
  {
    PrefixLacks(idxFilename, |idxFilename| - |NCX_SUFFIX|, '/');
    PrefixLacks(idxFilename, |idxFilename| - |NCX_SUFFIX|, '\\');
    SuffixCut(idxFilename, NCX_SUFFIX);
  }

  lemma SuffixCut(s: string, suffix: string)
    requires |suffix| <= |s|
    ensures EndsWith(s, suffix) ==> s[..|s| - |suffix|] + suffix == s
  {
    if EndsWith(s, suffix) {
      assert s == s[..|s| - |suffix|] + s[|s| - |suffix|..];
    }
  }

  /** `java.io.File.getName`: the text after the last '/'. */
  function FileName(path: string): (r: string)
    ensures '/' !in r && |r| <= |path| && r == path[|path| - |r|..]
  {
    AfterLast(path, '/')
  }

  /** The collection name in `openGribCollectionFromIndexFile`: the file name up to its last '.', when that is not the first character. */
  function NameFromIndexFile(location: string): (r: string)
    ensures var name := FileName(location);
      var pos := LastIndexOfChar(name, '.');
      r <= name &&
      (r == name <==> pos <= 0) &&
      (pos > 0 ==> |r| == pos && name[|r|] == '.' && '.' !in name[|r| + 1..])
  {
    CutBeforeLast(FileName(location), '.')
  }

  /**
   * Naming an index file and reading the name back agree: for a collection name without path
   * separators, the name recovered from the index file's path is the name with its blanks replaced.
   */
  lemma IndexNameRoundTrip(collectionName: string, directory: string)
    requires '/' !in collectionName && '\\' !in collectionName
    ensures MakeNameFromIndexFilename(MakeIndexFile(collectionName, directory).Path())
         == Ok(ReplaceChar(collectionName, ' ', "_"))
  {
    var noBlanks := ReplaceChar(collectionName, ' ', "_");
    var child := noBlanks + NCX_SUFFIX;
    IndexFileNameChars(collectionName);
    var dir := ReplaceChar(directory, '\\', "/");
    SeparatorsUnified(directory, child);
    AfterLastSlash(dir, child);
    DropSuffix(noBlanks);
  }

  /**
   * The name taken from an index file in `openGribCollectionFromIndexFile` is the same blank-free
   * name when the collection name is not empty.
   */
  lemma IndexFileNameRoundTrip(collectionName: string, directory: string)
    requires '/' !in collectionName && collectionName != []
    ensures NameFromIndexFile(MakeIndexFile(collectionName, directory).Path()) == ReplaceChar(collectionName, ' ', "_")
  {
    var noBlanks := ReplaceChar(collectionName, ' ', "_");
    var child := noBlanks + NCX_SUFFIX;
    IndexFileNameChars(collectionName);
    IndexFileChild(directory, child);
    NameBeforeSuffix(noBlanks);
  }

  lemma IndexFileChild(directory: string, child: string)
    requires '/' !in child
    ensures FileName(directory + "/" + child) == child
  {
    AfterLastSlash(directory, child);
  }

  lemma NameBeforeSuffix(name: string)
    requires name != []
    ensures CutBeforeLast(name + NCX_SUFFIX, '.') == name
  {
    BeforeLastDot(name);
  }

  lemma AfterLastSlash(directory: string, child: string)
    requires '/' !in child
    ensures var p := directory + ['/'] + child;
      LastIndexOfChar(p, '/') == |directory| && p[|directory| + 1..] == child
      && directory + "/" + child == p
  {
    LastIndexOfCharSplit(directory, '/', child);
    assert (directory + ['/'] + child)[|directory| + 1..] == child;
  }

  lemma DropSuffix(name: string)
    ensures (name + NCX_SUFFIX)[..|name + NCX_SUFFIX| - |NCX_SUFFIX|] == name
  {
  }

  lemma BeforeLastDot(name: string)
    requires name != []
    ensures LastIndexOfChar(name + NCX_SUFFIX, '.') == |name| && (name + NCX_SUFFIX)[..|name|] == name
  {
    SuffixShape();
    BeforeDotOf(name, NCX_SUFFIX);
  }

  lemma SuffixShape()
    ensures NCX_SUFFIX != [] && NCX_SUFFIX[0] == '.' && '.' !in NCX_SUFFIX[1..]
  {
  }

  lemma BeforeDotOf(name: string, suffix: string)
    requires suffix != [] && suffix[0] == '.' && '.' !in suffix[1..]
    ensures LastIndexOfChar(name + suffix, '.') == |name| && (name + suffix)[..|name|] == name
  {
    assert name + suffix == name + ['.'] + suffix[1..];
    LastIndexOfCharSplit(name, '.', suffix[1..]);
  }

  /** The index file name of a collection name holds no separator the name does not hold. */
  lemma IndexFileNameChars(collectionName: string)
    ensures var child := ReplaceChar(collectionName, ' ', "_") + NCX_SUFFIX;
      ('/' !in collectionName ==> '/' !in child) && ('\\' !in collectionName ==> '\\' !in child) &&
      |ReplaceChar(collectionName, ' ', "_")| == |collectionName|
  {
    if '/' !in collectionName {
      ReplaceCharKeeps(collectionName, ' ', "_", '/');
    }
    if '\\' !in collectionName {
      ReplaceCharKeeps(collectionName, ' ', "_", '\\');
    }
  }

  /** Turning '\\' into '/' in a path `directory/child` leaves `child` alone when it has no '\\'. */
  lemma SeparatorsUnified(directory: string, child: string)
    requires '\\' !in child
    ensures ReplaceChar(directory + "/" + child, '\\', "/") == ReplaceChar(directory, '\\', "/") + ['/'] + child
  {
    assert directory + "/" + child == directory + ("/" + child);
    ReplaceCharConcat(directory, "/" + child, '\\', "/");
    ReplaceCharConcat("/", child, '\\', "/");
  }

  lemma {:induction false} ReplaceCharPointwise(s: string, c: char, d: char)
    ensures |ReplaceChar(s, c, [d])| == |s|
    ensures forall i :: 0 <= i < |s| ==> ReplaceChar(s, c, [d])[i] == if s[i] == c then d else s[i]
    decreases |s|
  {
    if s != [] {
      ReplaceCharPointwise(s[1..], c, d);
      var r := ReplaceChar(s, c, [d]);
      assert r == [if s[0] == c then d else s[0]] + ReplaceChar(s[1..], c, [d]);
      forall i | 0 < i < |s| ensures r[i] == if s[i] == c then d else s[i] {
        assert s[i] == s[1..][i - 1];
      }
    }
  }

  // ---------------------------------------------------------------- index type

  datatype GribCollectionType = GRIB1 | GRIB2 | Partition1 | Partition2 | none

  /** The `MAGIC_START` strings the four index writers put at the start of their files. */
  datatype Magics = Magics(grib2: string, grib1: string, partition2: string, partition1: string)
  {
    /** A switch over the four constants only compiles when they are distinct. */
    predicate Distinct()
    {
      grib2 != grib1 && grib2 != partition2 && grib2 != partition1 &&
      grib1 != partition2 && grib1 != partition1 && partition2 != partition1
    }

    /** The writers' magic strings all have the length of the GRIB2 one, which is what is read back. */
    predicate SameLength()
    {
      |grib1| == |grib2| && |partition2| == |grib2| && |partition1| == |grib2|
    }

    function MagicOf(t: GribCollectionType): string
      requires t != none
    {
      match t
      case GRIB2 => grib2
      case GRIB1 => grib1
      case Partition2 => partition2
      case Partition1 => partition1
    }
  }

  datatype ReadError = IOError

  /**
   * `getType(raf)`: the first |GRIB2 magic| characters of the index name its type; a shorter file
   * cannot be read.
   */
  function GetType(file: string, m: Magics): (r: Result<GribCollectionType, ReadError>)
    requires m.Distinct()
    ensures r.Err? <==> |file| < |m.grib2|
    ensures r.Ok? ==> var magic := file[..|m.grib2|];
      (r.value == GRIB2 <==> magic == m.grib2) &&
      (r.value == GRIB1 <==> magic == m.grib1) &&
      (r.value == Partition2 <==> magic == m.partition2) &&
      (r.value == Partition1 <==> magic == m.partition1)
  {
    if |file| < |m.grib2| then Err(IOError)
    else
      var magic := file[..|m.grib2|];
      if magic == m.grib2 then Ok(GRIB2)
      else if magic == m.grib1 then Ok(GRIB1)
      else if magic == m.partition2 then Ok(Partition2)
      else if magic == m.partition1 then Ok(Partition1)
      else Ok(none)
  }

  /** An index written with a type's magic string is read back as that type, whatever follows the magic. */
  lemma GetTypeOfWrittenIndex(m: Magics, t: GribCollectionType, rest: string)
    requires m.Distinct() && m.SameLength() && t != none
    ensures GetType(m.MagicOf(t) + rest, m) == Ok(t)
  {
    var file := m.MagicOf(t) + rest;
    assert file[..|m.grib2|] == m.MagicOf(t);
  }

  // ---------------------------------------------------------------- updates

  datatype CollectionUpdateType = always | test | nocheck | testIndexOnly | never

  /** Whether the index must be (re)built, and whether the existing index file is deleted first. */
  datatype UpdateDecision = UpdateDecision(needed: bool, deleteIndex: bool)

  /**
   * `isUpdateNeeded`: `existing` is the index file (None when there is none, an error when it cannot be
   * opened). `never` never updates; otherwise an index that cannot be read or has the wrong type is
   * deleted, and only `nocheck` keeps a good index without an update.
   */
  function IsUpdateNeeded(updateType: CollectionUpdateType, existing: Option<Result<string, ReadError>>,
                          wantType: GribCollectionType, m: Magics): (r: UpdateDecision)
    requires m.Distinct()
    ensures updateType == never ==> !r.needed && !r.deleteIndex
    ensures updateType != never && existing.None? ==> r.needed && !r.deleteIndex
    ensures updateType != never && existing.Some? && existing.value.Err? ==> r.needed && r.deleteIndex
    ensures r.deleteIndex ==> r.needed
  {
    if updateType == never then UpdateDecision(false, false)
    else match existing
      case None => UpdateDecision(true, false)
      case Some(index) =>
        var bad := match index
          case Err(_) => true
          case Ok(contents) => GetType(contents, m) != Ok(wantType);
        if !bad && updateType == nocheck then UpdateDecision(false, false)
        else UpdateDecision(true, bad)
  }

  /** The index that is good for `wantType`: present, readable and of that type. */
  predicate GoodIndex(existing: Option<Result<string, ReadError>>, wantType: GribCollectionType, m: Magics)
    requires m.Distinct()
  {
    existing.Some? && existing.value.Ok? && GetType(existing.value.value, m) == Ok(wantType)
  }

  /**
   * The decision table: no update exactly for `never` or for a good index under `nocheck`; the index is
   * deleted exactly when an update is allowed and the index exists but is not good; a deleted index
   * is always rebuilt, and a good index is never deleted.
   */
  lemma UpdateDecisionTable(updateType: CollectionUpdateType, existing: Option<Result<string, ReadError>>,
                            wantType: GribCollectionType, m: Magics)
    requires m.Distinct()
    ensures var r := IsUpdateNeeded(updateType, existing, wantType, m);
      (!r.needed <==> updateType == never || (updateType == nocheck && GoodIndex(existing, wantType, m))) &&
      (r.deleteIndex <==> updateType != never && existing.Some? && !GoodIndex(existing, wantType, m)) &&
      (r.deleteIndex ==> r.needed) &&
      (GoodIndex(existing, wantType, m) ==> !r.deleteIndex)
  {
  }

  /**
   * `openGribCollectionFromDataFile`: `open(u)` builds the index if update type `u` asks for it and
   * opens it. On failure it gives up under `never` and `always` and otherwise tries once more with
   * `always`. The result pairs the collection with the update types tried.
   */
  function OpenGribCollectionFromDataFile<T>(updateType: CollectionUpdateType, open: CollectionUpdateType -> Option<T>)
    : (r: (Option<T>, seq<CollectionUpdateType>))
    ensures 1 <= |r.1| <= 2 && r.1[0] == updateType && r.0 == open(r.1[|r.1| - 1])
    ensures open(updateType).Some? ==> r == (open(updateType), [updateType])
    decreases if updateType == always then 0 else 1
  {
    var result := open(updateType);
    if result.Some? then (result, [updateType])
    else if updateType == never || updateType == always then (None, [updateType])
    else
      var retry := OpenGribCollectionFromDataFile(always, open);
      (retry.0, [updateType] + retry.1)
  }

  /**
   * At most one retry, always with `always`: one attempt when the first open succeeds or the update type
   * is `never` or `always`, two otherwise, and the result is that of the last attempt.
   */
  lemma {:induction false} RetryAtMostOnce<T>(updateType: CollectionUpdateType, open: CollectionUpdateType -> Option<T>)
    ensures var r := OpenGribCollectionFromDataFile(updateType, open);
      1 <= |r.1| <= 2 && r.1[0] == updateType &&
      (|r.1| == 2 <==> open(updateType).None? && updateType != never && updateType != always) &&
      (|r.1| == 2 ==> r.1[1] == always) &&
      r.0 == open(r.1[|r.1| - 1])
  {
    var r := OpenGribCollectionFromDataFile(updateType, open);
    if open(updateType).None? && updateType != never && updateType != always {
      var retry := OpenGribCollectionFromDataFile(always, open);
      assert retry == (open(always), [always]);
    }
  }

  // ---------------------------------------------------------------- openIndex

  const MAX_INDEX_SIZE: int := 100 * 1000 * 1000

  /** The fixed header of an index: magic, version and the length of the record section (a Java long). */
  datatype IndexHeader = IndexHeader(magic: string, version: int, recordLength: int)

  /**
   * What `openIndex` reads, as parameters: the header (None on end of file), for a record length the
   * variable-length size read after skipping the records together with the bytes that follow it (None
   * on an I/O error), and the protobuf parser (None when it throws).
   */
  function OpenIndexResult<P>(header: Option<IndexHeader>, afterRecords: int -> Option<(int, seq<bv8>)>,
                              parse: seq<bv8> -> Option<P>): (r: Option<P>)
    ensures r.Some? ==> header.Some? && header.value.recordLength <= INT_MAX
    ensures r.Some? ==> var next := afterRecords(header.value.recordLength);
      next.Some? && 0 <= next.value.0 <= MAX_INDEX_SIZE && next.value.0 <= |next.value.1| &&
      r == parse(next.value.1[..next.value.0])
    ensures header.Some? && header.value.recordLength <= INT_MAX &&
            afterRecords(header.value.recordLength).Some? ==>
      var next := afterRecords(header.value.recordLength);
      (!(0 <= next.value.0 <= MAX_INDEX_SIZE) ==> r.None?) &&
      (0 <= next.value.0 <= MAX_INDEX_SIZE && next.value.0 <= |next.value.1| ==> r == parse(next.value.1[..next.value.0]))
  {
    match header
    case None => None
    case Some(h) =>
      if h.recordLength > INT_MAX then None
      else match afterRecords(h.recordLength)
        case None => None
        case Some(next) =>
          var size := next.0;
          if size < 0 || size > MAX_INDEX_SIZE then None
          else if |next.1| < size then None   // readFully hits the end of the file
          else parse(next.1[..size])
  }

  /** The index reader; `openIndex` stores the parsed index message. */
  class GribCdmIndex<P> {
    var gribCollectionIndex: Option<P>

    constructor ()
      ensures gribCollectionIndex == None
    {
      gribCollectionIndex := None;
    }

    /** `openIndex`: true and the parsed message stored when every check passes; false and nothing changed otherwise. */
    method OpenIndex(header: Option<IndexHeader>, afterRecords: int -> Option<(int, seq<bv8>)>, parse: seq<bv8> -> Option<P>)
      returns (ok: bool)
      modifies this
      ensures ok <==> OpenIndexResult(header, afterRecords, parse).Some?
      ensures ok ==> gribCollectionIndex == OpenIndexResult(header, afterRecords, parse)
      ensures !ok ==> gribCollectionIndex == old(gribCollectionIndex)
    {
      if header.None? {
        return false;
      }
      var recordLength := header.value.recordLength;
      if recordLength > INT_MAX {
        return false;
      }
      var next := afterRecords(recordLength);
      if next.None? {
        return false;
      }
      var size := next.value.0;
      if size < 0 || size > MAX_INDEX_SIZE {
        return false;
      }
      if |next.value.1| < size {
        return false;
      }
      var m := next.value.1[..size];
      var parsed := parse(m);
      if parsed.None? {
        return false;
      }
      gribCollectionIndex := parsed;
      return true;
    }
  }
}
