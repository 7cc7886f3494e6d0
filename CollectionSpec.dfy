/**
 * The collection specification parser of the THREDDS inventory (`CollectionSpecParser`): a spec made
 * of a root directory, optionally the `**` glob marker between two slashes, and a file-name filter such
 * as `name_#yyyyMMdd#\.grib1$` is split into the root directory, whether subdirectories are searched,
 * the date-format mark and the source text of the file-name regular expression.
 */
module CollectionSpec {
  import opened Wrappers
  import opened JavaStrings

  datatype SpecError = StringIndexOutOfBounds

  /** The parsed spec. `filter` is the source text of the regular expression, `None` when there is no filter. */
  datatype CollectionSpecParser = CollectionSpecParser(
    spec: string, rootDir: string, subdirs: bool, filterOnName: bool, filter: Option<string>, dateFormatMark: Option<string>)

  const GLOB: string := "/**/"

  /**
   * The `StringBuilder` pass of the two-mark case: the characters at positions `from .. to - 1` become
   * '.'; a position past the end raises StringIndexOutOfBoundsException.
   */
  function DotsBetween(text: string, from: nat, to: int): (r: Result<string, SpecError>)
    requires from <= |text|
    ensures r.Err? <==> from < to && to > |text|
    ensures r.Ok? ==> |r.value| == |text| && forall i :: 0 <= i < |text| ==>
      r.value[i] == if from <= i < to then '.' else text[i]
  {
    if from < to && to > |text| then Err(StringIndexOutOfBounds)
    else Ok(seq(|text|, i requires 0 <= i < |text| => if from <= i < to then '.' else text[i]))
  }

  /** The loop `for (i = posFormat; i < posFormat2 - 1; i++) sb.setCharAt(i, '.')`. */
  method ReplaceWithDots(text: string, posFormat: nat, posFormat2: int) returns (r: Result<string, SpecError>)
    requires posFormat <= |text|
    ensures r == DotsBetween(text, posFormat, posFormat2 - 1)
  {
    var sb := new char[|text|](i requires 0 <= i < |text| => text[i]);
    var i := posFormat;
    while i < posFormat2 - 1
      invariant posFormat <= i && (i <= posFormat2 - 1 || i == posFormat)
      invariant i <= |text|
      invariant forall k :: 0 <= k < |text| ==> sb[k] == if posFormat <= k < i then '.' else text[k]
      decreases posFormat2 - 1 - i
    {
      if i >= sb.Length {
        return Err(StringIndexOutOfBounds);
      }
      sb[i] := '.';
      i := i + 1;
    }
    assert sb[..] == DotsBetween(text, posFormat, posFormat2 - 1).value;
    return Ok(sb[..]);
  }

  /** The optional filter text and what follows from it: the regular expression and the date-format mark. */
  function ParseFilter(filter: string): (r: Result<(string, Option<string>), SpecError>)
    ensures r.Ok? ==> (r.value.1.None? <==> '#' !in filter)
    ensures r.Ok? && r.value.1.Some? ==> r.value.1.value <= filter
    ensures r.Err? ==> r.error == StringIndexOutOfBounds && 0 <= IndexOfChar(filter, '#') < LastIndexOfChar(filter, '#')
  {
    var posFormat := IndexOfChar(filter, '#');
    if posFormat >= 0 then
      var posFormat2 := LastIndexOfChar(filter, '#');
      if posFormat != posFormat2 then TwoMarks(filter, posFormat, posFormat2)
      else
        Ok((filter[..posFormat] + "*", Some(filter)))
    else
      Ok((filter, None))
  }

  /** Lines 99-106: the mark up to the second '#', the '#'s removed and the characters between them dotted out. */
  function TwoMarks(filter: string, posFormat: nat, posFormat2: nat): (r: Result<(string, Option<string>), SpecError>)
    requires posFormat < posFormat2 < |filter| && filter[posFormat] == '#' && '#' !in filter[..posFormat]
    ensures r.Ok? ==> r.value.1 == Some(filter[..posFormat2])
    ensures r.Err? ==> r.error == StringIndexOutOfBounds
  {
    var removed := RemoveChar(filter, '#');
    RemoveCharBefore(filter, '#', posFormat);
    match DotsBetween(removed, posFormat, posFormat2 - 1)
    case Err(e) => Err(e)
    case Ok(regExp) => Ok((regExp, Some(filter[..posFormat2])))
  }

  /** Where the filter text starts: just after the `GLOB` marker when there is one past the first character, else just after the last '/'. */
  function FilterStart(collectionSpec: string): (k: int)
    ensures 0 <= k <= |collectionSpec|
  {
    var posGlob := IndexOf(collectionSpec, GLOB);
    if posGlob > 0 then posGlob + 4 else LastIndexOfChar(collectionSpec, '/') + 1
  }

  /** The parsed `p` carries what the filter text `t` gives: no filter and no mark when `t` has fewer than two characters. */
  predicate FilterFrom(t: string, p: CollectionSpecParser)
  {
    (p.filter.Some? <==> |t| >= 2) &&
    (p.filter.Some? ==> ParseFilter(t) == Ok((p.filter.value, p.dateFormatMark))) &&
    (p.filter.None? ==> p.dateFormatMark.None?)
  }

  /**
   * `new CollectionSpecParser(collectionSpec, errlog)`: the `GLOB` marker after the first character splits off
   * the root directory and turns on subdirectories; otherwise the root is everything before the last
   * '/' (the working directory when there is none after the first character). The rest, when longer
   * than two characters past the split, is the filter.
   */
  function Parse(collectionSpec: string, workingDir: string): (r: Result<CollectionSpecParser, SpecError>)
    ensures var t := collectionSpec[FilterStart(collectionSpec)..];
      (r.Err? <==> |t| >= 2 && ParseFilter(t).Err?) && (r.Ok? ==> FilterFrom(t, r.value))
    ensures r.Ok? ==> r.value.filterOnName && r.value.spec == Trim(collectionSpec)
    ensures r.Ok? ==> (r.value.subdirs <==> IndexOf(collectionSpec, GLOB) > 0)
    ensures r.Ok? && r.value.subdirs ==>
      0 < |r.value.rootDir| && FilterStart(collectionSpec) == |r.value.rootDir| + 4 &&
      OccursAt(collectionSpec, GLOB, |r.value.rootDir|) && r.value.rootDir <= collectionSpec &&
      forall j :: 0 <= j < |r.value.rootDir| ==> !OccursAt(collectionSpec, GLOB, j)
    ensures r.Ok? && !r.value.subdirs ==>
      var p := FilterStart(collectionSpec) - 1;
      (p > 0 ==> r.value.rootDir == collectionSpec[..p]) && (p <= 0 ==> r.value.rootDir == workingDir) &&
      (p >= 0 ==> collectionSpec[p] == '/') && forall i :: p < i < |collectionSpec| ==> collectionSpec[i] != '/'
  {
    var posGlob := IndexOf(collectionSpec, GLOB);
    var subdirs := posGlob > 0;
    var posFilter := if posGlob > 0 then posGlob + 3 else LastIndexOfChar(collectionSpec, '/');
    var rootDir := if posGlob > 0 then collectionSpec[..posGlob]
                   else if posFilter > 0 then collectionSpec[..posFilter]
                   else workingDir;
    if posGlob > 0 then IndexOfFirst(collectionSpec, GLOB); ParseRest(collectionSpec, rootDir, subdirs, posFilter)
    else ParseRest(collectionSpec, rootDir, subdirs, posFilter)
  }

  /** Lines 87-123: the optional filter after `posFilter`, its date-format mark, and the fixed `filterOnName`. */
  function ParseRest(collectionSpec: string, rootDir: string, subdirs: bool, posFilter: int): (r: Result<CollectionSpecParser, SpecError>)
    requires -1 <= posFilter < |collectionSpec|
    ensures var t := collectionSpec[posFilter + 1..];
      (r.Err? <==> |t| >= 2 && ParseFilter(t).Err?) && (r.Ok? ==> FilterFrom(t, r.value))
    ensures r.Ok? ==> (r.value.spec == Trim(collectionSpec) && r.value.rootDir == rootDir &&
      r.value.subdirs == subdirs && r.value.filterOnName)
  {
    if posFilter < |collectionSpec| - 2 then
      match ParseFilter(collectionSpec[posFilter + 1..])
      case Err(e) => Err(e)
      case Ok(parsed) =>
        Ok(CollectionSpecParser(Trim(collectionSpec), rootDir, subdirs, true, Some(parsed.0), parsed.1))
    else
      Ok(CollectionSpecParser(Trim(collectionSpec), rootDir, subdirs, true, None, None))
  }

  /**
   * `new CollectionSpecParser(rootDir, regExp, errlog)`: trailing '/' removed from the root, subdirectories
   * on, the spec is root + "/" + regExp and it is also the filter, matched against the whole path.
   */
  function FromRootAndRegExp(rootDir: string, regExp: string): (r: CollectionSpecParser)
    ensures r.rootDir <= rootDir && (r.rootDir == [] || r.rootDir[|r.rootDir| - 1] != '/')
    ensures forall i :: |r.rootDir| <= i < |rootDir| ==> rootDir[i] == '/'
    ensures r.spec == r.rootDir + "/" + regExp && r.filter == Some(r.spec)
    ensures r.subdirs && !r.filterOnName && r.dateFormatMark.None?
  {
    var root := RemoveFromEnd(rootDir, '/');
    var spec := root + "/" + regExp;
    CollectionSpecParser(spec, root, true, false, Some(spec), None)
  }

  // ---------------------------------------------------------------- properties

  /** Glob-free text: a root directory without '*' cannot hold the `GLOB` marker, nor can it run into the one after it. */
  lemma GlobAfterRoot(root: string, rest: string)
    requires '*' !in root && OccursAt(rest, GLOB, 0)
    ensures IndexOf(root + rest, GLOB) == |root|
  {
    var s := root + rest;
    assert s[|root|..|root| + 4] == rest[..4] && rest[0] == rest[..4][0];
    forall j | 0 <= j < |root|
      ensures !OccursAt(s, GLOB, j)
    {
      assert s[j + 1] == if j + 1 < |root| then root[j + 1] else rest[0];
      assert j + 4 <= |s| ==> s[j..j + 4][1] == s[j + 1];
    }
    IndexOfAt(s, GLOB, |root|);
  }

  /** Without '*' before the last '/', a spec holds no `GLOB` marker. */
  lemma NoGlobBeforeSlash(dir: string, name: string)
    requires '*' !in dir && '/' !in name
    ensures IndexOf(dir + "/" + name, GLOB) == -1
  {
    var s := dir + "/" + name;
    forall j | 0 <= j <= |s|
      ensures !OccursAt(s, GLOB, j)
    {
      if j + 4 <= |s| {
        assert s[j..j + 4][1] == s[j + 1] && s[j..j + 4][3] == s[j + 3];
        assert j + 3 > |dir| ==> s[j + 3] == name[j + 3 - |dir| - 1];
        assert j + 3 <= |dir| ==> s[j + 1] == dir[j + 1];
      }
    }
    IndexOfAbsent(s, GLOB);
  }

  /** `root`, the `GLOB` marker, then `name`: the root is split off, subdirectories are on, and `name` is the filter text. */
  lemma GlobSplit(root: string, name: string, workingDir: string)
    requires 0 < |root| && '*' !in root
    ensures var r := Parse(root + GLOB + name, workingDir);
      (r.Err? <==> |name| >= 2 && ParseFilter(name).Err?) &&
      (r.Ok? ==> r.value.rootDir == root && r.value.subdirs && FilterFrom(name, r.value))
  {
    var s := root + GLOB + name;
    assert s == root + (GLOB + name);
    assert (GLOB + name)[..4] == GLOB;
    GlobAfterRoot(root, GLOB + name);
    assert s[..|root|] == root && s[|root| + 4..] == name;
  }

  /** `dir/name` without the glob: the root is `dir`, no subdirectories, and `name` is the filter text. */
  lemma NoGlobSplit(dir: string, name: string, workingDir: string)
    requires 0 < |dir| && '*' !in dir && '/' !in name
    ensures var r := Parse(dir + "/" + name, workingDir);
      (r.Err? <==> |name| >= 2 && ParseFilter(name).Err?) &&
      (r.Ok? ==> r.value.rootDir == dir && !r.value.subdirs && FilterFrom(name, r.value))
  {
    var s := dir + "/" + name;
    NoGlobBeforeSlash(dir, name);
    assert s[|dir| + 1..] == name && s[..|dir|] == dir && s[|dir|] == '/';
    LastIndexOfCharAt(s, '/', |dir|);
  }

  /** A filter without '#': no date-format mark and the regular expression is the filter verbatim. */
  lemma NoHashFilter(filter: string)
    requires '#' !in filter
    ensures ParseFilter(filter) == Ok((filter, None))
  {
  }

  /** A filter with one '#': the mark is the whole filter, the expression the text before '#' followed by "*". */
  lemma OneHashFilter(filter: string, p: nat)
    requires p < |filter| && filter[p] == '#' && '#' !in filter[..p] && '#' !in filter[p + 1..]
    ensures ParseFilter(filter) == Ok((filter[..p] + "*", Some(filter)))
  {
    IndexOfCharAt(filter, '#', p);
    LastIndexOfCharAt(filter, '#', p);
  }

  /** The dot loop over exactly the middle part `b` of `a + b + c`. */
  lemma DotsOverMiddle(a: string, b: string, c: string)
    ensures DotsBetween(a + b + c, |a|, |a| + |b|) == Ok(a + seq(|b|, _ => '.') + c)
  {
    var d := DotsBetween(a + b + c, |a|, |a| + |b|);
    assert d.Ok?;
    assert d.value == a + seq(|b|, _ => '.') + c;
  }

  /** Removing both marks of `a#b#c` leaves the three parts. */
  lemma RemoveTwoMarks(a: string, b: string, c: string)
    requires '#' !in a && '#' !in b && '#' !in c
    ensures RemoveChar(a + "#" + b + "#" + c, '#') == a + b + c
  {
    var m: string := "#";
    assert RemoveChar(m, '#') == [];
    RemoveCharConcat(a, m, '#');
    assert RemoveChar(a + m, '#') == a;
    RemoveCharConcat(a + m, b, '#');
    assert RemoveChar(a + m + b, '#') == a + b;
    RemoveCharConcat(a + m + b, m, '#');
    assert RemoveChar(a + m + b + m, '#') == a + b;
    RemoveCharConcat(a + m + b + m, c, '#');
  }

  /** In `a#b#c` the first '#' follows `a` and the last one follows `b`. */
  lemma TwoHashPositions(a: string, b: string, c: string)
    requires '#' !in a && '#' !in b && '#' !in c
    ensures var f := a + "#" + b + "#" + c;
      IndexOfChar(f, '#') == |a| && LastIndexOfChar(f, '#') == |a| + 1 + |b|
  {
    var f := a + "#" + b + "#" + c;
    assert f[..|a|] == a && f[|a|] == '#';
    IndexOfCharAt(f, '#', |a|);
    assert f[|a| + 1 + |b|] == '#' && f[|a| + 2 + |b|..] == c;
    LastIndexOfCharAt(f, '#', |a| + 1 + |b|);
  }

  /** The two-mark branch on `a#b#c`, its marks located. */
  lemma TwoHashBranch(a: string, b: string, c: string)
    requires '#' !in a && '#' !in b && '#' !in c
    ensures var f := a + "#" + b + "#" + c;
      f[..|a|] == a && f[|a|] == '#' &&
      TwoMarks(f, |a|, |a| + 1 + |b|) == Ok((a + seq(|b|, _ => '.') + c, Some(a + "#" + b)))
  {
    var f := a + "#" + b + "#" + c;
    assert f[..|a|] == a && f[|a|] == '#';
    assert f[..|a| + 1 + |b|] == a + "#" + b;
    RemoveTwoMarks(a, b, c);
    DotsOverMiddle(a, b, c);
  }

  /** The two-mark case for a filter written as `a#b#c`: the mark is `a#b`, the expression `a`, one '.' per character of `b`, then `c`. */
  lemma TwoHashParts(a: string, b: string, c: string)
    requires '#' !in a && '#' !in b && '#' !in c
    ensures ParseFilter(a + "#" + b + "#" + c) == Ok((a + seq(|b|, _ => '.') + c, Some(a + "#" + b)))
  {
    TwoHashPositions(a, b, c);
    TwoHashBranch(a, b, c);
  }

  /**
   * A filter with exactly two '#': the mark is the text up to the second '#', and the expression is
   * the filter without its marks, the characters between them replaced by '.'.
   */
  lemma TwoHashFilter(filter: string, p1: nat, p2: nat)
    requires p1 < p2 < |filter| && filter[p1] == '#' && filter[p2] == '#'
    requires '#' !in filter[..p1] && '#' !in filter[p1 + 1..p2] && '#' !in filter[p2 + 1..]
    ensures ParseFilter(filter) == Ok((filter[..p1] + seq(p2 - p1 - 1, _ => '.') + filter[p2 + 1..], Some(filter[..p2])))
  {
    var a, b, c := filter[..p1], filter[p1 + 1..p2], filter[p2 + 1..];
    assert filter == a + "#" + b + "#" + c;
    assert filter[..p2] == a + "#" + b;
    TwoHashParts(a, b, c);
  }

  /**
   * The documented example: the filter part of a GFS Alaska spec gives the mark up to the second '#'
   * and an expression with thirteen dots for the thirteen date-format characters.
   */
  lemma DocumentedExample()
    ensures ParseFilter("GFS_Alaska_191km_#yyyyMMdd_HHmm#\\.grib1$")
      == Ok(("GFS_Alaska_191km_" + seq(13, _ => '.') + "\\.grib1$", Some("GFS_Alaska_191km_#yyyyMMdd_HHmm")))
  {
    var a, b, c := "GFS_Alaska_191km_", "yyyyMMdd_HHmm", "\\.grib1$";
    assert "GFS_Alaska_191km_#yyyyMMdd_HHmm#\\.grib1$" == a + "#" + b + "#" + c;
    assert "GFS_Alaska_191km_#yyyyMMdd_HHmm" == a + "#" + b;
    TwoHashParts(a, b, c);
  }

  /** The documented GFS Alaska spec, under any root directory without '*': the root, subdirectories on, the mark and the expression. */
  lemma DocumentedSpec(root: string, workingDir: string)
    requires 0 < |root| && '*' !in root
    ensures var r := Parse(root + GLOB + "GFS_Alaska_191km_#yyyyMMdd_HHmm#\\.grib1$", workingDir);
      r.Ok? && r.value.rootDir == root && r.value.subdirs &&
      r.value.dateFormatMark == Some("GFS_Alaska_191km_#yyyyMMdd_HHmm") &&
      r.value.filter == Some("GFS_Alaska_191km_" + seq(13, _ => '.') + "\\.grib1$")
  {
    GlobSplit(root, "GFS_Alaska_191km_#yyyyMMdd_HHmm#\\.grib1$", workingDir);
    DocumentedExample();
  }

  /** The documented flat spec `dir/.*\\.grb`, for any directory without '*': no subdirectories, no mark, the expression verbatim. */
  lemma DocumentedFlatSpec(dir: string, workingDir: string)
    requires 0 < |dir| && '*' !in dir
    ensures var r := Parse(dir + "/" + ".*\\.grb", workingDir);
      r.Ok? && r.value.rootDir == dir && !r.value.subdirs &&
      r.value.dateFormatMark.None? && r.value.filter == Some(".*\\.grb")
  {
    var name := ".*\\.grb";
    assert '/' !in name && '#' !in name by {
      forall i | 0 <= i < |name|
        ensures name[i] != '/' && name[i] != '#'
      {
      }
    }
    NoGlobSplit(dir, name, workingDir);
    NoHashFilter(name);
  }

  /** A third '#' ending the filter makes the dot loop run past the shortened text: `a#b#c#` raises StringIndexOutOfBoundsException. */
  lemma ThreeHashOverrun(a: string, b: string, c: string)
    requires '#' !in a && '#' !in b && '#' !in c
    ensures ParseFilter(a + "#" + b + "#" + c + "#") == Err(StringIndexOutOfBounds)
  {
    var m: string := "#";
    var f := a + m + b + m + c + m;
    var p1, p2 := |a|, |f| - 1;
    assert f[..p1] == a && f[p1] == '#' && f[p2] == '#' && f[p2 + 1..] == [];
    IndexOfCharAt(f, '#', p1);
    LastIndexOfCharAt(f, '#', p2);
    RemoveTwoMarks(a, b, c);
    RemoveCharConcat(a + m + b + m + c, m, '#');
    assert RemoveChar(m, '#') == [];
    assert |RemoveChar(f, '#')| == |a| + |b| + |c|;
  }
}
