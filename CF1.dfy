/**
 * Parts of the CF-1.x convention handler (`CF1Convention`): the version number in a Conventions
 * attribute, the positive direction of a vertical axis, the dimensionless vertical coordinate names,
 * the CF version that enables simple geometries, and the renaming of GOES-16 grid-mapping attributes.
 */
module CF1 {
  import opened Wrappers
  import opened JavaInt
  import opened JavaStrings

  const CONV_NAME: string := "CF-1."

  // ---------------------------------------------------------------- versions

  /** `extractVersion`: the integer after "CF-1.", or -1 when the prefix is missing or the rest is not an int. */
  function ExtractVersion(hasConvName: string): (r: int)
    ensures IsInt32(r)
    ensures !(CONV_NAME <= hasConvName) ==> r == -1
    ensures r != -1 ==> CONV_NAME <= hasConvName && ParseInt(hasConvName[|CONV_NAME|..]) == Some(r)
    ensures CONV_NAME <= hasConvName && ParseInt(hasConvName[|CONV_NAME|..]).Some? ==>
      r == ParseInt(hasConvName[|CONV_NAME|..]).value
  {
    if !(CONV_NAME <= hasConvName) then -1
    else match ParseInt(hasConvName[|CONV_NAME|..])
      case Some(v) => v
      case None => -1
  }

  /** "CF-1." followed by the decimal text of a version reads back as that version. */
  lemma ExtractVersionOfDecimal(n: nat)
    requires n <= INT_MAX
    ensures ExtractVersion(CONV_NAME + Decimal(n)) == n
  {
    var s := CONV_NAME + Decimal(n);
    assert s[|CONV_NAME|..] == Decimal(n);
    ParseDecimal(n);
  }

  /** The first non-negative version among the names, -1 when there is none. */
  function FirstVersion(names: seq<string>): (r: int)
    ensures r >= -1
    ensures r == -1 <==> forall i :: 0 <= i < |names| ==> ExtractVersion(names[i]) < 0
    ensures r >= 0 ==> exists i :: 0 <= i < |names| && ExtractVersion(names[i]) == r &&
                                 forall j :: 0 <= j < i ==> ExtractVersion(names[j]) < 0
  {
    if names == [] then -1
    else if ExtractVersion(names[0]) >= 0 then ExtractVersion(names[0])
    else
      var r := FirstVersion(names[1..]);
      assert forall i :: 1 <= i < |names| ==> names[1..][i - 1] == names[i];
      if r >= 0 then
        var k :| 0 <= k < |names[1..]| && ExtractVersion(names[1..][k]) == r &&
          forall j :: 0 <= j < k ==> ExtractVersion(names[1..][j]) < 0;
        assert ExtractVersion(names[k + 1]) == r;
        r
      else r
  }

  lemma FirstVersionStep(names: seq<string>, i: nat)
    requires i < |names|
    ensures FirstVersion(names[i..]) == if ExtractVersion(names[i]) >= 0 then ExtractVersion(names[i]) else FirstVersion(names[i + 1..])
  {
    assert names[i..][0] == names[i] && names[i..][1..] == names[i + 1..];
  }

  /** The version `getVersion` finds: that of the whole string, else the first among its broken-up names. */
  function Version(hasConvName: string, names: seq<string>): (r: int)
    ensures r >= -1
    ensures ExtractVersion(hasConvName) >= 0 ==> r == ExtractVersion(hasConvName)
    ensures ExtractVersion(hasConvName) < 0 ==> r == FirstVersion(names)
  {
    var v := ExtractVersion(hasConvName);
    if v >= 0 then v else FirstVersion(names)
  }

  /**
   * `getVersion(hasConvName)`; `breakupConventionNames` (the split of a Conventions attribute into its
   * convention names) is a parameter.
   */
  method GetVersion(hasConvName: string, breakup: string -> seq<string>) returns (r: int)
    ensures r == Version(hasConvName, breakup(hasConvName))
  {
    r := ExtractVersion(hasConvName);
    if r >= 0 {
      return r;
    }
    var names := breakup(hasConvName);
    for i := 0 to |names|
      invariant FirstVersion(names) == FirstVersion(names[i..])
    {
      FirstVersionStep(names, i);
      r := ExtractVersion(names[i]);
      if r >= 0 {
        return r;
      }
    }
    assert names[|names|..] == [];
    return -1;
  }

  /** A single name "CF-1.n" is version n, whatever the broken-up names are. */
  lemma VersionOfConventionName(n: nat, names: seq<string>)
    requires n <= INT_MAX
    ensures Version(CONV_NAME + Decimal(n), names) == n
  {
    ExtractVersionOfDecimal(n);
  }

  /** Simple-geometry attributes are only looked at when the Conventions attribute says CF-1.8 or later. */
  function AcknowledgesGeometry(conventions: Option<string>, breakup: string -> seq<string>): (r: bool)
    ensures conventions.None? ==> !r
    ensures r ==> Version(conventions.value, breakup(conventions.value)) >= 8
  {
    conventions.Some? && Version(conventions.value, breakup(conventions.value)) >= 8
  }

  /** "CF-1.n" turns simple geometry on exactly from n = 8 on. */
  lemma GeometryFromCF18(n: nat, breakup: string -> seq<string>)
    requires n <= INT_MAX
    ensures AcknowledgesGeometry(Some(CONV_NAME + Decimal(n)), breakup) <==> n >= 8
  {
    VersionOfConventionName(n, breakup(CONV_NAME + Decimal(n)));
  }

  // ---------------------------------------------------------------- vertical axes

  const POSITIVE_UP: string := "up"
  const POSITIVE_DOWN: string := "down"

  /**
   * `getZisPositive`: downwards only for units compatible with "millibar"; missing or empty units and
   * everything else point up. `SimpleUnit.isCompatible` is a parameter.
   */
  function GetZisPositive(zaxisName: string, vertCoordUnits: Option<string>, isCompatible: (string, string) -> bool)
    : (r: string)
    ensures r == POSITIVE_UP || r == POSITIVE_DOWN
    ensures r == POSITIVE_DOWN <==> vertCoordUnits.Some? && vertCoordUnits.value != [] && isCompatible("millibar", vertCoordUnits.value)
  {
    match vertCoordUnits
    case None => POSITIVE_UP
    case Some(units) =>
      if units == [] then POSITIVE_UP
      else if isCompatible("millibar", units) then POSITIVE_DOWN
      else if isCompatible("m", units) then POSITIVE_UP
      else POSITIVE_UP
  }

  /** The standard names of the dimensionless vertical coordinates. */
  const VERTICAL_COORDS: seq<string> := [
    "atmosphere_ln_pressure_coordinate", "atmosphere_sigma_coordinate",
    "atmosphere_hybrid_sigma_pressure_coordinate", "atmosphere_hybrid_height_coordinate",
    "atmosphere_sleve_coordinate", "ocean_sigma_coordinate", "ocean_s_coordinate", "ocean_sigma_z_coordinate",
    "ocean_double_sigma_coordinate", "ocean_s_coordinate_g1", "ocean_s_coordinate_g2"]

  predicate IsVerticalCoordinate(sname: string)
  {
    exists i :: 0 <= i < |VERTICAL_COORDS| && EqualsIgnoreCase(sname, VERTICAL_COORDS[i])
  }

  /** The list is lower case, so a name is a vertical coordinate exactly when its lower-case form is listed. */
  lemma VerticalCoordinateByLowerCase(sname: string)
    ensures IsVerticalCoordinate(sname) <==> ToLower(sname) in VERTICAL_COORDS
  {
    forall i | 0 <= i < |VERTICAL_COORDS| ensures ToLower(VERTICAL_COORDS[i]) == VERTICAL_COORDS[i] {
      LowerCaseList(i);
    }
    if ToLower(sname) in VERTICAL_COORDS {
      var i :| 0 <= i < |VERTICAL_COORDS| && VERTICAL_COORDS[i] == ToLower(sname);
      assert EqualsIgnoreCase(sname, VERTICAL_COORDS[i]);
    }
  }

  /** Every listed name is lower case (one lemma per name, so that each is a small solver query). */
  lemma LowerCaseList(i: nat)
    requires i < |VERTICAL_COORDS|
    ensures ToLower(VERTICAL_COORDS[i]) == VERTICAL_COORDS[i]
  {
    if i == 0 {
      LowerAtmosphereLnPressure();
    } else if i == 1 {
      LowerAtmosphereSigma();
    } else if i == 2 {
      LowerAtmosphereHybridSigmaPressure();
    } else if i == 3 {
      LowerAtmosphereHybridHeight();
    } else if i == 4 {
      LowerAtmosphereSleve();
    } else if i == 5 {
      LowerOceanSigma();
    } else if i == 6 {
      LowerOceanS();
    } else if i == 7 {
      LowerOceanSigmaZ();
    } else if i == 8 {
      LowerOceanDoubleSigma();
    } else if i == 9 {
      LowerOceanSG1();
    } else {
      LowerOceanSG2();
    }
  }

  lemma LowerAtmosphereLnPressure()
    ensures ToLower("atmosphere_ln_pressure_coordinate") == "atmosphere_ln_pressure_coordinate"
  {
    LowerOf("atmosphere_ln_pressure_coordinate");
  }

  lemma LowerAtmosphereSigma()
    ensures ToLower("atmosphere_sigma_coordinate") == "atmosphere_sigma_coordinate"
  {
    LowerOf("atmosphere_sigma_coordinate");
  }

  lemma LowerAtmosphereHybridSigmaPressure()
    ensures ToLower("atmosphere_hybrid_sigma_pressure_coordinate") == "atmosphere_hybrid_sigma_pressure_coordinate"
  {
    LowerOf("atmosphere_hybrid_sigma_pressure_coordinate");
  }

  lemma LowerAtmosphereHybridHeight()
    ensures ToLower("atmosphere_hybrid_height_coordinate") == "atmosphere_hybrid_height_coordinate"
  {
    LowerOf("atmosphere_hybrid_height_coordinate");
  }

  lemma LowerAtmosphereSleve()
    ensures ToLower("atmosphere_sleve_coordinate") == "atmosphere_sleve_coordinate"
  {
    LowerOf("atmosphere_sleve_coordinate");
  }

  lemma LowerOceanSigma()
    ensures ToLower("ocean_sigma_coordinate") == "ocean_sigma_coordinate"
  {
    LowerOf("ocean_sigma_coordinate");
  }

  lemma LowerOceanS()
    ensures ToLower("ocean_s_coordinate") == "ocean_s_coordinate"
  {
    LowerOf("ocean_s_coordinate");
  }

  lemma LowerOceanSigmaZ()
    ensures ToLower("ocean_sigma_z_coordinate") == "ocean_sigma_z_coordinate"
  {
    LowerOf("ocean_sigma_z_coordinate");
  }

  lemma LowerOceanDoubleSigma()
    ensures ToLower("ocean_double_sigma_coordinate") == "ocean_double_sigma_coordinate"
  {
    LowerOf("ocean_double_sigma_coordinate");
  }

  lemma LowerOceanSG1()
    ensures ToLower("ocean_s_coordinate_g1") == "ocean_s_coordinate_g1"
  {
    LowerOf("ocean_s_coordinate_g1");
  }

  lemma LowerOceanSG2()
    ensures ToLower("ocean_s_coordinate_g2") == "ocean_s_coordinate_g2"
  {
    LowerOf("ocean_s_coordinate_g2");
  }

  lemma LowerOf(s: string)
    requires NoUpper(s)
    ensures ToLower(s) == s
  {
    assert forall k :: 0 <= k < |s| ==> LowerChar(s[k]) == s[k];
  }

  predicate NoUpper(s: string)
  {
    forall k :: 0 <= k < |s| ==> !('A' <= s[k] <= 'Z')
  }

  /** The axis types of the common data model. */
  datatype AxisType = RunTime | Ensemble | Time | GeoX | GeoY | GeoZ | Lat | Lon | Height | Pressure | RadialAzimuth
                    | RadialDistance | RadialElevation | Spectral | TimeOffset | Dimension | SimpleGeometryX
                    | SimpleGeometryY | SimpleGeometryZ | SimpleGeometryID

  /** The loop over the vertical coordinate names. */
  method FindVerticalCoordinate(sname: string) returns (r: bool)
    ensures r <==> IsVerticalCoordinate(sname)
  {
    for i := 0 to |VERTICAL_COORDS|
      invariant forall j :: 0 <= j < i ==> !EqualsIgnoreCase(sname, VERTICAL_COORDS[j])
    {
      if EqualsIgnoreCase(sname, VERTICAL_COORDS[i]) {
        return true;
      }
    }
    return false;
  }

  /**
   * The start of `getAxisType`: a trimmed standard_name that is a vertical coordinate gives GeoZ before
   * any other test; otherwise the answer of the remaining tests (units, axis attribute), a parameter.
   */
  method GetAxisType(standardName: Option<string>, otherwise: Option<AxisType>) returns (r: Option<AxisType>)
    ensures standardName.Some? && IsVerticalCoordinate(Trim(standardName.value)) ==> r == Some(GeoZ)
    ensures !(standardName.Some? && IsVerticalCoordinate(Trim(standardName.value))) ==> r == otherwise
  {
    if standardName.Some? {
      var sname := Trim(standardName.value);
      var vertical := FindVerticalCoordinate(sname);
      if vertical {
        return Some(GeoZ);
      }
    }
    return otherwise;
  }

  // ---------------------------------------------------------------- GOES-16 grid mappings

  const SEMI_MINOR_AXIS: string := "semi_minor_axis"
  const SEMI_MAJOR_AXIS: string := "semi_major_axis"

  /**
   * The production_location and ICD_version values that mark a GOES-16/17 file needing the correction:
   * the marks occur ignoring case, wherever they are, since trimming cannot remove them.
   */
  function MightNeedCorrected(prodLoc: string, icdVer: string): (r: bool)
    ensures r <==> (Contains(ToLower(prodLoc), "wcdas") && Contains(ToLower(icdVer), "ground segment") &&
                    Contains(ToLower(icdVer), "awips"))
  {
    ContainsTrim(ToLower(prodLoc), "wcdas");
    ContainsTrim(ToLower(icdVer), "ground segment");
    ContainsTrim(ToLower(icdVer), "awips");
    var p := Trim(ToLower(prodLoc));
    var v := Trim(ToLower(icdVer));
    Contains(p, "wcdas") && Contains(v, "ground segment") && Contains(v, "awips")
  }

  lemma ToLowerIdempotent(s: string)
    ensures ToLower(ToLower(s)) == ToLower(s)
  {
  }

  /** The trigger ignores case. */
  lemma MightNeedCorrectedIgnoresCase(prodLoc: string, icdVer: string)
    ensures MightNeedCorrected(ToLower(prodLoc), ToLower(icdVer)) == MightNeedCorrected(prodLoc, icdVer)
  {
    ToLowerIdempotent(prodLoc);
    ToLowerIdempotent(icdVer);
  }

  /** An attribute: its name and its values (None where `getValues()` is null). */
  datatype Attribute<V> = Attribute(name: string, values: Option<seq<V>>)

  /** `findAttributeIgnoreCase`: the index of the first attribute whose name equals `name` ignoring case. */
  function FindIgnoreCase<V>(attrs: seq<Attribute<V>>, name: string): (r: Option<nat>)
    ensures r.None? <==> forall i :: 0 <= i < |attrs| ==> !EqualsIgnoreCase(attrs[i].name, name)
    ensures r.Some? ==> r.value < |attrs| && EqualsIgnoreCase(attrs[r.value].name, name)
    ensures r.Some? ==> forall j :: 0 <= j < r.value ==> !EqualsIgnoreCase(attrs[j].name, name)
    decreases |attrs|
  {
    if attrs == [] then None
    else if EqualsIgnoreCase(attrs[0].name, name) then Some(0)
    else match FindIgnoreCase(attrs[1..], name)
      case None => None
      case Some(k) => Some(k + 1)
  }

  /** The index of the first attribute with exactly this name. */
  function FindExact<V>(attrs: seq<Attribute<V>>, name: string): (r: Option<nat>)
    ensures r.None? <==> forall i :: 0 <= i < |attrs| ==> attrs[i].name != name
    ensures r.Some? ==> r.value < |attrs| && attrs[r.value].name == name
    ensures r.Some? ==> forall j :: 0 <= j < r.value ==> attrs[j].name != name
    decreases |attrs|
  {
    if attrs == [] then None
    else if attrs[0].name == name then Some(0)
    else match FindExact(attrs[1..], name)
      case None => None
      case Some(k) => Some(k + 1)
  }

  /** `addAttribute`: an attribute of the same name is replaced in place, otherwise the new one is appended. */
  function AddAttributeTo<V>(attrs: seq<Attribute<V>>, att: Attribute<V>): (r: seq<Attribute<V>>)
    ensures FindExact(attrs, att.name).Some? ==> r == attrs[FindExact(attrs, att.name).value := att]
    ensures FindExact(attrs, att.name).None? ==> r == attrs + [att]
  {
    match FindExact(attrs, att.name)
    case Some(i) => attrs[i := att]
    case None => attrs + [att]
  }

  /** `remove(att)`: the first attribute equal to `att` is dropped. */
  function RemoveFirst<V(==)>(attrs: seq<Attribute<V>>, att: Attribute<V>): (r: seq<Attribute<V>>)
    ensures att !in attrs ==> r == attrs
    ensures att in attrs ==> |r| == |attrs| - 1
    decreases |attrs|
  {
    if attrs == [] then []
    else if attrs[0] == att then attrs[1..]
    else [attrs[0]] + RemoveFirst(attrs[1..], att)
  }

  /** One entry of the correction: a present `incorrect` attribute with values is copied under `correct` and removed. */
  function Rename<V(==)>(attrs: seq<Attribute<V>>, incorrect: string, correct: string): (r: seq<Attribute<V>>)
    ensures FindIgnoreCase(attrs, incorrect).None? ==> r == attrs
    ensures FindIgnoreCase(attrs, incorrect).Some? && attrs[FindIgnoreCase(attrs, incorrect).value].values.None? ==> r == attrs
    ensures |attrs| - 1 <= |r| <= |attrs|
  {
    match FindIgnoreCase(attrs, incorrect)
    case None => attrs
    case Some(i) =>
      match attrs[i].values
      case None => attrs
      case Some(vals) =>
        var added := AddAttributeTo(attrs, Attribute(correct, Some(vals)));
        assert FindExact(attrs, correct).None? ==> added[i] == attrs[i];
        RemoveFirst(added, attrs[i])
  }

  /** The two corrections `correctGoes16` makes, in the order of its map. */
  const CORRECTIONS: seq<(string, string)> := [("semi_minor", SEMI_MINOR_AXIS), ("semi_major", SEMI_MAJOR_AXIS)]

  function RenameAll<V(==)>(attrs: seq<Attribute<V>>, corrections: seq<(string, string)>): (r: seq<Attribute<V>>)
    ensures corrections == [] ==> r == attrs
    ensures |attrs| - |corrections| <= |r| <= |attrs|
    decreases |corrections|
  {
    if corrections == [] then attrs
    else RenameAll(Rename(attrs, corrections[0].0, corrections[0].1), corrections[1..])
  }

  /** The grid-mapping attributes after `correctGoes16`: changed only when both global values mark the file. */
  function Goes16Corrected<V(==)>(attrs: seq<Attribute<V>>, prodLoc: Option<string>, icdVer: Option<string>)
    : (r: seq<Attribute<V>>)
    ensures !(prodLoc.Some? && icdVer.Some? && MightNeedCorrected(prodLoc.value, icdVer.value)) ==> r == attrs
  {
    if prodLoc.Some? && icdVer.Some? && MightNeedCorrected(prodLoc.value, icdVer.value) then RenameAll(attrs, CORRECTIONS)
    else attrs
  }

  /** Dropping index `i` from a sequence. */
  function Without<T>(s: seq<T>, i: nat): (r: seq<T>)
    requires i < |s|
    ensures |r| == |s| - 1
    ensures forall j :: 0 <= j < i ==> r[j] == s[j]
    ensures forall j :: i <= j < |r| ==> r[j] == s[j + 1]
  {
    s[..i] + s[i + 1..]
  }

  lemma {:induction false} RemoveFirstAt<V>(attrs: seq<Attribute<V>>, i: nat)
    requires i < |attrs| && forall j :: 0 <= j < i ==> attrs[j] != attrs[i]
    ensures RemoveFirst(attrs, attrs[i]) == Without(attrs, i)
    decreases i
  {
    if i > 0 {
      assert forall j :: 0 <= j < i - 1 ==> attrs[1..][j] == attrs[j + 1];
      RemoveFirstAt(attrs[1..], i - 1);
      assert attrs[1..][i - 1] == attrs[i];
      assert RemoveFirst(attrs, attrs[i]) == [attrs[0]] + Without(attrs[1..], i - 1);
    }
  }

  /**
   * A rename whose attribute is present with values: the copy under the new name is in place of an
   * attribute of that name or at the end, and exactly the found attribute is removed, so every other
   * attribute keeps its place in the order.
   */
  lemma RenameEffect<V>(attrs: seq<Attribute<V>>, incorrect: string, correct: string)
    requires !EqualsIgnoreCase(incorrect, correct)
    requires FindIgnoreCase(attrs, incorrect).Some? && attrs[FindIgnoreCase(attrs, incorrect).value].values.Some?
    ensures var i := FindIgnoreCase(attrs, incorrect).value;
      var added := AddAttributeTo(attrs, Attribute(correct, attrs[i].values));
      i < |added| && added[i] == attrs[i] && Rename(attrs, incorrect, correct) == Without(added, i)
    ensures Attribute(correct, attrs[FindIgnoreCase(attrs, incorrect).value].values) in Rename(attrs, incorrect, correct)
    ensures forall a :: a in Rename(attrs, incorrect, correct) ==>
      a in attrs || a == Attribute(correct, attrs[FindIgnoreCase(attrs, incorrect).value].values)
  {
    var i := FindIgnoreCase(attrs, incorrect).value;
    var att := Attribute(correct, attrs[i].values);
    AddedAttribute(attrs, att, i, incorrect);
    var added := AddAttributeTo(attrs, att);
    RemoveFirstAt(added, i);
    WithoutMembers(added, i, att, attrs);
  }

  /**
   * Adding an attribute whose name differs, ignoring case, from `incorrect` keeps the first attribute
   * matching `incorrect` at its place and brings in nothing but the new one.
   */
  lemma AddedAttribute<V>(attrs: seq<Attribute<V>>, att: Attribute<V>, i: nat, incorrect: string)
    requires i < |attrs| && EqualsIgnoreCase(attrs[i].name, incorrect) && !EqualsIgnoreCase(att.name, incorrect)
    requires forall j :: 0 <= j < i ==> !EqualsIgnoreCase(attrs[j].name, incorrect)
    ensures var added := AddAttributeTo(attrs, att);
      i < |added| && added[i] == attrs[i] && att in added &&
      (forall j :: 0 <= j < i ==> added[j] != added[i]) &&
      (forall j :: 0 <= j < |added| ==> added[j] in attrs || added[j] == att)
  {
    assert attrs[i].name != att.name;
    var added := AddAttributeTo(attrs, att);
    if FindExact(attrs, att.name).Some? {
      var k := FindExact(attrs, att.name).value;
      assert added[k] == att;
    } else {
      assert added[|attrs|] == att;
    }
  }

  lemma WithoutMembers<V>(added: seq<Attribute<V>>, i: nat, att: Attribute<V>, attrs: seq<Attribute<V>>)
    requires i < |added| && att in added && added[i] != att
    requires forall j :: 0 <= j < |added| ==> added[j] in attrs || added[j] == att
    ensures att in Without(added, i)
    ensures forall a :: a in Without(added, i) ==> a in attrs || a == att
  {
    var r := Without(added, i);
    var at :| 0 <= at < |added| && added[at] == att;
    if at < i { assert r[at] == att; } else { assert r[at - 1] == att; }
    forall a | a in r ensures a in attrs || a == att {
      var j :| 0 <= j < |r| && r[j] == a;
      if j < i { assert a == added[j]; } else { assert a == added[j + 1]; }
    }
  }

  /** A variable's attribute list, as `correctGoes16` changes it. */
  class AttributeList<V(==)> {
    var attributes: seq<Attribute<V>>

    constructor (attributes: seq<Attribute<V>>)
      ensures this.attributes == attributes
    {
      this.attributes := attributes;
    }

    function FindAttributeIgnoreCase(name: string): (r: Option<Attribute<V>>)
      reads this
      ensures r.None? <==> forall i :: 0 <= i < |attributes| ==> !EqualsIgnoreCase(attributes[i].name, name)
      ensures r.Some? ==> r.value in attributes && EqualsIgnoreCase(r.value.name, name)
    {
      match FindIgnoreCase(attributes, name)
      case None => None
      case Some(i) => Some(attributes[i])
    }

    method AddAttribute(att: Attribute<V>)
      modifies this
      ensures attributes == AddAttributeTo(old(attributes), att)
    {
      attributes := AddAttributeTo(attributes, att);
    }

    method Remove(att: Attribute<V>)
      modifies this
      ensures attributes == RemoveFirst(old(attributes), att)
    {
      attributes := RemoveFirst(attributes, att);
    }

    /** One entry of the correction map. */
    method RenameAttribute(incorrect: string, correct: string)
      modifies this
      ensures attributes == Rename(old(attributes), incorrect, correct)
    {
      var attr := FindAttributeIgnoreCase(incorrect);
      if attr.Some? && attr.value.values.Some? {
        AddAttribute(Attribute(correct, attr.value.values));
        Remove(attr.value);
      }
    }

    /** The loop over the correction map. */
    method RenameAllAttributes(corrections: seq<(string, string)>)
      modifies this
      ensures attributes == RenameAll(old(attributes), corrections)
    {
      for k := 0 to |corrections|
        invariant RenameAll(old(attributes), corrections) == RenameAll(attributes, corrections[k..])
      {
        RenameAttribute(corrections[k].0, corrections[k].1);
        assert corrections[k..][1..] == corrections[k + 1..];
      }
      assert corrections[|corrections|..] == [];
    }

    /** `correctGoes16(productionLocation, icdVersion, gridMappingVar)` on this variable's attributes. */
    method CorrectGoes16(prodLoc: Option<string>, icdVer: Option<string>)
      modifies this
      ensures attributes == Goes16Corrected(old(attributes), prodLoc, icdVer)
    {
      if prodLoc.Some? && icdVer.Some? {
        var p := Trim(ToLower(prodLoc.value));
        var v := Trim(ToLower(icdVer.value));
        var mightNeedCorrected := Contains(p, "wcdas");
        mightNeedCorrected := mightNeedCorrected && Contains(v, "ground segment");
        mightNeedCorrected := mightNeedCorrected && Contains(v, "awips");
        assert mightNeedCorrected == MightNeedCorrected(prodLoc.value, icdVer.value);
        if mightNeedCorrected {
          RenameAllAttributes(CORRECTIONS);
        }
      }
    }
  }

  /**
   * The first correction, on attributes holding "semi_minor" (any case) with values, leaves a
   * "semi_minor_axis" attribute with those values, and every attribute it leaves was there before or
   * is that copy.
   */
  lemma Goes16RenamesSemiMinor<V>(attrs: seq<Attribute<V>>)
    requires FindIgnoreCase(attrs, "semi_minor").Some? && attrs[FindIgnoreCase(attrs, "semi_minor").value].values.Some?
    ensures var vals := attrs[FindIgnoreCase(attrs, "semi_minor").value].values;
      var r := Rename(attrs, "semi_minor", SEMI_MINOR_AXIS);
      Attribute(SEMI_MINOR_AXIS, vals) in r &&
      forall a :: a in r ==> a in attrs || a == Attribute(SEMI_MINOR_AXIS, vals)
  {
    assert ToLower("semi_minor") != ToLower(SEMI_MINOR_AXIS) by {
      assert |ToLower("semi_minor")| != |ToLower(SEMI_MINOR_AXIS)|;
    }
    RenameEffect(attrs, "semi_minor", SEMI_MINOR_AXIS);
  }

  /** Adding an attribute keeps every attribute of another name. */
  lemma AddKeeps<V>(attrs: seq<Attribute<V>>, att: Attribute<V>, x: Attribute<V>)
    requires x in attrs && x.name != att.name
    ensures x in AddAttributeTo(attrs, att)
  {
    var j :| 0 <= j < |attrs| && attrs[j] == x;
    var added := AddAttributeTo(attrs, att);
    assert added[j] == x;
  }

  /** A rename keeps every attribute that neither matches the old name nor has the new one. */
  lemma RenameKeeps<V>(attrs: seq<Attribute<V>>, incorrect: string, correct: string, x: Attribute<V>)
    requires !EqualsIgnoreCase(incorrect, correct)
    requires FindIgnoreCase(attrs, incorrect).Some? && attrs[FindIgnoreCase(attrs, incorrect).value].values.Some?
    requires x in attrs && x.name != correct && !EqualsIgnoreCase(x.name, incorrect)
    ensures x in Rename(attrs, incorrect, correct)
  {
    var i := FindIgnoreCase(attrs, incorrect).value;
    RenameEffect(attrs, incorrect, correct);
    var added := AddAttributeTo(attrs, Attribute(correct, attrs[i].values));
    AddKeeps(attrs, Attribute(correct, attrs[i].values), x);
    var j :| 0 <= j < |added| && added[j] == x;
    assert j != i;
    if j < i { assert Without(added, i)[j] == x; } else { assert Without(added, i)[j - 1] == x; }
  }

  /** Adding an attribute whose name does not match `name` leaves the first match for `name` where it was. */
  lemma AddFinds<V>(attrs: seq<Attribute<V>>, att: Attribute<V>, name: string)
    requires !EqualsIgnoreCase(att.name, name)
    ensures FindIgnoreCase(AddAttributeTo(attrs, att), name) == FindIgnoreCase(attrs, name)
  {
    var added := AddAttributeTo(attrs, att);
    assert forall j :: 0 <= j < |attrs| ==> (EqualsIgnoreCase(added[j].name, name) <==> EqualsIgnoreCase(attrs[j].name, name));
  }

  /** An index whose attribute matches, with none matching before it, is what `FindIgnoreCase` finds. */
  lemma {:induction false} FirstMatch<V>(s: seq<Attribute<V>>, k: nat, name: string)
    requires k < |s| && EqualsIgnoreCase(s[k].name, name)
    requires forall j :: 0 <= j < k ==> !EqualsIgnoreCase(s[j].name, name)
    ensures FindIgnoreCase(s, name) == Some(k)
    decreases k
  {
    if k > 0 {
      assert !EqualsIgnoreCase(s[0].name, name);
      assert forall j :: 0 <= j < k - 1 ==> s[1..][j] == s[j + 1];
      FirstMatch(s[1..], k - 1, name);
    }
  }

  /** Dropping an attribute that does not match `name` keeps the first match for `name`. */
  lemma WithoutFinds<V>(s: seq<Attribute<V>>, i: nat, name: string)
    requires i < |s| && !EqualsIgnoreCase(s[i].name, name) && FindIgnoreCase(s, name).Some?
    ensures FindIgnoreCase(Without(s, i), name).Some?
    ensures Without(s, i)[FindIgnoreCase(Without(s, i), name).value] == s[FindIgnoreCase(s, name).value]
  {
    var m := FindIgnoreCase(s, name).value;
    var r := Without(s, i);
    var k := if m < i then m else m - 1;
    assert r[k] == s[m];
    forall j | 0 <= j < k
      ensures !EqualsIgnoreCase(r[j].name, name)
    {
      if j < i { assert r[j] == s[j]; } else { assert r[j] == s[j + 1]; }
    }
    FirstMatch(r, k, name);
  }

  /**
   * A rename finds, ignoring case, the same first attribute for any name that neither the old nor the
   * new name matches.
   */
  lemma RenameFinds<V>(attrs: seq<Attribute<V>>, incorrect: string, correct: string, name: string)
    requires !EqualsIgnoreCase(incorrect, correct) && !EqualsIgnoreCase(incorrect, name) && !EqualsIgnoreCase(correct, name)
    requires FindIgnoreCase(attrs, incorrect).Some? && attrs[FindIgnoreCase(attrs, incorrect).value].values.Some?
    requires FindIgnoreCase(attrs, name).Some?
    ensures FindIgnoreCase(Rename(attrs, incorrect, correct), name).Some?
    ensures Rename(attrs, incorrect, correct)[FindIgnoreCase(Rename(attrs, incorrect, correct), name).value] ==
      attrs[FindIgnoreCase(attrs, name).value]
  {
    var i := FindIgnoreCase(attrs, incorrect).value;
    RenameEffect(attrs, incorrect, correct);
    var added := AddAttributeTo(attrs, Attribute(correct, attrs[i].values));
    AddFinds(attrs, Attribute(correct, attrs[i].values), name);
    WithoutFinds(added, i, name);
  }

  /** The names of the correction differ from each other ignoring case. */
  lemma Goes16NamesDistinct()
    ensures !EqualsIgnoreCase("semi_minor", SEMI_MINOR_AXIS) && !EqualsIgnoreCase("semi_major", SEMI_MAJOR_AXIS)
    ensures !EqualsIgnoreCase("semi_minor", "semi_major") && !EqualsIgnoreCase(SEMI_MINOR_AXIS, "semi_major")
    ensures SEMI_MINOR_AXIS != SEMI_MAJOR_AXIS
  {
    assert |ToLower("semi_minor")| != |ToLower(SEMI_MINOR_AXIS)|;
    assert |ToLower("semi_major")| != |ToLower(SEMI_MAJOR_AXIS)|;
    assert |ToLower(SEMI_MINOR_AXIS)| != |ToLower("semi_major")|;
    assert ToLower("semi_minor")[7] != ToLower("semi_major")[7];
    assert SEMI_MINOR_AXIS[7] != SEMI_MAJOR_AXIS[7];
  }

  /** The correction map applied: the "semi_minor" rename, then the "semi_major" rename. */
  lemma CorrectionsInOrder<V>(attrs: seq<Attribute<V>>)
    ensures RenameAll(attrs, CORRECTIONS) == Rename(Rename(attrs, "semi_minor", SEMI_MINOR_AXIS), "semi_major", SEMI_MAJOR_AXIS)
  {
    var r1 := Rename(attrs, CORRECTIONS[0].0, CORRECTIONS[0].1);
    assert RenameAll(attrs, CORRECTIONS) == RenameAll(r1, CORRECTIONS[1..]);
    assert RenameAll(r1, CORRECTIONS[1..]) == RenameAll(Rename(r1, CORRECTIONS[1].0, CORRECTIONS[1].1), CORRECTIONS[2..]);
    assert CORRECTIONS[2..] == [];
  }

  /** A marked file gets the correction map applied. */
  lemma Goes16CorrectsMarked<V>(attrs: seq<Attribute<V>>, prodLoc: string, icdVer: string)
    requires MightNeedCorrected(prodLoc, icdVer)
    ensures Goes16Corrected(attrs, Some(prodLoc), Some(icdVer)) == RenameAll(attrs, CORRECTIONS)
  {
  }

  /** Both renames on attributes holding "semi_minor" and "semi_major" (any case) with values. */
  lemma RenamesBoth<V>(attrs: seq<Attribute<V>>, minorAt: nat, majorAt: nat)
    requires FindIgnoreCase(attrs, "semi_minor") == Some(minorAt) && attrs[minorAt].values.Some?
    requires FindIgnoreCase(attrs, "semi_major") == Some(majorAt) && attrs[majorAt].values.Some?
    ensures var r := RenameAll(attrs, CORRECTIONS);
      Attribute(SEMI_MINOR_AXIS, attrs[minorAt].values) in r && Attribute(SEMI_MAJOR_AXIS, attrs[majorAt].values) in r &&
      forall a :: a in r ==> a in attrs || a == Attribute(SEMI_MINOR_AXIS, attrs[minorAt].values) || a == Attribute(SEMI_MAJOR_AXIS, attrs[majorAt].values)
    ensures forall x :: x in attrs && Unrelated(x) ==> x in RenameAll(attrs, CORRECTIONS)
  {
    var minor := Attribute(SEMI_MINOR_AXIS, attrs[minorAt].values);
    Goes16NamesDistinct();
    var r1 := Rename(attrs, "semi_minor", SEMI_MINOR_AXIS);
    RenameEffect(attrs, "semi_minor", SEMI_MINOR_AXIS);
    RenameFinds(attrs, "semi_minor", SEMI_MINOR_AXIS, "semi_major");
    RenameEffect(r1, "semi_major", SEMI_MAJOR_AXIS);
    RenameKeeps(r1, "semi_major", SEMI_MAJOR_AXIS, minor);
    forall x | x in attrs && Unrelated(x)
      ensures x in Rename(r1, "semi_major", SEMI_MAJOR_AXIS)
    {
      RenameKeeps(attrs, "semi_minor", SEMI_MINOR_AXIS, x);
      RenameKeeps(r1, "semi_major", SEMI_MAJOR_AXIS, x);
    }
    CorrectionsInOrder(attrs);
  }

  /** An attribute that neither correction matches nor names: both renames must leave it alone. */
  predicate Unrelated<V>(x: Attribute<V>)
  {
    x.name != SEMI_MINOR_AXIS && x.name != SEMI_MAJOR_AXIS &&
    !EqualsIgnoreCase(x.name, "semi_minor") && !EqualsIgnoreCase(x.name, "semi_major")
  }

  /**
   * The correction of a marked file whose attributes hold "semi_minor" and "semi_major" (any case) with
   * values: the result holds "semi_minor_axis" and "semi_major_axis" with those values, every other
   * attribute it holds was there before, and every attribute unrelated to the two renames survives.
   */
  lemma Goes16RenamesBoth<V>(attrs: seq<Attribute<V>>, prodLoc: string, icdVer: string, minorAt: nat, majorAt: nat)
    requires MightNeedCorrected(prodLoc, icdVer)
    requires FindIgnoreCase(attrs, "semi_minor") == Some(minorAt) && attrs[minorAt].values.Some?
    requires FindIgnoreCase(attrs, "semi_major") == Some(majorAt) && attrs[majorAt].values.Some?
    ensures var r := Goes16Corrected(attrs, Some(prodLoc), Some(icdVer));
      Attribute(SEMI_MINOR_AXIS, attrs[minorAt].values) in r && Attribute(SEMI_MAJOR_AXIS, attrs[majorAt].values) in r &&
      forall a :: a in r ==> a in attrs || a == Attribute(SEMI_MINOR_AXIS, attrs[minorAt].values) || a == Attribute(SEMI_MAJOR_AXIS, attrs[majorAt].values)
    ensures forall x :: x in attrs && Unrelated(x) ==> x in Goes16Corrected(attrs, Some(prodLoc), Some(icdVer))
  {
    Goes16CorrectsMarked(attrs, prodLoc, icdVer);
    RenamesBoth(attrs, minorAt, majorAt);
  }
}
