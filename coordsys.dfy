/** The small decisions of the ILWIS-3 coordinate-system connector: the
    ILWIS names of projection parameters, whether the connector can read a
    resource, how the CoordBounds key becomes an envelope, the datum lookup
    name and the ellipsoid choice. */
module CoordSys {
  import opened Wrappers
  import opened Text
  import opened Odf

  // ---- prjParam2IlwisName ----

  /** Projection::ProjectionParamValue: the seventeen parameters that have
      an ILWIS name, pvELLCODE, and every other value of the enumeration. */
  datatype ProjectionParam =
    | AzimCLine | AzimYAxis | Height | K0 | Lat0 | Lat1 | Lat2 | LatTS
    | Lon0 | NOriented | North | Pole | Tilted | Tilt | X0 | Y0 | Zone
    | EllCode | OtherParam

  /** The parameters the switch of prjParam2IlwisName lists. */
  predicate Named(p: ProjectionParam) {
    !p.EllCode? && !p.OtherParam?
  }

  /** prjParam2IlwisName: the ILWIS key of a listed parameter (a name of
      at least four characters, so never sUNDEF), sUNDEF for any other. */
  function PrjParamName(p: ProjectionParam): (name: string)
    ensures Named(p) ==> |name| >= 4
    ensures !Named(p) ==> name == SUndef
  {
    match p
    case AzimCLine => "Azim of Central Line of True Scale"
    case AzimYAxis => "Azim of Projection Y-Axis"
    case Height => "Height Persp. Center"
    case K0 => "Scale Factor"
    case Lat0 => "Central Parallel"
    case Lat1 => "Standard Parallel 1"
    case Lat2 => "Standard Parallel 2"
    case LatTS => "Latitude of True Scale"
    case Lon0 => "Central Meridian"
    case NOriented => "North Oriented XY Coord System"
    case North => "Northern Hemisphere"
    case Pole => "Pole of Oblique Cylinder"
    case Tilted => "Tilted/Rotated Projection Plane"
    case Tilt => "Tilt of Projection Plane"
    case X0 => "False Easting"
    case Y0 => "False Northing"
    case Zone => "Zone"
    case EllCode => SUndef
    case OtherParam => SUndef
  }

  /** The keys getProjection reads the projection parameters from are
      the names the table gives them, the names storeMetaData writes. */
  lemma LoadedKeysAreTableNames()
    ensures PrjParamName(X0) == "False Easting"
    ensures PrjParamName(Y0) == "False Northing"
    ensures PrjParamName(Lon0) == "Central Meridian"
    ensures PrjParamName(Lat0) == "Central Parallel"
    ensures PrjParamName(Lat1) == "Standard Parallel 1"
    ensures PrjParamName(Lat2) == "Standard Parallel 2"
    ensures PrjParamName(LatTS) == "Latitude of True Scale"
    ensures PrjParamName(K0) == "Scale Factor"
    ensures PrjParamName(Zone) == "Zone"
    ensures PrjParamName(North) == "Northern Hemisphere"
  {
  }

  // ---- canUse ----

  /** The IlwisTypes bit masks canUse compares with: itCOORDSYSTEM,
      itCONVENTIONALCOORDSYSTEM and itBOUNDSONLYCSY. */
  datatype TypeCodes = TypeCodes(coordSystem: bv64, conventional: bv64, boundsOnly: bv64)

  /** The coordinate-system type of an object definition file: its
      CoordSystem/Type, except that a missing type with a Projection value
      other than the empty string reads as "Projection". */
  function EffectiveType(entries: Entries): (t: string)
    ensures ValueOf(entries, "CoordSystem", "Type") != SUndef
            ==> t == ValueOf(entries, "CoordSystem", "Type")
    ensures ValueOf(entries, "CoordSystem", "Type") == SUndef
            ==> (t == "Projection" <==> ValueOf(entries, "CoordSystem", "Projection") != "")
  {
    var t := ValueOf(entries, "CoordSystem", "Type");
    if t == SUndef && ValueOf(entries, "CoordSystem", "Projection") != "" then "Projection"
    else t
  }

  /** A file without a type and without a projection key reads as a
      projected system too: the missing key reads as sUNDEF, which is not
      the empty string. */
  lemma MissingKeysReadAsProjection(entries: Entries)
    requires ("CoordSystem", "Type") !in entries
    requires ("CoordSystem", "Projection") !in entries
    ensures EffectiveType(entries) == "Projection"
  {
  }

  /** canUse: a required type sharing a bit with itCOORDSYSTEM is
      accepted without looking at the file; otherwise the file (None when
      it does not exist) must hold a LatLon or projected system for
      itCONVENTIONALCOORDSYSTEM, or a bounds-only one for itBOUNDSONLYCSY. */
  function CanUse(required: bv64, codes: TypeCodes, file: Option<Entries>): (r: bool)
    ensures (required & codes.coordSystem) != 0 ==> r
    ensures (required & codes.coordSystem) == 0 ==>
              (r <==> file.Some? &&
                      ((required == codes.conventional
                        && EffectiveType(file.value) in {"LatLon", "Projection"})
                       || (required == codes.boundsOnly
                           && EffectiveType(file.value) == "BoundsOnly")))
  {
    if (required & codes.coordSystem) != 0 then true
    else if file.None? then false
    else
      var t := EffectiveType(file.value);
      if t == "LatLon" && required == codes.conventional then true
      else if t == "Projection" && required == codes.conventional then true
      else if t == "BoundsOnly" && required == codes.boundsOnly then true
      else false
  }

  /** When the conventional and bounds-only masks are non-zero parts of
      the itCOORDSYSTEM mask, the file is never consulted: the answer is
      the bit test alone. */
  lemma CanUseIsBitTest(required: bv64, codes: TypeCodes, file: Option<Entries>)
    requires codes.conventional != 0 && codes.conventional & codes.coordSystem == codes.conventional
    requires codes.boundsOnly != 0 && codes.boundsOnly & codes.coordSystem == codes.boundsOnly
    ensures CanUse(required, codes, file) <==> (required & codes.coordSystem) != 0
  {
    if (required & codes.coordSystem) == 0 {
      assert required != codes.conventional;
      assert required != codes.boundsOnly;
    }
  }

  // ---- CoordBounds ----

  /** The value written when bounds are unknown (rUNDEF printed). */
  const NoBoundsMark: string := "-1e+308"

  /** What loadMetaData does with the envelope: the parsed box, the whole
      globe (-180,-90)-(180,90) for a LatLon system, an error, or nothing. */
  datatype Bounds<N> =
    | Box(minX: N, minY: N, maxX: N, maxY: N)
    | WholeGlobe
    | BoundsError
    | NoBounds

  /** The CoordBounds rule of loadMetaData; `parse` is QString::toDouble
      (None when it fails). */
  function CoordBounds<N>(entries: Entries, parse: string -> Option<N>): (b: Bounds<N>)
    ensures var parts := Split(ValueOf(entries, "CoordSystem", "CoordBounds"), ' ');
            var used := |parts| == 4 && parts[0] != NoBoundsMark;
            && (b.Box? <==> used && forall k :: 0 <= k < 4 ==> parse(parts[k]).Some?)
            && (b.Box? ==> used && parse(parts[0]) == Some(b.minX) && parse(parts[1]) == Some(b.minY)
                           && parse(parts[2]) == Some(b.maxX) && parse(parts[3]) == Some(b.maxY))
            && (b.BoundsError? <==> used && exists k :: 0 <= k < 4 && parse(parts[k]).None?)
            && (b.WholeGlobe? <==> !used && ValueOf(entries, "CoordSystem", "Type") == "LatLon")
  {
    var parts := Split(ValueOf(entries, "CoordSystem", "CoordBounds"), ' ');
    if |parts| == 4 && parts[0] != NoBoundsMark then
      var x1, y1, x2, y2 := parse(parts[0]), parse(parts[1]), parse(parts[2]), parse(parts[3]);
      if !(x1.Some? && y1.Some? && x2.Some? && y2.Some?) then BoundsError
      else Box(x1.value, y1.value, x2.value, y2.value)
    else if ValueOf(entries, "CoordSystem", "Type") == "LatLon" then WholeGlobe
    else NoBounds
  }

  /** The field width storeMetaData passes to QString::arg for each
      corner. */
  const FieldWidth: nat := 10

  /** What QString::arg(x, w, 'f') inserts for a number whose 'f' text is
      t: t right-aligned in w characters, padded on the left with
      spaces. */
  function Padded(t: string, w: nat): (r: string)
    ensures |r| == if |t| < w then w else |t|
    ensures |t| >= w ==> r == t
    ensures |t| < w ==> r[0] == ' '
    decreases w
  {
    if |t| < w then [' '] + Padded(t, w - 1) else t
  }

  /** The number of spaces Padded puts in front of t. */
  function Padding(t: string, w: nat): nat {
    if |t| < w then w - |t| else 0
  }

  /** The CoordBounds value storeMetaData writes, as written: "%1 %2 %3 %4"
      filled by four chained args with field width 10 and format 'f'.
      `fixed` gives a corner's 'f' text at the default precision of six
      decimals; a number's text holds no '%', so the four args fill the
      markers in turn. */
  function BoundsText<N>(minX: N, minY: N, maxX: N, maxY: N, fixed: N -> string): string {
    Join([Padded(fixed(minX), FieldWidth), Padded(fixed(minY), FieldWidth),
          Padded(fixed(maxX), FieldWidth), Padded(fixed(maxY), FieldWidth)], ' ')
  }

  /** The CoordBounds value storeMetaData evidently means to write: the
      four corners' texts without padding (field width 0), separated by
      single spaces. */
  function BoundsTextCorrected<N>(minX: N, minY: N, maxX: N, maxY: N, fixed: N -> string): string {
    Join([fixed(minX), fixed(minY), fixed(maxX), fixed(maxY)], ' ')
  }

  /** Every padding space in front of a field splits off an empty part. */
  lemma {:induction false} SplitPadded(t: string, w: nat, rest: string)
    requires ' ' !in t
    ensures |Split(Padded(t, w) + [' '] + rest, ' ')| == Padding(t, w) + 1 + |Split(rest, ' ')|
    decreases w
  {
    if |t| < w {
      var q := Padded(t, w) + [' '] + rest;
      SplitPadded(t, w - 1, rest);
      assert q[0] == ' ';
      assert q[1..] == Padded(t, w - 1) + [' '] + rest;
    } else {
      SplitAfter(t, rest, ' ');
    }
  }

  /** The same for the last field. */
  lemma {:induction false} SplitPaddedLast(t: string, w: nat)
    requires ' ' !in t
    ensures |Split(Padded(t, w), ' ')| == Padding(t, w) + 1
    decreases w
  {
    if |t| < w {
      var q := Padded(t, w);
      SplitPaddedLast(t, w - 1);
      assert q[1..] == Padded(t, w - 1);
    } else {
      SplitWhole(t, ' ');
    }
  }

  /** Splitting the bounds text as written gives four parts and one more
      per padding space. */
  lemma BoundsTextParts<N>(minX: N, minY: N, maxX: N, maxY: N, fixed: N -> string)
    requires ' ' !in fixed(minX) && ' ' !in fixed(minY) && ' ' !in fixed(maxX) && ' ' !in fixed(maxY)
    ensures |Split(BoundsText(minX, minY, maxX, maxY, fixed), ' ')|
            == 4 + Padding(fixed(minX), FieldWidth) + Padding(fixed(minY), FieldWidth)
                 + Padding(fixed(maxX), FieldWidth) + Padding(fixed(maxY), FieldWidth)
  {
    var a, b := Padded(fixed(minX), FieldWidth), Padded(fixed(minY), FieldWidth);
    var c, d := Padded(fixed(maxX), FieldWidth), Padded(fixed(maxY), FieldWidth);
    var fields := [a, b, c, d];
    assert fields[1..] == [b, c, d] && [b, c, d][1..] == [c, d] && [c, d][1..] == [d];
    assert Join([c, d], ' ') == c + [' '] + d;
    assert Join([b, c, d], ' ') == b + [' '] + (c + [' '] + d);
    assert Join(fields, ' ') == a + [' '] + (b + [' '] + (c + [' '] + d));
    SplitPadded(fixed(minX), FieldWidth, b + [' '] + (c + [' '] + d));
    SplitPadded(fixed(minY), FieldWidth, c + [' '] + d);
    SplitPadded(fixed(maxX), FieldWidth, d);
    SplitPaddedLast(fixed(maxY), FieldWidth);
  }

  /** As written, a box with a corner whose text is shorter than the field
      width is not read back: the padding splits into extra parts, so
      loadMetaData ignores the bounds and sets the whole globe for a
      LatLon system and nothing otherwise. */
  lemma ShortCornerDropsBounds<N>(entries: Entries, minX: N, minY: N, maxX: N, maxY: N,
                                  fixed: N -> string, parse: string -> Option<N>)
    requires ' ' !in fixed(minX) && ' ' !in fixed(minY) && ' ' !in fixed(maxX) && ' ' !in fixed(maxY)
    requires |fixed(minX)| < FieldWidth || |fixed(minY)| < FieldWidth
             || |fixed(maxX)| < FieldWidth || |fixed(maxY)| < FieldWidth
    ensures CoordBounds(entries[("CoordSystem", "CoordBounds") := BoundsText(minX, minY, maxX, maxY, fixed)], parse)
            == if ValueOf(entries, "CoordSystem", "Type") == "LatLon" then WholeGlobe else NoBounds
  {
    var text := BoundsText(minX, minY, maxX, maxY, fixed);
    BoundsTextParts(minX, minY, maxX, maxY, fixed);
    ValueOfSet(entries, "CoordSystem", "CoordBounds", text, "CoordSystem", "CoordBounds");
    ValueOfSet(entries, "CoordSystem", "CoordBounds", text, "CoordSystem", "Type");
  }

  /** A corner at 0, whose 'f' text "0.000000" has eight characters, is
      such a corner: the box (0,0)-(100,100) is stored as
      "  0.000000   0.000000 100.000000 100.000000". */
  lemma ZeroCornerDropsBounds<N>(entries: Entries, minX: N, minY: N, maxX: N, maxY: N,
                                 fixed: N -> string, parse: string -> Option<N>)
    requires fixed(minX) == "0.000000"
    requires ' ' !in fixed(minY) && ' ' !in fixed(maxX) && ' ' !in fixed(maxY)
    ensures !CoordBounds(entries[("CoordSystem", "CoordBounds") := BoundsText(minX, minY, maxX, maxY, fixed)], parse).Box?
  {
    ShortCornerDropsBounds(entries, minX, minY, maxX, maxY, fixed, parse);
  }

  /** The bounds parts are read back as the box of the parsed corners
      when they are the four corner texts and the first is not the
      no-bounds mark. */
  lemma BoundsFromParts<N>(entries: Entries, text: string, texts: seq<string>, parse: string -> Option<N>)
    requires |texts| == 4 && Split(text, ' ') == texts && texts[0] != NoBoundsMark
    requires forall k :: 0 <= k < 4 ==> parse(texts[k]).Some?
    ensures CoordBounds(entries[("CoordSystem", "CoordBounds") := text], parse)
            == Box(parse(texts[0]).value, parse(texts[1]).value, parse(texts[2]).value, parse(texts[3]).value)
  {
    ValueOfSet(entries, "CoordSystem", "CoordBounds", text, "CoordSystem", "CoordBounds");
  }

  /** As written, bounds whose corner texts fill the field width are read
      back as the box of the corner texts: the four numbers at six
      decimals. */
  lemma StoredBoundsReload<N>(entries: Entries, minX: N, minY: N, maxX: N, maxY: N,
                              fixed: N -> string, parse: string -> Option<N>)
    requires ' ' !in fixed(minX) && ' ' !in fixed(minY) && ' ' !in fixed(maxX) && ' ' !in fixed(maxY)
    requires |fixed(minX)| >= FieldWidth && |fixed(minY)| >= FieldWidth
             && |fixed(maxX)| >= FieldWidth && |fixed(maxY)| >= FieldWidth
    requires parse(fixed(minX)).Some? && parse(fixed(minY)).Some? && parse(fixed(maxX)).Some? && parse(fixed(maxY)).Some?
    requires fixed(minX) != NoBoundsMark
    ensures CoordBounds(entries[("CoordSystem", "CoordBounds") := BoundsText(minX, minY, maxX, maxY, fixed)], parse)
            == Box(parse(fixed(minX)).value, parse(fixed(minY)).value, parse(fixed(maxX)).value, parse(fixed(maxY)).value)
  {
    var texts := [fixed(minX), fixed(minY), fixed(maxX), fixed(maxY)];
    assert BoundsText(minX, minY, maxX, maxY, fixed) == Join(texts, ' ');
    SplitJoin(texts, ' ');
    BoundsFromParts(entries, Join(texts, ' '), texts, parse);
  }

  /** Corrected, bounds written without padding are read back as the box
      of the corner texts whatever their length. */
  lemma StoredBoundsReloadCorrected<N>(entries: Entries, minX: N, minY: N, maxX: N, maxY: N,
                                       fixed: N -> string, parse: string -> Option<N>)
    requires ' ' !in fixed(minX) && ' ' !in fixed(minY) && ' ' !in fixed(maxX) && ' ' !in fixed(maxY)
    requires parse(fixed(minX)).Some? && parse(fixed(minY)).Some? && parse(fixed(maxX)).Some? && parse(fixed(maxY)).Some?
    requires fixed(minX) != NoBoundsMark
    ensures CoordBounds(entries[("CoordSystem", "CoordBounds") := BoundsTextCorrected(minX, minY, maxX, maxY, fixed)], parse)
            == Box(parse(fixed(minX)).value, parse(fixed(minY)).value, parse(fixed(maxX)).value, parse(fixed(maxY)).value)
  {
    var texts := [fixed(minX), fixed(minY), fixed(maxX), fixed(maxY)];
    SplitJoin(texts, ' ');
    BoundsFromParts(entries, Join(texts, ' '), texts, parse);
  }

  // ---- getDatum and getEllipsoid ----

  /** The name getDatum looks up: None when CoordSystem/Datum is
      undefined; otherwise the datum, followed by "." and the area when
      the area is defined and not empty. */
  function DatumName(entries: Entries): (name: Option<string>)
    ensures name.None? <==> ValueOf(entries, "CoordSystem", "Datum") == SUndef
    ensures name.Some? ==>
              var datum := ValueOf(entries, "CoordSystem", "Datum");
              var area := ValueOf(entries, "CoordSystem", "Datum Area");
              && datum <= name.value
              && (|name.value| == |datum| <==> area == SUndef || area == "")
              && (|name.value| != |datum| ==> name.value[|datum|..] == "." + area)
  {
    var datum := ValueOf(entries, "CoordSystem", "Datum");
    if datum == SUndef then None
    else
      var area := ValueOf(entries, "CoordSystem", "Datum Area");
      if area != SUndef && area != "" then Some(datum + "." + area) else Some(datum)
  }

  /** A datum name without a dot splits back into datum and area at the
      first dot of the lookup name. */
  lemma DatumNameSplits(entries: Entries)
    requires DatumName(entries).Some?
    requires '.' !in ValueOf(entries, "CoordSystem", "Datum")
    requires ValueOf(entries, "CoordSystem", "Datum Area") !in {SUndef, ""}
    ensures var name := DatumName(entries).value;
            var k := IndexOf(name, ".");
            && k == |ValueOf(entries, "CoordSystem", "Datum")|
            && name[k + 1..] == ValueOf(entries, "CoordSystem", "Datum Area")
  {
    var datum := ValueOf(entries, "CoordSystem", "Datum");
    var name := DatumName(entries).value;
    assert OccursAt(name, ".", |datum|);
    forall i | 0 <= i < |datum|
      ensures !OccursAt(name, ".", i)
    {
      assert name[i] == datum[i];
    }
  }

  /** The ellipsoid getEllipsoid builds: none, a user-defined one from
      the raw Ellipsoid/a and Ellipsoid/1/f strings, or the one of a
      catalogue code. */
  datatype EllipsoidChoice = NoEllipsoid | UserDefined(majorAxis: string, inverseFlattening: string) | ByCode(code: string)

  /** getEllipsoid; `name2Code` is the connector's name-to-code lookup
      (sUNDEF when the name is unknown). */
  function Ellipsoid(entries: Entries, name2Code: string -> string): (e: EllipsoidChoice)
    ensures ValueOf(entries, "CoordSystem", "Ellipsoid") == SUndef ==> e.NoEllipsoid?
    ensures e.UserDefined? <==> ValueOf(entries, "CoordSystem", "Ellipsoid") == "User Defined"
    ensures e.UserDefined? ==> e == UserDefined(ValueOf(entries, "Ellipsoid", "a"), ValueOf(entries, "Ellipsoid", "1/f"))
    ensures e.ByCode? ==> e.code != SUndef
                          && e.code == name2Code(ValueOf(entries, "CoordSystem", "Ellipsoid"))
  {
    var name := ValueOf(entries, "CoordSystem", "Ellipsoid");
    if name == SUndef then NoEllipsoid
    else if name == "User Defined" then
      UserDefined(ValueOf(entries, "Ellipsoid", "a"), ValueOf(entries, "Ellipsoid", "1/f"))
    else
      var code := name2Code(name);
      if code == SUndef then NoEllipsoid else ByCode(code)
  }

  /** A user-defined ellipsoid as the LatLon branch of storeMetaData
      writes it (the axis and 1/flattening) reads back with the same axis
      and flattening strings. */
  lemma StoredEllipsoidReloads(entries: Entries, a: string, invf: string, name2Code: string -> string)
    ensures Ellipsoid(entries[("CoordSystem", "Ellipsoid") := "User Defined"]
                             [("Ellipsoid", "a") := a][("Ellipsoid", "1/f") := invf], name2Code)
            == UserDefined(a, invf)
  {
  }
}
