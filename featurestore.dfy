/** The writers of the ILWIS-3 feature connector (featureconnector.cpp):
    the object definition keys set by storeMetaData and storeMetaPolygon,
    the per-type dispatch of storeBinaryData, and the segment records of
    storeBinaryDataLine. The base CoverageConnector steps are given as
    their outcomes; the files written are returned as StoredFile values. */
module FeatureStore {
  import opened Seqs
  import opened Wrappers
  import opened Bytes
  import opened Float64
  import opened Text
  import opened Geometry
  import opened Features
  import opened PolygonStream
  import opened PolygonRoundTrip
  import opened Odf
  import opened FeatureLoaders

  // ---- file names ----

  /** The data file name storeMetaData derives from the coverage name:
      the name without its last extension. */
  function DataFileOf(name: string): (d: string)
    ensures |d| <= |name| && d == name[..|d|]
    ensures d == name <==> '.' !in name
    ensures d != name ==> name[|d|] == '.' && forall i :: |d| < i < |name| ==> name[i] != '.'
  {
    var index := LastIndexOf(name, '.');
    if index != -1 then Left(name, index) else name
  }

  /** QFileInfo::fileName: the part after the last '/'. */
  function FileName(name: string): (f: string)
    ensures '/' !in f
    ensures '/' !in name ==> f == name
  {
    var slash := LastIndexOf(name, '/');
    name[slash + 1..]
  }

  /** QFileInfo::baseName: the file name up to its first '.'. */
  function QtBaseName(name: string): (b: string)
    ensures '.' !in b && '/' !in b
  {
    var f := FileName(name);
    var dot := IndexOf(f, ".");
    var k := if dot == -1 then |f| else dot;
    CharBeforeIndex(f, '.', k);
    PrefixKeepsAbsent(f, '/', k);
    if dot == -1 then f else f[..dot]
  }

  /** QFileInfo::completeBaseName: the file name up to its last '.'. */
  function CompleteBaseName(name: string): (b: string)
    ensures '/' !in name ==> b == DataFileOf(name)
  {
    DataFileOf(FileName(name))
  }

  /** The polygon data file storeBinaryData writes, as written: the
      directory and the name up to its FIRST '.', plus ".mpz#". */
  function PolygonPathAsWritten(dir: string, name: string): string {
    dir + "/" + QtBaseName(name) + ".mpz#"
  }

  /** The polygon data file storeBinaryData writes, corrected to the
      name up to its LAST '.', as storeMetaData names it. */
  function PolygonPath(dir: string, name: string): string {
    dir + "/" + CompleteBaseName(name) + ".mpz#"
  }

  /** The file loadBinaryPolygons37 opens: the DataPol key below the
      working catalog. */
  function LoadedPolygonFile(dir: string, entries: Entries): string {
    dir + "/" + ValueOf(entries, "PolygonMapStore", "DataPol")
  }

  /** Two paths that differ only in the file's base name differ. */
  lemma PathsDiffer(dir: string, a: string, b: string, ext: string)
    requires a != b
    ensures dir + "/" + a + ext != dir + "/" + b + ext
  {
    var pa := dir + "/" + a + ext;
    var pb := dir + "/" + b + ext;
    if |a| != |b| {
      assert |pa| != |pb|;
    } else {
      var k :| 0 <= k < |a| && a[k] != b[k];
      assert pa[|dir| + 1 + k] == a[k];
      assert pb[|dir| + 1 + k] == b[k];
    }
  }

  /** As written, a coverage whose name has a '.' before its extension
      is written to one polygon file and looked for under another: the
      data file storeMetaData records keeps that '.', the base name the
      binary writer uses stops at it. */
  lemma PolygonPathAsWrittenMissed(dir: string, name: string)
    requires '/' !in name && '.' in DataFileOf(name)
    ensures PolygonPathAsWritten(dir, name) != dir + "/" + DataFileOf(name) + ".mpz#"
  {
    PathsDiffer(dir, QtBaseName(name), DataFileOf(name), ".mpz#");
  }

  /** "roads.v2.mpa" is such a name. */
  lemma TwoDotName()
    ensures '.' in DataFileOf("roads.v2.mpa")
  {
    var name := "roads.v2.mpa";
    var d := DataFileOf(name);
    assert name[5] == '.' && name[8] == '.';
    assert |d| == 8;
    assert d[5] == '.';
  }

  /** Corrected, the polygon file is the one DataPol names. */
  lemma PolygonPathFound(dir: string, name: string)
    requires '/' !in name
    ensures PolygonPath(dir, name) == dir + "/" + DataFileOf(name) + ".mpz#"
  {
  }

  /** The first '.' of s is at k when s[k] is one and none comes
      before. */
  lemma FirstDotAt(s: string, k: nat)
    requires k < |s| && s[k] == '.' && '.' !in s[..k]
    ensures IndexOf(s, ".") == k
  {
    assert s[k..k + 1] == ".";
    assert OccursAt(s, ".", k);
  }

  /** A text without '.' has no first '.'. */
  lemma NoDot(s: string)
    requires '.' !in s
    ensures IndexOf(s, ".") == -1
  {
    forall i | 0 <= i < |s|
      ensures !OccursAt(s, ".", i)
    {
      assert s[i] in s;
      assert s[i..i + 1] == [s[i]];
    }
  }

  /** A name with no '.' before its extension gets the same base name
      from baseName() and from the last-'.' rule. */
  lemma BaseNamesAgree(name: string)
    requires '/' !in name && '.' !in DataFileOf(name)
    ensures QtBaseName(name) == DataFileOf(name)
  {
    var d := DataFileOf(name);
    assert FileName(name) == name;
    if d == name {
      NoDot(name);
    } else {
      FirstDotAt(name, |d|);
      assert QtBaseName(name) == name[..|d|];
    }
  }

  /** As written, such a name is written to the polygon file DataPol
      names. */
  lemma PolygonPathAsWrittenFound(dir: string, name: string)
    requires '/' !in name && '.' !in DataFileOf(name)
    ensures PolygonPathAsWritten(dir, name) == dir + "/" + DataFileOf(name) + ".mpz#"
  {
    BaseNamesAgree(name);
  }

  // ---- storeMetaPolygon and storeMetaData ----

  /** The keys storeMetaPolygon sets on top of entries. */
  function MetaPolygonEntries(entries: Entries, dataFile: string, polygonCount: nat): Entries {
    entries[("BaseMap", "Type") := "PolygonMap"]
           [("PolygonMap", "Type") := "PolygonMapStore"]
           [("PolygonMap", "Toplogical") := "No"]
           [("PolygonMapStore", "Format") := "5"]
           [("PolygonMapStore", "DeletedPolygons") := "0"]
           [("Ilwis", "Class") := "ILWIS::Polygon Map"]
           [("PolygonMapStore", "DataPol") := dataFile + ".mpz#"]
           [("PolygonMapStore", "Polygons") := NatToString(polygonCount)]
  }

  method StoreMetaPolygon(odf: OdfFile, dataFile: string, polygonCount: nat) returns (ok: bool)
    modifies odf
    ensures ok
    ensures odf.entries == MetaPolygonEntries(old(odf.entries), dataFile, polygonCount)
    ensures odf.stored == old(odf.stored)
  {
    odf.SetKeyValue("BaseMap", "Type", "PolygonMap");
    odf.SetKeyValue("PolygonMap", "Type", "PolygonMapStore");
    odf.SetKeyValue("PolygonMap", "Toplogical", "No");
    odf.SetKeyValue("PolygonMapStore", "Format", "5");
    odf.SetKeyValue("PolygonMapStore", "DeletedPolygons", "0");
    odf.SetKeyValue("Ilwis", "Class", "ILWIS::Polygon Map");
    odf.SetKeyValue("PolygonMapStore", "DataPol", dataFile + ".mpz#");
    odf.SetKeyValue("PolygonMapStore", "Polygons", NatToString(polygonCount));
    ok := true;
  }

  /** After storeMetaPolygon the map reloads through the stream format,
      from the file it names, with the polygon count it stored. */
  lemma MetaPolygonReloadsAsStream(entries: Entries, dataFile: string, polygonCount: nat)
    ensures PolygonFormatOf(MetaPolygonEntries(entries, dataFile, polygonCount)) == Stream37
    ensures ValueOf(MetaPolygonEntries(entries, dataFile, polygonCount), "PolygonMapStore", "DataPol") == dataFile + ".mpz#"
    ensures polygonCount <= Int32Max ==>
              ToInt(ValueOf(MetaPolygonEntries(entries, dataFile, polygonCount), "PolygonMapStore", "Polygons")) == Some(polygonCount)
  {
    if polygonCount <= Int32Max {
      ToIntOfNatToString(polygonCount);
    }
  }

  /** The domain keys storeMetaData sets for every feature type. The
      identifier count is the polygon count whatever the type. */
  function DomainEntries(entries: Entries, polygonCount: nat): Entries {
    entries[("Domain", "Type") := "DomainUniqueID"]
           [("DomainSort", "Sorting") := "AlphaNumeric"]
           [("DomainSort", "Prefix") := "feature"]
           [("DomainSort", "Class") := "Domain UniqueID"]
           [("DomainIdentifier", "Nr") := NatToString(polygonCount)]
  }

  /** All the keys one storeMetaData(fcov, type) call sets: the domain
      keys, and the polygon keys when the coverage holds polygons. */
  function MetaEntries(entries: Entries, name: string, kinds: set<FeatureKind>, polygonCount: nat): Entries {
    var withDomain := DomainEntries(entries, polygonCount);
    if PolygonKind in kinds then MetaPolygonEntries(withDomain, DataFileOf(name), polygonCount) else withDomain
  }

  /** Setting the keys twice is setting them once: the three calls made
      for the three type masks leave the same keys as one. */
  lemma MetaEntriesIdempotent(entries: Entries, name: string, kinds: set<FeatureKind>, polygonCount: nat)
    ensures MetaEntries(MetaEntries(entries, name, kinds, polygonCount), name, kinds, polygonCount)
            == MetaEntries(entries, name, kinds, polygonCount)
  {
  }

  /** The keys storeMetaData and storeMetaPolygon set. */
  const MetaKeys: set<(string, string)> := {
    ("BaseMap", "Type"), ("PolygonMap", "Type"), ("PolygonMap", "Toplogical"),
    ("PolygonMapStore", "Format"), ("PolygonMapStore", "DeletedPolygons"), ("Ilwis", "Class"),
    ("PolygonMapStore", "DataPol"), ("PolygonMapStore", "Polygons"),
    ("Domain", "Type"), ("DomainSort", "Sorting"), ("DomainSort", "Prefix"), ("DomainSort", "Class"),
    ("DomainIdentifier", "Nr")}

  /** Keys outside those storeMetaData sets keep their value. */
  lemma MetaEntriesKeepOthers(entries: Entries, name: string, kinds: set<FeatureKind>, polygonCount: nat,
                              section: string, key: string)
    requires (section, key) !in MetaKeys
    ensures ValueOf(MetaEntries(entries, name, kinds, polygonCount), section, key) == ValueOf(entries, section, key)
  {
  }

  /** The part of storeMetaData(fcov, type) after the checks: the keys,
      then store(). Its result is that of storeMetaPolygon, or true. */
  method StoreMetaKeys(odf: OdfFile, name: string, kinds: set<FeatureKind>, polygonCount: nat) returns (ok: bool)
    modifies odf
    ensures ok
    ensures odf.entries == MetaEntries(old(odf.entries), name, kinds, polygonCount)
    ensures odf.stored == odf.entries
  {
    ok := true;
    var dataFile := name;
    var index := LastIndexOf(dataFile, '.');
    if index != -1 {
      dataFile := Left(dataFile, index);
    }
    odf.SetKeyValue("Domain", "Type", "DomainUniqueID");
    odf.SetKeyValue("DomainSort", "Sorting", "AlphaNumeric");
    odf.SetKeyValue("DomainSort", "Prefix", "feature");
    odf.SetKeyValue("DomainSort", "Class", "Domain UniqueID");
    odf.SetKeyValue("DomainIdentifier", "Nr", NatToString(polygonCount));
    if PolygonKind in kinds {
      ok := StoreMetaPolygon(odf, dataFile, polygonCount);
    }
    odf.Store();
  }

  /** The three type masks storeMetaData(obj) and storeBinaryData(obj)
      pass on, in order: featureTypes & itPOLYGON, & itLINE, & itPOINT. */
  function Masks(kinds: set<FeatureKind>): (ms: seq<set<FeatureKind>>)
    ensures |ms| == 3
    ensures forall k :: 0 <= k < 3 ==> ms[k] <= kinds
    ensures ms[0] <= {PolygonKind} && ms[1] <= {LineKind} && ms[2] <= {PointKind}
    ensures (ms[0] == {} <==> PolygonKind !in kinds) && (ms[1] == {} <==> LineKind !in kinds) &&
            (ms[2] == {} <==> PointKind !in kinds)
  {
    assert PolygonKind in kinds ==> PolygonKind in kinds * {PolygonKind};
    assert LineKind in kinds ==> LineKind in kinds * {LineKind};
    assert PointKind in kinds ==> PointKind in kinds * {PointKind};
    [kinds * {PolygonKind}, kinds * {LineKind}, kinds * {PointKind}]
  }

  /** The result of storeMetaData(obj) as written: each of the three
      calls fails on an empty mask, and the results are and-ed. */
  function MetaResultAsWritten(kinds: set<FeatureKind>, baseStore: set<FeatureKind> -> bool): bool {
    var ms := Masks(kinds);
    (ms[0] != {} && baseStore(ms[0])) && (ms[1] != {} && baseStore(ms[1])) && (ms[2] != {} && baseStore(ms[2]))
  }

  /** As written, storeMetaData(obj) reports success only for a coverage
      holding all three feature types; a polygon map always fails. */
  lemma {:induction false} MetaAsWrittenNeedsAllKinds(kinds: set<FeatureKind>, baseStore: set<FeatureKind> -> bool)
    ensures MetaResultAsWritten(kinds, baseStore) ==> kinds == {PolygonKind, LineKind, PointKind}
    ensures !MetaResultAsWritten({PolygonKind}, baseStore)
  {
    if MetaResultAsWritten(kinds, baseStore) {
      assert Masks(kinds)[0] != {} && Masks(kinds)[1] != {} && Masks(kinds)[2] != {};
      assert PolygonKind in kinds && LineKind in kinds && PointKind in kinds;
      forall k: FeatureKind ensures k in kinds <==> k in {PolygonKind, LineKind, PointKind} {
        match k
        case PolygonKind =>
        case LineKind =>
        case PointKind =>
      }
    }
    assert Masks({PolygonKind})[1] == {};
  }

  /** The result of the corrected storeMetaData(obj): an empty mask is
      nothing to store and succeeds. */
  function MetaResult(kinds: set<FeatureKind>, baseStore: set<FeatureKind> -> bool): bool {
    var ms := Masks(kinds);
    (ms[0] == {} || baseStore(ms[0])) && (ms[1] == {} || baseStore(ms[1])) && (ms[2] == {} || baseStore(ms[2]))
  }

  /** Corrected, a polygon map succeeds exactly when the base connector
      stores it. */
  lemma MetaPolygonMapSucceeds(baseStore: set<FeatureKind> -> bool)
    ensures MetaResult({PolygonKind}, baseStore) <==> baseStore({PolygonKind})
  {
    var ms := Masks({PolygonKind});
    assert ms[0] == {PolygonKind} && ms[1] == {} && ms[2] == {};
  }

  /** Whether any of the three calls gets past its checks and writes the
      keys. */
  predicate WritesKeys(kinds: set<FeatureKind>, baseStore: set<FeatureKind> -> bool) {
    var ms := Masks(kinds);
    (ms[0] != {} && baseStore(ms[0])) || (ms[1] != {} && baseStore(ms[1])) || (ms[2] != {} && baseStore(ms[2]))
  }

  /** storeMetaData(fcov, type): an empty mask fails at once; otherwise
      the call fails when the base connector does, and else sets and
      stores the keys. baseStore is the outcome of
      CoverageConnector::storeMetaData. */
  method StoreMetaDataFor(odf: OdfFile, name: string, kinds: set<FeatureKind>, mask: set<FeatureKind>,
                          polygonCount: nat, baseStore: set<FeatureKind> -> bool) returns (ok: bool)
    modifies odf
    ensures ok <==> mask != {} && baseStore(mask)
    ensures ok ==> odf.entries == MetaEntries(old(odf.entries), name, kinds, polygonCount) && odf.stored == odf.entries
    ensures !ok ==> odf.entries == old(odf.entries) && odf.stored == old(odf.stored)
  {
    if mask == {} {
      return false;
    }
    ok := baseStore(mask);
    if !ok {
      return false;
    }
    ok := StoreMetaKeys(odf, name, kinds, polygonCount);
  }

  /** storeMetaData(obj): the three masks in turn, results and-ed, as
      written; the keys are set and stored as soon as one call gets past
      its checks. */
  method StoreMetaData(odf: OdfFile, name: string, kinds: set<FeatureKind>, polygonCount: nat,
                       baseStore: set<FeatureKind> -> bool) returns (ok: bool)
    modifies odf
    ensures ok == MetaResultAsWritten(kinds, baseStore)
    ensures WritesKeys(kinds, baseStore) ==>
              odf.entries == MetaEntries(old(odf.entries), name, kinds, polygonCount) && odf.stored == odf.entries
    ensures !WritesKeys(kinds, baseStore) ==> odf.entries == old(odf.entries) && odf.stored == old(odf.stored)
  {
    ghost var before := odf.entries;
    var masks := Masks(kinds);
    ok := true;
    var r := StoreMetaDataFor(odf, name, kinds, masks[0], polygonCount, baseStore);
    ok := ok && r;
    MetaEntriesAgain(odf.entries, before, name, kinds, polygonCount);
    r := StoreMetaDataFor(odf, name, kinds, masks[1], polygonCount, baseStore);
    ok := ok && r;
    MetaEntriesAgain(odf.entries, before, name, kinds, polygonCount);
    r := StoreMetaDataFor(odf, name, kinds, masks[2], polygonCount, baseStore);
    ok := ok && r;
  }

  /** Success as written implies success of the corrected storeMetaData,
      and the two agree for a coverage holding all three types. */
  lemma MetaResultAsWrittenIsStricter(kinds: set<FeatureKind>, baseStore: set<FeatureKind> -> bool)
    ensures MetaResultAsWritten(kinds, baseStore) ==> MetaResult(kinds, baseStore)
    ensures kinds == {PolygonKind, LineKind, PointKind} ==>
              MetaResultAsWritten(kinds, baseStore) == MetaResult(kinds, baseStore)
  {
    if kinds == {PolygonKind, LineKind, PointKind} {
      var ms := Masks(kinds);
      assert PolygonKind in ms[0] && LineKind in ms[1] && PointKind in ms[2];
    }
  }

  /** Whether the keys were set before or not, setting them gives the
      same keys. */
  lemma MetaEntriesAgain(entries: Entries, before: Entries, name: string, kinds: set<FeatureKind>, polygonCount: nat)
    ensures entries == MetaEntries(before, name, kinds, polygonCount) ==>
              MetaEntries(entries, name, kinds, polygonCount) == MetaEntries(before, name, kinds, polygonCount)
  {
    MetaEntriesIdempotent(before, name, kinds, polygonCount);
  }

  // ---- storeBinaryDataLine ----

  /** One record of the segment table: minimum and maximum corner of the
      line's envelope, its coordinates, the deleted flag and the raw id. */
  datatype LineRecord = LineRecord(min: Coord, max: Coord, points: seq<Coord>, deleted: bool, raw: Double)

  /** The lines one feature contributes: its line once per track
      position, or nothing for another geometry. */
  function LineTrack(f: StoredFeature): seq<seq<Coord>> {
    if f.geometry.LineGeom? then Repeat(f.geometry.line, f.trackSize) else []
  }

  /** The lines storeBinaryDataLine writes for fs, in order. */
  function Lines(fs: seq<StoredFeature>): seq<seq<Coord>> {
    if fs == [] then [] else Lines(fs[..|fs| - 1]) + LineTrack(fs[|fs| - 1])
  }

  /** The record written for line number raw (counting from 1). envelope
      gives the min and max corner of a line (Geometry::envelope). */
  function LineRecordOf(line: seq<Coord>, raw: nat, envelope: seq<Coord> -> (Coord, Coord)): LineRecord {
    LineRecord(envelope(line).0, envelope(line).1, line, false, FromNat(raw))
  }

  /** The records of the given lines, raw ids counting from 1. */
  function LineRecords(lines: seq<seq<Coord>>, envelope: seq<Coord> -> (Coord, Coord)): (r: seq<LineRecord>)
    ensures |r| == |lines|
  {
    if lines == [] then []
    else LineRecords(lines[..|lines| - 1], envelope) + [LineRecordOf(lines[|lines| - 1], |lines|, envelope)]
  }

  /** Record i holds line i and the raw id i + 1. */
  lemma {:induction false} LineRecordsAt(lines: seq<seq<Coord>>, envelope: seq<Coord> -> (Coord, Coord), i: nat)
    requires i < |lines|
    ensures LineRecords(lines, envelope)[i] == LineRecordOf(lines[i], i + 1, envelope)
    decreases |lines|
  {
    var n := |lines| - 1;
    if i < n {
      LineRecordsAt(lines[..n], envelope, i);
    }
  }

  lemma LineRecordsSnoc(lines: seq<seq<Coord>>, line: seq<Coord>, envelope: seq<Coord> -> (Coord, Coord))
    ensures LineRecords(lines + [line], envelope) == LineRecords(lines, envelope) + [LineRecordOf(line, |lines| + 1, envelope)]
  {
    assert (lines + [line])[..|lines|] == lines;
  }

  lemma {:induction false} RepeatSnoc<T>(x: T, n: nat)
    ensures Repeat(x, n + 1) == Repeat(x, n) + [x]
  {
    if n > 0 {
      RepeatSnoc(x, n - 1);
    }
  }

  lemma LinesStep(fs: seq<StoredFeature>, k: nat)
    requires k < |fs|
    ensures Lines(fs[..k + 1]) == Lines(fs[..k]) + LineTrack(fs[k])
  {
    TakeTake(fs, k, k + 1);
  }

  /** storeBinaryDataLine once its output is open: the segment records
      of every line feature, each written trackSize times, with raw ids
      counting from 1; records is what storeRecord receives. Nothing is
      written when the coordinate domain is not valid. */
  method StoreLineRecords(fs: seq<StoredFeature>, coordDomainValid: bool, envelope: seq<Coord> -> (Coord, Coord))
      returns (ok: bool, records: seq<LineRecord>)
    ensures ok == coordDomainValid
    ensures records == if ok then LineRecords(Lines(fs), envelope) else []
  {
    if !coordDomainValid {
      return false, [];
    }
    records := [];
    for k := 0 to |fs|
      invariant records == LineRecords(Lines(fs[..k]), envelope)
    {
      LinesStep(fs, k);
      records := StoreLineTrack(records, fs[k], Lines(fs[..k]), envelope);
    }
    TakeAll(fs, |fs|);
    ok := true;
  }

  /** The body of storeBinaryDataLine for one feature: a record per track
      position for a line, nothing for another geometry. raw continues
      from the records already written. */
  method StoreLineTrack(records: seq<LineRecord>, f: StoredFeature, ghost done: seq<seq<Coord>>,
                        envelope: seq<Coord> -> (Coord, Coord)) returns (next: seq<LineRecord>)
    requires records == LineRecords(done, envelope)
    ensures next == LineRecords(done + LineTrack(f), envelope)
  {
    next := records;
    if !f.geometry.LineGeom? {
      AppendEmpty(done);
      return;
    }
    var line := f.geometry.line;
    var raw: nat := |records| + 1;
    assert Repeat(line, 0) == [];
    AppendEmpty(done);
    for i := 0 to f.trackSize
      invariant raw == |done| + i + 1
      invariant next == LineRecords(done + Repeat(line, i), envelope)
    {
      next := StoreLineRecord(next, line, raw, done + Repeat(line, i), envelope);
      RepeatSnoc(line, i);
      SeqAssoc(done, Repeat(line, i), [line]);
      raw := raw + 1;
    }
  }

  /** One storeRecord call of storeBinaryDataLine: the record of line
      with the current raw id appended. */
  method StoreLineRecord(records: seq<LineRecord>, line: seq<Coord>, raw: nat, ghost done: seq<seq<Coord>>,
                         envelope: seq<Coord> -> (Coord, Coord)) returns (next: seq<LineRecord>)
    requires records == LineRecords(done, envelope) && raw == |done| + 1
    ensures next == LineRecords(done + [line], envelope)
  {
    LineRecordsSnoc(done, line, envelope);
    next := records + [LineRecordOf(line, raw, envelope)];
  }

  /** The segment table storeBinaryDataLine writes, read back by
      loadBinarySegments (Coords and SegmentValue columns): line i comes
      back as stored, keyed by its row for a numeric map and by its raw
      id i + 1 otherwise. */
  lemma StoredLinesReload(fs: seq<StoredFeature>, envelope: seq<Coord> -> (Coord, Coord), isNumeric: bool)
    requires |Lines(fs)| < U32Limit
    ensures var rows := SegRowsOf(LineRecords(Lines(fs), envelope));
            var loaded := SegmentFeatures(rows, isNumeric);
            |loaded| == |Lines(fs)| &&
            forall i :: 0 <= i < |loaded| ==>
              loaded[i].geometry == LineGeom(Lines(fs)[i]) &&
              Key(loaded[i].id) == (if isNumeric then i else i + 1)
  {
    var rows := SegRowsOf(LineRecords(Lines(fs), envelope));
    SegmentFeaturesKeepLines(rows, isNumeric);
    forall i | 0 <= i < |rows|
      ensures SegmentFeatures(rows, isNumeric)[i].geometry == LineGeom(Lines(fs)[i])
      ensures Key(SegmentFeatures(rows, isNumeric)[i].id) == (if isNumeric then i else i + 1)
    {
      StoredLineReloads(fs, envelope, isNumeric, i);
    }
  }

  /** Line i of the segment table reloads as line i, keyed by its row or
      its raw id. */
  lemma StoredLineReloads(fs: seq<StoredFeature>, envelope: seq<Coord> -> (Coord, Coord), isNumeric: bool, i: nat)
    requires |Lines(fs)| < U32Limit && i < |Lines(fs)|
    ensures var loaded := SegmentFeatures(SegRowsOf(LineRecords(Lines(fs), envelope)), isNumeric);
            i < |loaded| && loaded[i].geometry == LineGeom(Lines(fs)[i]) &&
            Key(loaded[i].id) == (if isNumeric then i else i + 1)
  {
    var records := LineRecords(Lines(fs), envelope);
    var rows := SegRowsOf(records);
    SegmentFeaturesKeepLines(rows, isNumeric);
    var loaded := SegmentFeatures(rows, isNumeric);
    LineRecordsAt(Lines(fs), envelope, i);
    assert rows[i] == SegRow(records[i].points, records[i].raw);
    assert loaded[i] == Keyed(isNumeric, i, LineGeom(rows[i].coords), rows[i].value);
    if !isNumeric {
      TruncOfFromNat(i + 1);
    }
  }

  /** The rows loadBinarySegments reads from the stored records: the
      Coords and SegmentValue columns. */
  function SegRowsOf(records: seq<LineRecord>): (rows: seq<SegRow>)
    ensures |rows| == |records|
    ensures forall i :: 0 <= i < |records| ==> rows[i] == SegRow(records[i].points, records[i].raw)
  {
    if records == [] then [] else [SegRow(records[0].points, records[0].raw)] + SegRowsOf(records[1..])
  }

  // ---- storeBinaryData ----

  /** A file storeBinaryData writes. */
  datatype StoredFile =
    | PolygonFile(path: string, data: seq<byte>)
    | SegmentFile(path: string, records: seq<LineRecord>)

  /** The outside world storeBinaryData depends on: the outcome of
      CoverageConnector::storeBinaryData per mask, which paths can be
      opened for writing, whether the coordinate domain prepares, and the
      envelope of a line. */
  datatype Environment = Environment(
    baseStore: set<FeatureKind> -> bool,
    opens: string -> bool,
    coordDomainValid: bool,
    envelope: seq<Coord> -> (Coord, Coord))

  /** storeBinaryDataPolygon with its output file: the polygon records
      of fs in baseName.mpz#, when that file can be opened. */
  method StoreBinaryDataPolygonFile(fs: seq<StoredFeature>, baseName: string, env: Environment)
      returns (ok: bool, written: seq<StoredFile>)
    ensures ok <==> env.opens(baseName + ".mpz#")
    ensures written == if ok then [PolygonFile(baseName + ".mpz#", EncodeFeatures(fs))] else []
  {
    var path := baseName + ".mpz#";
    if !env.opens(path) {
      return false, [];
    }
    var out := new OutputFile();
    StoreBinaryDataPolygon(out, fs);
    AppendEmpty(EncodeFeatures(fs));
    ok, written := true, [PolygonFile(path, out.data)];
  }

  /** storeBinaryDataLine: the segment table baseName.mps#. */
  method StoreBinaryDataLine(fs: seq<StoredFeature>, baseName: string, env: Environment)
      returns (ok: bool, written: seq<StoredFile>)
    ensures ok <==> env.opens(baseName + ".mps#") && env.coordDomainValid
    ensures !env.opens(baseName + ".mps#") ==> written == []
    ensures env.opens(baseName + ".mps#") ==>
              written == [SegmentFile(baseName + ".mps#", if ok then LineRecords(Lines(fs), env.envelope) else [])]
  {
    var path := baseName + ".mps#";
    if !env.opens(path) {
      return false, [];
    }
    var records;
    ok, records := StoreLineRecords(fs, env.coordDomainValid, env.envelope);
    written := [SegmentFile(path, records)];
  }

  /** The base name storeBinaryData(fcov, type) gives its files: the
      working catalog and the coverage's baseName(), its file name up to
      the FIRST '.'. */
  function BinaryBase(dir: string, name: string): (b: string)
    ensures b + ".mpz#" == PolygonPathAsWritten(dir, name)
  {
    dir + "/" + QtBaseName(name)
  }

  /** storeBinaryData(fcov, type) for one mask: nothing to do for an
      empty mask, polygons to the .mpz# file, lines to the .mps# table,
      and failure for points, which this writer does not store. */
  method StoreBinaryDataFor(fs: seq<StoredFeature>, name: string, dir: string, mask: set<FeatureKind>, env: Environment)
      returns (ok: bool, written: seq<StoredFile>)
    ensures mask == {} ==> ok && written == []
    ensures mask != {} && !env.baseStore(mask) ==> !ok && written == []
    ensures mask != {} && env.baseStore(mask) && PolygonKind in mask ==>
              (ok <==> env.opens(BinaryBase(dir, name) + ".mpz#")) &&
              written == if ok then [PolygonFile(BinaryBase(dir, name) + ".mpz#", EncodeFeatures(fs))] else []
    ensures mask != {} && env.baseStore(mask) && PolygonKind !in mask && LineKind in mask ==>
              (ok <==> env.opens(BinaryBase(dir, name) + ".mps#") && env.coordDomainValid) &&
              written == LineWritten(fs, BinaryBase(dir, name) + ".mps#", env)
    ensures mask != {} && env.baseStore(mask) && PolygonKind !in mask && LineKind !in mask ==> !ok && written == []
  {
    if mask == {} {
      return true, [];
    }
    if !env.baseStore(mask) {
      return false, [];
    }
    var baseName := BinaryBase(dir, name);
    ok, written := false, [];
    if PolygonKind in mask {
      ok, written := StoreBinaryDataPolygonFile(fs, baseName, env);
    } else if LineKind in mask {
      ok, written := StoreBinaryDataLine(fs, baseName, env);
    }
  }

  /** What storeBinaryDataLine leaves at path: nothing when the file does
      not open, else the segment table, empty when the coordinate domain
      is not valid. */
  function LineWritten(fs: seq<StoredFeature>, path: string, env: Environment): seq<StoredFile> {
    if !env.opens(path) then []
    else [SegmentFile(path, if env.coordDomainValid then LineRecords(Lines(fs), env.envelope) else [])]
  }

  /** The files storeBinaryData(obj) leaves for the polygons of the
      coverage: the .mpz# file when the base store succeeds and the file
      opens. */
  function PolygonsWritten(fs: seq<StoredFeature>, dir: string, name: string, kinds: set<FeatureKind>,
                           env: Environment): seq<StoredFile> {
    var path := BinaryBase(dir, name) + ".mpz#";
    if PolygonKind in kinds && env.baseStore({PolygonKind}) && env.opens(path)
    then [PolygonFile(path, EncodeFeatures(fs))] else []
  }

  /** The files it leaves for the lines: the .mps# table when the base
      store succeeds and the file opens. */
  function LinesWritten(fs: seq<StoredFeature>, dir: string, name: string, kinds: set<FeatureKind>,
                        env: Environment): seq<StoredFile> {
    if LineKind in kinds && env.baseStore({LineKind}) then LineWritten(fs, BinaryBase(dir, name) + ".mps#", env)
    else []
  }

  /** storeBinaryData(obj): the three masks in turn, results and-ed and
      files collected. A coverage holding points always reports failure;
      otherwise each type it holds must be stored, and a coverage with no
      features succeeds writing nothing. */
  method StoreBinaryData(fs: seq<StoredFeature>, name: string, dir: string, kinds: set<FeatureKind>, env: Environment)
      returns (ok: bool, written: seq<StoredFile>)
    ensures ok <==> PointKind !in kinds
                    && (PolygonKind in kinds ==> env.baseStore({PolygonKind}) && env.opens(BinaryBase(dir, name) + ".mpz#"))
                    && (LineKind in kinds ==>
                          env.baseStore({LineKind}) && env.opens(BinaryBase(dir, name) + ".mps#") && env.coordDomainValid)
    ensures written == PolygonsWritten(fs, dir, name, kinds, env) + LinesWritten(fs, dir, name, kinds, env)
    ensures kinds == {} ==> ok && written == []
  {
    var masks := Masks(kinds);
    var r0, w0 := StoreBinaryDataFor(fs, name, dir, masks[0], env);
    var r1, w1 := StoreBinaryDataFor(fs, name, dir, masks[1], env);
    var r2, w2 := StoreBinaryDataFor(fs, name, dir, masks[2], env);
    ok := r0 && r1 && r2;
    written := w0 + w1 + w2;
    assert PolygonKind in kinds ==> masks[0] == {PolygonKind};
    assert LineKind in kinds ==> masks[1] == {LineKind};
    assert PointKind in kinds ==> masks[2] == {PointKind};
    assert w2 == [];
    AppendEmpty(w0 + w1);
  }

  // ---- the stored polygon map, reloaded ----

  /** The keys of a polygon map stored by storeMetaData: detected as a
      polygon map with the stored count, read through the stream format
      from the data file named after the coverage, with the value range
      of before. */
  lemma StoredPolygonKeys(entries: Entries, name: string, n: nat)
    requires n <= Int32Max
    requires ToInt(ValueOf(entries, "PointMap", "Points")).None?
    requires ToInt(ValueOf(entries, "SegmentMapStore", "Segments")).None?
    ensures var stored := MetaEntries(entries, name, {PolygonKind}, n);
            DetectFeatures(stored) == Some((PolygonKind, n)) &&
            PolygonFormatOf(stored) == Stream37 &&
            ValueOf(stored, "PolygonMapStore", "DataPol") == DataFileOf(name) + ".mpz#" &&
            IsNumeric(stored) == IsNumeric(entries)
  {
    MetaPolygonReloadsAsStream(DomainEntries(entries, n), DataFileOf(name), n);
    MetaEntriesKeepOthers(entries, name, {PolygonKind}, n, "PointMap", "Points");
    MetaEntriesKeepOthers(entries, name, {PolygonKind}, n, "SegmentMapStore", "Segments");
    MetaEntriesKeepOthers(entries, name, {PolygonKind}, n, "BaseMap", "Range");
  }

  /** A stream-format map whose data file holds the records of fs gives
      back the features of those records. */
  lemma StreamReloads(entries: Entries, fs: seq<StoredFeature>, files: MapFiles, fuel: nat)
    requires PolygonFormatOf(entries) == Stream37
    requires files.polygonData == Some(EncodeFeatures(fs))
    requires forall i :: 0 <= i < |Flatten(fs)| ==> Storable(Flatten(fs)[i])
    ensures PolygonsSpec(entries, files, |Flatten(fs)|, fuel) == Some(Reloaded(Flatten(fs), 1, 0, IsNumeric(entries)))
  {
    StoreThenLoad(fs, [], IsNumeric(entries));
    AppendEmpty(EncodeFeatures(fs));
  }

  /** A polygon map stored by the corrected writers reloads as itself:
      DataPol names the file the corrected binary writer writes, and the
      one the writer as written uses when the name has no second '.';
      and the loader
      gives back one feature per stored polygon record. The count stored
      is taken to be the number of records. */
  lemma StoredPolygonMapReloads(entries: Entries, name: string, dir: string, fs: seq<StoredFeature>, n: nat,
                                files: MapFiles, fuel: nat)
    requires '/' !in name
    requires n == |Flatten(fs)| <= Int32Max
    requires forall i :: 0 <= i < n ==> Storable(Flatten(fs)[i])
    requires ToInt(ValueOf(entries, "PointMap", "Points")).None?
    requires ToInt(ValueOf(entries, "SegmentMapStore", "Segments")).None?
    requires files.polygonData == Some(EncodeFeatures(fs))
    ensures LoadedPolygonFile(dir, MetaEntries(entries, name, {PolygonKind}, n)) == PolygonPath(dir, name)
    ensures '.' !in DataFileOf(name) ==>
              LoadedPolygonFile(dir, MetaEntries(entries, name, {PolygonKind}, n)) == PolygonPathAsWritten(dir, name)
    ensures PolygonsSpec(MetaEntries(entries, name, {PolygonKind}, n), files, n, fuel)
            == Some(Reloaded(Flatten(fs), 1, 0, IsNumeric(entries)))
  {
    StoredPolygonKeys(entries, name, n);
    PolygonPathFound(dir, name);
    SeqAssoc(dir + "/", DataFileOf(name), ".mpz#");
    if '.' !in DataFileOf(name) {
      PolygonPathAsWrittenFound(dir, name);
    }
    StreamReloads(MetaEntries(entries, name, {PolygonKind}, n), fs, files, fuel);
  }
}
