/** What loadBinaryPolygons37 reads back from a file written by
    storeBinaryDataPolygon (featureconnector.cpp): the stored polygons, in
    the order they were written, one feature per polygon record. */
module PolygonRoundTrip {
  import opened Seqs
  import opened Bytes
  import opened Float64
  import opened Geometry
  import opened Features
  import opened PolygonStream

  /** A ring whose byte count fits the signed int length readRing asks
      readRawData for. */
  predicate SmallRing(r: Ring) {
    24 * |r| < 0x8000_0000
  }

  /** A polygon the stream holds without any count wrapping round. */
  predicate Storable(p: Polygon) {
    SmallRing(p.outer) && |p.inners| < U32Limit &&
    forall i :: 0 <= i < |p.inners| ==> SmallRing(p.inners[i])
  }

  /** readRing gives back a ring writeCoords wrote, and stops right after
      it. */
  lemma ReadRingOfEncoded(r: Ring, rest: seq<byte>)
    requires SmallRing(r)
    ensures ReadRingSpec(EncodeCoords(r, false) + rest) == RingRead(true, r, rest)
  {
    var count := LittleEndian(|r|, 4);
    var body := CoordsBytes(r);
    EncodeCoordsLayout(r, false);
    SeqAssoc(count, body, rest);
    AppendParts(count, body + rest);
    ZeroPaddedFull(count, 4);
    Pow256Four();
    FromLittleEndianOfLittleEndian(|r|, 4);
    AppendParts(body, rest);
    ZeroPaddedFull(body, 24 * |r|);
    CoordsOfCoordsBytes(r);
  }

  lemma {:induction false} ReadRingsOfEncoded(rings: seq<Ring>, rest: seq<byte>)
    requires forall i :: 0 <= i < |rings| ==> SmallRing(rings[i])
    ensures ReadRingsSpec(EncodeRings(rings) + rest, |rings|) == (rings, rest)
  {
    if rings != [] {
      var after := EncodeRings(rings[1..]) + rest;
      SeqAssoc(EncodeCoords(rings[0], false), EncodeRings(rings[1..]), rest);
      ReadRingOfEncoded(rings[0], after);
      ReadRingsOfEncoded(rings[1..], rest);
      ReadRingsUnfold(EncodeRings(rings) + rest, |rings|);
      HeadTail(rings);
    } else {
      AppendEmpty(rest);
    }
  }

  /** The value and hole count that follow the outer ring. */
  lemma ReadHeaderOfEncoded(id: Double, holes: nat, rest: seq<byte>)
    requires holes < U32Limit
    ensures Take(id + (LittleEndian(holes, 4) + rest), 8) == id
    ensures (id + (LittleEndian(holes, 4) + rest))[8..] == LittleEndian(holes, 4) + rest
    ensures Take(LittleEndian(holes, 4) + rest, 4) == LittleEndian(holes, 4)
    ensures (LittleEndian(holes, 4) + rest)[4..] == rest
    ensures FromLittleEndian(ZeroPadded(LittleEndian(holes, 4), 4)) == holes
    ensures ZeroPadded(id, 8) == id
  {
    AppendParts(id, LittleEndian(holes, 4) + rest);
    AppendParts(LittleEndian(holes, 4), rest);
    ZeroPaddedFull(id, 8);
    ZeroPaddedFull(LittleEndian(holes, 4), 4);
    Pow256Four();
    FromLittleEndianOfLittleEndian(holes, 4);
  }

  /** One polygon record reads back as the polygon and its raw id. */
  lemma ReadPolygonOfRecord(p: Polygon, raw: nat, rest: seq<byte>)
    requires Storable(p)
    ensures ReadPolygonSpec(PolygonRecord(p, raw) + rest) == PolygonRead(p, FromNat(raw), rest)
  {
    var outer := EncodeCoords(p.outer, false);
    var id := FromNat(raw);
    var holeBytes := LittleEndian(|p.inners|, 4);
    var holes := EncodeRings(p.inners);
    ModOfSmall(|p.inners|, U32Limit);
    AppendAssoc(outer, id, holeBytes, holes, rest);
    SeqAssoc(id + holeBytes, holes, rest);
    SeqAssoc(id, holeBytes, holes + rest);
    ReadRingOfEncoded(p.outer, id + (holeBytes + (holes + rest)));
    ReadHeaderOfEncoded(id, |p.inners|, holes + rest);
    ReadRingsOfEncoded(p.inners, rest);
  }

  /** The features loadBinaryPolygons37 creates for records of ps numbered
      from raw, counting polygons from j: polygon i becomes feature j + i
      with value raw + i. */
  function Reloaded(ps: seq<Polygon>, raw: nat, j: nat, isNumeric: bool): (r: seq<Loaded>)
    ensures |r| == |ps|
    ensures forall i :: 0 <= i < |ps| ==> r[i] == Keyed(isNumeric, j + i, PolygonGeom(ps[i]), FromNat(raw + i))
  {
    if ps == [] then []
    else [Keyed(isNumeric, j, PolygonGeom(ps[0]), FromNat(raw))] + Reloaded(ps[1..], raw + 1, j + 1, isNumeric)
  }

  /** load is loadBinaryPolygons37 reading nrPolygons polygons. The
      proofs over runs of records are carried out on such a load, so that
      the reader is unfolded one record at a time only. */
  ghost predicate LoadsAre(load: (seq<byte>, nat) -> seq<Loaded>, nrPolygons: int, isNumeric: bool) {
    forall input: seq<byte>, j: nat {:trigger Load37Spec(input, j, nrPolygons, isNumeric)} ::
      load(input, j) == Load37Spec(input, j, nrPolygons, isNumeric)
  }

  /** The first of the records loadBinaryPolygons37 reads. */
  lemma Load37OfRecord(p: Polygon, raw: nat, after: seq<byte>, j: nat, nrPolygons: int, isNumeric: bool,
                       load: (seq<byte>, nat) -> seq<Loaded>)
    requires Storable(p) && j < nrPolygons && LoadsAre(load, nrPolygons, isNumeric)
    ensures load(PolygonRecord(p, raw) + after, j)
            == [Keyed(isNumeric, j, PolygonGeom(p), FromNat(raw))] + load(after, j + 1)
  {
    ReadPolygonOfRecord(p, raw, after);
    Load37Unfold(PolygonRecord(p, raw) + after, j, nrPolygons, isNumeric);
  }

  /** Reading nrPolygons = j + |ps| polygons from records of ps numbered
      from raw creates the features Reloaded describes. The records are
      laid out by rec, which is PolygonRecord. */
  lemma {:induction false} Load37OfNumbered(ps: seq<Polygon>, raw: nat, j: nat, nrPolygons: int,
                                            rest: seq<byte>, isNumeric: bool, rec: (Polygon, nat) -> seq<byte>,
                                            load: (seq<byte>, nat) -> seq<Loaded>)
    requires nrPolygons == j + |ps| && RecordsAre(rec) && LoadsAre(load, nrPolygons, isNumeric)
    requires forall i :: 0 <= i < |ps| ==> Storable(ps[i])
    ensures load(Numbered(ps, raw, rec) + rest, j) == Reloaded(ps, raw, j, isNumeric)
    decreases |ps|
  {
    if ps != [] {
      var first := rec(ps[0], raw);
      var after := Numbered(ps[1..], raw + 1, rec) + rest;
      SeqAssoc(first, Numbered(ps[1..], raw + 1, rec), rest);
      assert first == PolygonRecord(ps[0], raw);
      Load37OfRecord(ps[0], raw, after, j, nrPolygons, isNumeric, load);
      Load37OfNumbered(ps[1..], raw + 1, j + 1, nrPolygons, rest, isNumeric, rec, load);
    } else {
      AppendEmpty(rest);
      assert load(rest, j) == Load37Spec(rest, j, nrPolygons, isNumeric);
    }
  }

  /** Storing a coverage with storeBinaryDataPolygon and reading the file
      back with loadBinaryPolygons37, for as many polygons as records
      were written, creates one feature per record, in order: feature i
      has the i-th stored polygon and the value written for it, whatever
      follows the records in the file. */
  lemma StoreThenLoad(fs: seq<StoredFeature>, rest: seq<byte>, isNumeric: bool)
    requires forall i :: 0 <= i < |Flatten(fs)| ==> Storable(Flatten(fs)[i])
    ensures Load37Spec(EncodeFeatures(fs) + rest, 0, |Flatten(fs)|, isNumeric) == Reloaded(Flatten(fs), 1, 0, isNumeric)
  {
    var load := (input: seq<byte>, j: nat) => Load37Spec(input, j, |Flatten(fs)|, isNumeric);
    Load37OfNumbered(Flatten(fs), 1, 0, |Flatten(fs)|, rest, isNumeric, PolygonRecord, load);
  }

  /** The keys of the reloaded features: the row for a numeric map, and
      for any other map the raw id converted back, which is the row plus
      one as long as fewer than 2^32 records were written. */
  lemma ReloadedKeys(ps: seq<Polygon>, isNumeric: bool)
    requires |ps| < U32Limit
    ensures forall i :: 0 <= i < |ps| ==>
              Reloaded(ps, 1, 0, isNumeric)[i].geometry == PolygonGeom(ps[i]) &&
              Key(Reloaded(ps, 1, 0, isNumeric)[i].id) == (if isNumeric then i else i + 1)
  {
    forall i | 0 <= i < |ps|
      ensures Key(Reloaded(ps, 1, 0, isNumeric)[i].id) == (if isNumeric then i else i + 1)
    {
      TruncOfFromNat(i + 1);
    }
  }
}
