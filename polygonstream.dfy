/** The serial polygon file of ILWIS 3.7 polygon maps (the ".mpz#" data
    file named by PolygonMapStore/DataPol): the writer (writeCoords,
    storeBinaryDataPolygon), the reader (readRing, loadBinaryPolygons37)
    and the round trip between them (featureconnector.cpp). */
module PolygonStream {
  import opened Wrappers
  import opened Bytes
  import opened Float64
  import opened Geometry
  import opened Features
  import opened Seqs

  // ---- byte layout of coordinates ----

  /** One coordinate in the file: x, y and a zero z, 24 bytes. */
  function CoordBytes(c: Coord): (r: seq<byte>)
    ensures |r| == 24
  {
    c.x + c.y + ZeroDouble
  }

  /** The XYZ records of the coordinates, in order. */
  function CoordsBytes(cs: seq<Coord>): (r: seq<byte>)
    ensures |r| == 24 * |cs|
  {
    if cs == [] then [] else CoordsBytes(cs[..|cs| - 1]) + CoordBytes(cs[|cs| - 1])
  }

  /** The (x, y) of the 24-byte XYZ record at offset `at`. */
  function CoordAt(b: seq<byte>, at: nat): Coord
    requires at + 24 <= |b|
  {
    Coord(b[at..at + 8], b[at + 8..at + 16])
  }

  /** The (x, y) of each 24-byte XYZ record of b. */
  function CoordsOf(b: seq<byte>, n: nat): (r: seq<Coord>)
    requires |b| == 24 * n
    ensures |r| == n
  {
    if n == 0 then [] else CoordsOf(b[..24 * (n - 1)], n - 1) + [CoordAt(b, 24 * (n - 1))]
  }

  /** The record of c read back from where it was written. */
  lemma RecordFields(b: seq<byte>, at: nat, c: Coord)
    requires at + 24 <= |b| && b[at..at + 24] == CoordBytes(c)
    ensures CoordAt(b, at) == c
  {
    forall k | 0 <= k < 8
      ensures b[at + k] == c.x[k] && b[at + 8 + k] == c.y[k]
    {
      assert b[at..at + 24][k] == b[at + k];
      assert b[at..at + 24][8 + k] == b[at + 8 + k];
    }
    assert b[at..at + 8] == c.x;
    assert b[at + 8..at + 16] == c.y;
  }

  /** A record reads the same from a prefix that contains it. */
  lemma CoordAtPrefix(b: seq<byte>, at: nat, hi: nat)
    requires at + 24 <= hi <= |b|
    ensures CoordAt(b[..hi], at) == CoordAt(b, at)
  {
    SliceOfTake(b, at, at + 8, hi);
    SliceOfTake(b, at + 8, at + 16, hi);
  }

  /** Decoding the XYZ records of a ring gives its coordinates back. */
  lemma {:induction false} CoordsOfCoordsBytes(cs: seq<Coord>)
    ensures CoordsOf(CoordsBytes(cs), |cs|) == cs
  {
    if cs != [] {
      var n := |cs|;
      var init := cs[..n - 1];
      var b := CoordsBytes(cs);
      AppendSplit(CoordsBytes(init), CoordBytes(cs[n - 1]), 24 * (n - 1), 24 * (n - 1) + 24);
      RecordFields(b, 24 * (n - 1), cs[n - 1]);
      CoordsOfCoordsBytes(init);
      ButLast(cs);
    }
  }

  lemma ModBelow(a: nat, m: nat)
    requires m > 0
    ensures a % m <= a
  {
  }

  lemma ModOfSmall(a: nat, m: nat)
    requires a < m
    ensures a % m == a
  {
  }

  // ---- the writer ----

  /** An ILWIS-3 file being written (std::ofstream in binary mode). */
  class OutputFile {
    var data: seq<byte>

    constructor()
      ensures data == []
    {
      data := [];
    }

    method Write(bytes: seq<byte>)
      modifies this
      ensures data == old(data) + bytes
    {
      data := data + bytes;
    }
  }

  /** The quint32 byte count crdCount*8*3 of writeCoords for n
      coordinates: the product wraps round at 2^32. */
  function ByteCount(n: nat): (m: nat)
    ensures m <= 24 * n
    ensures 24 * n < U32Limit ==> m == 24 * n
  {
    ModBelow(24 * n, U32Limit);
    (24 * n) % U32Limit
  }

  /** The quint32 product computed from the already wrapped count gives
      the same byte count. */
  lemma WrappedByteCount(n: nat)
    ensures ((n % U32Limit) * 8 * 3) % U32Limit == ByteCount(n)
  {
    var q := n / U32Limit;
    var r := n % U32Limit;
    assert 24 * n == 24 * r + U32Limit * (24 * q);
    ModMultiple(24 * r, 24 * q);
  }

  lemma ModMultiple(a: nat, k: nat)
    ensures (a + U32Limit * k) % U32Limit == a % U32Limit
  {
  }

  /** What writeCoords puts in the file: the coordinate count as a
      quint32 (left out for a singleton), then the XYZ records. The byte
      count is quint32 arithmetic, so for 2^32/24 coordinates or more
      only a wrapped-round prefix of the records is written. */
  function EncodeCoords(coords: seq<Coord>, singleton: bool): seq<byte> {
    var records := CoordsBytes(coords)[..ByteCount(|coords|)];
    if singleton then records else LittleEndian(|coords| % U32Limit, 4) + records
  }

  /** Below the wrap-round, writeCoords writes the count and every
      record: 4 + 24 * n bytes, or 24 * n for a singleton. */
  lemma EncodeCoordsLayout(coords: seq<Coord>, singleton: bool)
    requires 24 * |coords| < U32Limit
    ensures !singleton ==> EncodeCoords(coords, singleton) == LittleEndian(|coords|, 4) + CoordsBytes(coords)
    ensures singleton ==> EncodeCoords(coords, singleton) == CoordsBytes(coords)
    ensures |EncodeCoords(coords, singleton)| == (if singleton then 0 else 4) + 24 * |coords|
  {
    var n := |coords|;
    ModOfSmall(n, U32Limit);
    TakeAll(CoordsBytes(coords), ByteCount(n));
  }

  /** writeCoords. */
  method WriteCoords(out: OutputFile, coords: seq<Coord>, singleton: bool)
    modifies out
    ensures out.data == old(out.data) + EncodeCoords(coords, singleton)
  {
    var crdCount := |coords| % U32Limit;
    if !singleton {
      out.Write(LittleEndian(crdCount, 4));
    }
    var crds := FillRecords(coords);
    WrappedByteCount(|coords|);
    out.Write(crds[..(crdCount * 8 * 3) % U32Limit]);
  }

  /** The loop of writeCoords filling the XYZ vector. */
  method FillRecords(coords: seq<Coord>) returns (crds: seq<byte>)
    ensures crds == CoordsBytes(coords)
  {
    crds := [];
    var i := 0;
    while i < |coords|
      invariant 0 <= i <= |coords|
      invariant crds == CoordsBytes(coords[..i])
    {
      TakeTake(coords, i, i + 1);
      crds := crds + CoordBytes(coords[i]);
      i := i + 1;
    }
    TakeAll(coords, i);
  }

  function EncodeRings(rings: seq<Ring>): seq<byte> {
    if rings == [] then [] else EncodeCoords(rings[0], false) + EncodeRings(rings[1..])
  }

  /** One polygon record: outer ring, the 8-byte raw id, the hole count
      as a quint32 and each hole. */
  function PolygonRecord(p: Polygon, raw: nat): seq<byte> {
    EncodeCoords(p.outer, false) + FromNat(raw) + LittleEndian(|p.inners| % U32Limit, 4) + EncodeRings(p.inners)
  }

  /** Records written one after the other, item i with raw id raw + i. */
  function Numbered<T>(items: seq<T>, raw: nat, rec: (T, nat) -> seq<byte>): seq<byte> {
    if items == [] then [] else rec(items[0], raw) + Numbered(items[1..], raw + 1, rec)
  }

  /** Writing two runs of records one after the other, the second
      numbered on from the first. */
  lemma {:induction false} NumberedAppend<T>(a: seq<T>, b: seq<T>, raw: nat, rec: (T, nat) -> seq<byte>)
    ensures Numbered(a + b, raw, rec) == Numbered(a, raw, rec) + Numbered(b, raw + |a|, rec)
  {
    if a == [] {
      assert a + b == b;
    } else {
      assert (a + b)[1..] == a[1..] + b;
      NumberedAppend(a[1..], b, raw + 1, rec);
      SeqAssoc(rec(a[0], raw), Numbered(a[1..], raw + 1, rec), Numbered(b, raw + |a|, rec));
    }
  }

  lemma NumberedLast<T>(a: seq<T>, x: T, raw: nat, rec: (T, nat) -> seq<byte>)
    ensures Numbered(a + [x], raw, rec) == Numbered(a, raw, rec) + rec(x, raw + |a|)
  {
    NumberedAppend(a, [x], raw, rec);
    assert Numbered([x], raw + |a|, rec) == rec(x, raw + |a|) + [];
  }

  /** A feature of the coverage as the writer sees it: its geometry and
      how many times it is repeated along its track (trackSize). */
  datatype StoredFeature = StoredFeature(geometry: Geom, trackSize: nat)

  function Repeat<T>(x: T, n: nat): (xs: seq<T>)
    ensures |xs| == n
  {
    if n == 0 then [] else [x] + Repeat(x, n - 1)
  }

  /** The polygons one feature contributes to the file: its polygon once
      per track position, nothing for another geometry. */
  function Track(f: StoredFeature): seq<Polygon> {
    if f.geometry.PolygonGeom? then Repeat(f.geometry.polygon, f.trackSize) else []
  }

  /** The polygon records storeBinaryDataPolygon writes for fs, in order. */
  function Flatten(fs: seq<StoredFeature>): seq<Polygon> {
    if fs == [] then [] else Flatten(fs[..|fs| - 1]) + Track(fs[|fs| - 1])
  }

  lemma FlattenStep(fs: seq<StoredFeature>, k: nat)
    requires k < |fs|
    ensures Flatten(fs[..k + 1]) == Flatten(fs[..k]) + Track(fs[k])
  {
    TakeTake(fs, k, k + 1);
  }

  /** The polygon file storeBinaryDataPolygon writes for features fs:
      the records of Flatten(fs) with raw ids counting from 1. */
  function EncodeFeatures(fs: seq<StoredFeature>): seq<byte> {
    Numbered(Flatten(fs), 1, PolygonRecord)
  }

  /** storeBinaryDataPolygon: every polygon feature is written trackSize
      times, each record with the next raw id starting at 1; other
      geometries are skipped. */
  method StoreBinaryDataPolygon(out: OutputFile, fs: seq<StoredFeature>)
    modifies out
    ensures out.data == old(out.data) + EncodeFeatures(fs)
  {
    StoreFeatures(out, fs, PolygonRecord);
  }

  /** The feature loop of storeBinaryDataPolygon, proved against a rec
      that is the record layout (see RecordsAre). */
  method StoreFeatures(out: OutputFile, fs: seq<StoredFeature>, ghost rec: (Polygon, nat) -> seq<byte>)
    requires RecordsAre(rec)
    modifies out
    ensures out.data == old(out.data) + Numbered(Flatten(fs), 1, rec)
  {
    var raw: nat := 1;
    var k := 0;
    while k < |fs|
      invariant 0 <= k <= |fs|
      invariant raw == 1 + |Flatten(fs[..k])|
      invariant out.data == old(out.data) + Numbered(Flatten(fs[..k]), 1, rec)
    {
      FlattenStep(fs, k);
      ghost var done := Numbered(Flatten(fs[..k]), 1, rec);
      raw := StoreFeature(out, fs[k], raw, rec);
      NumberedAppend(Flatten(fs[..k]), Track(fs[k]), 1, rec);
      SeqAssoc(old(out.data), done, Numbered(Track(fs[k]), 1 + |Flatten(fs[..k])|, rec));
      k := k + 1;
    }
    TakeAll(fs, |fs|);
  }

  /** The body of storeBinaryDataPolygon for one feature: its polygon
      once per track position, or nothing for another geometry (the
      geometry test, made once per track position in C++, is made once
      here). */
  method StoreFeature(out: OutputFile, f: StoredFeature, raw: nat, ghost rec: (Polygon, nat) -> seq<byte>)
      returns (next: nat)
    requires RecordsAre(rec)
    modifies out
    ensures next == raw + |Track(f)|
    ensures out.data == old(out.data) + Numbered(Track(f), raw, rec)
  {
    if f.geometry.PolygonGeom? {
      WriteTrack(out, f.geometry.polygon, raw, f.trackSize, rec);
      next := raw + f.trackSize;
    } else {
      next := raw;
      AppendEmpty(old(out.data));
    }
  }

  /** rec is the polygon record layout. WriteTrack and WriteNext are
      proved against such a rec rather than against PolygonRecord itself:
      the loop only needs to know that each turn appends rec(pol, id),
      and the layout's bytes are looked at only where WritePolygon
      writes them. */
  ghost predicate RecordsAre(rec: (Polygon, nat) -> seq<byte>) {
    forall p: Polygon, k: nat {:trigger PolygonRecord(p, k)} :: rec(p, k) == PolygonRecord(p, k)
  }

  /** The track loop of storeBinaryDataPolygon for a polygon feature. */
  method WriteTrack(out: OutputFile, pol: Polygon, raw: nat, trackSize: nat, ghost rec: (Polygon, nat) -> seq<byte>)
    requires RecordsAre(rec)
    modifies out
    ensures out.data == old(out.data) + Numbered(Repeat(pol, trackSize), raw, rec)
  {
    var id := raw;
    var i := 0;
    var left := trackSize;
    while i < trackSize
      invariant 0 <= i <= trackSize && id == raw + i && left == trackSize - i
      invariant out.data + Copies(pol, id, left, rec) == old(out.data) + Copies(pol, raw, trackSize, rec)
    {
      WriteNext(out, pol, id, left, rec);
      id := id + 1;
      i := i + 1;
      left := left - 1;
    }
    CopiesNumbered(pol, raw, trackSize, rec);
  }

  /** One turn of the track loop: the record of the next copy, after
      which n - 1 copies remain. */
  method WriteNext(out: OutputFile, pol: Polygon, id: nat, n: nat, ghost rec: (Polygon, nat) -> seq<byte>)
    requires n > 0 && RecordsAre(rec)
    modifies out
    ensures out.data + Copies(pol, id + 1, n - 1, rec) == old(out.data) + Copies(pol, id, n, rec)
  {
    WritePolygon(out, pol, id);
    CopiesUnfold(pol, id, n, rec);
    SeqAssoc(old(out.data), rec(pol, id), Copies(pol, id + 1, n - 1, rec));
  }

  lemma CopiesUnfold<T>(x: T, raw: nat, n: nat, rec: (T, nat) -> seq<byte>)
    requires n > 0
    ensures Copies(x, raw, n, rec) == rec(x, raw) + Copies(x, raw + 1, n - 1, rec)
  {
  }

  /** n records of the same item numbered from raw. */
  function Copies<T>(x: T, raw: nat, n: nat, rec: (T, nat) -> seq<byte>): seq<byte>
    decreases n
  {
    if n == 0 then [] else rec(x, raw) + Copies(x, raw + 1, n - 1, rec)
  }

  lemma {:induction false} CopiesNumbered<T>(x: T, raw: nat, n: nat, rec: (T, nat) -> seq<byte>)
    ensures Copies(x, raw, n, rec) == Numbered(Repeat(x, n), raw, rec)
    decreases n
  {
    if n > 0 {
      CopiesNumbered(x, raw + 1, n - 1, rec);
      var xs := Repeat(x, n);
      assert xs[0] == x && xs[1..] == Repeat(x, n - 1);
    }
  }

  /** One polygon record of storeBinaryDataPolygon. */
  method WritePolygon(out: OutputFile, pol: Polygon, raw: nat)
    modifies out
    ensures out.data == old(out.data) + PolygonRecord(pol, raw)
  {
    ghost var before := out.data;
    WriteCoords(out, pol.outer, false);
    var rawBytes := FromNat(raw);
    out.Write(rawBytes);
    var holeCount := |pol.inners| % U32Limit;
    out.Write(LittleEndian(holeCount, 4));
    WriteRings(out, pol.inners);
    AppendAssoc(before, EncodeCoords(pol.outer, false), rawBytes, LittleEndian(holeCount, 4), EncodeRings(pol.inners));
  }

  /** The loop over the holes of a polygon in storeBinaryDataPolygon. */
  method WriteRings(out: OutputFile, rings: seq<Ring>)
    modifies out
    ensures out.data == old(out.data) + EncodeRings(rings)
  {
    var j := 0;
    while j < |rings|
      invariant 0 <= j <= |rings|
      invariant out.data + EncodeRings(rings[j..]) == old(out.data) + EncodeRings(rings)
    {
      DropOne(rings, j);
      ghost var before := out.data;
      ghost var ring := EncodeCoords(rings[j], false);
      ghost var tail := EncodeRings(rings[j + 1..]);
      assert EncodeRings(rings[j..]) == ring + tail;
      WriteCoords(out, rings[j], false);
      SeqAssoc(before, ring, tail);
      j := j + 1;
    }
  }

  // ---- the reader ----

  /** The int length readRawData receives for a ring of `count`
      coordinates: the quint32 product count*3*8 wraps round and is then
      taken as a signed int. */
  function RequestedLength(count: nat): (len: int)
    ensures len < 0 || len <= 24 * count
    ensures 24 * count < 0x8000_0000 ==> len == 24 * count
  {
    ModBelow(count * 24, U32Limit);
    var w := (count * 24) % U32Limit;
    if w >= 0x8000_0000 then w - U32Limit else w
  }

  /** The bytes QDataStream::readRawData(buf, len) delivers from the
      unread input: at most len, fewer at the end, none for len <= 0. */
  function Take(input: seq<byte>, len: int): (got: seq<byte>)
    ensures |got| <= |input| && got == input[..|got|]
    ensures len >= 0 ==> |got| <= len
    ensures 0 <= len <= |input| ==> |got| == len
  {
    if len <= 0 then [] else if len <= |input| then input[..len] else input
  }

  /** The value readRawData returns: the byte count, -1 for a negative
      length. */
  function RawResult(got: seq<byte>, len: int): int {
    if len < 0 then -1 else |got|
  }

  /** The input stream of a polygon file: the bytes not read yet. */
  class DataStream {
    var unread: seq<byte>

    constructor(bytes: seq<byte>)
      ensures unread == bytes
    {
      unread := bytes;
    }

    method ReadRawData(len: int) returns (n: int, got: seq<byte>)
      modifies this
      ensures got == Take(old(unread), len) && n == RawResult(got, len)
      ensures unread == old(unread)[|got|..]
    {
      got := Take(unread, len);
      n := RawResult(got, len);
      unread := unread[|got|..];
    }
  }

  /** What readRing returns, the ring it fills and the input left. */
  datatype RingRead = RingRead(ok: bool, ring: Ring, rest: seq<byte>)

  /** readRing: fails, leaving the ring empty, when not a byte of the
      count can be read. A count read short is completed with zero bytes,
      and so are coordinates past the end of the data (the XYZ vector is
      zero-initialised). */
  function ReadRingSpec(input: seq<byte>): (r: RingRead)
    ensures !r.ok <==> input == []
    ensures !r.ok ==> r.ring == [] && r.rest == input
  {
    if input == [] then RingRead(false, [], input)
    else
      var got := Take(input, 4);
      var count := FromLittleEndian(ZeroPadded(got, 4));
      var afterCount := input[|got|..];
      var pts := Take(afterCount, RequestedLength(count));
      RingRead(true, CoordsOf(ZeroPadded(pts, 24 * count), count), afterCount[|pts|..])
  }

  /** readRing, reading from the stream. */
  method ReadRing(s: DataStream) returns (ok: bool, ring: Ring)
    modifies s
    ensures RingRead(ok, ring, s.unread) == ReadRingSpec(old(s.unread))
  {
    var n, got := s.ReadRawData(4);
    if n <= 0 {
      return false, [];
    }
    var numberOfCoords := FromLittleEndian(ZeroPadded(got, 4));
    var m, pts := s.ReadRawData(RequestedLength(numberOfCoords));
    ring := DecodeCoords(ZeroPadded(pts, 24 * numberOfCoords), numberOfCoords);
    ok := true;
  }

  /** The loop of readRing copying the x and y of each XYZ record. */
  method DecodeCoords(pnts: seq<byte>, n: nat) returns (ring: Ring)
    requires |pnts| == 24 * n
    ensures ring == CoordsOf(pnts, n)
  {
    ring := [];
    var i := 0;
    while i < n
      invariant 0 <= i <= n
      invariant ring == CoordsOf(pnts[..24 * i], i)
    {
      TakeTake(pnts, 24 * i, 24 * (i + 1));
      CoordAtPrefix(pnts, 24 * i, 24 * (i + 1));
      ring := ring + [Coord(pnts[24 * i..24 * i + 8], pnts[24 * i + 8..24 * i + 16])];
      i := i + 1;
    }
    TakeAll(pnts, 24 * n);
  }

  /** The holes of a polygon: `count` rings read one after the other. */
  function ReadRingsSpec(input: seq<byte>, count: nat): (r: (seq<Ring>, seq<byte>))
    ensures |r.0| == count
    decreases count
  {
    if count == 0 then ([], input)
    else
      var first := ReadRingSpec(input);
      var next := ReadRingsSpec(first.rest, count - 1);
      ([first.ring] + next.0, next.1)
  }

  /** One polygon as loadBinaryPolygons37 reads it, with its 8-byte value
      and the input left. */
  datatype PolygonRead = PolygonRead(polygon: Polygon, value: Double, rest: seq<byte>)

  function ReadPolygonSpec(input: seq<byte>): PolygonRead {
    var outer := ReadRingSpec(input);
    var valueBytes := Take(outer.rest, 8);
    var afterValue := outer.rest[|valueBytes|..];
    var holeBytes := Take(afterValue, 4);
    var holes := ReadRingsSpec(afterValue[|holeBytes|..], FromLittleEndian(ZeroPadded(holeBytes, 4)));
    PolygonRead(Polygon(outer.ring, holes.0), ZeroPadded(valueBytes, 8), holes.1)
  }

  /** loadBinaryPolygons37 from polygon j on, for nrPolygons polygons. */
  function Load37Spec(input: seq<byte>, j: nat, nrPolygons: int, isNumeric: bool): seq<Loaded>
    decreases nrPolygons - j
  {
    if j >= nrPolygons then []
    else
      var p := ReadPolygonSpec(input);
      [Keyed(isNumeric, j, PolygonGeom(p.polygon), p.value)] + Load37Spec(p.rest, j + 1, nrPolygons, isNumeric)
  }

  /** The hole loop of loadBinaryPolygons37. */
  lemma ReadRingsUnfold(input: seq<byte>, count: nat)
    requires count > 0
    ensures ReadRingsSpec(input, count).0 == [ReadRingSpec(input).ring] + ReadRingsSpec(ReadRingSpec(input).rest, count - 1).0
    ensures ReadRingsSpec(input, count).1 == ReadRingsSpec(ReadRingSpec(input).rest, count - 1).1
  {
  }

  method ReadRings(s: DataStream, count: nat) returns (rings: seq<Ring>)
    modifies s
    ensures (rings, s.unread) == ReadRingsSpec(old(s.unread), count)
  {
    rings := ReadRingsBy(s, count, ReadRingsSpec);
  }

  /** spec is the hole reader ReadRingsSpec. The hole loop is proved
      against such a spec, so that the reader is unfolded one ring at a
      time only. */
  ghost predicate RingReadersAre(spec: (seq<byte>, nat) -> (seq<Ring>, seq<byte>)) {
    forall input: seq<byte>, count: nat {:trigger ReadRingsSpec(input, count)} ::
      spec(input, count) == ReadRingsSpec(input, count)
  }

  method ReadRingsBy(s: DataStream, count: nat, ghost spec: (seq<byte>, nat) -> (seq<Ring>, seq<byte>))
      returns (rings: seq<Ring>)
    requires RingReadersAre(spec)
    modifies s
    ensures (rings, s.unread) == spec(old(s.unread), count)
  {
    ghost var target := spec(s.unread, count);
    rings := [];
    var left := count;
    while left > 0
      invariant rings + spec(s.unread, left).0 == target.0
      invariant spec(s.unread, left).1 == target.1
    {
      var ring := ReadNextRing(s, left, spec);
      SeqAssoc(rings, [ring], spec(s.unread, left - 1).0);
      rings := rings + [ring];
      left := left - 1;
    }
    assert spec(s.unread, 0) == ReadRingsSpec(s.unread, 0);
    AppendEmpty(rings);
  }

  /** One pass of the hole loop: the next ring, and the holes still to be
      read after it. */
  method ReadNextRing(s: DataStream, left: nat, ghost spec: (seq<byte>, nat) -> (seq<Ring>, seq<byte>))
      returns (ring: Ring)
    requires left > 0 && RingReadersAre(spec)
    modifies s
    ensures [ring] + spec(s.unread, left - 1).0 == spec(old(s.unread), left).0
    ensures spec(s.unread, left - 1).1 == spec(old(s.unread), left).1
  {
    ReadRingsUnfold(s.unread, left);
    var _, r := ReadRing(s);
    ring := r;
  }

  /** One polygon of loadBinaryPolygons37: outer ring, value, hole count
      and holes. */
  method ReadPolygon(s: DataStream) returns (pol: Polygon, value: Double)
    modifies s
    ensures PolygonRead(pol, value, s.unread) == ReadPolygonSpec(old(s.unread))
  {
    var _, outer := ReadRing(s);
    var _, valueBytes := s.ReadRawData(8);
    value := ZeroPadded(valueBytes, 8);
    var _, holeBytes := s.ReadRawData(4);
    var numberOfHoles := FromLittleEndian(ZeroPadded(holeBytes, 4));
    var inners := ReadRings(s, numberOfHoles);
    pol := Polygon(outer, inners);
  }

  /** loadBinaryPolygons37 after the data file is open: reads nrPolygons
      polygons (the coverage's polygon count) and creates one feature per
      polygon; readRing's result is not looked at. */
  method LoadBinaryPolygons37(s: DataStream, nrPolygons: int, isNumeric: bool) returns (features: seq<Loaded>)
    modifies s
    ensures features == Load37Spec(old(s.unread), 0, nrPolygons, isNumeric)
  {
    features := [];
    var j := 0;
    while j < nrPolygons
      invariant 0 <= j
      invariant features + Load37Spec(s.unread, j, nrPolygons, isNumeric) == Load37Spec(old(s.unread), 0, nrPolygons, isNumeric)
      decreases nrPolygons - j
    {
      var f := LoadNext(s, j, nrPolygons, isNumeric);
      SeqAssoc(features, [f], Load37Spec(s.unread, j + 1, nrPolygons, isNumeric));
      features := features + [f];
      j := j + 1;
    }
  }

  /** One turn of the loop of loadBinaryPolygons37. */
  method LoadNext(s: DataStream, j: nat, nrPolygons: int, isNumeric: bool) returns (f: Loaded)
    requires j < nrPolygons
    modifies s
    ensures [f] + Load37Spec(s.unread, j + 1, nrPolygons, isNumeric) == Load37Spec(old(s.unread), j, nrPolygons, isNumeric)
  {
    Load37Unfold(s.unread, j, nrPolygons, isNumeric);
    var pol, value := ReadPolygon(s);
    f := Keyed(isNumeric, j, PolygonGeom(pol), value);
  }

  lemma Load37Unfold(input: seq<byte>, j: nat, nrPolygons: int, isNumeric: bool)
    requires j < nrPolygons
    ensures Load37Spec(input, j, nrPolygons, isNumeric)
      == [Keyed(isNumeric, j, PolygonGeom(ReadPolygonSpec(input).polygon), ReadPolygonSpec(input).value)]
         + Load37Spec(ReadPolygonSpec(input).rest, j + 1, nrPolygons, isNumeric)
  {
  }
}
