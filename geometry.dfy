/** Coordinates and geometries as the feature connector handles them:
    coordinates are only copied and compared for equality, so each
    ordinate is kept as the eight bytes of its double. */
module Geometry {
  import opened Bytes

  /** A 2D coordinate (Coordinate2d). Equality is bitwise equality of
      both doubles. */
  datatype Coord = Coord(x: Double, y: Double)

  /** rUNDEF = -1e308, the value of a default-constructed Coordinate. */
  const RUndef: Double := [0xa0, 0xc8, 0xeb, 0x85, 0xf3, 0xcc, 0xe1, 0xff]

  const UndefCoord: Coord := Coord(RUndef, RUndef)

  type Ring = seq<Coord>

  /** A polygon: one outer ring and any number of holes. */
  datatype Polygon = Polygon(outer: Ring, inners: seq<Ring>)

  /** The geometry of one feature. */
  datatype Geom =
    | PointGeom(point: Coord)
    | LineGeom(line: seq<Coord>)
    | PolygonGeom(polygon: Polygon)

  function Reverse(s: seq<Coord>): (r: seq<Coord>)
    ensures |r| == |s|
    ensures forall i :: 0 <= i < |s| ==> r[i] == s[|s| - 1 - i]
  {
    if s == [] then [] else Reverse(s[1..]) + [s[0]]
  }

  predicate IsClosed(s: seq<Coord>) {
    |s| > 0 && s[0] == s[|s| - 1]
  }

  lemma ReverseClosed(s: seq<Coord>)
    ensures IsClosed(Reverse(s)) <==> IsClosed(s)
  {
  }

  // ---- duplicate removal (featureconnector.cpp, the crdOld loop) ----

  /** The coordinates of s with every coordinate dropped that equals the
      one kept before it; `prev` plays the kept coordinate before s[0]. */
  function Dedup(s: seq<Coord>, prev: Coord): seq<Coord>
  {
    if s == [] then []
    else if s[0] == prev then Dedup(s[1..], prev)
    else [s[0]] + Dedup(s[1..], s[0])
  }

  predicate NoAdjacentDuplicates(s: seq<Coord>) {
    forall i :: 0 < i < |s| ==> s[i - 1] != s[i]
  }

  /** r can be obtained from s by deleting elements. */
  predicate IsSubsequence(r: seq<Coord>, s: seq<Coord>)
    decreases |s|
  {
    r == [] ||
    (s != [] && (IsSubsequence(r, s[1..]) || (r[0] == s[0] && IsSubsequence(r[1..], s[1..]))))
  }

  /** The deduplicated ring never repeats a coordinate twice in a row and
      never starts with `prev`. */
  lemma {:induction false} DedupNoAdjacentDuplicates(s: seq<Coord>, prev: Coord)
    ensures NoAdjacentDuplicates(Dedup(s, prev))
    ensures |Dedup(s, prev)| > 0 ==> Dedup(s, prev)[0] != prev
    ensures |Dedup(s, prev)| <= |s|
  {
    if s != [] {
      if s[0] == prev {
        DedupNoAdjacentDuplicates(s[1..], prev);
      } else {
        DedupNoAdjacentDuplicates(s[1..], s[0]);
      }
    }
  }

  /** The deduplicated ring keeps the order of the coordinates it keeps. */
  lemma {:induction false} DedupIsSubsequence(s: seq<Coord>, prev: Coord)
    ensures IsSubsequence(Dedup(s, prev), s)
  {
    if s != [] {
      if s[0] == prev {
        DedupIsSubsequence(s[1..], prev);
      } else {
        DedupIsSubsequence(s[1..], s[0]);
        var r := Dedup(s, prev);
        assert r[1..] == Dedup(s[1..], s[0]);
      }
    }
  }

  /** Only repetitions of the kept coordinate are dropped: every other
      coordinate of s is still there. */
  lemma {:induction false} DedupKeeps(s: seq<Coord>, prev: Coord, c: Coord)
    requires c in s && c != prev
    ensures c in Dedup(s, prev)
  {
    if s[0] == prev {
      DedupKeeps(s[1..], prev, c);
    } else if c != s[0] {
      DedupKeeps(s[1..], s[0], c);
    }
  }

  /** A ring without repeated neighbours that does not start with `prev`
      passes through unchanged. */
  lemma {:induction false} DedupFixpoint(s: seq<Coord>, prev: Coord)
    requires NoAdjacentDuplicates(s)
    requires |s| > 0 ==> s[0] != prev
    ensures Dedup(s, prev) == s
  {
    if s != [] {
      DedupFixpoint(s[1..], s[0]);
      assert s == [s[0]] + s[1..];
    }
  }

  /** Removing duplicates twice changes nothing. */
  lemma DedupIdempotent(s: seq<Coord>, prev: Coord)
    ensures Dedup(Dedup(s, prev), prev) == Dedup(s, prev)
  {
    DedupNoAdjacentDuplicates(s, prev);
    DedupFixpoint(Dedup(s, prev), prev);
  }

  /** A ring that does not start with `prev` keeps its first and last
      coordinate, so a closed ring stays closed. */
  lemma {:induction false} DedupEnds(s: seq<Coord>, prev: Coord)
    requires |s| > 0 && s[0] != prev
    ensures |Dedup(s, prev)| > 0
    ensures Dedup(s, prev)[0] == s[0]
    ensures Dedup(s, prev)[|Dedup(s, prev)| - 1] == s[|s| - 1]
    decreases |s|, 0
  {
    if |s| > 1 {
      DedupTailLast(s[1..], s[0]);
    }
  }

  /** The deduplicated tail ends with the last coordinate of t, or is
      empty when every coordinate of t equals `prev`. */
  lemma {:induction false} DedupTailLast(t: seq<Coord>, prev: Coord)
    requires |t| > 0
    ensures Dedup(t, prev) == [] ==> t[|t| - 1] == prev
    ensures Dedup(t, prev) != [] ==> Dedup(t, prev)[|Dedup(t, prev)| - 1] == t[|t| - 1]
    decreases |t|, 1
  {
    if t[0] == prev {
      if |t| > 1 {
        DedupTailLast(t[1..], prev);
      }
    } else {
      DedupEnds(t, prev);
    }
  }
}
