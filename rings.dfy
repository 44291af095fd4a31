/** Ring reconstruction from the chain network of an ILWIS-3 topological
    polygon map (featureconnector.cpp, getRings and
    isForwardStartDirection). */
module Rings {
  import opened Wrappers
  import opened Geometry

  /** iUNDEF, ILWIS's undefined 32-bit integer. */
  const IUndef: int := -2147483647

  function Abs(n: int): (r: nat)
    ensures r == n || r == -n
  {
    if n < 0 then -n else n
  }

  /** The topology ("top") table of a polygon map, as read through
      BinaryIlwis3Table::get: the coordinates of a chain (looked up with
      the row number exactly as the code passes it, signed or not) and the
      raw ForwardLink and BackwardLink values of a row, already truncated
      to qint32. */
  datatype TopTable = TopTable(
    coords: int -> seq<Coord>,
    forwardLink: nat -> int,
    backwardLink: nat -> int)

  function Front(s: seq<Coord>): Option<Coord> {
    if s == [] then None else Some(s[0])
  }

  function Back(s: seq<Coord>): Option<Coord> {
    if s == [] then None else Some(s[|s| - 1])
  }

  /** Two chain ends are equal. The end of an empty vector is undefined
      in C++; the model lets it match nothing. */
  predicate Meets(a: Option<Coord>, b: Option<Coord>) {
    a.Some? && a == b
  }

  /** The link as isForwardStartDirection uses it: one less than the raw
      value, unless the raw value is iUNDEF. */
  function StartLink(raw: int): (l: int)
    ensures raw == IUndef ==> l == IUndef
    ensures raw != IUndef ==> l + 1 == raw
  {
    if raw == IUndef then raw else raw - 1
  }

  /** Whether the walk round a polygon leaves its start chain along the
      forward links. */
  function IsForwardStartDirection(t: TopTable, index: int): (forward: bool)
    ensures Abs(StartLink(t.forwardLink(Abs(index)))) == Abs(StartLink(t.backwardLink(Abs(index)))) ==> forward
    ensures Abs(StartLink(t.forwardLink(Abs(index)))) != Abs(StartLink(t.backwardLink(Abs(index)))) && index < 0
            ==> !forward
    ensures index >= 0 && Abs(StartLink(t.forwardLink(Abs(index)))) != Abs(StartLink(t.backwardLink(Abs(index))))
            ==> var fwl := StartLink(t.forwardLink(Abs(index)));
                forward == if fwl > 0 then Meets(Back(t.coords(Abs(index))), Front(t.coords(Abs(fwl))))
                           else Meets(Back(t.coords(Abs(index))), Back(t.coords(Abs(fwl))))
  {
    var fwl := StartLink(t.forwardLink(Abs(index)));
    var bwl := StartLink(t.backwardLink(Abs(index)));
    if Abs(fwl) == Abs(bwl) then true
    else if index < 0 then false
    else
      var startLine := t.coords(Abs(index));
      var forwardLine := t.coords(Abs(fwl));
      if fwl > 0 then Meets(Back(startLine), Front(forwardLine))
      else Meets(Back(startLine), Back(forwardLine))
  }

  /** One update of the ring buffer with the coordinates of the chain just
      visited: the buffer is overwritten by the chain, as stored or
      reversed, or kept when no end of the chain touches it. */
  function StepBuffer(ring: seq<Coord>, coords: seq<Coord>): (r: seq<Coord>)
    ensures r == ring || r == coords || r == Reverse(coords)
    ensures (coords == [] || IsClosed(coords)) ==> r == coords
    ensures coords != [] && !IsClosed(coords) ==>
              if Meets(Back(coords), Back(ring)) || Meets(Front(ring), Front(coords)) then r == Reverse(coords)
              else if Meets(Front(ring), Back(coords)) then r == coords
              else r == ring
  {
    if coords == [] || coords[|coords| - 1] == coords[0] then coords
    else if Meets(Back(coords), Back(ring)) then Reverse(coords)
    else if Meets(Front(ring), Front(coords)) then Reverse(coords)
    else if Meets(Front(ring), Back(coords)) then coords
    else ring
  }

  /** The buffer holds a finished ring: first and last coordinate equal
      and more than three coordinates. */
  predicate ClosesRing(ring: seq<Coord>) {
    |ring| > 3 && ring[0] == ring[|ring| - 1]
  }

  /** A buffer can only become a finished ring in one step by being
      replaced with a chain that is itself a finished ring. */
  lemma StepBufferCloses(ring: seq<Coord>, coords: seq<Coord>)
    ensures ClosesRing(StepBuffer(ring, coords)) ==>
              StepBuffer(ring, coords) == ring || (StepBuffer(ring, coords) == coords && ClosesRing(coords))
  {
    ReverseClosed(coords);
  }

  /** The row the walk moves to: the raw link of |row| in the current
      direction. */
  function NextRow(t: TopTable, row: int, forward: bool): int {
    if forward then t.forwardLink(Abs(row)) else t.backwardLink(Abs(row))
  }

  /** How a walk ends: with the rings found, on the corrupt-data guard
      (false in C++), or, in the model only, when the step bound runs out
      where the C++ loop would go on. */
  datatype Outcome = Rings(rings: seq<Ring>) | Corrupt | OutOfSteps

  /** The remaining walk from `row` with direction `forward`, ring buffer
      `ring` and rings found so far `acc`, for at most `fuel` more chains. */
  function Walk(t: TopTable, start: int, row: int, forward: bool, ring: seq<Coord>,
                acc: seq<Ring>, fuel: nat): Outcome
    decreases fuel, 0
  {
    if fuel == 0 then OutOfSteps else Visit(t, start, row, forward, ring, acc, fuel - 1)
  }

  /** One chain of the walk: update the buffer with chain `row`, emit the
      ring if it closed, follow the link, and walk on with `fuel` more
      chains unless the walk ends here. */
  function Visit(t: TopTable, start: int, row: int, forward: bool, ring: seq<Coord>,
                 acc: seq<Ring>, fuel: nat): Outcome
    decreases fuel, 1
  {
    var buffer := StepBuffer(ring, t.coords(row));
    var acc' := if ClosesRing(buffer) then acc + [Dedup(buffer, UndefCoord)] else acc;
    var ring' := if ClosesRing(buffer) then [] else buffer;
    var next := NextRow(t, row, forward);
    if next == row && next != start then Corrupt
    else if Abs(next) == Abs(start) || next == IUndef then Rings(acc')
    else Walk(t, start, next, next > 0, ring', acc', fuel)
  }

  /** getRings(start) with a bound of `fuel` chains. */
  function GetRingsSpec(t: TopTable, start: int, fuel: nat): Outcome {
    Walk(t, start, start, IsForwardStartDirection(t, start), [], [], fuel)
  }

  /** The direction is decided by the start row alone: its two links, its
      own chain and the chain its forward link names. */
  lemma StartDirectionIsLocal(t: TopTable, u: TopTable, index: int)
    requires u.forwardLink(Abs(index)) == t.forwardLink(Abs(index))
    requires u.backwardLink(Abs(index)) == t.backwardLink(Abs(index))
    requires u.coords(Abs(index)) == t.coords(Abs(index))
    requires var fwl := StartLink(t.forwardLink(Abs(index)));
             u.coords(Abs(fwl)) == t.coords(Abs(fwl))
    ensures IsForwardStartDirection(u, index) == IsForwardStartDirection(t, index)
  {
  }

  /** A walk that ends within its step bound ends the same way with any
      larger bound: the bound only cuts off walks the C++ loop would go
      on with. */
  lemma {:induction false} WalkFuelMonotone(t: TopTable, start: int, row: int, forward: bool,
                                            ring: seq<Coord>, acc: seq<Ring>, fuel: nat, more: nat)
    requires !Walk(t, start, row, forward, ring, acc, fuel).OutOfSteps?
    ensures Walk(t, start, row, forward, ring, acc, fuel + more) == Walk(t, start, row, forward, ring, acc, fuel)
    decreases fuel, 0
  {
    if fuel > 0 {
      VisitFuelMonotone(t, start, row, forward, ring, acc, fuel - 1, more);
    }
  }

  lemma {:induction false} VisitFuelMonotone(t: TopTable, start: int, row: int, forward: bool,
                                             ring: seq<Coord>, acc: seq<Ring>, fuel: nat, more: nat)
    requires !Visit(t, start, row, forward, ring, acc, fuel).OutOfSteps?
    ensures Visit(t, start, row, forward, ring, acc, fuel + more) == Visit(t, start, row, forward, ring, acc, fuel)
    decreases fuel, 1
  {
    var buffer := StepBuffer(ring, t.coords(row));
    var acc' := if ClosesRing(buffer) then acc + [Dedup(buffer, UndefCoord)] else acc;
    var ring' := if ClosesRing(buffer) then [] else buffer;
    var next := NextRow(t, row, forward);
    if !(next == row && next != start) && !(Abs(next) == Abs(start) || next == IUndef) {
      WalkFuelMonotone(t, start, next, next > 0, ring', acc', fuel, more);
    }
  }

  /** getRings within its bound gives the same rings with any larger
      bound. */
  lemma GetRingsFuelMonotone(t: TopTable, start: int, fuel: nat, more: nat)
    requires !GetRingsSpec(t, start, fuel).OutOfSteps?
    ensures GetRingsSpec(t, start, fuel + more) == GetRingsSpec(t, start, fuel)
  {
    WalkFuelMonotone(t, start, start, IsForwardStartDirection(t, start), [], [], fuel, more);
  }

  /** The duplicate-removal loop of getRings. */
  method DedupRing(ring: seq<Coord>) returns (ring2d: seq<Coord>)
    ensures ring2d == Dedup(ring, UndefCoord)
  {
    ring2d := [];
    var crdOld := UndefCoord;
    var i := 0;
    while i < |ring|
      invariant 0 <= i <= |ring|
      invariant ring2d + Dedup(ring[i..], crdOld) == Dedup(ring, UndefCoord)
    {
      var crd := ring[i];
      assert ring[i..] == [crd] + ring[i + 1..];
      if crd != crdOld {
        ring2d := ring2d + [crd];
        crdOld := crd;
      }
      i := i + 1;
    }
  }

  /** The buffer update at the top of each step of getRings. */
  method UpdateBuffer(ring: seq<Coord>, coords: seq<Coord>) returns (r: seq<Coord>)
    ensures r == StepBuffer(ring, coords)
  {
    r := ring;
    if |coords| == 0 || coords[|coords| - 1] == coords[0] {
      r := coords;
    } else if |ring| > 0 && coords[|coords| - 1] == ring[|ring| - 1] {
      r := Reverse(coords);
    } else if |ring| > 0 && ring[0] == coords[0] {
      r := Reverse(coords);
    } else if |ring| > 0 && ring[0] == coords[|coords| - 1] {
      r := coords;
    }
  }

  /** getRings: walks the chain network from `start`, collecting every
      ring that closes, for at most `fuel` chains. */
  method GetRings(t: TopTable, start: int, fuel: nat) returns (result: Outcome)
    ensures result == GetRingsSpec(t, start, fuel)
  {
    var row := start;
    var forward := IsForwardStartDirection(t, start);
    var ring: seq<Coord> := [];
    var rings: seq<Ring> := [];
    var steps := fuel;
    while true
      invariant Walk(t, start, row, forward, ring, rings, steps) == GetRingsSpec(t, start, fuel)
      decreases steps
    {
      if steps == 0 {
        return OutOfSteps;
      }
      var done;
      done, result, row, forward, ring, rings := VisitChain(t, start, row, forward, ring, rings, steps - 1);
      if done {
        return;
      }
      steps := steps - 1;
    }
  }

  /** One turn of the getRings loop: update the buffer with chain `row`,
      emit the ring if it closed, and follow the link. Either the walk
      ends here with `result`, or it goes on from the new state. */
  method VisitChain(t: TopTable, start: int, row: int, forward: bool, ring: seq<Coord>,
                    rings: seq<Ring>, steps: nat)
    returns (done: bool, result: Outcome, row': int, forward': bool, ring': seq<Coord>, rings': seq<Ring>)
    ensures done ==> result == Visit(t, start, row, forward, ring, rings, steps)
    ensures !done ==> Walk(t, start, row', forward', ring', rings', steps)
                      == Visit(t, start, row, forward, ring, rings, steps)
  {
    ring' := UpdateBuffer(ring, t.coords(row));
    rings' := rings;
    if |ring'| > 3 && ring'[0] == ring'[|ring'| - 1] {
      var ring2d := DedupRing(ring');
      rings' := rings' + [ring2d];
      ring' := [];
    }
    row' := if forward then t.forwardLink(Abs(row)) else t.backwardLink(Abs(row));
    forward' := row' > 0;
    done := true;
    result := Corrupt;
    if row == row' && row' != start {
      return;
    }
    if Abs(row') == Abs(start) || row' == IUndef {
      result := Rings(rings');
      return;
    }
    done := false;
  }

  // ---- what the walk produces ----

  /** r is the duplicate-free form of a single chain of the table that is
      a finished ring by itself. */
  ghost predicate ChainRing(t: TopTable, r: Ring) {
    exists row :: ClosesRing(t.coords(row)) && r == Dedup(t.coords(row), UndefCoord)
  }

  ghost predicate AllChainRings(t: TopTable, rs: seq<Ring>) {
    forall i :: 0 <= i < |rs| ==> ChainRing(t, rs[i])
  }

  /** One visit adds at most one ring to the rings found, and only one
      that is a whole chain. */
  lemma VisitEmitsChainRing(t: TopTable, ring: seq<Coord>, row: int, acc: seq<Ring>)
    requires !ClosesRing(ring) && AllChainRings(t, acc)
    ensures var buffer := StepBuffer(ring, t.coords(row));
            AllChainRings(t, if ClosesRing(buffer) then acc + [Dedup(buffer, UndefCoord)] else acc)
  {
    var buffer := StepBuffer(ring, t.coords(row));
    StepBufferCloses(ring, t.coords(row));
    if ClosesRing(buffer) {
      var acc' := acc + [Dedup(buffer, UndefCoord)];
      assert ChainRing(t, acc'[|acc|]);
      assert forall i :: 0 <= i < |acc| ==> acc'[i] == acc[i];
    }
  }

  lemma {:induction false} WalkEmitsChainRings(t: TopTable, start: int, row: int, forward: bool,
                                               ring: seq<Coord>, acc: seq<Ring>, fuel: nat)
    requires !ClosesRing(ring) && AllChainRings(t, acc)
    ensures Walk(t, start, row, forward, ring, acc, fuel).Rings? ==>
              AllChainRings(t, Walk(t, start, row, forward, ring, acc, fuel).rings)
    decreases fuel, 0
  {
    if fuel > 0 {
      VisitEmitsChainRings(t, start, row, forward, ring, acc, fuel - 1);
    }
  }

  /** The rings a visit ends with, or walks on to, are all single chains. */
  lemma {:induction false} VisitEmitsChainRings(t: TopTable, start: int, row: int, forward: bool,
                                                ring: seq<Coord>, acc: seq<Ring>, fuel: nat)
    requires !ClosesRing(ring) && AllChainRings(t, acc)
    ensures Visit(t, start, row, forward, ring, acc, fuel).Rings? ==>
              AllChainRings(t, Visit(t, start, row, forward, ring, acc, fuel).rings)
    decreases fuel, 1
  {
    var result := Visit(t, start, row, forward, ring, acc, fuel);
    var buffer := StepBuffer(ring, t.coords(row));
    var acc' := if ClosesRing(buffer) then acc + [Dedup(buffer, UndefCoord)] else acc;
    var ring' := if ClosesRing(buffer) then [] else buffer;
    VisitEmitsChainRing(t, ring, row, acc);
    assert AllChainRings(t, acc');
    var next := NextRow(t, row, forward);
    if next == row && next != start {
      assert result == Corrupt;
    } else if Abs(next) == Abs(start) || next == IUndef {
      assert result == Rings(acc');
    } else {
      assert result == Walk(t, start, next, next > 0, ring', acc', fuel);
      assert !ClosesRing(ring');
      WalkEmitsChainRings(t, start, next, next > 0, ring', acc', fuel);
    }
  }

  /** Every ring getRings emits is one chain of the table that closes on
      itself, with consecutive duplicates removed. Because each step
      overwrites the buffer, a ring made of several open chains is never
      assembled. */
  lemma EmittedRingsAreSingleChains(t: TopTable, start: int, fuel: nat)
    ensures GetRingsSpec(t, start, fuel).Rings? ==>
              forall i :: 0 <= i < |GetRingsSpec(t, start, fuel).rings| ==>
                ChainRing(t, GetRingsSpec(t, start, fuel).rings[i])
  {
    WalkEmitsChainRings(t, start, start, IsForwardStartDirection(t, start), [], [], fuel);
  }

  /** An emitted ring has no two equal consecutive coordinates, removing
      duplicates from it again changes nothing, and it keeps the order of
      its chain's coordinates. */
  lemma ChainRingShape(t: TopTable, r: Ring)
    requires ChainRing(t, r)
    ensures NoAdjacentDuplicates(r)
    ensures Dedup(r, UndefCoord) == r
    ensures exists row :: ClosesRing(t.coords(row)) && IsSubsequence(r, t.coords(row))
  {
    var row :| ClosesRing(t.coords(row)) && r == Dedup(t.coords(row), UndefCoord);
    DedupNoAdjacentDuplicates(t.coords(row), UndefCoord);
    DedupIdempotent(t.coords(row), UndefCoord);
    DedupIsSubsequence(t.coords(row), UndefCoord);
  }

  /** A table whose chains are all open yields no ring at all. */
  lemma OpenChainsYieldNoRings(t: TopTable, start: int, fuel: nat)
    requires forall row :: !ClosesRing(t.coords(row))
    ensures GetRingsSpec(t, start, fuel).Rings? ==> GetRingsSpec(t, start, fuel).rings == []
  {
    WalkOverOpenChains(t, start, start, IsForwardStartDirection(t, start), [], fuel);
  }

  lemma {:induction false} WalkOverOpenChains(t: TopTable, start: int, row: int, forward: bool,
                                              ring: seq<Coord>, fuel: nat)
    requires forall row :: !ClosesRing(t.coords(row))
    requires !ClosesRing(ring)
    ensures Walk(t, start, row, forward, ring, [], fuel).Rings? ==>
              Walk(t, start, row, forward, ring, [], fuel).rings == []
    decreases fuel
  {
    if fuel > 0 {
      var buffer := StepBuffer(ring, t.coords(row));
      StepBufferCloses(ring, t.coords(row));
      var next := NextRow(t, row, forward);
      if !(next == row && next != start) && !(Abs(next) == Abs(start) || next == IUndef) {
        WalkOverOpenChains(t, start, next, next > 0, buffer, fuel - 1);
      }
    }
  }

  /** An island: a start chain whose link in the chosen direction leads
      straight back to it yields exactly that chain as its only ring when
      it closes, and no ring otherwise. */
  lemma IslandChain(t: TopTable, start: int, fuel: nat)
    requires fuel > 0
    requires Abs(NextRow(t, start, IsForwardStartDirection(t, start))) == Abs(start)
    ensures ClosesRing(t.coords(start)) ==>
              GetRingsSpec(t, start, fuel) == Rings([Dedup(t.coords(start), UndefCoord)])
    ensures !ClosesRing(t.coords(start)) ==> GetRingsSpec(t, start, fuel) == Rings([])
  {
    var c := t.coords(start);
    var forward := IsForwardStartDirection(t, start);
    assert GetRingsSpec(t, start, fuel) == Visit(t, start, start, forward, [], [], fuel - 1);
    if !ClosesRing(c) {
      var b := StepBuffer([], c);
      assert !ClosesRing(b);
    }
  }

  /** Inside the cycle 1 -> 2 -> 1 entered from start chain 3 the walk
      never ends: the self-loop guard only catches a chain linked to
      itself, and neither 1 nor 2 is the start. */
  lemma {:induction false} CycleNeverEnds(t: TopTable, row: int, ring: seq<Coord>, acc: seq<Ring>, fuel: nat)
    requires t.forwardLink(1) == 2 && t.forwardLink(2) == 1
    requires row == 1 || row == 2
    ensures Walk(t, 3, row, true, ring, acc, fuel) == OutOfSteps
    decreases fuel
  {
    if fuel > 0 {
      var b := StepBuffer(ring, t.coords(row));
      var acc' := if ClosesRing(b) then acc + [Dedup(b, UndefCoord)] else acc;
      var ring' := if ClosesRing(b) then [] else b;
      assert NextRow(t, row, true) == 3 - row;
      CycleNeverEnds(t, 3 - row, ring', acc', fuel - 1);
    }
  }

  /** getRings from chain 3, whose links both lead into the cycle
      1 -> 2 -> 1, does not terminate for any step bound. */
  lemma CycleAfterStart(t: TopTable, fuel: nat)
    requires t.forwardLink(1) == 2 && t.forwardLink(2) == 1
    requires t.forwardLink(3) == 1 && t.backwardLink(3) == 1
    ensures GetRingsSpec(t, 3, fuel) == OutOfSteps
  {
    assert IsForwardStartDirection(t, 3);
    if fuel > 0 {
      assert GetRingsSpec(t, 3, fuel) == Visit(t, 3, 3, true, [], [], fuel - 1);
      var none: seq<Ring> := [];
      var b := StepBuffer([], t.coords(3));
      var acc' := if ClosesRing(b) then none + [Dedup(b, UndefCoord)] else none;
      assert NextRow(t, 3, true) == 1;
      var ring' := if ClosesRing(b) then [] else b;
      CycleNeverEnds(t, 1, ring', acc', fuel - 1);
    }
  }

  /** A chain other than the start whose link leads to itself makes the
      walk stop on the corrupt-data guard. */
  lemma SelfLinkIsCorrupt(t: TopTable, start: int, row: int, forward: bool,
                          ring: seq<Coord>, acc: seq<Ring>, fuel: nat)
    requires fuel > 0 && row != start
    requires NextRow(t, row, forward) == row
    ensures Walk(t, start, row, forward, ring, acc, fuel) == Corrupt
  {
    assert Visit(t, start, row, forward, ring, acc, fuel - 1) == Corrupt;
    assert Walk(t, start, row, forward, ring, acc, fuel) == Visit(t, start, row, forward, ring, acc, fuel - 1);
  }
}
