/** The three grid helpers of the 3D viewer: the largest connected region
    of floor cells (flood fill), the floor cell nearest to a position (a
    breadth-first search through every in-bounds cell) and the room or
    corridor classification of a position. */
module Helpers {
  import opened Paths
  import opened Grid
  import opened Rooms
  import Bfs

  /** The cells a flood may enter: floor only (the component search), or
      any in-bounds cell (the nearest-floor search). */
  datatype Mode = FloorOnly | AnyCell

  predicate Admits(g: Grid, c: Cell, m: Mode) {
    match m
    case FloorOnly => IsFloor(g, c)
    case AnyCell => InBounds(g, c)
  }

  /** The admitted cells among Around(c)[k..]. */
  function CardinalFrom(g: Grid, c: Cell, m: Mode, k: nat): (ns: seq<Cell>)
    requires k <= 4
    ensures forall n :: n in ns <==> n in Around(c)[k..] && Admits(g, n, m)
    decreases 4 - k
  {
    if k == 4 then []
    else
      var rest := CardinalFrom(g, c, m, k + 1);
      assert Around(c)[k..] == [Around(c)[k]] + Around(c)[k+1..];
      if Admits(g, Around(c)[k], m) then [Around(c)[k]] + rest else rest
  }

  /** The admitted cardinal neighbours of c. */
  function Cardinal(g: Grid, c: Cell, m: Mode): (ns: seq<Cell>)
    ensures forall n :: n in ns <==> Manhattan(c, n) == 1 && Admits(g, n, m)
  {
    var r := CardinalFrom(g, c, m, 0);
    forall n ensures n in r <==> Manhattan(c, n) == 1 && Admits(g, n, m) {
      AroundIsDistanceOne(c, n);
    }
    r
  }

  function StepBy(g: Grid, m: Mode): Cell -> seq<Cell> {
    c => Cardinal(g, c, m)
  }

  lemma StepByConfined(g: Grid, m: Mode)
    ensures Confined(StepBy(g, m), InBoundsCells(g))
  {
    forall c, n | n in StepBy(g, m)(c) ensures n in InBoundsCells(g) {
      InBoundsCellsExact(g, n);
    }
  }

  /** The floor cells reachable from s through floor cells: the component
      of s. */
  ghost function Component(g: Grid, s: Cell): set<Cell> {
    set c | c in InBoundsCells(g) && ReachableBy(StepBy(g, FloorOnly), s, c)
  }

  function Reverse(p: seq<Cell>): (r: seq<Cell>)
    ensures |r| == |p| && forall i :: 0 <= i < |p| ==> r[i] == p[|p| - 1 - i]
  {
    seq(|p|, i requires 0 <= i < |p| => p[|p| - 1 - i])
  }

  /** Every cell of a floor walk from a floor cell is floor. */
  lemma {:induction false} FloorWalkFloor(g: Grid, p: seq<Cell>, i: nat)
    requires |p| > 0 && IsFloor(g, p[0]) && Walk(StepBy(g, FloorOnly), p)
    requires i < |p|
    ensures IsFloor(g, p[i])
  {
    if i > 0 {
      FloorWalkFloor(g, p, i - 1);
      assert p[i] in StepBy(g, FloorOnly)(p[i-1]);
    }
  }

  /** A floor step from a floor cell can be taken back. */
  lemma FloorStepBack(g: Grid, c: Cell, n: Cell)
    requires IsFloor(g, c) && n in StepBy(g, FloorOnly)(c)
    ensures c in StepBy(g, FloorOnly)(n)
  {
    assert Manhattan(c, n) == 1;
    assert Manhattan(n, c) == 1;
  }

  /** Floor steps can be taken backwards, so a floor walk reversed is a
      floor walk. */
  lemma ReverseFloorPath(g: Grid, p: seq<Cell>, s: Cell, t: Cell)
    requires IsFloor(g, s) && IsPathBy(StepBy(g, FloorOnly), p, s, t)
    ensures IsPathBy(StepBy(g, FloorOnly), Reverse(p), t, s)
  {
    var r := Reverse(p);
    forall i | 0 <= i < |r| - 1 ensures r[i+1] in StepBy(g, FloorOnly)(r[i]) {
      var j := |p| - 2 - i;
      assert r[i] == p[j+1] && r[i+1] == p[j];
      FloorWalkFloor(g, p, j);
      FloorStepBack(g, p[j], p[j+1]);
    }
  }

  /** Cells of one component share it. */
  lemma ComponentShared(g: Grid, s: Cell, t: Cell)
    requires IsFloor(g, s) && t in Component(g, s)
    ensures IsFloor(g, t) && Component(g, t) == Component(g, s)
  {
    var step := StepBy(g, FloorOnly);
    var p :| IsPathBy(step, p, s, t);
    FloorWalkFloor(g, p, |p| - 1);
    ReverseFloorPath(g, p, s, t);
    forall c | c in Component(g, t) ensures c in Component(g, s) {
      var q :| IsPathBy(step, q, t, c);
      PathJoin(step, p, q, s, t, c);
    }
    forall c | c in Component(g, s) ensures c in Component(g, t) {
      var q :| IsPathBy(step, q, s, c);
      PathJoin(step, Reverse(p), q, t, s, c);
    }
  }

  /** A component is a connected region closed under floor steps: a whole
      4-connected region of floor. */
  lemma ComponentIsRegion(g: Grid, s: Cell)
    requires IsFloor(g, s)
    ensures s in Component(g, s)
    ensures forall c :: c in Component(g, s) ==> IsFloor(g, c)
    ensures Closed(StepBy(g, FloorOnly), Component(g, s))
    ensures forall a, b :: a in Component(g, s) && b in Component(g, s) ==> ReachableBy(StepBy(g, FloorOnly), a, b)
  {
    var step := StepBy(g, FloorOnly);
    InBoundsCellsExact(g, s);
    assert IsPathBy(step, [s], s, s);
    forall c | c in Component(g, s) ensures IsFloor(g, c) {
      ComponentShared(g, s, c);
    }
    forall c, n | c in Component(g, s) && n in step(c) ensures n in Component(g, s) {
      var p :| IsPathBy(step, p, s, c);
      PathSnoc(step, p, s, c, n);
      StepByConfined(g, FloorOnly);
    }
    forall a, b | a in Component(g, s) && b in Component(g, s) ensures ReachableBy(step, a, b) {
      ComponentShared(g, s, a);
    }
  }

  function Never(c: Cell): bool {
    false
  }

  /** The breadth-first flood from a floor cell through floor cells (the
      inner loop of compute_largest_component): it collects exactly the
      component. */
  method Flood(g: Grid, s: Cell) returns (comp: set<Cell>)
    requires IsFloor(g, s)
    ensures comp == Component(g, s)
  {
    var step := StepBy(g, FloorOnly);
    StepByConfined(g, FloorOnly);
    InBoundsCellsExact(g, s);
    var path, reached := Bfs.Search(step, InBoundsCells(g), s, Never);
    assert path == [];
    comp := reached;
    forall c | c in Component(g, s) ensures c in comp {
      var p :| IsPathBy(step, p, s, c);
      ClosedBoundsReach(step, reached, s, p);
    }
  }

  /** c comes before (x, y) in the row-major scan. */
  predicate Before(c: Cell, x: int, y: int) {
    c.1 < y || (c.1 == y && c.0 < x)
  }

  /** The state of the scan at (x, y): visited is a union of whole
      components that covers every floor cell scanned so far; largest is
      the component of seed, no smaller than any visited one, and strictly
      larger than any whose cells come before seed. */
  ghost predicate ScanInv(g: Grid, x: int, y: int, visited: set<Cell>, largest: set<Cell>, seed: Cell) {
    Covered(g, x, y, visited) && Best(g, x, y, visited, largest, seed)
  }

  /** visited is a closed set of floor cells holding every floor cell
      before (x, y). */
  ghost predicate Covered(g: Grid, x: int, y: int, visited: set<Cell>) {
    && (forall c :: c in visited ==> IsFloor(g, c))
    && Closed(StepBy(g, FloorOnly), visited)
    && (forall c :: IsFloor(g, c) && Before(c, x, y) ==> c in visited)
  }

  ghost predicate Best(g: Grid, x: int, y: int, visited: set<Cell>, largest: set<Cell>, seed: Cell) {
    && (forall c :: c in visited ==> |Component(g, c)| <= |largest|)
    && (largest == {} <==> visited == {})
    && (visited != {} ==> seed in visited && largest == Component(g, seed) && Before(seed, x, y))
    && (forall c :: c in visited && RowMajorBefore(c, seed) ==> |Component(g, c)| < |largest|)
  }

  /** The first floor cell of a component that the scan meets unvisited
      is its first cell in row-major order, and the component is disjoint
      from what was visited. */
  lemma SeedIsFirst(g: Grid, x: int, y: int, visited: set<Cell>, largest: set<Cell>, seed: Cell, t: Cell)
    requires ScanInv(g, x, y, visited, largest, seed)
    requires IsFloor(g, (x, y)) && (x, y) !in visited
    requires t in Component(g, (x, y))
    ensures !RowMajorBefore(t, (x, y)) && t !in visited
  {
    var step := StepBy(g, FloorOnly);
    ComponentIsRegion(g, (x, y));
    if RowMajorBefore(t, (x, y)) || t in visited {
      assert t in visited;
      var p :| IsPathBy(step, p, t, (x, y));
      ClosedBoundsReach(step, visited, t, p);
    }
  }

  /** A cell that is not floor, or already visited, leaves the state as
      it is. */
  lemma ScanSkip(g: Grid, x: int, y: int, visited: set<Cell>, largest: set<Cell>, seed: Cell)
    requires ScanInv(g, x, y, visited, largest, seed)
    requires IsFloor(g, (x, y)) ==> (x, y) in visited
    ensures ScanInv(g, x + 1, y, visited, largest, seed)
  {
    forall c | IsFloor(g, c) && Before(c, x + 1, y) ensures c in visited {
      if c != (x, y) {
        assert Before(c, x, y);
      }
    }
  }

  lemma ClosedUnion(step: Cell -> seq<Cell>, A: set<Cell>, B: set<Cell>)
    requires Closed(step, A) && Closed(step, B)
    ensures Closed(step, A + B)
  {
  }

  /** Every cell of a new component has the component as its own. */
  ghost predicate WholeComponent(g: Grid, comp: set<Cell>, s: Cell, visited: set<Cell>) {
    forall t :: t in comp ==> !RowMajorBefore(t, s) && t !in visited && Component(g, t) == comp
  }

  lemma NewComponentFacts(g: Grid, x: int, y: int, visited: set<Cell>, largest: set<Cell>, seed: Cell)
    requires ScanInv(g, x, y, visited, largest, seed)
    requires IsFloor(g, (x, y)) && (x, y) !in visited
    ensures WholeComponent(g, Component(g, (x, y)), (x, y), visited)
  {
    var s := (x, y);
    forall t | t in Component(g, s)
      ensures !RowMajorBefore(t, s) && t !in visited && Component(g, t) == Component(g, s)
    {
      SeedIsFirst(g, x, y, visited, largest, seed, t);
      ComponentShared(g, s, t);
    }
  }

  /** The size and tie parts of the state after adding a component. */
  lemma AddBest(g: Grid, x: int, y: int, visited: set<Cell>, largest: set<Cell>, seed: Cell,
                comp: set<Cell>, largest': set<Cell>, seed': Cell)
    requires Best(g, x, y, visited, largest, seed)
    requires WholeComponent(g, comp, (x, y), visited) && (x, y) in comp
    requires largest' == (if |comp| > |largest| then comp else largest)
    requires seed' == (if |comp| > |largest| then (x, y) else seed)
    ensures Best(g, x + 1, y, visited + comp, largest', seed')
  {
    assert |comp| > 0;
  }

  /** An unvisited floor cell's component joins the visited cells and
      replaces the largest only if strictly larger. */
  lemma ScanAdd(g: Grid, x: int, y: int, visited: set<Cell>, largest: set<Cell>, seed: Cell,
                comp: set<Cell>, largest': set<Cell>, seed': Cell)
    requires ScanInv(g, x, y, visited, largest, seed)
    requires IsFloor(g, (x, y)) && (x, y) !in visited
    requires comp == Component(g, (x, y))
    requires largest' == (if |comp| > |largest| then comp else largest)
    requires seed' == (if |comp| > |largest| then (x, y) else seed)
    ensures ScanInv(g, x + 1, y, visited + comp, largest', seed')
  {
    ComponentIsRegion(g, (x, y));
    NewComponentFacts(g, x, y, visited, largest, seed);
    AddBest(g, x, y, visited, largest, seed, comp, largest', seed');
    AddCovered(g, x, y, visited, comp);
  }

  lemma AddCovered(g: Grid, x: int, y: int, visited: set<Cell>, comp: set<Cell>)
    requires Covered(g, x, y, visited)
    requires (x, y) in comp && Closed(StepBy(g, FloorOnly), comp)
    requires forall c :: c in comp ==> IsFloor(g, c)
    ensures Covered(g, x + 1, y, visited + comp)
  {
    ClosedUnion(StepBy(g, FloorOnly), visited, comp);
    ScanCovers(g, x, y, visited, comp);
  }

  lemma ScanCovers(g: Grid, x: int, y: int, visited: set<Cell>, comp: set<Cell>)
    requires forall c :: IsFloor(g, c) && Before(c, x, y) ==> c in visited
    requires (x, y) in comp
    ensures forall c :: IsFloor(g, c) && Before(c, x + 1, y) ==> c in visited + comp
  {
    forall c | IsFloor(g, c) && Before(c, x + 1, y) ensures c in visited + comp {
      if c != (x, y) {
        assert Before(c, x, y);
      }
    }
  }

  /** One cell of the scan: an unvisited floor cell starts a new
      component, which replaces the largest only if strictly larger. */
  method ScanCell(g: Grid, x: nat, y: nat, visited: set<Cell>, largest: set<Cell>, ghost seed: Cell)
    returns (visited': set<Cell>, largest': set<Cell>, ghost seed': Cell)
    requires x < Cols(g) && y < |g|
    requires ScanInv(g, x, y, visited, largest, seed)
    ensures ScanInv(g, x + 1, y, visited', largest', seed')
  {
    visited', largest', seed' := visited, largest, seed;
    if g[y][x] == ' ' && (x, y) !in visited {
      var comp := Flood(g, (x, y));
      visited' := visited + comp;
      if |comp| > |largest| {
        largest', seed' := comp, (x, y);
      }
      ScanAdd(g, x, y, visited, largest, seed, comp, largest', seed');
    } else {
      ScanSkip(g, x, y, visited, largest, seed);
    }
  }

  /** Passing the end of a row is starting the next one. */
  lemma RowEnd(g: Grid, y: int, visited: set<Cell>, largest: set<Cell>, seed: Cell)
    requires ScanInv(g, Cols(g), y, visited, largest, seed)
    ensures ScanInv(g, 0, y + 1, visited, largest, seed)
  {
  }

  /** L is the component of s, no floor component is larger, and every
      component met earlier in the row-major scan is strictly smaller: the
      first largest component the scan finds. */
  ghost predicate LargestAt(g: Grid, L: set<Cell>, s: Cell) {
    && IsFloor(g, s)
    && L == Component(g, s)
    && (forall c :: IsFloor(g, c) ==> |Component(g, c)| <= |L|)
    && (forall c :: IsFloor(g, c) && RowMajorBefore(c, s) ==> |Component(g, c)| < |L|)
  }

  lemma ScanDone(g: Grid, visited: set<Cell>, largest: set<Cell>, seed: Cell)
    requires ScanInv(g, 0, |g|, visited, largest, seed)
    ensures forall c :: c in largest ==> IsFloor(g, c)
    ensures largest == {} <==> forall c :: !IsFloor(g, c)
    ensures largest != {} ==> LargestAt(g, largest, seed)
  {
    if largest != {} {
      ComponentIsRegion(g, seed);
    } else {
      forall c ensures !IsFloor(g, c) {
        if IsFloor(g, c) {
          assert Before(c, 0, |g|);
        }
      }
    }
  }

  /** compute_largest_component: scans the grid row by row, floods each
      floor cell not yet visited, and keeps the first component of
      greatest size. */
  method LargestComponent(g: Grid) returns (largest: set<Cell>)
    ensures forall c :: c in largest ==> IsFloor(g, c)
    ensures largest == {} <==> forall c :: !IsFloor(g, c)
    ensures largest != {} ==> exists s :: LargestAt(g, largest, s)
  {
    var visited: set<Cell> := {};
    largest := {};
    ghost var seed: Cell := (0, 0);
    var y := 0;
    while y < |g|
      invariant 0 <= y <= |g|
      invariant ScanInv(g, 0, y, visited, largest, seed)
    {
      var x := 0;
      while x < Cols(g)
        invariant 0 <= x <= Cols(g)
        invariant ScanInv(g, x, y, visited, largest, seed)
      {
        visited, largest, seed := ScanCell(g, x, y, visited, largest, seed);
        x := x + 1;
      }
      RowEnd(g, y, visited, largest, seed);
      y := y + 1;
    }
    ScanDone(g, visited, largest, seed);
  }

  function FloorTest(g: Grid): Cell -> bool {
    c => IsFloor(g, c)
  }

  /** The cell one step from s towards t, moving along x first. */
  function Toward(s: Cell, t: Cell): (n: Cell)
    requires s != t
    ensures Manhattan(s, n) == 1 && Manhattan(n, t) + 1 == Manhattan(s, t)
  {
    if s.0 < t.0 then (s.0 + 1, s.1)
    else if s.0 > t.0 then (s.0 - 1, s.1)
    else if s.1 < t.1 then (s.0, s.1 + 1)
    else (s.0, s.1 - 1)
  }

  /** Any two in-bounds cells are joined, through in-bounds cells, by a
      walk of Manhattan distance steps. */
  lemma {:induction false} Stair(g: Grid, s: Cell, t: Cell) returns (p: seq<Cell>)
    requires InBounds(g, s) && InBounds(g, t)
    ensures IsPathBy(StepBy(g, AnyCell), p, s, t)
    ensures |p| == Manhattan(s, t) + 1
    decreases Manhattan(s, t)
  {
    var step := StepBy(g, AnyCell);
    if s == t {
      p := [s];
    } else {
      var n := Toward(s, t);
      assert InBounds(g, n);
      assert n in step(s);
      var q := Stair(g, n, t);
      PathSnoc(step, [s], s, s, n);
      PathJoin(step, [s, n], q, s, n, t);
      p := [s, n] + q[1..];
    }
  }

  /** find_nearest_floor: a breadth-first search from (x, y) through every
      in-bounds cell, stopping at the first floor cell dequeued; with no
      floor anywhere the position itself comes back. */
  method NearestFloor(x: int, y: int, g: Grid) returns (r: Cell)
    requires InBounds(g, (x, y))
    ensures IsFloor(g, (x, y)) ==> r == (x, y)
    ensures (exists c :: IsFloor(g, c)) ==>
              IsFloor(g, r) && forall c :: IsFloor(g, c) ==> Manhattan((x, y), r) <= Manhattan((x, y), c)
    ensures (forall c :: !IsFloor(g, c)) ==> r == (x, y)
  {
    var s := (x, y);
    var step := StepBy(g, AnyCell);
    InBoundsCellsExact(g, s);
    StepByConfined(g, AnyCell);
    var path, _ := Bfs.Search(step, InBoundsCells(g), s, FloorTest(g));
    if path == [] {
      r := s;
      forall c | IsFloor(g, c) ensures false {
        var p := Stair(g, s, c);
      }
    } else {
      r := path[|path| - 1];
      WalkDistance(step, path, 0, |path| - 1);
      forall c | IsFloor(g, c) ensures Manhattan(s, r) <= Manhattan(s, c) {
        var p := Stair(g, s, c);
      }
      if IsFloor(g, s) {
        assert Bfs.GoalPath(step, [s], s, FloorTest(g));
      }
    }
  }

  /** The area name for rooms[k..]: "room" if one of them holds the
      position, "corridor" otherwise. */
  function AreaTypeFrom(x: int, y: int, rooms: seq<Rect>, k: nat): (t: string)
    requires k <= |rooms|
    ensures t == "room" || t == "corridor"
    ensures t == "room" <==> exists i :: k <= i < |rooms| && CellInRoom((x, y), rooms[i])
    decreases |rooms| - k
  {
    if k == |rooms| then "corridor"
    else if CellInRoom((x, y), rooms[k]) then "room"
    else AreaTypeFrom(x, y, rooms, k + 1)
  }

  /** get_area_type: "room" exactly when some room holds the position. */
  function AreaType(x: int, y: int, rooms: seq<Rect>): (t: string)
    ensures t == "room" || t == "corridor"
    ensures t == "room" <==> exists i :: 0 <= i < |rooms| && CellInRoom((x, y), rooms[i])
  {
    AreaTypeFrom(x, y, rooms, 0)
  }
}
