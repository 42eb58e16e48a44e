/** The dungeon grid as the searches see it: a list of equal-length rows of
    characters, '#' wall, ' ' floor, 'E' exit and 'B' blackened wall, indexed
    as grid[y][x]. */
module Grid {
  import opened Paths

  /** Every row is as long as the first one. */
  predicate Rectangular(g: seq<seq<char>>) {
    forall i :: 0 <= i < |g| ==> |g[i]| == |g[0]|
  }

  type Grid = g: seq<seq<char>> | Rectangular(g) witness []

  /** The width, read from the first row as the source does. */
  function Cols(g: Grid): nat {
    if |g| == 0 then 0 else |g[0]|
  }

  predicate InBounds(g: Grid, c: Cell) {
    0 <= c.0 < Cols(g) && 0 <= c.1 < |g|
  }

  function At(g: Grid, c: Cell): char
    requires InBounds(g, c)
  {
    g[c.1][c.0]
  }

  /** The grid with the cell c set to ch. */
  function SetAt(g: Grid, c: Cell, ch: char): (h: Grid)
    requires InBounds(g, c)
    ensures |h| == |g| && Cols(h) == Cols(g)
    ensures At(h, c) == ch
    ensures forall d :: InBounds(g, d) && d != c ==> At(h, d) == At(g, d)
  {
    g[c.1 := g[c.1][c.0 := ch]]
  }

  /** Traversable: floor or exit. Walls and blackened walls are not. */
  predicate IsOpen(g: Grid, c: Cell) {
    InBounds(g, c) && (At(g, c) == ' ' || At(g, c) == 'E')
  }

  predicate IsFloor(g: Grid, c: Cell) {
    InBounds(g, c) && At(g, c) == ' '
  }

  function Abs(n: int): nat {
    if n < 0 then -n else n
  }

  function Manhattan(a: Cell, b: Cell): nat {
    Abs(a.0 - b.0) + Abs(a.1 - b.1)
  }

  /** heuristic: the distance is symmetric and vanishes only between equal
      cells. */
  lemma ManhattanMetric(a: Cell, b: Cell)
    ensures Manhattan(a, b) == Manhattan(b, a)
    ensures Manhattan(a, b) == 0 <==> a == b
  {
  }

  /** The four cardinal neighbours in the order the source lists them:
      right, left, down, up. */
  function Around(c: Cell): seq<Cell> {
    [(c.0 + 1, c.1), (c.0 - 1, c.1), (c.0, c.1 + 1), (c.0, c.1 - 1)]
  }

  lemma AroundIsDistanceOne(c: Cell, n: Cell)
    ensures n in Around(c) <==> Manhattan(c, n) == 1
  {
  }

  /** The single traversability rule of every search: n is a cardinal
      neighbour of c that is floor or exit. */
  predicate Adjacent(g: Grid, c: Cell, n: Cell) {
    Manhattan(c, n) == 1 && IsOpen(g, n)
  }

  /** The in-bounds cardinal neighbours of c that are floor or exit, in the
      order right, left, down, up. */
  function Neighbors(g: Grid, c: Cell): (ns: seq<Cell>)
    ensures |ns| <= 4
    ensures forall n :: n in ns <==> Adjacent(g, c, n)
  {
    var r := NeighborsFrom(g, c, 0);
    forall n ensures n in r <==> Adjacent(g, c, n) {
      AroundIsDistanceOne(c, n);
    }
    r
  }

  /** The open cells among the candidates Around(c)[k..]. */
  function NeighborsFrom(g: Grid, c: Cell, k: nat): (ns: seq<Cell>)
    requires k <= 4
    ensures |ns| <= 4 - k
    ensures forall n :: n in ns <==> n in Around(c)[k..] && IsOpen(g, n)
    decreases 4 - k
  {
    if k == 4 then []
    else
      var rest := NeighborsFrom(g, c, k + 1);
      assert Around(c)[k..] == [Around(c)[k]] + Around(c)[k+1..];
      if IsOpen(g, Around(c)[k]) then [Around(c)[k]] + rest else rest
  }

  function Step(g: Grid): Cell -> seq<Cell> {
    c => Neighbors(g, c)
  }

  ghost predicate IsPath(g: Grid, p: seq<Cell>, s: Cell, t: Cell) {
    IsPathBy(Step(g), p, s, t)
  }

  ghost predicate Reachable(g: Grid, s: Cell, t: Cell) {
    ReachableBy(Step(g), s, t)
  }

  function InBoundsCells(g: Grid): set<Cell> {
    set x, y | 0 <= x < Cols(g) && 0 <= y < |g| :: (x, y)
  }

  lemma InBoundsCellsExact(g: Grid, c: Cell)
    ensures c in InBoundsCells(g) <==> InBounds(g, c)
  {
    if InBounds(g, c) {
      var x, y := c.0, c.1;
      assert (x, y) in InBoundsCells(g);
    }
  }

  lemma StepConfined(g: Grid)
    ensures Confined(Step(g), InBoundsCells(g))
  {
    forall c, n | n in Step(g)(c) ensures n in InBoundsCells(g) {
      InBoundsCellsExact(g, n);
    }
  }

  /** Each step of a walk moves to a cardinal neighbour, so a walk's length
      bounds the Manhattan distance between any two of its cells. */
  lemma {:induction false} WalkDistance(step: Cell -> seq<Cell>, p: seq<Cell>, i: nat, j: nat)
    requires Walk(step, p)
    requires forall c, n :: n in step(c) ==> Manhattan(c, n) == 1
    requires i <= j < |p|
    ensures Manhattan(p[i], p[j]) <= j - i
  {
    if i < j {
      WalkDistance(step, p, i, j - 1);
      assert p[j] in step(p[j-1]);
    }
  }

  lemma StepIsUnit(g: Grid)
    ensures forall c, n :: n in Step(g)(c) ==> Manhattan(c, n) == 1
  {
    forall c, n | n in Step(g)(c) ensures Manhattan(c, n) == 1 {
      assert Adjacent(g, c, n);
    }
  }

  /** Row-major order: earlier row first, then earlier column. */
  predicate RowMajorBefore(a: Cell, b: Cell) {
    a.1 < b.1 || (a.1 == b.1 && a.0 < b.0)
  }

  ghost predicate HasExit(g: Grid) {
    exists c :: InBounds(g, c) && At(g, c) == 'E'
  }

  /** e is the first 'E' of the grid in row-major order. */
  ghost predicate FirstExit(g: Grid, e: Cell) {
    InBounds(g, e) && At(g, e) == 'E' &&
    forall c :: InBounds(g, c) && RowMajorBefore(c, e) ==> At(g, c) != 'E'
  }

  /** The scan shared by every find_exit_* entry point: rows top to bottom,
      columns left to right, stopping at the first 'E'. */
  method FindExit(g: Grid) returns (e: Option<Cell>)
    ensures e.None? <==> !HasExit(g)
    ensures e.Some? ==> FirstExit(g, e.value)
  {
    var y := 0;
    while y < |g|
      invariant 0 <= y <= |g|
      invariant forall c :: InBounds(g, c) && c.1 < y ==> At(g, c) != 'E'
    {
      var x := 0;
      while x < Cols(g)
        invariant 0 <= x <= Cols(g)
        invariant forall c :: InBounds(g, c) && (c.1 < y || (c.1 == y && c.0 < x)) ==> At(g, c) != 'E'
      {
        if g[y][x] == 'E' {
          e := Some((x, y));
          return;
        }
        x := x + 1;
      }
      y := y + 1;
    }
    e := None;
  }
}
