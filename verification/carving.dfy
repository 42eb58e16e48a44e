/** The generator's carving primitive: the nested loops that set every
    cell of a rectangle to floor, used for room interiors, whole small
    rooms and the one-cell-wide corridor runs. */
module Carving {
  import opened Paths
  import opened Grid
  import opened Rooms

  /** The cells a new room opens up: the interior, one cell in from each
      side, when the room is more than two cells wide and high; otherwise
      the whole rectangle. */
  function CarveRegion(r: Rect): Rect {
    if r.x2 - r.x1 > 2 && r.y2 - r.y1 > 2 then Rect(r.x1 + 1, r.y1 + 1, r.x2 - 1, r.y2 - 1) else r
  }

  /** The carved cells of a non-empty room lie inside the room, and there
      is at least one. */
  lemma CarveRegionInside(r: Rect)
    requires NonEmpty(r)
    ensures NonEmpty(CarveRegion(r))
    ensures forall c :: CellInRoom(c, CarveRegion(r)) ==> CellInRoom(c, r)
  {
  }

  /** Every open cell of g is still open in h, and h has g's shape. */
  ghost predicate Widens(g: Grid, h: Grid) {
    |h| == |g| && Cols(h) == Cols(g) && forall c :: IsOpen(g, c) ==> IsOpen(h, c)
  }

  /** Every cell of the rectangle is open. */
  ghost predicate RectOpen(g: Grid, r: Rect) {
    forall c :: CellInRoom(c, r) ==> IsOpen(g, c)
  }

  /** The rectangle lies inside the grid. */
  predicate Fits(g: Grid, r: Rect) {
    0 <= r.x1 && r.x2 <= Cols(g) && 0 <= r.y1 && r.y2 <= |g|
  }

  lemma WidensTrans(a: Grid, b: Grid, c: Grid)
    requires Widens(a, b) && Widens(b, c)
    ensures Widens(a, c)
  {
  }

  /** Widening keeps an open rectangle open. */
  lemma RectOpenKeeps(g: Grid, h: Grid, r: Rect)
    requires RectOpen(g, r) && Widens(g, h)
    ensures RectOpen(h, r)
  {
  }

  /** One row of the inner loop: columns [x1, x2) become floor. */
  method FillRow(row: seq<char>, x1: int, x2: int) returns (out: seq<char>)
    requires 0 <= x1 && x2 <= |row|
    ensures |out| == |row|
    ensures forall j :: 0 <= j < |row| ==> out[j] == (if x1 <= j < x2 then ' ' else row[j])
  {
    out := row;
    var j := x1;
    while j < x2
      invariant if x1 <= x2 then x1 <= j <= x2 else j == x1
      invariant |out| == |row|
      invariant forall k :: 0 <= k < |row| ==> out[k] == (if x1 <= k < j then ' ' else row[k])
    {
      out := out[j := ' '];
      j := j + 1;
    }
  }

  /** Sets every cell of r to floor and leaves the rest alone. */
  method Fill(g: Grid, r: Rect) returns (h: Grid)
    requires NonEmpty(r) ==> Fits(g, r)
    ensures |h| == |g| && Cols(h) == Cols(g)
    ensures forall c :: InBounds(h, c) ==> At(h, c) == (if CellInRoom(c, r) then ' ' else At(g, c))
  {
    h := g;
    if !NonEmpty(r) {
      return;
    }
    var i := r.y1;
    while i < r.y2
      invariant r.y1 <= i <= r.y2
      invariant |h| == |g| && Cols(h) == Cols(g)
      invariant forall c :: InBounds(h, c) ==>
                  At(h, c) == (if CellInRoom(c, r) && c.1 < i then ' ' else At(g, c))
    {
      var row := FillRow(h[i], r.x1, r.x2);
      h := h[i := row];
      i := i + 1;
    }
  }

  /** What Fill guarantees beyond the cell values: open cells stay open and
      the rectangle becomes open. */
  lemma FillOpens(g: Grid, h: Grid, r: Rect)
    requires NonEmpty(r) ==> Fits(g, r)
    requires |h| == |g| && Cols(h) == Cols(g)
    requires forall c :: InBounds(h, c) ==> At(h, c) == (if CellInRoom(c, r) then ' ' else At(g, c))
    ensures Widens(g, h) && RectOpen(h, r)
  {
    forall c | IsOpen(g, c) ensures IsOpen(h, c) {
      assert InBounds(h, c);
    }
    forall c | CellInRoom(c, r) ensures IsOpen(h, c) {
      assert InBounds(h, c);
    }
  }
}
