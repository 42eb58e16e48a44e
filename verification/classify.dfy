/** The generator's last pass: a wall cell with no open cardinal neighbour
    that is not a corner of any room becomes 'B' (black). The source
    rewrites the grid in place while it scans; because only walls change,
    and only into another non-open character, the result is the same as
    classifying every cell against the grid as it was before the pass. */
module Classify {
  import opened Paths
  import opened Grid
  import opened Rooms

  /** c is one of the four corner cells of the room. */
  predicate IsCorner(c: Cell, r: Rect) {
    c == (r.x1, r.y1) || c == (r.x2 - 1, r.y1) || c == (r.x1, r.y2 - 1) || c == (r.x2 - 1, r.y2 - 1)
  }

  /** The loop over rooms[i..] that stops at the first room with c as a
      corner. */
  function CornerFrom(c: Cell, rooms: seq<Rect>, i: nat): (b: bool)
    requires i <= |rooms|
    ensures b <==> exists k :: i <= k < |rooms| && IsCorner(c, rooms[k])
    decreases |rooms| - i
  {
    if i == |rooms| then false
    else if IsCorner(c, rooms[i]) then true
    else CornerFrom(c, rooms, i + 1)
  }

  /** is_room_corner. */
  function CornerOfAny(c: Cell, rooms: seq<Rect>): (b: bool)
    ensures b <==> exists k :: 0 <= k < |rooms| && IsCorner(c, rooms[k])
  {
    CornerFrom(c, rooms, 0)
  }

  /** adjacent_open: some in-bounds cardinal neighbour holds ' ' or 'E'. */
  function OpenAround(g: Grid, c: Cell): (b: bool)
    ensures b <==> exists n :: Adjacent(g, c, n)
  {
    var ns := Neighbors(g, c);
    if ns == [] then false else assert Adjacent(g, c, ns[0]); true
  }

  /** What the pass makes of one cell of the grid it starts from. */
  function Classified(g: Grid, rooms: seq<Rect>, c: Cell): char
    requires InBounds(g, c)
  {
    if At(g, c) == '#' && !CornerOfAny(c, rooms) && !OpenAround(g, c) then 'B' else At(g, c)
  }

  /** Two grids of one shape with the same open cells. */
  ghost predicate SameOpen(g: Grid, h: Grid) {
    |h| == |g| && Cols(h) == Cols(g) && forall c :: IsOpen(g, c) <==> IsOpen(h, c)
  }

  lemma OpenAroundSame(g: Grid, h: Grid, c: Cell)
    requires SameOpen(g, h)
    ensures OpenAround(g, c) == OpenAround(h, c)
  {
    if OpenAround(g, c) {
      var n :| Adjacent(g, c, n);
      assert Adjacent(h, c, n);
    }
    if OpenAround(h, c) {
      var n :| Adjacent(h, c, n);
      assert Adjacent(g, c, n);
    }
  }

  /** Cells before (x, y) in scan order hold their classification, the rest
      are as they were. */
  ghost predicate ScannedTo(g: Grid, rooms: seq<Rect>, h: Grid, x: int, y: int) {
    |h| == |g| && Cols(h) == Cols(g) &&
    forall c :: InBounds(g, c) ==>
      At(h, c) == (if c.1 < y || (c.1 == y && c.0 < x) then Classified(g, rooms, c) else At(g, c))
  }

  /** Part-way through the scan the open cells are those of the start. */
  lemma ScannedSameOpen(g: Grid, rooms: seq<Rect>, h: Grid, x: int, y: int)
    requires ScannedTo(g, rooms, h, x, y)
    ensures SameOpen(g, h)
  {
    forall c | IsOpen(g, c) || IsOpen(h, c) ensures IsOpen(g, c) <==> IsOpen(h, c) {
      assert InBounds(g, c);
    }
  }

  /** Classifying the cell at (x, y) moves the scan one cell on. */
  lemma ScannedStep(g: Grid, rooms: seq<Rect>, h: Grid, h': Grid, x: nat, y: nat)
    requires y < |g| && x < Cols(g)
    requires ScannedTo(g, rooms, h, x, y)
    requires |h'| == |h| && Cols(h') == Cols(h)
    requires At(h', (x, y)) == Classified(g, rooms, (x, y))
    requires forall d :: InBounds(h, d) && d != (x, y) ==> At(h', d) == At(h, d)
    ensures ScannedTo(g, rooms, h', x + 1, y)
  {
    forall c | InBounds(g, c)
      ensures At(h', c) == (if c.1 < y || (c.1 == y && c.0 < x + 1) then Classified(g, rooms, c) else At(g, c))
    {
      if c != (x, y) {
        assert At(h', c) == At(h, c);
      }
    }
  }

  /** One cell of the scan, at (x, y). */
  method Visit(g: Grid, rooms: seq<Rect>, h: Grid, x: nat, y: nat) returns (h': Grid)
    requires y < |g| && x < Cols(g)
    requires ScannedTo(g, rooms, h, x, y)
    ensures ScannedTo(g, rooms, h', x + 1, y)
  {
    ScannedSameOpen(g, rooms, h, x, y);
    OpenAroundSame(g, h, (x, y));
    assert At(h, (x, y)) == At(g, (x, y));
    h' := h;
    if h[y][x] == '#' && !CornerOfAny((x, y), rooms) && !OpenAround(h, (x, y)) {
      h' := SetAt(h, (x, y), 'B');
    }
    ScannedStep(g, rooms, h, h', x, y);
  }

  /** One row of the scan. */
  method VisitRow(g: Grid, rooms: seq<Rect>, h: Grid, y: nat) returns (h': Grid)
    requires y < |g|
    requires ScannedTo(g, rooms, h, 0, y)
    ensures ScannedTo(g, rooms, h', 0, y + 1)
  {
    h' := h;
    var x := 0;
    while x < Cols(g)
      invariant x <= Cols(g)
      invariant ScannedTo(g, rooms, h', x, y)
    {
      h' := Visit(g, rooms, h', x, y);
      x := x + 1;
    }
  }

  /** The whole pass, rows top to bottom, columns left to right, each
      cell looked at in the grid as rewritten so far. */
  method Blacken(g: Grid, rooms: seq<Rect>) returns (h: Grid)
    ensures |h| == |g| && Cols(h) == Cols(g)
    ensures forall c :: InBounds(g, c) ==> At(h, c) == Classified(g, rooms, c)
  {
    h := g;
    var y := 0;
    while y < |g|
      invariant y <= |g|
      invariant ScannedTo(g, rooms, h, 0, y)
    {
      h := VisitRow(g, rooms, h, y);
      y := y + 1;
    }
  }

  /** The pass changes no cell's openness. */
  lemma BlackenSameOpen(g: Grid, rooms: seq<Rect>, h: Grid)
    requires |h| == |g| && Cols(h) == Cols(g)
    requires forall c :: InBounds(g, c) ==> At(h, c) == Classified(g, rooms, c)
    ensures SameOpen(g, h)
  {
    forall c | IsOpen(g, c) || IsOpen(h, c) ensures IsOpen(g, c) <==> IsOpen(h, c) {
      assert InBounds(g, c);
    }
  }

  /** After the pass, starting from a grid without 'B': a cell is 'B'
      exactly when it was a wall, is no room's corner and has no open
      cardinal neighbour; a wall that is left is a corner or has one. */
  lemma BlackenMeaning(g: Grid, rooms: seq<Rect>, h: Grid, c: Cell)
    requires |h| == |g| && Cols(h) == Cols(g)
    requires forall d :: InBounds(g, d) ==> At(h, d) == Classified(g, rooms, d)
    requires InBounds(g, c) && At(g, c) != 'B'
    ensures At(h, c) == 'B' <==>
              At(g, c) == '#' && !CornerOfAny(c, rooms) && !(exists n :: Adjacent(h, c, n))
    ensures At(h, c) == '#' ==> CornerOfAny(c, rooms) || exists n :: Adjacent(h, c, n)
    ensures At(h, c) != 'B' ==> At(h, c) == At(g, c)
  {
    BlackenSameOpen(g, rooms, h);
    OpenAroundSame(g, h, c);
  }
}
