/** The generator's rooms: half-open rectangles [x1, x2) x [y1, y2) with a
    centre rounded down, the overlap test that lets rooms share an edge,
    and the bot's room-membership test. */
module Rooms {
  import opened Paths

  datatype Rect = Rect(x1: int, y1: int, x2: int, y2: int)

  /** Rect(x, y, w, h): the top-left corner and the size. */
  function MakeRect(x: int, y: int, w: int, h: int): (r: Rect)
    ensures r.x1 == x && r.y1 == y
    ensures r.x2 - r.x1 == w && r.y2 - r.y1 == h
  {
    Rect(x, y, x + w, y + h)
  }

  /** The centre, each coordinate the floor of the mean of the two bounds
      (Python's // on these values; Dafny's / agrees because the divisor is
      positive). */
  function Center(r: Rect): (c: Cell)
    ensures 2 * c.0 <= r.x1 + r.x2 <= 2 * c.0 + 1
    ensures 2 * c.1 <= r.y1 + r.y2 <= 2 * c.1 + 1
  {
    ((r.x1 + r.x2) / 2, (r.y1 + r.y2) / 2)
  }

  /** The two rectangles share at least one cell; touching edges do not
      count. */
  predicate Intersect(a: Rect, b: Rect) {
    a.x1 < b.x2 && a.x2 > b.x1 && a.y1 < b.y2 && a.y2 > b.y1
  }

  /** cell_in_room: the cell lies in the half-open rectangle, which is to
      say the one-cell room at it overlaps the room. */
  predicate CellInRoom(c: Cell, r: Rect): (b: bool)
    ensures b <==> Intersect(MakeRect(c.0, c.1, 1, 1), r)
  {
    r.x1 <= c.0 < r.x2 && r.y1 <= c.1 < r.y2
  }

  /** A room at least one cell wide and high contains its centre. */
  lemma CenterInside(r: Rect)
    requires NonEmpty(r)
    ensures CellInRoom(Center(r), r)
  {
  }

  /** Overlap is symmetric. */
  lemma IntersectSymmetric(a: Rect, b: Rect)
    ensures Intersect(a, b) <==> Intersect(b, a)
  {
  }

  /** A rectangle with at least one cell. */
  predicate NonEmpty(r: Rect) {
    r.x2 - r.x1 >= 1 && r.y2 - r.y1 >= 1
  }

  /** Two non-empty rectangles intersect exactly when some cell lies in
      both. (A rectangle of zero width can pass the test without sharing a
      cell, so the sizes matter.) */
  lemma IntersectIffSharedCell(a: Rect, b: Rect)
    requires NonEmpty(a) && NonEmpty(b)
    ensures Intersect(a, b) <==> exists c :: CellInRoom(c, a) && CellInRoom(c, b)
  {
    if Intersect(a, b) {
      var c := (Max(a.x1, b.x1), Max(a.y1, b.y1));
      assert CellInRoom(c, a) && CellInRoom(c, b);
    }
  }

  function Max(a: int, b: int): int {
    if a < b then b else a
  }

  /** Rooms that only share an edge (one ends where the other begins) do
      not intersect. */
  lemma TouchingDoNotIntersect(a: Rect, b: Rect)
    requires a.x2 == b.x1 || a.y2 == b.y1
    ensures !Intersect(a, b) && !Intersect(b, a)
  {
  }
}
