/** Where the generator puts the exit in the last room: the inner corner
    farthest from the centre for rooms of at least 6 x 6, otherwise the
    edge-adjacent interior cell nearest to it, or the centre itself when
    the room has no interior. Ties go to the earliest candidate, as
    Python's max and min with a key do. */
module ExitRule {
  import opened Paths
  import opened Grid
  import opened Rooms
  import opened Carving

  /** Scanning s from i on, keep the first cell of least distance to p. */
  function MinFrom(s: seq<Cell>, p: Cell, i: nat, best: nat): (k: nat)
    requires best < i <= |s|
    requires forall j :: 0 <= j < i ==> Manhattan(s[best], p) <= Manhattan(s[j], p)
    requires forall j :: 0 <= j < best ==> Manhattan(s[j], p) > Manhattan(s[best], p)
    ensures k < |s|
    ensures forall j :: 0 <= j < |s| ==> Manhattan(s[k], p) <= Manhattan(s[j], p)
    ensures forall j :: 0 <= j < k ==> Manhattan(s[j], p) > Manhattan(s[k], p)
    decreases |s| - i
  {
    if i == |s| then best
    else if Manhattan(s[i], p) < Manhattan(s[best], p) then MinFrom(s, p, i + 1, i)
    else MinFrom(s, p, i + 1, best)
  }

  /** Scanning s from i on, keep the first cell of greatest distance to p. */
  function MaxFrom(s: seq<Cell>, p: Cell, i: nat, best: nat): (k: nat)
    requires best < i <= |s|
    requires forall j :: 0 <= j < i ==> Manhattan(s[best], p) >= Manhattan(s[j], p)
    requires forall j :: 0 <= j < best ==> Manhattan(s[j], p) < Manhattan(s[best], p)
    ensures k < |s|
    ensures forall j :: 0 <= j < |s| ==> Manhattan(s[k], p) >= Manhattan(s[j], p)
    ensures forall j :: 0 <= j < k ==> Manhattan(s[j], p) < Manhattan(s[k], p)
    decreases |s| - i
  {
    if i == |s| then best
    else if Manhattan(s[i], p) > Manhattan(s[best], p) then MaxFrom(s, p, i + 1, i)
    else MaxFrom(s, p, i + 1, best)
  }

  /** c is the first cell of s whose distance to p is least. */
  predicate EarliestNearest(s: seq<Cell>, p: Cell, c: Cell) {
    exists k :: 0 <= k < |s| && s[k] == c
      && (forall j :: 0 <= j < |s| ==> Manhattan(c, p) <= Manhattan(s[j], p))
      && (forall j :: 0 <= j < k ==> Manhattan(s[j], p) > Manhattan(c, p))
  }

  /** c is the first cell of s whose distance to p is greatest. */
  predicate EarliestFarthest(s: seq<Cell>, p: Cell, c: Cell) {
    exists k :: 0 <= k < |s| && s[k] == c
      && (forall j :: 0 <= j < |s| ==> Manhattan(c, p) >= Manhattan(s[j], p))
      && (forall j :: 0 <= j < k ==> Manhattan(s[j], p) < Manhattan(c, p))
  }

  /** At most one cell is the first nearest one. */
  lemma {:induction false} EarliestNearestUnique(s: seq<Cell>, p: Cell, c: Cell, d: Cell)
    requires EarliestNearest(s, p, c) && EarliestNearest(s, p, d)
    ensures c == d
  {
    var k :| 0 <= k < |s| && s[k] == c
      && (forall j :: 0 <= j < |s| ==> Manhattan(c, p) <= Manhattan(s[j], p))
      && (forall j :: 0 <= j < k ==> Manhattan(s[j], p) > Manhattan(c, p));
    var m :| 0 <= m < |s| && s[m] == d
      && (forall j :: 0 <= j < |s| ==> Manhattan(d, p) <= Manhattan(s[j], p))
      && (forall j :: 0 <= j < m ==> Manhattan(s[j], p) > Manhattan(d, p));
  }

  /** At most one cell is the first farthest one. */
  lemma {:induction false} EarliestFarthestUnique(s: seq<Cell>, p: Cell, c: Cell, d: Cell)
    requires EarliestFarthest(s, p, c) && EarliestFarthest(s, p, d)
    ensures c == d
  {
    var k :| 0 <= k < |s| && s[k] == c
      && (forall j :: 0 <= j < |s| ==> Manhattan(c, p) >= Manhattan(s[j], p))
      && (forall j :: 0 <= j < k ==> Manhattan(s[j], p) < Manhattan(c, p));
    var m :| 0 <= m < |s| && s[m] == d
      && (forall j :: 0 <= j < |s| ==> Manhattan(d, p) >= Manhattan(s[j], p))
      && (forall j :: 0 <= j < m ==> Manhattan(s[j], p) < Manhattan(d, p));
  }

  /** min(s, key=distance to p). */
  function FirstNearest(s: seq<Cell>, p: Cell): (c: Cell)
    requires s != []
    ensures EarliestNearest(s, p, c)
  {
    var k := MinFrom(s, p, 1, 0);
    assert s[k] == s[k];
    s[k]
  }

  /** max(s, key=distance to p). */
  function FirstFarthest(s: seq<Cell>, p: Cell): (c: Cell)
    requires s != []
    ensures EarliestFarthest(s, p, c)
  {
    var k := MaxFrom(s, p, 1, 0);
    assert s[k] == s[k];
    s[k]
  }

  /** The four cells one step in from the room's corners. */
  function InnerCorners(r: Rect): seq<Cell> {
    [(r.x1 + 1, r.y1 + 1), (r.x2 - 2, r.y1 + 1), (r.x1 + 1, r.y2 - 2), (r.x2 - 2, r.y2 - 2)]
  }

  /** For x from x0 to x2 - 2: the cell below the top wall, then the cell
      above the bottom wall. */
  function RowCandidates(r: Rect, x: int): (s: seq<Cell>)
    ensures forall c :: c in s ==> x <= c.0 < r.x2 - 1 && (c.1 == r.y1 + 1 || c.1 == r.y2 - 2)
    decreases r.x2 - 1 - x
  {
    if x >= r.x2 - 1 then [] else [(x, r.y1 + 1), (x, r.y2 - 2)] + RowCandidates(r, x + 1)
  }

  /** For y from y0 to y2 - 2: the cell right of the left wall, then the
      cell left of the right wall. */
  function ColCandidates(r: Rect, y: int): (s: seq<Cell>)
    ensures forall c :: c in s ==> y <= c.1 < r.y2 - 1 && (c.0 == r.x1 + 1 || c.0 == r.x2 - 2)
    decreases r.y2 - 1 - y
  {
    if y >= r.y2 - 1 then [] else [(r.x1 + 1, y), (r.x2 - 2, y)] + ColCandidates(r, y + 1)
  }

  /** The candidate list for a room smaller than 6 x 6, in the order the
      source appends to it. */
  function EdgeCandidates(r: Rect): seq<Cell> {
    (if r.y2 - r.y1 > 2 then RowCandidates(r, r.x1 + 1) else [])
    + (if r.x2 - r.x1 > 2 then ColCandidates(r, r.y1 + 1) else [])
  }

  predicate Big(r: Rect) {
    r.x2 - r.x1 >= 6 && r.y2 - r.y1 >= 6
  }

  /** The exit of a room. */
  function ExitOf(r: Rect): (e: Cell)
    ensures Big(r) ==> EarliestFarthest(InnerCorners(r), Center(r), e)
    ensures !Big(r) && EdgeCandidates(r) != [] ==> EarliestNearest(EdgeCandidates(r), Center(r), e)
    ensures !Big(r) && EdgeCandidates(r) == [] ==> e == Center(r)
  {
    if Big(r) then FirstFarthest(InnerCorners(r), Center(r))
    else if EdgeCandidates(r) == [] then Center(r)
    else FirstNearest(EdgeCandidates(r), Center(r))
  }

  /** Every candidate of a room lies on the cells its carving opens. */
  lemma EdgeCandidatesCarved(r: Rect, c: Cell)
    requires c in EdgeCandidates(r)
    ensures CellInRoom(c, CarveRegion(r))
  {
    if r.y2 - r.y1 > 2 && c in RowCandidates(r, r.x1 + 1) {
      assert r.x2 - r.x1 > 2;
    } else {
      assert r.x2 - r.x1 > 2 && c in ColCandidates(r, r.y1 + 1);
    }
  }

  /** The exit of a non-empty room lies on a cell the room's carving
      opened, so it is inside the room. */
  lemma ExitCarved(r: Rect)
    requires NonEmpty(r)
    ensures CellInRoom(ExitOf(r), CarveRegion(r))
    ensures CellInRoom(ExitOf(r), r)
  {
    var e := ExitOf(r);
    if !Big(r) && EdgeCandidates(r) != [] {
      assert e in EdgeCandidates(r);
      EdgeCandidatesCarved(r, e);
    } else if Big(r) {
      assert e in InnerCorners(r);
    }
    CarveRegionInside(r);
  }
}
