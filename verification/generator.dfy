/** create_map: rooms placed by rejection sampling on a wall-filled grid,
    carved, joined to their predecessor by an L-shaped corridor, a 6 x 6
    room added when the last one is small, one exit in the last room, and
    isolated walls blackened. The randomness is an explicit stream of raw
    draws; draw k is folded into the range of the k-th randint call. */
module Generator {
  import opened Paths
  import opened Grid
  import opened Rooms
  import opened Carving
  import opened ExitRule
  import opened Classify

  /** Draw k of the random stream, before it is folded into a range. */
  type Draws = nat -> int

  /** random.randint(lo, hi): a raw draw folded into [lo, hi]. */
  function Pick(lo: int, hi: int, raw: int): (v: int)
    requires lo <= hi
    ensures lo <= v <= hi
    ensures lo <= raw <= hi ==> v == raw
  {
    lo + (raw - lo) % (hi - lo + 1)
  }

  function Min(a: int, b: int): int {
    if a < b then a else b
  }

  /** height rows of width characters each. */
  predicate Shaped(g: Grid, width: nat, height: nat) {
    |g| == height && forall i :: 0 <= i < |g| ==> |g[i]| == width
  }

  /** The starting grid: all walls. */
  function Walls(width: nat, height: nat): (g: Grid)
    ensures Shaped(g, width, height)
    ensures forall c :: InBounds(g, c) ==> At(g, c) == '#'
  {
    seq(height, _ => seq(width, _ => '#'))
  }

  /** Before the exit is marked every cell is a wall or floor. */
  ghost predicate WallsAndFloor(g: Grid) {
    forall c :: InBounds(g, c) ==> At(g, c) == '#' || At(g, c) == ' '
  }

  /** The room is non-empty and keeps a one-cell border to the grid's edge. */
  predicate Placed(r: Rect, width: nat, height: nat) {
    NonEmpty(r) && 1 <= r.x1 && r.x2 <= width - 1 && 1 <= r.y1 && r.y2 <= height - 1
  }

  /** Width and height both in [lo, hi]. */
  predicate Sized(r: Rect, lo: int, hi: int) {
    lo <= r.x2 - r.x1 <= hi && lo <= r.y2 - r.y1 <= hi
  }

  /** No two different rooms of the list overlap. */
  predicate NoOverlap(rooms: seq<Rect>) {
    forall i, j :: 0 <= i < |rooms| && 0 <= j < |rooms| && i != j ==> !Intersect(rooms[i], rooms[j])
  }

  /** any(r.intersect(o) for o in rooms[i..]). */
  function AnyIntersect(r: Rect, rooms: seq<Rect>, i: nat): (b: bool)
    requires i <= |rooms|
    ensures b <==> exists k :: i <= k < |rooms| && Intersect(r, rooms[k])
    decreases |rooms| - i
  {
    if i == |rooms| then false
    else Intersect(r, rooms[i]) || AnyIntersect(r, rooms, i + 1)
  }

  /** The horizontal corridor run on row y between columns xa and xb,
      both included. */
  function HRun(y: int, xa: int, xb: int): Rect {
    Rect(Min(xa, xb), y, Max(xa, xb) + 1, y + 1)
  }

  /** The vertical corridor run on column x between rows ya and yb, both
      included. */
  function VRun(x: int, ya: int, yb: int): Rect {
    Rect(x, Min(ya, yb), x + 1, Max(ya, yb) + 1)
  }

  /** a and b are joined by an open L: along a's row then b's column, or
      along a's column then b's row. */
  ghost predicate Joined(g: Grid, a: Cell, b: Cell) {
    || (RectOpen(g, HRun(a.1, a.0, b.0)) && RectOpen(g, VRun(b.0, a.1, b.1)))
    || (RectOpen(g, VRun(a.0, a.1, b.1)) && RectOpen(g, HRun(b.1, a.0, b.0)))
  }

  /** The cells of the L-shaped corridor from a to b: along a's row, then
      along b's column when rowFirst; along a's column, then along b's row
      otherwise. */
  predicate OnL(c: Cell, a: Cell, b: Cell, rowFirst: bool) {
    if rowFirst then CellInRoom(c, HRun(a.1, a.0, b.0)) || CellInRoom(c, VRun(b.0, a.1, b.1))
    else CellInRoom(c, VRun(a.0, a.1, b.1)) || CellInRoom(c, HRun(b.1, a.0, b.0))
  }

  /** Every room's carved cells are open. */
  ghost predicate Carved(g: Grid, rooms: seq<Rect>) {
    forall i :: 0 <= i < |rooms| ==> RectOpen(g, CarveRegion(rooms[i]))
  }

  /** The centres of consecutive rooms among the first k are joined. */
  ghost predicate Corridors(g: Grid, rooms: seq<Rect>, k: nat) {
    forall i :: 0 <= i && i + 1 < k && i + 1 < |rooms| ==> Joined(g, Center(rooms[i]), Center(rooms[i+1]))
  }

  /** c is a cell the generator digs: a carved cell of some room, or a cell
      of the corridor from room i to room i + 1, bent as bends[i] says. */
  predicate Dug(c: Cell, rooms: seq<Rect>, bends: seq<bool>) {
    || (exists i :: 0 <= i < |rooms| && CellInRoom(c, CarveRegion(rooms[i])))
    || (exists i :: 0 <= i < |bends| && i + 1 < |rooms| && OnL(c, Center(rooms[i]), Center(rooms[i+1]), bends[i]))
  }

  /** Only dug cells are open, and every corridor recorded in bends is. */
  ghost predicate Traced(g: Grid, rooms: seq<Rect>, bends: seq<bool>) {
    && (forall c :: IsOpen(g, c) ==> Dug(c, rooms, bends))
    && (forall i, c :: 0 <= i < |bends| && i + 1 < |rooms| && OnL(c, Center(rooms[i]), Center(rooms[i+1]), bends[i])
          ==> IsOpen(g, c))
  }

  /** What holds between the generator's stages. */
  ghost predicate Layout(g: Grid, rooms: seq<Rect>, width: nat, height: nat) {
    && Shaped(g, width, height)
    && NoOverlap(rooms)
    && (forall i :: 0 <= i < |rooms| ==> Placed(rooms[i], width, height))
    && Carved(g, rooms)
  }

  lemma CarvedKeeps(g: Grid, h: Grid, rooms: seq<Rect>)
    requires Carved(g, rooms) && Widens(g, h)
    ensures Carved(h, rooms)
  {
    forall i | 0 <= i < |rooms| ensures RectOpen(h, CarveRegion(rooms[i])) {
      RectOpenKeeps(g, h, CarveRegion(rooms[i]));
    }
  }

  /** A room that overlaps none of the list can join it. */
  lemma NoOverlapSnoc(rooms: seq<Rect>, r: Rect)
    requires NoOverlap(rooms) && !AnyIntersect(r, rooms, 0)
    ensures NoOverlap(rooms + [r])
  {
    var rs := rooms + [r];
    forall i, j | 0 <= i < |rs| && 0 <= j < |rs| && i != j ensures !Intersect(rs[i], rs[j]) {
      if j == |rooms| {
        IntersectSymmetric(rs[i], r);
      } else if i != |rooms| {
        assert rs[i] == rooms[i] && rs[j] == rooms[j];
      }
    }
  }

  /** The shape fixes the bounds. */
  lemma ShapedBounds(g: Grid, width: nat, height: nat, c: Cell)
    requires Shaped(g, width, height)
    ensures InBounds(g, c) <==> height > 0 && 0 <= c.0 < width && 0 <= c.1 < height
  {
  }

  /** A dug cell stays dug when rooms and bends are appended. */
  lemma DugGrows(c: Cell, rooms: seq<Rect>, bends: seq<bool>, rooms': seq<Rect>, bends': seq<bool>)
    requires Dug(c, rooms, bends)
    requires |rooms| <= |rooms'| && rooms'[..|rooms|] == rooms
    requires |bends| <= |bends'| && bends'[..|bends|] == bends
    ensures Dug(c, rooms', bends')
  {
    if i :| 0 <= i < |rooms| && CellInRoom(c, CarveRegion(rooms[i])) {
      assert rooms'[i] == rooms[i];
    } else {
      var i :| 0 <= i < |bends| && i + 1 < |rooms| && OnL(c, Center(rooms[i]), Center(rooms[i+1]), bends[i]);
      assert rooms'[i] == rooms[i] && rooms'[i+1] == rooms[i+1] && bends'[i] == bends[i];
    }
  }

  /** Carving a new room's cells keeps the open cells traced, with the room
      appended. */
  lemma TracedCarve(g: Grid, h: Grid, rooms: seq<Rect>, bends: seq<bool>, r: Rect)
    requires Traced(g, rooms, bends) && (|bends| < |rooms| || bends == [])
    requires |h| == |g| && Cols(h) == Cols(g)
    requires forall c :: InBounds(h, c) ==> At(h, c) == (if CellInRoom(c, CarveRegion(r)) then ' ' else At(g, c))
    ensures Traced(h, rooms + [r], bends)
  {
    var rs := rooms + [r];
    forall c | IsOpen(h, c) ensures Dug(c, rs, bends) {
      assert InBounds(g, c);
      if CellInRoom(c, CarveRegion(r)) {
        assert rs[|rooms|] == r;
      } else {
        DugGrows(c, rooms, bends, rs, bends);
      }
    }
    forall i, c | 0 <= i < |bends| && i + 1 < |rs| && OnL(c, Center(rs[i]), Center(rs[i+1]), bends[i])
      ensures IsOpen(h, c)
    {
      assert rs[i] == rooms[i] && rs[i+1] == rooms[i+1];
      assert IsOpen(g, c);
    }
  }

  /** Digging the corridor between the last two rooms keeps the open cells
      traced, with its bend recorded. */
  lemma TracedCorridor(g: Grid, h: Grid, rooms: seq<Rect>, bends: seq<bool>, b: bool)
    requires Traced(g, rooms, bends)
    requires |rooms| >= 2 && |bends| == |rooms| - 2
    requires |h| == |g| && Cols(h) == Cols(g)
    requires forall c :: InBounds(h, c) ==>
               At(h, c) == (if OnL(c, Center(rooms[|rooms|-2]), Center(rooms[|rooms|-1]), b) then ' ' else At(g, c))
    requires forall c :: OnL(c, Center(rooms[|rooms|-2]), Center(rooms[|rooms|-1]), b) ==> IsOpen(h, c)
    ensures Traced(h, rooms, bends + [b])
  {
    var bs := bends + [b];
    forall c | IsOpen(h, c) ensures Dug(c, rooms, bs) {
      assert InBounds(g, c);
      if OnL(c, Center(rooms[|rooms|-2]), Center(rooms[|rooms|-1]), b) {
        assert bs[|bends|] == b;
      } else {
        DugGrows(c, rooms, bends, rooms, bs);
      }
    }
    forall i, c | 0 <= i < |bs| && i + 1 < |rooms| && OnL(c, Center(rooms[i]), Center(rooms[i+1]), bs[i])
      ensures IsOpen(h, c)
    {
      if i < |bends| {
        assert bs[i] == bends[i];
        assert IsOpen(g, c);
      }
    }
  }

  /** Each recorded corridor is one of the two open Ls of Joined. */
  lemma TracedJoined(g: Grid, rooms: seq<Rect>, bends: seq<bool>)
    requires Traced(g, rooms, bends)
    ensures Corridors(g, rooms, |bends| + 1)
  {
    forall i | 0 <= i && i + 1 < |bends| + 1 && i + 1 < |rooms|
      ensures Joined(g, Center(rooms[i]), Center(rooms[i+1]))
    {
      var a, b := Center(rooms[i]), Center(rooms[i+1]);
      if bends[i] {
        forall c | CellInRoom(c, HRun(a.1, a.0, b.0)) || CellInRoom(c, VRun(b.0, a.1, b.1)) ensures IsOpen(g, c) {
          assert OnL(c, Center(rooms[i]), Center(rooms[i+1]), bends[i]);
        }
      } else {
        forall c | CellInRoom(c, VRun(a.0, a.1, b.1)) || CellInRoom(c, HRun(b.1, a.0, b.0)) ensures IsOpen(g, c) {
          assert OnL(c, Center(rooms[i]), Center(rooms[i+1]), bends[i]);
        }
      }
    }
  }

  /** Tracing carries over to a grid with the same open cells. */
  lemma TracedSameOpen(g: Grid, h: Grid, rooms: seq<Rect>, bends: seq<bool>)
    requires Traced(g, rooms, bends) && SameOpen(g, h)
    ensures Traced(h, rooms, bends)
  {
  }

  /** With every room carved, the open cells are exactly the dug ones. */
  lemma OpenIffDug(g: Grid, rooms: seq<Rect>, bends: seq<bool>)
    requires Carved(g, rooms) && Traced(g, rooms, bends)
    ensures forall c :: IsOpen(g, c) <==> Dug(c, rooms, bends)
  {
    forall c | Dug(c, rooms, bends) ensures IsOpen(g, c) {
      if i :| 0 <= i < |rooms| && CellInRoom(c, CarveRegion(rooms[i])) {
        assert RectOpen(g, CarveRegion(rooms[i]));
      }
    }
  }

  /** One carving loop of the source, on a rectangle inside the grid. */
  method Carve(g: Grid, r: Rect) returns (h: Grid)
    requires NonEmpty(r) ==> Fits(g, r)
    ensures |h| == |g| && Cols(h) == Cols(g)
    ensures forall c :: InBounds(h, c) ==> At(h, c) == (if CellInRoom(c, r) then ' ' else At(g, c))
    ensures Widens(g, h) && RectOpen(h, r)
    ensures WallsAndFloor(g) ==> WallsAndFloor(h)
  {
    h := Fill(g, r);
    FillOpens(g, h, r);
    if WallsAndFloor(g) {
      forall c | InBounds(h, c) ensures At(h, c) == '#' || At(h, c) == ' ' {
        assert InBounds(g, c);
      }
    }
  }

  /** The L-shaped corridor from the previous room's centre a to the new
      room's centre b: row first when the coin is 1, column first when 0.
      The corridor's cells become floor and no other cell changes. */
  method Corridor(g: Grid, a: Cell, b: Cell, rowFirst: bool) returns (h: Grid)
    requires InBounds(g, a) && InBounds(g, b)
    ensures |h| == |g| && Cols(h) == Cols(g)
    ensures forall c :: InBounds(h, c) ==> At(h, c) == (if OnL(c, a, b, rowFirst) then ' ' else At(g, c))
    ensures forall c :: OnL(c, a, b, rowFirst) ==> IsOpen(h, c)
    ensures Widens(g, h)
    ensures WallsAndFloor(g) ==> WallsAndFloor(h)
  {
    var first, second := HRun(a.1, a.0, b.0), VRun(b.0, a.1, b.1);
    if !rowFirst {
      first, second := VRun(a.0, a.1, b.1), HRun(b.1, a.0, b.0);
    }
    var h1 := Carve(g, first);
    h := Carve(h1, second);
    RectOpenKeeps(h1, h, first);
    WidensTrans(g, h1, h);
    forall c | InBounds(h, c)
      ensures At(h, c) == (if OnL(c, a, b, rowFirst) then ' ' else At(g, c))
    {
      assert InBounds(h1, c);
    }
  }

  /** A placed room's centre lies inside the grid. */
  lemma PlacedCenter(g: Grid, r: Rect, width: nat, height: nat)
    requires Shaped(g, width, height) && Placed(r, width, height)
    ensures InBounds(g, Center(r))
  {
    CenterInside(r);
  }

  /** The carved cells of the old rooms survive widening, and the new
      room's are open. */
  lemma CarvedSnoc(g: Grid, h: Grid, rooms: seq<Rect>, r: Rect)
    requires Carved(g, rooms) && Widens(g, h) && RectOpen(h, CarveRegion(r))
    ensures Carved(h, rooms + [r])
  {
    CarvedKeeps(g, h, rooms);
    var rs := rooms + [r];
    forall i | 0 <= i < |rs| ensures RectOpen(h, CarveRegion(rs[i])) {
      if i < |rooms| {
        assert rs[i] == rooms[i];
      }
    }
  }

  /** The invariant of the room-placing loop: bends[i] records how the
      corridor from room i to room i + 1 was bent. */
  ghost predicate Placing(g: Grid, rooms: seq<Rect>, bends: seq<bool>, width: nat, height: nat, lo: int, hi: int) {
    && Layout(g, rooms, width, height)
    && WallsAndFloor(g)
    && |bends| == (if rooms == [] then 0 else |rooms| - 1)
    && Traced(g, rooms, bends)
    && (forall i :: 0 <= i < |rooms| ==> Sized(rooms[i], lo, hi))
  }

  /** Adds a placed room, carved and traced, to the list. */
  lemma PlacingSnoc(g: Grid, h: Grid, rooms: seq<Rect>, bends: seq<bool>, bends': seq<bool>, r: Rect,
                    width: nat, height: nat, lo: int, hi: int)
    requires Placing(g, rooms, bends, width, height, lo, hi)
    requires Shaped(h, width, height) && Widens(g, h) && WallsAndFloor(h)
    requires !AnyIntersect(r, rooms, 0) && Placed(r, width, height) && Sized(r, lo, hi)
    requires RectOpen(h, CarveRegion(r))
    requires |bends'| == |rooms| && Traced(h, rooms + [r], bends')
    ensures Placing(h, rooms + [r], bends', width, height, lo, hi)
  {
    NoOverlapSnoc(rooms, r);
    CarvedSnoc(g, h, rooms, r);
  }

  /** The room the main loop draws from draws n to n + 3: the width, the
      height, then the top-left corner inside the one-cell border. */
  function Drawn(width: nat, height: nat, lo: int, hi: int, draws: Draws, n: nat): (r: Rect)
    requires 1 <= lo <= hi && hi + 2 <= width && hi + 2 <= height
    ensures Placed(r, width, height) && Sized(r, lo, hi)
  {
    var w := Pick(lo, hi, draws(n));
    var h := Pick(lo, hi, draws(n + 1));
    MakeRect(Pick(1, width - w - 1, draws(n + 2)), Pick(1, height - h - 1, draws(n + 3)), w, h)
  }

  /** The corridor's coin from draw n: randint(0, 1) is 1 for row first. */
  function RowFirst(draws: Draws, n: nat): bool {
    Pick(0, 1, draws(n)) == 1
  }

  /** Carves a room that overlaps none of the list and, after the first
      room, digs the corridor from the previous room's centre to its own,
      bent as draw n says. */
  method Dig(g: Grid, rooms: seq<Rect>, ghost bends: seq<bool>, r: Rect, width: nat, height: nat,
             lo: int, hi: int, draws: Draws, n: nat)
    returns (g': Grid, ghost bends': seq<bool>, n': nat)
    requires Placing(g, rooms, bends, width, height, lo, hi)
    requires !AnyIntersect(r, rooms, 0) && Placed(r, width, height) && Sized(r, lo, hi)
    ensures Placing(g', rooms + [r], bends', width, height, lo, hi)
    ensures rooms == [] ==> bends' == bends && n' == n
    ensures rooms != [] ==> bends' == bends + [RowFirst(draws, n)] && n' == n + 1
  {
    CarveRegionInside(r);
    var g1 := Carve(g, CarveRegion(r));
    TracedCarve(g, g1, rooms, bends, r);
    g', bends', n' := g1, bends, n;
    if rooms != [] {
      var rowFirst := RowFirst(draws, n);
      n' := n + 1;
      var rs := rooms + [r];
      PlacedCenter(g1, rooms[|rooms|-1], width, height);
      PlacedCenter(g1, r, width, height);
      g' := Corridor(g1, Center(rooms[|rooms|-1]), Center(r), rowFirst);
      assert rs[|rs|-2] == rooms[|rooms|-1] && rs[|rs|-1] == r;
      TracedCorridor(g1, g', rs, bends, rowFirst);
      RectOpenKeeps(g1, g', CarveRegion(r));
      WidensTrans(g, g1, g');
      bends' := bends + [rowFirst];
    }
    PlacingSnoc(g, g', rooms, bends, bends', r, width, height, lo, hi);
  }

  /** One pass of the room loop: draw a size and a position; skip the room
      if it overlaps an earlier one; otherwise carve it, join it to the
      previous room (drawing the corridor's orientation) and append it. */
  method Attempt(g: Grid, rooms: seq<Rect>, ghost bends: seq<bool>, width: nat, height: nat, lo: int, hi: int,
                 draws: Draws, n: nat)
    returns (g': Grid, rooms': seq<Rect>, ghost bends': seq<bool>, n': nat)
    requires 1 <= lo <= hi && hi + 2 <= width && hi + 2 <= height
    requires Placing(g, rooms, bends, width, height, lo, hi)
    ensures Placing(g', rooms', bends', width, height, lo, hi)
    ensures (rooms' == rooms + [Drawn(width, height, lo, hi, draws, n)]) <==>
              !AnyIntersect(Drawn(width, height, lo, hi, draws, n), rooms, 0)
    ensures || rooms' == rooms + [Drawn(width, height, lo, hi, draws, n)]
            || (rooms' == rooms && g' == g && bends' == bends && n' == n + 4)
    ensures rooms' != rooms && rooms == [] ==> bends' == bends && n' == n + 4
    ensures rooms' != rooms && rooms != [] ==> bends' == bends + [RowFirst(draws, n + 4)] && n' == n + 5
  {
    var r := Drawn(width, height, lo, hi, draws, n);
    if AnyIntersect(r, rooms, 0) {
      g', rooms', bends', n' := g, rooms, bends, n + 4;
      assert rooms' != rooms + [r];
      return;
    }
    g', bends', n' := Dig(g, rooms, bends, r, width, height, lo, hi, draws, n + 4);
    rooms' := rooms + [r];
  }

  /** One attempt of the room loop on (rooms, bends, next draw): a room
      from four draws, kept when it overlaps no earlier room; every kept
      room after the first draws one more for its corridor. */
  function SampleStep(width: nat, height: nat, lo: int, hi: int, draws: Draws,
                      prev: (seq<Rect>, seq<bool>, nat)): (s: (seq<Rect>, seq<bool>, nat))
    requires 1 <= lo <= hi && hi + 2 <= width && hi + 2 <= height
  {
    var r := Drawn(width, height, lo, hi, draws, prev.2);
    if AnyIntersect(r, prev.0, 0) then (prev.0, prev.1, prev.2 + 4)
    else if prev.0 == [] then ([r], prev.1, prev.2 + 4)
    else (prev.0 + [r], prev.1 + [RowFirst(draws, prev.2 + 4)], prev.2 + 5)
  }

  /** The room loop as a reference: the rooms kept, the corridors'
      orientations and the next unused draw after t attempts. */
  function Sample(width: nat, height: nat, lo: int, hi: int, draws: Draws, t: nat)
    : (s: (seq<Rect>, seq<bool>, nat))
    requires 1 <= lo <= hi && hi + 2 <= width && hi + 2 <= height
    ensures |s.0| <= t && NoOverlap(s.0)
    ensures |s.1| == (if s.0 == [] then 0 else |s.0| - 1)
    ensures t > 0 ==> s.0 != [] && s.0[0] == Drawn(width, height, lo, hi, draws, 0)
    ensures 4 * t <= s.2
  {
    if t == 0 then ([], [], 0)
    else
      var prev := Sample(width, height, lo, hi, draws, t - 1);
      var r := Drawn(width, height, lo, hi, draws, prev.2);
      if !AnyIntersect(r, prev.0, 0) then
        NoOverlapSnoc(prev.0, r);
        SampleStep(width, height, lo, hi, draws, prev)
      else SampleStep(width, height, lo, hi, draws, prev)
  }

  /** After t attempts the loop holds what the reference computes. */
  ghost predicate Sampled(width: nat, height: nat, lo: int, hi: int, draws: Draws, t: nat,
                          rooms: seq<Rect>, bends: seq<bool>, n: nat) {
    1 <= lo <= hi && hi + 2 <= width && hi + 2 <= height
    && (rooms, bends, n) == Sample(width, height, lo, hi, draws, t)
  }

  /** An attempt that behaves as Attempt promises takes the reference one
      step further. */
  lemma SampleSnoc(width: nat, height: nat, lo: int, hi: int, draws: Draws,
                   rooms: seq<Rect>, bends: seq<bool>, n: nat,
                   rooms': seq<Rect>, bends': seq<bool>, n': nat)
    requires 1 <= lo <= hi && hi + 2 <= width && hi + 2 <= height
    requires (rooms' == rooms + [Drawn(width, height, lo, hi, draws, n)]) <==>
               !AnyIntersect(Drawn(width, height, lo, hi, draws, n), rooms, 0)
    requires || rooms' == rooms + [Drawn(width, height, lo, hi, draws, n)]
             || (rooms' == rooms && bends' == bends && n' == n + 4)
    requires rooms' != rooms && rooms == [] ==> bends' == bends && n' == n + 4
    requires rooms' != rooms && rooms != [] ==> bends' == bends + [RowFirst(draws, n + 4)] && n' == n + 5
    ensures (rooms', bends', n') == SampleStep(width, height, lo, hi, draws, (rooms, bends, n))
    ensures forall t: nat :: Sampled(width, height, lo, hi, draws, t, rooms, bends, n) ==>
              Sampled(width, height, lo, hi, draws, t + 1, rooms', bends', n')
  {
    var r := Drawn(width, height, lo, hi, draws, n);
    if AnyIntersect(r, rooms, 0) {
      assert rooms' != rooms + [r];
    } else {
      assert rooms' != rooms;
      assert [] + [r] == [r];
    }
  }

  /** The room loop: max_rooms attempts from an all-wall grid. The first
      attempt always places its room, since no room exists yet to overlap. */
  method PlaceRooms(width: nat, height: nat, maxRooms: nat, lo: int, hi: int, draws: Draws)
    returns (g: Grid, rooms: seq<Rect>, ghost bends: seq<bool>, n: nat)
    requires maxRooms > 0 ==> 1 <= lo <= hi && hi + 2 <= width && hi + 2 <= height
    ensures Placing(g, rooms, bends, width, height, lo, hi)
    ensures |rooms| <= maxRooms
    ensures maxRooms > 0 ==> rooms != [] && rooms[0] == Drawn(width, height, lo, hi, draws, 0)
    ensures maxRooms > 0 ==> (rooms, bends, n) == Sample(width, height, lo, hi, draws, maxRooms)
  {
    g := Walls(width, height);
    rooms, bends := [], [];
    n := 0;
    var t := 0;
    while t < maxRooms
      invariant t <= maxRooms && |rooms| <= t
      invariant Placing(g, rooms, bends, width, height, lo, hi)
      invariant t == 0 ==> rooms == [] && n == 0
      invariant t > 0 ==> rooms != [] && rooms[0] == Drawn(width, height, lo, hi, draws, 0)
      invariant maxRooms > 0 ==> Sampled(width, height, lo, hi, draws, t, rooms, bends, n)
    {
      ghost var rooms0, bends0, n0 := rooms, bends, n;
      g, rooms, bends, n := Attempt(g, rooms, bends, width, height, lo, hi, draws, n);
      SampleSnoc(width, height, lo, hi, draws, rooms0, bends0, n0, rooms, bends, n);
      t := t + 1;
    }
  }

  /** The k-th 6 x 6 room the backfill draws, from draws n + 2k and
      n + 2k + 1. */
  function BackfillDrawn(width: nat, height: nat, draws: Draws, n: nat, k: nat): (r: Rect)
    requires 8 <= width && 8 <= height
    ensures Placed(r, width, height) && Sized(r, 6, 6)
  {
    MakeRect(Pick(1, width - 7, draws(n + 2 * k)), Pick(1, height - 7, draws(n + 2 * k + 1)), 6, 6)
  }

  /** Draw k is the first of the backfill's 100 that overlaps no room. */
  ghost predicate FirstFree(width: nat, height: nat, draws: Draws, n: nat, rooms: seq<Rect>, k: nat) {
    && 8 <= width && 8 <= height && k < 100
    && !AnyIntersect(BackfillDrawn(width, height, draws, n, k), rooms, 0)
    && forall j :: 0 <= j < k ==> AnyIntersect(BackfillDrawn(width, height, draws, n, j), rooms, 0)
  }

  /** rooms is what the backfill makes of placed from draw n on: placed
      itself, or placed with the first free 6 x 6 draw appended when its
      last room is small; and placed stays as it is after a small last
      room only when all 100 draws overlap. */
  ghost predicate BackfillOf(width: nat, height: nat, draws: Draws, n: nat, placed: seq<Rect>, rooms: seq<Rect>) {
    && (|| rooms == placed
        || (&& placed != [] && !Big(placed[|placed|-1])
            && exists k :: FirstFree(width, height, draws, n, placed, k)
                 && rooms == placed + [BackfillDrawn(width, height, draws, n, k)]))
    && (placed != [] && !Big(placed[|placed|-1]) && rooms == placed && 8 <= width && 8 <= height ==>
          forall k :: 0 <= k < 100 ==> AnyIntersect(BackfillDrawn(width, height, draws, n, k), placed, 0))
  }

  /** Backfill's promises, gathered into BackfillOf. */
  lemma BackfillMeets(width: nat, height: nat, draws: Draws, n: nat, rooms: seq<Rect>, rooms': seq<Rect>)
    requires rooms' != rooms ==> rooms != [] && !Big(rooms[|rooms|-1])
    requires rooms' != rooms ==>
               exists k :: FirstFree(width, height, draws, n, rooms, k)
                 && rooms' == rooms + [BackfillDrawn(width, height, draws, n, k)]
    requires rooms != [] && !Big(rooms[|rooms|-1]) && rooms' == rooms ==>
               8 <= width && 8 <= height
               && forall k :: 0 <= k < 100 ==> AnyIntersect(BackfillDrawn(width, height, draws, n, k), rooms, 0)
    ensures BackfillOf(width, height, draws, n, rooms, rooms')
  {
  }

  /** If the last room is smaller than 6 x 6, up to 100 draws of a 6 x 6
      room; the first that overlaps nothing is carved and appended. It gets
      no corridor. */
  method Backfill(g: Grid, rooms: seq<Rect>, ghost bends: seq<bool>, width: nat, height: nat, draws: Draws, n: nat)
    returns (g': Grid, rooms': seq<Rect>, n': nat)
    requires Layout(g, rooms, width, height) && WallsAndFloor(g)
    requires Traced(g, rooms, bends) && (|bends| < |rooms| || bends == [])
    requires rooms != [] && !Big(rooms[|rooms|-1]) ==> 8 <= width && 8 <= height
    ensures Layout(g', rooms', width, height) && WallsAndFloor(g') && Widens(g, g')
    ensures Traced(g', rooms', bends)
    ensures rooms' == rooms || (|rooms'| == |rooms| + 1 && rooms'[..|rooms|] == rooms)
    ensures rooms' != rooms ==> rooms != [] && !Big(rooms[|rooms|-1])
    ensures rooms' != rooms ==>
              exists k :: FirstFree(width, height, draws, n, rooms, k)
                && rooms' == rooms + [BackfillDrawn(width, height, draws, n, k)]
    ensures rooms != [] && !Big(rooms[|rooms|-1]) && rooms' == rooms ==>
              forall k :: 0 <= k < 100 ==> AnyIntersect(BackfillDrawn(width, height, draws, n, k), rooms, 0)
  {
    g', rooms', n' := g, rooms, n;
    if rooms == [] || Big(rooms[|rooms|-1]) {
      return;
    }
    var k := 0;
    while k < 100 && rooms' == rooms
      invariant k <= 100 && n' == n + 2 * k
      invariant Layout(g', rooms', width, height) && WallsAndFloor(g') && Widens(g, g')
      invariant Traced(g', rooms', bends)
      invariant rooms' == rooms ==> g' == g
      invariant rooms' == rooms ==>
                  forall j :: 0 <= j < k ==> AnyIntersect(BackfillDrawn(width, height, draws, n, j), rooms, 0)
      invariant rooms' != rooms ==>
                  0 < k && FirstFree(width, height, draws, n, rooms, k - 1)
                  && rooms' == rooms + [BackfillDrawn(width, height, draws, n, k - 1)]
    {
      var r := BackfillDrawn(width, height, draws, n, k);
      n' := n' + 2;
      if !AnyIntersect(r, rooms, 0) {
        var h := Carve(g', CarveRegion(r));
        NoOverlapSnoc(rooms, r);
        CarvedSnoc(g', h, rooms, r);
        TracedCarve(g', h, rooms, bends, r);
        WidensTrans(g, g', h);
        g', rooms' := h, rooms + [r];
      }
      k := k + 1;
    }
  }

  /** Every cell is one of the four map characters. */
  ghost predicate MapChars(g: Grid) {
    forall c :: InBounds(g, c) ==> At(g, c) == '#' || At(g, c) == ' ' || At(g, c) == 'E' || At(g, c) == 'B'
  }

  /** The only 'E' of the grid is at e. */
  ghost predicate ExitOnlyAt(g: Grid, e: Cell) {
    InBounds(g, e) && forall c :: InBounds(g, c) ==> (At(g, c) == 'E' <==> c == e)
  }

  ghost predicate NoExit(g: Grid) {
    forall c :: InBounds(g, c) ==> At(g, c) != 'E'
  }

  /** Exactly one exit, at the exit cell of the last room, when there is a
      room; none otherwise. */
  ghost predicate ExitPlaced(g: Grid, rooms: seq<Rect>) {
    && (rooms == [] ==> NoExit(g))
    && (rooms != [] ==> ExitOnlyAt(g, ExitOf(rooms[|rooms|-1])))
  }

  /** The wall rule after the last pass: a 'B' is no room's corner and has
      no open cardinal neighbour; a '#' is a room's corner or has one. */
  ghost predicate Classification(g: Grid, rooms: seq<Rect>) {
    && (forall c :: InBounds(g, c) && At(g, c) == 'B' ==>
          !CornerOfAny(c, rooms) && !(exists n :: Adjacent(g, c, n)))
    && (forall c :: InBounds(g, c) && At(g, c) == '#' ==>
          CornerOfAny(c, rooms) || exists n :: Adjacent(g, c, n))
  }

  /** Marks the exit of the last room, if there is a room. */
  method MarkExit(g: Grid, rooms: seq<Rect>, width: nat, height: nat) returns (g': Grid)
    requires Layout(g, rooms, width, height) && WallsAndFloor(g)
    ensures Shaped(g', width, height) && SameOpen(g, g') && MapChars(g')
    ensures forall c :: InBounds(g', c) ==> At(g', c) != 'B'
    ensures ExitPlaced(g', rooms)
  {
    g' := g;
    if rooms == [] {
      return;
    }
    var last := rooms[|rooms|-1];
    var e := ExitOf(last);
    ExitCarved(last);
    assert RectOpen(g, CarveRegion(last));
    g' := SetAt(g, e, 'E');
    MarkKeepsOpen(g, e);
  }

  /** Writing 'E' over an open cell changes no cell's openness. */
  lemma MarkKeepsOpen(g: Grid, e: Cell)
    requires IsOpen(g, e)
    ensures SameOpen(g, SetAt(g, e, 'E'))
  {
    var h := SetAt(g, e, 'E');
    forall c | IsOpen(g, c) || IsOpen(h, c) ensures IsOpen(g, c) <==> IsOpen(h, c) {
      assert InBounds(g, c) && InBounds(h, c);
    }
  }

  /** The blackening pass, with what it leaves: the same open cells, the
      same single exit, and walls and black cells classified by the rule. */
  method FinalPass(g: Grid, rooms: seq<Rect>) returns (maze: Grid)
    requires MapChars(g) && forall c :: InBounds(g, c) ==> At(g, c) != 'B'
    ensures SameOpen(g, maze) && MapChars(maze)
    ensures ExitPlaced(g, rooms) ==> ExitPlaced(maze, rooms)
    ensures Classification(maze, rooms)
  {
    maze := Blacken(g, rooms);
    BlackenSameOpen(g, rooms, maze);
    forall c | InBounds(maze, c)
      ensures At(maze, c) == '#' || At(maze, c) == ' ' || At(maze, c) == 'E' || At(maze, c) == 'B'
      ensures At(maze, c) == 'E' <==> At(g, c) == 'E'
      ensures At(maze, c) == 'B' ==> !CornerOfAny(c, rooms) && !(exists n :: Adjacent(maze, c, n))
      ensures At(maze, c) == '#' ==> CornerOfAny(c, rooms) || exists n :: Adjacent(maze, c, n)
    {
      BlackenMeaning(g, rooms, maze, c);
    }
  }

  /** Everything before the blackening pass: rooms, corridors, backfill
      and exit. */
  method Build(width: nat, height: nat, maxRooms: nat, lo: int, hi: int, draws: Draws)
    returns (g: Grid, rooms: seq<Rect>, ghost bends: seq<bool>, ghost joined: nat)
    requires maxRooms > 0 ==> 1 <= lo <= hi && hi + 2 <= width && hi + 2 <= height
    requires maxRooms > 0 && lo < 6 ==> 8 <= width && 8 <= height
    ensures Layout(g, rooms, width, height) && MapChars(g)
    ensures forall c :: InBounds(g, c) ==> At(g, c) != 'B'
    ensures joined <= maxRooms && joined <= |rooms| <= joined + 1
    ensures |bends| + 1 == joined || (joined == 0 && bends == [])
    ensures forall i :: 0 <= i < joined ==> Sized(rooms[i], lo, hi)
    ensures |rooms| > joined ==> 0 < joined && !Big(rooms[joined - 1]) && Sized(rooms[joined], 6, 6)
    ensures maxRooms > 0 ==> rooms != [] && rooms[0] == Drawn(width, height, lo, hi, draws, 0)
    ensures maxRooms > 0 ==>
              var s := Sample(width, height, lo, hi, draws, maxRooms);
              joined == |s.0| && bends == s.1 && BackfillOf(width, height, draws, s.2, s.0, rooms)
    ensures ExitPlaced(g, rooms) && Traced(g, rooms, bends)
  {
    var g0, rs0, n0;
    g0, rs0, bends, n0 := PlaceRooms(width, height, maxRooms, lo, hi, draws);
    joined := |rs0|;
    var g1, n1;
    g1, rooms, n1 := Backfill(g0, rs0, bends, width, height, draws, n0);
    BackfillMeets(width, height, draws, n0, rs0, rooms);
    g := MarkExit(g1, rooms, width, height);
    TracedSameOpen(g1, g, rooms, bends);
    CarvedKeeps(g1, g, rooms);
  }

  /** With no rooms nothing is dug, so the last pass blackens every cell. */
  lemma NoRoomsAllBlack(maze: Grid, bends: seq<bool>)
    requires MapChars(maze) && Classification(maze, [])
    requires forall c :: IsOpen(maze, c) ==> Dug(c, [], bends)
    ensures forall c :: InBounds(maze, c) ==> At(maze, c) == 'B'
  {
    forall c | InBounds(maze, c) ensures At(maze, c) == 'B' {
      assert !IsOpen(maze, c);
      assert !CornerOfAny(c, []);
      assert !exists n :: Adjacent(maze, c, n);
    }
  }

  /** create_map. joined counts the rooms of the main loop, which are the
      ones joined by corridors; a backfilled room follows them. bends[i]
      is the orientation of the corridor from room i to room i + 1. */
  method CreateMap(width: nat, height: nat, maxRooms: nat, lo: int, hi: int, draws: Draws)
    returns (maze: Grid, rooms: seq<Rect>, ghost bends: seq<bool>, ghost joined: nat)
    requires maxRooms > 0 ==> 1 <= lo <= hi && hi + 2 <= width && hi + 2 <= height
    requires maxRooms > 0 && lo < 6 ==> 8 <= width && 8 <= height
    ensures Shaped(maze, width, height) && MapChars(maze)
    ensures NoOverlap(rooms)
    ensures forall i :: 0 <= i < |rooms| ==> Placed(rooms[i], width, height)
    ensures joined <= maxRooms && joined <= |rooms| <= joined + 1
    ensures forall i :: 0 <= i < joined ==> Sized(rooms[i], lo, hi)
    ensures |rooms| > joined ==> 0 < joined && !Big(rooms[joined - 1]) && Sized(rooms[joined], 6, 6)
    ensures maxRooms > 0 ==> rooms != [] && rooms[0] == Drawn(width, height, lo, hi, draws, 0)
    ensures maxRooms > 0 ==>
              var s := Sample(width, height, lo, hi, draws, maxRooms);
              joined == |s.0| && bends == s.1 && BackfillOf(width, height, draws, s.2, s.0, rooms)
    ensures ExitPlaced(maze, rooms)
    ensures Carved(maze, rooms) && Corridors(maze, rooms, joined)
    ensures |bends| + 1 == joined || (joined == 0 && bends == [])
    ensures forall c :: IsOpen(maze, c) <==> Dug(c, rooms, bends)
    ensures rooms == [] ==> forall c :: InBounds(maze, c) ==> At(maze, c) == 'B'
    ensures Classification(maze, rooms)
  {
    var g;
    g, rooms, bends, joined := Build(width, height, maxRooms, lo, hi, draws);
    maze := FinalPass(g, rooms);
    TracedSameOpen(g, maze, rooms, bends);
    CarvedKeeps(g, maze, rooms);
    TracedJoined(maze, rooms, bends);
    OpenIffDug(maze, rooms, bends);
    if rooms == [] {
      NoRoomsAllBlack(maze, bends);
    }
  }
}
