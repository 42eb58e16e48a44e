/** The exploring bot: a greedy tour that walks to the exit's room first,
    then to every other room centre in turn (nearest first, or farthest
    from the exit once the bot stands next to it inside the exit room),
    and ends with a walk to the exit. Each leg is a breadth-first path;
    legs are chained so that the shared cell appears once. */
module Explore {
  import opened Paths
  import opened Grid
  import opened Rooms
  import opened Pathfinding
  import opened ExitRule

  /** The first room that holds e, as an index (the source keeps the
      room object; rooms are told apart by position in the list). */
  function ExitRoomFrom(rooms: seq<Rect>, e: Cell, k: nat): (r: Option<nat>)
    requires k <= |rooms|
    ensures r.Some? ==> k <= r.value < |rooms| && CellInRoom(e, rooms[r.value])
    ensures r.Some? ==> forall j :: k <= j < r.value ==> !CellInRoom(e, rooms[j])
    ensures r.None? <==> forall j :: k <= j < |rooms| ==> !CellInRoom(e, rooms[j])
    decreases |rooms| - k
  {
    if k == |rooms| then None
    else if CellInRoom(e, rooms[k]) then Some(k)
    else ExitRoomFrom(rooms, e, k + 1)
  }

  function ExitRoom(rooms: seq<Rect>, e: Cell): (r: Option<nat>)
    ensures r.Some? ==> r.value < |rooms| && CellInRoom(e, rooms[r.value])
    ensures r.Some? ==> forall j :: 0 <= j < r.value ==> !CellInRoom(e, rooms[j])
    ensures r.None? <==> forall j :: 0 <= j < |rooms| ==> !CellInRoom(e, rooms[j])
  {
    ExitRoomFrom(rooms, e, 0)
  }

  /** The centres of every room but the one at index skip, in list order. */
  function OtherCenters(rooms: seq<Rect>, skip: Option<nat>): (cs: seq<Cell>)
    ensures forall c :: c in cs <==> exists i :: 0 <= i < |rooms| && skip != Some(i) && Center(rooms[i]) == c
  {
    if rooms == [] then []
    else
      var rest := OtherCenters(rooms[..|rooms| - 1], skip);
      var i := |rooms| - 1;
      assert forall j :: 0 <= j < i ==> rooms[..i][j] == rooms[j];
      if skip == Some(i) then rest else rest + [Center(rooms[i])]
  }

  predicate NoDup(s: seq<Cell>) {
    forall i, j :: 0 <= i < j < |s| ==> s[i] != s[j]
  }

  /** One copy of each cell, in order of first occurrence. The source
      converts the list to a set and back, whose order is not fixed; the
      order only decides ties between equally distant centres. */
  function Dedup(s: seq<Cell>): (r: seq<Cell>)
    ensures NoDup(r)
    ensures forall c :: c in r <==> c in s
  {
    if s == [] then []
    else
      var init := s[..|s| - 1];
      var r := Dedup(init);
      assert s == init + [s[|s| - 1]];
      if s[|s| - 1] in r then r else r + [s[|s| - 1]]
  }

  /** The two sort orders of the tour. */
  datatype Order =
    | Near(from: Cell)   // ascending distance from the bot
    | Far(exit: Cell)    // descending distance from the exit

  /** A sort key, ascending; Python's stable reverse sort equals a stable
      ascending sort on the negated key. */
  function Key(o: Order, p: Cell): int {
    match o
    case Near(from) => Manhattan(from, p)
    case Far(exit) => -(Manhattan(p, exit) as int)
  }

  /** Puts x before the first element whose key is not smaller. */
  function Insert(o: Order, x: Cell, s: seq<Cell>): (r: seq<Cell>)
    ensures multiset(r) == multiset(s) + multiset{x}
    ensures r[0] == (if s == [] || Key(o, x) <= Key(o, s[0]) then x else s[0])
  {
    if s == [] || Key(o, x) <= Key(o, s[0]) then [x] + s
    else
      var r := [s[0]] + Insert(o, x, s[1..]);
      assert s == [s[0]] + s[1..];
      r
  }

  /** A stable insertion sort: list.sort(key=...) on the tour's keys. */
  function Sort(o: Order, s: seq<Cell>): (r: seq<Cell>)
    ensures multiset(r) == multiset(s)
  {
    if s == [] then []
    else
      assert s == [s[0]] + s[1..];
      Insert(o, s[0], Sort(o, s[1..]))
  }

  predicate SortedBy(o: Order, s: seq<Cell>) {
    forall i, j :: 0 <= i < j < |s| ==> Key(o, s[i]) <= Key(o, s[j])
  }

  lemma {:induction false} InsertSorted(o: Order, x: Cell, s: seq<Cell>)
    requires SortedBy(o, s)
    ensures SortedBy(o, Insert(o, x, s))
    decreases |s|
  {
    if s != [] && Key(o, x) > Key(o, s[0]) {
      InsertSorted(o, x, s[1..]);
      var t := Insert(o, x, s[1..]);
      var r := [s[0]] + t;
      forall i, j | 0 <= i < j < |r| ensures Key(o, r[i]) <= Key(o, r[j]) {
        if i == 0 {
          assert r[j] in multiset(t);
          assert r[j] in multiset(s[1..]) + multiset{x};
          if r[j] != x {
            var k :| 0 <= k < |s[1..]| && s[1..][k] == r[j];
            assert s[k+1] == r[j];
          }
        }
      }
    }
  }

  /** The sort orders by key and keeps every element. */
  lemma {:induction false} SortSorted(o: Order, s: seq<Cell>)
    ensures SortedBy(o, Sort(o, s))
    decreases |s|
  {
    if s != [] {
      SortSorted(o, s[1..]);
      InsertSorted(o, s[0], Sort(o, s[1..]));
    }
  }

  /** s[k] has the least key of s, and every earlier key is larger. */
  predicate LeastAt(o: Order, s: seq<Cell>, k: nat)
    requires k < |s|
  {
    && (forall j :: 0 <= j < |s| ==> Key(o, s[k]) <= Key(o, s[j]))
    && (forall j :: 0 <= j < k ==> Key(o, s[j]) > Key(o, s[k]))
  }

  /** c is the first element of s with the least key. */
  predicate EarliestLeast(o: Order, s: seq<Cell>, c: Cell) {
    exists k :: 0 <= k < |s| && s[k] == c && LeastAt(o, s, k)
  }

  lemma LeastFront(o: Order, s: seq<Cell>, k: nat)
    requires 0 <= k < |s| - 1 && LeastAt(o, s[1..], k)
    requires Key(o, s[0]) <= Key(o, s[k+1])
    ensures LeastAt(o, s, 0)
  {
    forall j | 0 <= j < |s| ensures Key(o, s[0]) <= Key(o, s[j]) {
      if j > 0 { assert s[j] == s[1..][j-1]; }
    }
  }

  lemma LeastShift(o: Order, s: seq<Cell>, k: nat)
    requires 0 <= k < |s| - 1 && LeastAt(o, s[1..], k)
    requires Key(o, s[0]) > Key(o, s[k+1])
    ensures LeastAt(o, s, k + 1)
  {
    forall j | 0 <= j < |s| ensures Key(o, s[k+1]) <= Key(o, s[j]) {
      if j > 0 { assert s[j] == s[1..][j-1]; }
    }
    forall j | 0 <= j < k + 1 ensures Key(o, s[j]) > Key(o, s[k+1]) {
      if j > 0 { assert s[j] == s[1..][j-1]; }
    }
  }

  /** One step of the head argument: s[0] against the earliest least
      element h of the tail. */
  lemma HeadStep(o: Order, s: seq<Cell>, k: nat)
    requires 0 <= k < |s| - 1 && LeastAt(o, s[1..], k)
    ensures EarliestLeast(o, s, if Key(o, s[0]) <= Key(o, s[k+1]) then s[0] else s[k+1])
  {
    if Key(o, s[0]) <= Key(o, s[k+1]) {
      LeastFront(o, s, k);
    } else {
      LeastShift(o, s, k);
    }
  }

  /** Stability at the head: the sorted list starts with the earliest
      element of least key. */
  lemma {:induction false} SortHead(o: Order, s: seq<Cell>)
    requires s != []
    ensures EarliestLeast(o, s, Sort(o, s)[0])
    decreases |s|
  {
    var t := s[1..];
    if t == [] {
      assert LeastAt(o, s, 0);
    } else {
      SortHead(o, t);
      var k :| 0 <= k < |t| && t[k] == Sort(o, t)[0] && LeastAt(o, t, k);
      assert s[k+1] == t[k];
      HeadStep(o, s, k);
    }
  }

  /** Under the near order the head is min(s, key=distance to from). */
  lemma NearHead(s: seq<Cell>, from: Cell)
    requires s != []
    ensures EarliestNearest(s, from, Sort(Near(from), s)[0])
  {
    var o := Near(from);
    SortHead(o, s);
    var k :| 0 <= k < |s| && s[k] == Sort(o, s)[0] && LeastAt(o, s, k);
    NearLeast(s, from, k);
  }

  lemma NearLeast(s: seq<Cell>, from: Cell, k: nat)
    requires k < |s| && LeastAt(Near(from), s, k)
    ensures EarliestNearest(s, from, s[k])
  {
    assert forall j :: 0 <= j < |s| ==> Manhattan(s[k], from) <= Manhattan(s[j], from);
  }

  /** Under the far order the head is max(s, key=distance to the exit). */
  lemma FarHead(s: seq<Cell>, exit: Cell)
    requires s != []
    ensures EarliestFarthest(s, exit, Sort(Far(exit), s)[0])
  {
    var o := Far(exit);
    SortHead(o, s);
    var k :| 0 <= k < |s| && s[k] == Sort(o, s)[0] && LeastAt(o, s, k);
  }

  /** The order of the next pick: farthest from the exit when the bot
      stands inside the exit room within one step of the exit, nearest to
      the bot otherwise. */
  function TourOrder(rooms: seq<Rect>, exitRoom: Option<nat>, exit: Cell, current: Cell): (o: Order)
    ensures o.Far? <==> exitRoom.Some? && exitRoom.value < |rooms|
                        && CellInRoom(current, rooms[exitRoom.value]) && Manhattan(current, exit) <= 1
    ensures o.Far? ==> o.exit == exit
    ensures o.Near? ==> o.from == current
  {
    if exitRoom.Some? && exitRoom.value < |rooms| && CellInRoom(current, rooms[exitRoom.value])
       && Manhattan(current, exit) <= 1
    then Far(exit)
    else Near(current)
  }

  /** Sorts the remaining centres and pops the first. */
  method PopTarget(others: seq<Cell>, o: Order) returns (target: Cell, rest: seq<Cell>)
    requires others != []
    ensures o.Near? ==> EarliestNearest(others, o.from, target)
    ensures o.Far? ==> EarliestFarthest(others, o.exit, target)
    ensures multiset(rest) + multiset{target} == multiset(others)
  {
    var sorted := Sort(o, others);
    target, rest := sorted[0], sorted[1..];
    assert sorted == [target] + rest;
    if o.Near? {
      NearHead(others, o.from);
    } else {
      FarHead(others, o.exit);
    }
  }

  /** The walk so far leads from anchor to current (and is empty while
      the bot has not moved). */
  ghost predicate Chain(g: Grid, anchor: Cell, path: seq<Cell>, current: Cell) {
    && (path == [] ==> current == anchor)
    && (path != [] ==> IsPath(g, path, anchor, current))
  }

  /** Appends a leg, dropping its first cell when it repeats the last cell
      of the walk. */
  function Join(path: seq<Cell>, seg: seq<Cell>): seq<Cell>
    requires seg != []
  {
    if path != [] && seg[0] == path[|path| - 1] then path + seg[1..] else path + seg
  }

  /** A leg from where the walk ends continues it, keeps what came before
      and adds no repeated cell at the joint. */
  lemma JoinChain(g: Grid, anchor: Cell, path: seq<Cell>, current: Cell, seg: seq<Cell>, target: Cell)
    requires Chain(g, anchor, path, current)
    requires IsPath(g, seg, current, target)
    ensures Chain(g, anchor, Join(path, seg), target)
    ensures Join(path, seg)[..|path|] == path
    ensures |Join(path, seg)| == |path| + |seg| - (if path == [] then 0 else 1)
  {
    if path != [] {
      PathJoin(Step(g), path, seg, anchor, current, target);
      assert Join(path, seg) == path + seg[1..];
    }
  }

  /** One leg: a breadth-first path from current to target, taken only
      when it exists. */
  method Leg(g: Grid, ghost anchor: Cell, path: seq<Cell>, current: Cell, target: Cell)
    returns (path': seq<Cell>, current': Cell)
    requires Chain(g, anchor, path, current)
    ensures Chain(g, anchor, path', current')
    ensures |path| <= |path'| && path'[..|path|] == path
    ensures Reachable(g, current, target) ==> current' == target && path' != []
    ensures !Reachable(g, current, target) ==> path' == path && current' == current
  {
    var seg := BfsPath(current, target, g);
    if seg != [] {
      JoinChain(g, anchor, path, current, seg, target);
      path', current' := Join(path, seg), target;
    } else {
      path', current' := path, current;
    }
  }

  /** Under order o, t is the first nearest (or farthest) cell of s. */
  ghost predicate Picked(o: Order, s: seq<Cell>, t: Cell) {
    && (o.Near? ==> EarliestNearest(s, o.from, t))
    && (o.Far? ==> EarliestFarthest(s, o.exit, t))
  }

  /** The tour pop by pop: before pop k the bot stands on froms[k] with the
      centres lefts[k] still to visit; it pops order[k] under the order for
      froms[k], and moves there exactly when it can reach it. */
  ghost predicate Trace(g: Grid, rooms: seq<Rect>, exitRoom: Option<nat>, exit: Cell,
                        order: seq<Cell>, froms: seq<Cell>, lefts: seq<seq<Cell>>)
  {
    && |froms| == |order| + 1 && |lefts| == |order| + 1
    && forall k :: 0 <= k < |order| ==>
         && Picked(TourOrder(rooms, exitRoom, exit, froms[k]), lefts[k], order[k])
         && multiset(lefts[k+1]) + multiset{order[k]} == multiset(lefts[k])
         && froms[k+1] == (if Reachable(g, froms[k], order[k]) then order[k] else froms[k])
  }

  /** From an open anchor, every cell of cs the anchor can reach lies on
      the walk. */
  ghost predicate VisitsFrom(g: Grid, anchor: Cell, cs: seq<Cell>, path: seq<Cell>) {
    IsOpen(g, anchor) ==> forall c :: c in cs && Reachable(g, anchor, c) ==> c in path
  }

  /** One more pop extends the trace. */
  lemma TraceSnoc(g: Grid, rooms: seq<Rect>, exitRoom: Option<nat>, exit: Cell,
                  order: seq<Cell>, froms: seq<Cell>, lefts: seq<seq<Cell>>,
                  t: Cell, next: Cell, left: seq<Cell>)
    requires Trace(g, rooms, exitRoom, exit, order, froms, lefts)
    requires Picked(TourOrder(rooms, exitRoom, exit, froms[|order|]), lefts[|order|], t)
    requires multiset(left) + multiset{t} == multiset(lefts[|order|])
    requires next == (if Reachable(g, froms[|order|], t) then t else froms[|order|])
    ensures Trace(g, rooms, exitRoom, exit, order + [t], froms + [next], lefts + [left])
  {
    var o, f, l := order + [t], froms + [next], lefts + [left];
    forall k | 0 <= k < |o|
      ensures Picked(TourOrder(rooms, exitRoom, exit, f[k]), l[k], o[k])
      ensures multiset(l[k+1]) + multiset{o[k]} == multiset(l[k])
      ensures f[k+1] == (if Reachable(g, f[k], o[k]) then o[k] else f[k])
    {
      assert f[k] == froms[k] && l[k] == lefts[k];
      if k < |order| {
        assert o[k] == order[k] && f[k+1] == froms[k+1] && l[k+1] == lefts[k+1];
      } else {
        assert o[k] == t && f[k+1] == next && l[k+1] == left;
      }
    }
  }

  /** A cell of a walk stays on every walk that extends it. */
  lemma InPrefix(c: Cell, p: seq<Cell>, q: seq<Cell>)
    requires c in p && |p| <= |q| && q[..|p|] == p
    ensures c in q
  {
    var i :| 0 <= i < |p| && p[i] == c;
    assert q[i] == p[i];
  }

  /** After a leg to t, every popped centre the anchor reaches is on the
      walk. */
  lemma VisitSnoc(g: Grid, anchor: Cell, order: seq<Cell>, before: seq<Cell>, at: Cell,
                  path: seq<Cell>, current: Cell, t: Cell)
    requires VisitsFrom(g, anchor, order, before)
    requires Chain(g, anchor, before, at) && Chain(g, anchor, path, current)
    requires |before| <= |path| && path[..|before|] == before
    requires Reachable(g, at, t) ==> current == t && path != []
    ensures VisitsFrom(g, anchor, order + [t], path)
  {
    if IsOpen(g, anchor) {
      forall c | c in order + [t] && Reachable(g, anchor, c) ensures c in path {
        if c in order {
          InPrefix(c, before, path);
        } else {
          ReachFromChain(g, anchor, before, at, c);
        }
      }
    }
  }

  /** A walk that keeps its prefix keeps every visit. */
  lemma VisitsKept(g: Grid, anchor: Cell, cs: seq<Cell>, p: seq<Cell>, q: seq<Cell>)
    requires VisitsFrom(g, anchor, cs, p)
    requires |p| <= |q| && q[..|p|] == p
    ensures VisitsFrom(g, anchor, cs, q)
  {
    if IsOpen(g, anchor) {
      forall c | c in cs && Reachable(g, anchor, c) ensures c in q {
        InPrefix(c, p, q);
      }
    }
  }

  /** The tour's state after some pops: the walk extends the one it began
      with, order and rest split the centres, and the trace and the visits
      cover the pops so far. */
  ghost predicate TourInv(g: Grid, anchor: Cell, rooms: seq<Rect>, exitRoom: Option<nat>, exit: Cell,
                          others: seq<Cell>, path: seq<Cell>, current: Cell,
                          path': seq<Cell>, current': Cell, order: seq<Cell>, rest: seq<Cell>,
                          froms: seq<Cell>, lefts: seq<seq<Cell>>)
  {
    && Chain(g, anchor, path', current')
    && |path| <= |path'| && path'[..|path|] == path
    && multiset(order) + multiset(rest) == multiset(others)
    && Trace(g, rooms, exitRoom, exit, order, froms, lefts)
    && froms[0] == current && lefts[0] == others
    && froms[|order|] == current' && lefts[|order|] == rest
    && VisitsFrom(g, anchor, order, path')
  }

  /** One pop of the tour: the next centre under the order for where the
      bot stands, then a leg to it. */
  method TourStep(g: Grid, ghost anchor: Cell, rooms: seq<Rect>, exitRoom: Option<nat>, exit: Cell,
                  ghost others: seq<Cell>, ghost path: seq<Cell>, ghost current: Cell,
                  path': seq<Cell>, current': Cell, order: seq<Cell>, rest: seq<Cell>,
                  ghost froms: seq<Cell>, ghost lefts: seq<seq<Cell>>)
    returns (path'': seq<Cell>, current'': Cell, order': seq<Cell>, rest': seq<Cell>,
             ghost froms': seq<Cell>, ghost lefts': seq<seq<Cell>>)
    requires rest != []
    requires TourInv(g, anchor, rooms, exitRoom, exit, others, path, current,
                     path', current', order, rest, froms, lefts)
    ensures TourInv(g, anchor, rooms, exitRoom, exit, others, path, current,
                    path'', current'', order', rest', froms', lefts')
    ensures |rest'| < |rest|
  {
    var target, r := PopTarget(rest, TourOrder(rooms, exitRoom, exit, current'));
    path'', current'' := Leg(g, anchor, path', current', target);
    TourInvSnoc(g, anchor, rooms, exitRoom, exit, others, path, current, path', current', order, rest,
                froms, lefts, target, r, path'', current'');
    order', rest' := order + [target], r;
    froms', lefts' := froms + [current''], lefts + [r];
    assert |multiset(r)| < |multiset(rest)|;
  }

  /** A pop and a leg as PopTarget and Leg promise keep the tour's state. */
  lemma TourInvSnoc(g: Grid, anchor: Cell, rooms: seq<Rect>, exitRoom: Option<nat>, exit: Cell,
                    others: seq<Cell>, path: seq<Cell>, current: Cell,
                    path': seq<Cell>, current': Cell, order: seq<Cell>, rest: seq<Cell>,
                    froms: seq<Cell>, lefts: seq<seq<Cell>>,
                    target: Cell, r: seq<Cell>, path'': seq<Cell>, current'': Cell)
    requires TourInv(g, anchor, rooms, exitRoom, exit, others, path, current,
                     path', current', order, rest, froms, lefts)
    requires Picked(TourOrder(rooms, exitRoom, exit, current'), rest, target)
    requires multiset(r) + multiset{target} == multiset(rest)
    requires Chain(g, anchor, path'', current'')
    requires |path'| <= |path''| && path''[..|path'|] == path'
    requires Reachable(g, current', target) ==> current'' == target && path'' != []
    requires !Reachable(g, current', target) ==> path'' == path' && current'' == current'
    ensures TourInv(g, anchor, rooms, exitRoom, exit, others, path, current,
                    path'', current'', order + [target], r, froms + [current''], lefts + [r])
  {
    assert path''[..|path|] == path'[..|path|];
    TraceSnoc(g, rooms, exitRoom, exit, order, froms, lefts, target, current'', r);
    VisitSnoc(g, anchor, order, path', current', path'', current'', target);
    var o, f, l := order + [target], froms + [current''], lefts + [r];
    assert f[0] == froms[0] && l[0] == lefts[0];
    assert f[|o|] == current'' && l[|o|] == r;
  }

  /** The tour of the remaining centres: each is popped once, in the
      order PopTarget chooses from where the bot stands, and walked to
      when a path to it exists. froms and lefts record, pop by pop, the
      bot's cell and the centres still left. */
  method Tour(g: Grid, ghost anchor: Cell, rooms: seq<Rect>, exitRoom: Option<nat>, exit: Cell,
              others: seq<Cell>, path: seq<Cell>, current: Cell)
    returns (path': seq<Cell>, current': Cell, order: seq<Cell>,
             ghost froms: seq<Cell>, ghost lefts: seq<seq<Cell>>)
    requires Chain(g, anchor, path, current)
    ensures Chain(g, anchor, path', current')
    ensures |path| <= |path'| && path'[..|path|] == path
    ensures multiset(order) == multiset(others)
    ensures Trace(g, rooms, exitRoom, exit, order, froms, lefts)
    ensures froms[0] == current && lefts[0] == others
    ensures froms[|order|] == current' && lefts[|order|] == []
    ensures VisitsFrom(g, anchor, others, path')
  {
    var rest := others;
    path', current', order := path, current, [];
    froms, lefts := [current], [others];
    while rest != []
      invariant TourInv(g, anchor, rooms, exitRoom, exit, others, path, current,
                        path', current', order, rest, froms, lefts)
      decreases |rest|
    {
      path', current', order, rest, froms, lefts :=
        TourStep(g, anchor, rooms, exitRoom, exit, others, path, current,
                 path', current', order, rest, froms, lefts);
    }
    if IsOpen(g, anchor) {
      assert multiset(order) == multiset(others);
      forall c | c in others && Reachable(g, anchor, c) ensures c in path' {
        assert c in multiset(others);
        assert c in order;
      }
    }
  }

  lemma StepBack(g: Grid, a: Cell, b: Cell)
    requires IsOpen(g, a) && b in Step(g)(a)
    ensures a in Step(g)(b)
  {
    assert Adjacent(g, a, b);
    assert Adjacent(g, b, a);
  }

  /** Open cells can be walked in both directions: a walk from an open
      cell reverses. */
  lemma {:induction false} OpenWalkBack(g: Grid, p: seq<Cell>, s: Cell, t: Cell) returns (q: seq<Cell>)
    requires IsOpen(g, s) && IsPath(g, p, s, t)
    ensures IsPath(g, q, t, s)
    decreases |p|
  {
    if |p| == 1 {
      q := [s];
    } else {
      var m := p[|p| - 2];
      PathPrefix(Step(g), p, s, |p| - 2);
      var back := OpenWalkBack(g, p[..|p| - 1], s, m);
      if |p| > 2 {
        assert m in Step(g)(p[|p| - 3]);
      }
      StepBack(g, m, t);
      PathSnoc(Step(g), [t], t, t, m);
      PathJoin(Step(g), [t, m], back, t, m, s);
      q := [t, m] + back[1..];
    }
  }

  /** Wherever the walk has led, what its open anchor reaches stays
      reachable. */
  lemma ReachFromChain(g: Grid, anchor: Cell, path: seq<Cell>, current: Cell, e: Cell)
    requires Chain(g, anchor, path, current)
    requires IsOpen(g, anchor) && Reachable(g, anchor, e)
    ensures Reachable(g, current, e)
  {
    if path != [] {
      var back := OpenWalkBack(g, path, anchor, current);
      var p :| IsPathBy(Step(g), p, anchor, e);
      PathJoin(Step(g), back, p, current, anchor, e);
    }
  }

  /** The first leg, to the exit room's centre: a path that stays off the
      exit when there is one, any path otherwise. As written, the bot is
      taken to be at the centre afterwards even when neither search found
      a path. */
  method ApproachAsWritten(g: Grid, start: Cell, center: Cell, exit: Cell)
    returns (path: seq<Cell>, current: Cell)
    ensures current == center
    ensures path == [] <==> !Reachable(g, start, center)
    ensures path != [] ==> IsPath(g, path, start, center)
    ensures center != exit && (exists q :: AllowedPath(g, q, start, center, exit)) ==> AvoidsAfterStart(path, exit)
  {
    path := BfsPathNoExit(start, center, g, exit);
    if path == [] {
      path := BfsPath(start, center, g);
    }
    current := center;
  }

  lemma ReachSelf(g: Grid, c: Cell)
    ensures Reachable(g, c, c)
  {
    assert IsPath(g, [c], c, c);
  }

  /** The first leg with the bot left where it stands when no path
      exists. */
  method Approach(g: Grid, start: Cell, center: Cell, exit: Cell)
    returns (path: seq<Cell>, current: Cell)
    ensures Chain(g, start, path, current)
    ensures current == center <==> Reachable(g, start, center)
    ensures center != exit && (exists q :: AllowedPath(g, q, start, center, exit)) ==> AvoidsAfterStart(path, exit)
  {
    path := BfsPathNoExit(start, center, g, exit);
    if path == [] {
      path := BfsPath(start, center, g);
    }
    current := if path == [] then start else center;
    ReachSelf(g, start);
  }

  /** The exit room's centre when the bot is more than one step from it
      (the first waypoint); otherwise None. */
  function FarCenter(rooms: seq<Rect>, exitRoom: Option<nat>, start: Cell): Option<Cell> {
    if exitRoom.Some? && exitRoom.value < |rooms| && Manhattan(start, Center(rooms[exitRoom.value])) > 1
    then Some(Center(rooms[exitRoom.value]))
    else None
  }

  /** The centres the tour visits after the first leg: the other rooms'
      centres once each, plus the exit room's centre when it is not the
      first waypoint and not among them already. */
  function TourCenters(rooms: seq<Rect>, exitRoom: Option<nat>, start: Cell): (cs: seq<Cell>)
    ensures NoDup(cs)
    ensures forall c :: c in cs <==>
      (c in OtherCenters(rooms, exitRoom)
       || (exitRoom.Some? && exitRoom.value < |rooms| && FarCenter(rooms, exitRoom, start).None?
           && c == Center(rooms[exitRoom.value])))
  {
    var others := Dedup(OtherCenters(rooms, exitRoom));
    if exitRoom.Some? && exitRoom.value < |rooms| && FarCenter(rooms, exitRoom, start).None?
       && Center(rooms[exitRoom.value]) !in others
    then
      var cs := others + [Center(rooms[exitRoom.value])];
      assert forall i :: 0 <= i < |others| ==> cs[i] == others[i];
      cs
    else others
  }

  /** The exit is the first 'E', the first room holding it has its centre
      more than one step from start, start cannot reach that centre, but
      the centre is open and reaches the exit. */
  ghost predicate Detour(g: Grid, start: Cell, rooms: seq<Rect>) {
    exists e :: FirstExit(g, e) && ExitRoom(rooms, e).Some?
      && var c := Center(rooms[ExitRoom(rooms, e).value]);
         Manhattan(start, c) > 1 && !Reachable(g, start, c) && IsOpen(g, c) && Reachable(g, c, e)
  }

  /** The walk of the planner as written: a grid walk that starts at the
      bot, or at the centre of a room the bot cannot reach. */
  ghost predicate WalkFromBotOrCentre(g: Grid, start: Cell, rooms: seq<Rect>, path: seq<Cell>) {
    && (path != [] ==> IsPath(g, path, path[0], path[|path| - 1]))
    && (path != [] && path[0] != start ==>
          exists i :: 0 <= i < |rooms| && path[0] == Center(rooms[i]) && !Reachable(g, start, path[0]))
  }

  /** For the first exit e, the walk passes through every tour centre the
      anchor reaches, and through the exit room's centre when that was the
      first waypoint and the bot (on an open cell) reaches it. */
  ghost predicate VisitsCentres(g: Grid, anchor: Cell, start: Cell, rooms: seq<Rect>, e: Cell,
                                path: seq<Cell>) {
    var far := FarCenter(rooms, ExitRoom(rooms, e), start);
    && VisitsFrom(g, anchor, TourCenters(rooms, ExitRoom(rooms, e), start), path)
    && (far.Some? && IsOpen(g, start) && Reachable(g, start, far.value) ==> far.value in path)
  }

  /** The visits of the first leg and of the tour survive the later legs. */
  lemma VisitsCentresFinal(g: Grid, anchor: Cell, start: Cell, rooms: seq<Rect>, exit: Cell,
                           p0: seq<Cell>, p1: seq<Cell>, p2: seq<Cell>)
    requires var far := FarCenter(rooms, ExitRoom(rooms, exit), start);
      far.Some? && IsOpen(g, start) && Reachable(g, start, far.value) ==> far.value in p0
    requires |p0| <= |p1| && p1[..|p0|] == p0
    requires VisitsFrom(g, anchor, TourCenters(rooms, ExitRoom(rooms, exit), start), p1)
    requires |p1| <= |p2| && p2[..|p1|] == p1
    ensures VisitsCentres(g, anchor, start, rooms, exit, p2)
  {
    var far := FarCenter(rooms, ExitRoom(rooms, exit), start);
    VisitsKept(g, anchor, TourCenters(rooms, ExitRoom(rooms, exit), start), p1, p2);
    if far.Some? && IsOpen(g, start) && Reachable(g, start, far.value) {
      InPrefix(far.value, p0, p1);
      InPrefix(far.value, p1, p2);
    }
  }

  /** A first leg that reaches its target leaves it on the walk. */
  lemma ApproachVisits(g: Grid, start: Cell, center: Cell, path: seq<Cell>, current: Cell)
    requires Chain(g, start, path, current) && current == center && center != start
    ensures center in path
  {
    assert path[|path| - 1] == current;
  }

  /** The as-written walk's visits, from the bot or from the exit room's
      centre the bot cannot reach. */
  lemma AsWrittenVisits(g: Grid, start: Cell, rooms: seq<Rect>, exit: Cell, anchor: Cell,
                        path: seq<Cell>)
    requires FirstExit(g, exit) && AnchorAsWritten(g, start, rooms, exit, anchor)
    requires VisitsCentres(g, anchor, start, rooms, exit, path)
    ensures forall e :: FirstExit(g, e) ==>
              || VisitsCentres(g, start, start, rooms, e, path)
              || (ExitRoom(rooms, e).Some?
                  && !Reachable(g, start, Center(rooms[ExitRoom(rooms, e).value]))
                  && VisitsCentres(g, Center(rooms[ExitRoom(rooms, e).value]), start, rooms, e, path))
  {
    forall e | FirstExit(g, e) ensures e == exit {
      FirstExitUnique(g, e, exit);
    }
  }

  /** find_exit_explore as written: after a failed first leg the walk is
      continued from the exit room's centre, so the returned path can start
      away from the bot. */
  method FindExitExploreAsWritten(start: Cell, g: Grid, rooms: seq<Rect>) returns (path: seq<Cell>)
    ensures !HasExit(g) ==> path == []
    ensures WalkFromBotOrCentre(g, start, rooms, path)
    ensures Detour(g, start, rooms) ==> path != [] && path[0] != start
    ensures forall e :: FirstExit(g, e) && path != [] ==>
              path[|path| - 1] == e || !Reachable(g, path[|path| - 1], e)
    ensures forall e :: FirstExit(g, e) ==>
              || VisitsCentres(g, start, start, rooms, e, path)
              || (ExitRoom(rooms, e).Some?
                  && !Reachable(g, start, Center(rooms[ExitRoom(rooms, e).value]))
                  && VisitsCentres(g, Center(rooms[ExitRoom(rooms, e).value]), start, rooms, e, path))
  {
    var found := FindExit(g);
    if found.None? {
      return [];
    }
    var exit := found.value;
    var exitRoom := ExitRoom(rooms, exit);
    var current := start;
    ghost var anchor := start;
    path := [];
    var far := FarCenter(rooms, exitRoom, start);
    if far.Some? {
      path, current := ApproachAsWritten(g, start, far.value, exit);
      if path == [] {
        anchor := far.value;
      } else {
        assert path[|path| - 1] == far.value;
      }
    }
    assert AnchorAsWritten(g, start, rooms, exit, anchor);
    var others := TourCenters(rooms, exitRoom, start);
    var order;
    ghost var froms, lefts, p0, p1 := [], [], path, [];
    path, current, order, froms, lefts := Tour(g, anchor, rooms, exitRoom, exit, others, path, current);
    DetourReaches(g, start, rooms, exit, anchor, path, current);
    p1 := path;
    path, current := FinalLeg(g, anchor, path, current, exit);
    AsWrittenWalk(g, start, rooms, exit, anchor, path, current);
    VisitsCentresFinal(g, anchor, start, rooms, exit, p0, p1, path);
    AsWrittenVisits(g, start, rooms, exit, anchor, path);
  }

  /** Where the as-written walk begins: at the bot, or at the exit room's
      centre when the bot cannot reach it. */
  ghost predicate AnchorAsWritten(g: Grid, start: Cell, rooms: seq<Rect>, exit: Cell, anchor: Cell) {
    && (anchor != start ==>
          ExitRoom(rooms, exit).Some? && anchor == Center(rooms[ExitRoom(rooms, exit).value])
          && !Reachable(g, start, anchor))
    && (Detour(g, start, rooms) && FirstExit(g, exit) ==>
          anchor == Center(rooms[ExitRoom(rooms, exit).value]))
  }

  lemma AsWrittenWalk(g: Grid, start: Cell, rooms: seq<Rect>, exit: Cell, anchor: Cell,
                      path: seq<Cell>, current: Cell)
    requires FirstExit(g, exit) && Chain(g, anchor, path, current)
    requires AnchorAsWritten(g, start, rooms, exit, anchor)
    requires Detour(g, start, rooms) ==> path != []
    ensures WalkFromBotOrCentre(g, start, rooms, path)
    ensures Detour(g, start, rooms) ==> path != [] && path[0] != start
  {
    if Detour(g, start, rooms) {
      var e :| FirstExit(g, e) && ExitRoom(rooms, e).Some?
        && var c := Center(rooms[ExitRoom(rooms, e).value]);
           Manhattan(start, c) > 1 && !Reachable(g, start, c) && IsOpen(g, c) && Reachable(g, c, e);
      FirstExitUnique(g, e, exit);
    }
  }

  /** Under a detour the tour starts from the exit room's centre, and the
      last leg reaches the exit from wherever the tour stopped. */
  lemma DetourReaches(g: Grid, start: Cell, rooms: seq<Rect>, exit: Cell, anchor: Cell,
                      path: seq<Cell>, current: Cell)
    requires FirstExit(g, exit) && Chain(g, anchor, path, current)
    requires Detour(g, start, rooms) ==> anchor == Center(rooms[ExitRoom(rooms, exit).value])
    ensures Detour(g, start, rooms) ==> Reachable(g, current, exit)
  {
    if Detour(g, start, rooms) {
      var e :| FirstExit(g, e) && ExitRoom(rooms, e).Some?
        && var c := Center(rooms[ExitRoom(rooms, e).value]);
           Manhattan(start, c) > 1 && !Reachable(g, start, c) && IsOpen(g, c) && Reachable(g, c, e);
      FirstExitUnique(g, e, exit);
      ReachFromChain(g, anchor, path, current, exit);
    }
  }

  /** find_exit_explore with the first leg corrected: the walk always
      starts at the bot, and ends at the exit whenever the bot (on an open
      cell) can reach it. */
  method FindExitExplore(start: Cell, g: Grid, rooms: seq<Rect>) returns (path: seq<Cell>)
    ensures !HasExit(g) ==> path == []
    ensures path != [] ==> IsPath(g, path, start, path[|path| - 1])
    ensures forall e :: FirstExit(g, e) && IsOpen(g, start) && Reachable(g, start, e) ==>
              path != [] && path[|path| - 1] == e
    ensures forall e :: FirstExit(g, e) && path != [] ==>
              path[|path| - 1] == e || !Reachable(g, path[|path| - 1], e)
    ensures forall e :: FirstExit(g, e) ==> VisitsCentres(g, start, start, rooms, e, path)
  {
    var found := FindExit(g);
    if found.None? {
      return [];
    }
    var exit := found.value;
    var exitRoom := ExitRoom(rooms, exit);
    var current := start;
    path := [];
    var far := FarCenter(rooms, exitRoom, start);
    if far.Some? {
      path, current := Approach(g, start, far.value, exit);
      if Reachable(g, start, far.value) {
        ApproachVisits(g, start, far.value, path, current);
      }
    }
    var others := TourCenters(rooms, exitRoom, start);
    var order;
    ghost var froms, lefts, p0, p1 := [], [], path, [];
    path, current, order, froms, lefts := Tour(g, start, rooms, exitRoom, exit, others, path, current);
    if IsOpen(g, start) && Reachable(g, start, exit) {
      ReachFromChain(g, start, path, current, exit);
    }
    p1 := path;
    path, current := FinalLeg(g, start, path, current, exit);
    EndsAtExit(g, start, exit, path);
    VisitsCentresFinal(g, start, start, rooms, exit, p0, p1, path);
    forall e | FirstExit(g, e) ensures e == exit {
      FirstExitUnique(g, e, exit);
    }
  }

  lemma EndsAtExit(g: Grid, start: Cell, exit: Cell, path: seq<Cell>)
    requires FirstExit(g, exit)
    requires IsOpen(g, start) && Reachable(g, start, exit) ==> path != [] && path[|path| - 1] == exit
    ensures forall e :: FirstExit(g, e) && IsOpen(g, start) && Reachable(g, start, e) ==>
              path != [] && path[|path| - 1] == e
  {
    forall e | FirstExit(g, e) ensures e == exit {
      FirstExitUnique(g, e, exit);
    }
  }

  /** The last leg, toward the exit: afterwards the walk ends at the exit,
      or at a cell from which no exit in first position can be reached. */
  method FinalLeg(g: Grid, ghost anchor: Cell, path: seq<Cell>, current: Cell, exit: Cell)
    returns (path': seq<Cell>, current': Cell)
    requires FirstExit(g, exit) && Chain(g, anchor, path, current)
    ensures Chain(g, anchor, path', current')
    ensures |path| <= |path'| && path'[..|path|] == path
    ensures Reachable(g, current, exit) ==> current' == exit && path' != []
    ensures !Reachable(g, current, exit) ==> path' == path && current' == current
    ensures forall e :: FirstExit(g, e) && path' != [] ==>
              path'[|path'| - 1] == e || !Reachable(g, path'[|path'| - 1], e)
  {
    path', current' := Leg(g, anchor, path, current, exit);
    EndsAtExitOrStuck(g, anchor, exit, path', current');
  }

  /** After the last leg the walk ends at the exit, or at a cell from
      which the exit cannot be reached. */
  lemma EndsAtExitOrStuck(g: Grid, anchor: Cell, exit: Cell, path: seq<Cell>, current: Cell)
    requires FirstExit(g, exit) && Chain(g, anchor, path, current)
    requires current == exit || !Reachable(g, current, exit)
    ensures forall e :: FirstExit(g, e) && path != [] ==>
              path[|path| - 1] == e || !Reachable(g, path[|path| - 1], e)
  {
    forall e | FirstExit(g, e) ensures e == exit {
      FirstExitUnique(g, e, exit);
    }
  }

  /** A bot boxed in at (1, 1), and an exit room whose centre (4, 1) sits
      next to the exit (5, 1):
          #######
          # #  E#
          ####### */
  function BoxedGrid(): Grid {
    ["#######", "# #  E#", "#######"]
  }

  lemma BoxedExit()
    ensures FirstExit(BoxedGrid(), (5, 1))
  {
    var g := BoxedGrid();
    forall d | InBounds(g, d) && RowMajorBefore(d, (5, 1)) ensures At(g, d) != 'E' {
      assert d.1 == 0 || (d.1 == 1 && d.0 < 5);
    }
  }

  /** A cell with no open cardinal neighbour is a closed set by itself. */
  lemma WalledIn(g: Grid, c: Cell)
    requires forall n :: n in Around(c) ==> !IsOpen(g, n)
    ensures Closed(Step(g), {c})
  {
    forall n | n in Step(g)(c) ensures false {
      assert Adjacent(g, c, n);
      AroundIsDistanceOne(c, n);
    }
  }

  /** The bot at (1, 1) has no open neighbour. */
  lemma BoxedIn()
    ensures !Reachable(BoxedGrid(), (1, 1), (4, 1))
  {
    var g := BoxedGrid();
    assert !IsOpen(g, (2, 1)) && !IsOpen(g, (0, 1)) && !IsOpen(g, (1, 2)) && !IsOpen(g, (1, 0));
    WalledIn(g, (1, 1));
    forall p | IsPathBy(Step(g), p, (1, 1), (4, 1)) ensures false {
      ClosedBoundsReach(Step(g), {(1, 1)}, (1, 1), p);
    }
  }

  lemma CentreReachesExit()
    ensures IsOpen(BoxedGrid(), (4, 1)) && Reachable(BoxedGrid(), (4, 1), (5, 1))
  {
    var g := BoxedGrid();
    assert Adjacent(g, (4, 1), (5, 1));
    assert IsPath(g, [(4, 1), (5, 1)], (4, 1), (5, 1));
  }

  /** On this input the planner as written returns a walk from (4, 1),
      which the bot at (1, 1) cannot reach. */
  lemma DetourExample()
    ensures Detour(BoxedGrid(), (1, 1), [Rect(2, 0, 7, 3)])
  {
    var rooms := [Rect(2, 0, 7, 3)];
    BoxedExit();
    BoxedIn();
    CentreReachesExit();
    assert ExitRoom(rooms, (5, 1)) == Some(0);
    assert Center(rooms[0]) == (4, 1);
  }
}

