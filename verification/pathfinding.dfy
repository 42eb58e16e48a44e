/** The breadth-first and depth-first searches of the dungeon bot: a
    shortest path to a goal cell, the same search kept off the exit cell,
    and the find-the-exit entry points built on them. */
module Pathfinding {
  import opened Paths
  import opened Grid
  import Bfs

  /** Every cell a search can ever record: the grid's cells plus the start,
      which may lie anywhere. */
  function Universe(g: Grid, start: Cell): set<Cell> {
    InBoundsCells(g) + {start}
  }

  lemma UniverseConfines(g: Grid, start: Cell)
    ensures start in Universe(g, start)
    ensures Confined(Step(g), Universe(g, start))
  {
    StepConfined(g);
  }

  /** p is a path from s to t and no path from s to t is shorter. */
  ghost predicate Shortest(step: Cell -> seq<Cell>, p: seq<Cell>, s: Cell, t: Cell) {
    IsPathBy(step, p, s, t) && forall q :: IsPathBy(step, q, s, t) ==> |p| <= |q|
  }

  /** The bfs_path contract: a shortest path to goal, or nothing exactly when
      goal cannot be reached. A start equal to goal gives [start]. */
  method BfsPath(start: Cell, goal: Cell, g: Grid) returns (path: seq<Cell>)
    ensures path != [] ==> Shortest(Step(g), path, start, goal)
    ensures path == [] <==> !Reachable(g, start, goal)
  {
    UniverseConfines(g, start);
    var reached;
    path, reached := Bfs.Search(Step(g), Universe(g, start), start, c => c == goal);
    if path == [] {
      forall p | IsPathBy(Step(g), p, start, goal) ensures false {
        assert PathFrom(Step(g), p, start);
      }
    } else {
      forall q | IsPathBy(Step(g), q, start, goal) ensures |path| <= |q| {
        assert Bfs.GoalPath(Step(g), q, start, c => c == goal);
      }
    }
  }

  /** Once the first cell is left behind, p never returns to the exit. */
  ghost predicate AvoidsAfterStart(p: seq<Cell>, exit: Cell) {
    forall i :: 0 < i < |p| ==> p[i] != exit
  }

  /** s with every occurrence of x removed. */
  function Without(s: seq<Cell>, x: Cell): (r: seq<Cell>)
    ensures forall n :: n in r <==> n in s && n != x
  {
    if s == [] then []
    else if s[0] == x then Without(s[1..], x)
    else [s[0]] + Without(s[1..], x)
  }

  /** The successors bfs_path_no_exit follows when the goal is not the exit:
      the grid's neighbours minus the exit. */
  function SkipExit(g: Grid, exit: Cell): Cell -> seq<Cell> {
    c => Without(Neighbors(g, c), exit)
  }

  /** SkipExit offers only grid neighbours other than the exit ... */
  lemma SkipExitNarrows(g: Grid, exit: Cell)
    ensures forall c, n :: n in SkipExit(g, exit)(c) ==> n in Step(g)(c) && n != exit
  {
  }

  /** ... and offers all of them. */
  lemma SkipExitKeeps(g: Grid, exit: Cell)
    ensures forall c, n :: n in Step(g)(c) && n != exit ==> n in SkipExit(g, exit)(c)
  {
  }

  /** A walk by a successor function that only offers successors of b other
      than x is a walk by b ... */
  lemma WalkNarrowed(a: Cell -> seq<Cell>, b: Cell -> seq<Cell>, x: Cell, p: seq<Cell>)
    requires forall c, n :: n in a(c) ==> n in b(c) && n != x
    requires Walk(a, p)
    ensures Walk(b, p)
  {
    forall i | 0 <= i < |p| - 1 ensures p[i+1] in b(p[i]) {
      assert p[i+1] in a(p[i]);
    }
  }

  /** ... that never enters x after its first cell ... */
  lemma WalkAvoids(a: Cell -> seq<Cell>, x: Cell, p: seq<Cell>)
    requires forall c, n :: n in a(c) ==> n != x
    requires Walk(a, p)
    ensures AvoidsAfterStart(p, x)
  {
    forall k | 0 < k < |p| ensures p[k] != x {
      var i := k - 1;
      assert p[i+1] in a(p[i]);
    }
  }

  /** ... and, when a offers every such successor, every walk by b that
      stays off x after its first cell is a walk by a. */
  lemma WalkWidened(a: Cell -> seq<Cell>, b: Cell -> seq<Cell>, x: Cell, p: seq<Cell>)
    requires forall c, n :: n in b(c) && n != x ==> n in a(c)
    requires Walk(b, p) && AvoidsAfterStart(p, x)
    ensures Walk(a, p)
  {
    forall i | 0 <= i < |p| - 1 ensures p[i+1] in a(p[i]) {
      assert p[i+1] in b(p[i]);
    }
  }

  /** A path by SkipExit is a grid path ... */
  lemma SkipExitIsPath(g: Grid, exit: Cell, p: seq<Cell>, s: Cell, t: Cell)
    requires IsPathBy(SkipExit(g, exit), p, s, t)
    ensures IsPath(g, p, s, t)
  {
    SkipExitNarrows(g, exit);
    WalkNarrowed(SkipExit(g, exit), Step(g), exit, p);
  }

  /** ... that never enters the exit after its first cell ... */
  lemma SkipExitAvoids(g: Grid, exit: Cell, p: seq<Cell>, s: Cell, t: Cell)
    requires IsPathBy(SkipExit(g, exit), p, s, t)
    ensures AvoidsAfterStart(p, exit)
  {
    SkipExitNarrows(g, exit);
    WalkAvoids(SkipExit(g, exit), exit, p);
  }

  /** ... and every such grid path is a path by SkipExit. */
  lemma SkipExitComplete(g: Grid, exit: Cell, p: seq<Cell>, s: Cell, t: Cell)
    requires IsPath(g, p, s, t) && AvoidsAfterStart(p, exit)
    ensures IsPathBy(SkipExit(g, exit), p, s, t)
  {
    SkipExitKeeps(g, exit);
    WalkWidened(SkipExit(g, exit), Step(g), exit, p);
  }

  lemma SkipExitConfined(g: Grid, exit: Cell, start: Cell)
    ensures Confined(SkipExit(g, exit), Universe(g, start))
  {
    UniverseConfines(g, start);
    SkipExitNarrows(g, exit);
  }

  /** The paths bfs_path_no_exit may return: grid paths to goal that stay
      off the exit after the first cell, unless the goal is the exit. */
  ghost predicate AllowedPath(g: Grid, q: seq<Cell>, start: Cell, goal: Cell, exit: Cell) {
    IsPath(g, q, start, goal) && (goal != exit ==> AvoidsAfterStart(q, exit))
  }

  /** The bfs_path_no_exit contract: a shortest path to goal among those that
      stay off the exit after the first cell (any path when goal is the exit),
      or nothing exactly when no such path exists. */
  method BfsPathNoExit(start: Cell, goal: Cell, g: Grid, exit: Cell) returns (path: seq<Cell>)
    ensures path != [] ==> IsPath(g, path, start, goal)
    ensures path != [] && goal != exit ==> AvoidsAfterStart(path, exit)
    ensures path != [] ==> forall q :: AllowedPath(g, q, start, goal, exit) ==> |path| <= |q|
    ensures path == [] <==> !exists q :: AllowedPath(g, q, start, goal, exit)
  {
    if goal == exit {
      // The skip test never fires, so this is the plain breadth-first search.
      path := BfsPath(start, goal, g);
      if path == [] {
        forall q | AllowedPath(g, q, start, goal, exit) ensures false { }
      } else {
        assert AllowedPath(g, path, start, goal, exit);
      }
      return;
    }
    UniverseConfines(g, start);
    SkipExitConfined(g, exit, start);
    var reached;
    path, reached := Bfs.Search(SkipExit(g, exit), Universe(g, start), start, c => c == goal);
    if path == [] {
      NoAllowedPath(g, start, goal, exit);
    } else {
      SkipExitIsPath(g, exit, path, start, goal);
      SkipExitAvoids(g, exit, path, start, goal);
      assert AllowedPath(g, path, start, goal, exit);
      forall q | AllowedPath(g, q, start, goal, exit) ensures |path| <= |q| {
        SkipExitComplete(g, exit, q, start, goal);
        assert Bfs.GoalPath(SkipExit(g, exit), q, start, c => c == goal);
      }
    }
  }

  /** When no walk by SkipExit from start ends at goal, no allowed path does. */
  lemma NoAllowedPath(g: Grid, start: Cell, goal: Cell, exit: Cell)
    requires goal != exit
    requires forall p :: PathFrom(SkipExit(g, exit), p, start) ==> !((c => c == goal)(p[|p|-1]))
    ensures !exists q :: AllowedPath(g, q, start, goal, exit)
  {
    forall q | AllowedPath(g, q, start, goal, exit) ensures false {
      SkipExitComplete(g, exit, q, start, goal);
      assert PathFrom(SkipExit(g, exit), q, start);
    }
  }

  /** There is at most one first exit. */
  lemma FirstExitUnique(g: Grid, e1: Cell, e2: Cell)
    requires FirstExit(g, e1) && FirstExit(g, e2)
    ensures e1 == e2
  {
  }

  /** find_exit_bfs: a shortest path to the first exit in row-major order;
      nothing when the grid has no exit or the exit is unreachable. */
  method FindExitBfs(start: Cell, g: Grid) returns (path: seq<Cell>)
    ensures !HasExit(g) ==> path == []
    ensures forall e :: FirstExit(g, e) ==>
              (path == [] <==> !Reachable(g, start, e)) &&
              (path != [] ==> Shortest(Step(g), path, start, e))
  {
    var e := FindExit(g);
    if e.None? {
      return [];
    }
    path := BfsPath(start, e.value, g);
    forall e' | FirstExit(g, e') ensures e' == e.value {
      FirstExitUnique(g, e', e.value);
    }
  }

  /** find_exit_dfs: a depth-first search that marks cells when it pushes
      them and stops when it pops the exit. The path it returns is a path to
      the first exit, not necessarily a shortest one. */
  method FindExitDfs(start: Cell, g: Grid) returns (path: seq<Cell>)
    ensures !HasExit(g) ==> path == []
    ensures forall e :: FirstExit(g, e) ==>
              (path == [] <==> !Reachable(g, start, e)) &&
              (path != [] ==> IsPath(g, path, start, e))
  {
    var e := FindExit(g);
    if e.None? {
      return [];
    }
    var exit := e.value;
    forall e' | FirstExit(g, e') ensures e' == exit {
      FirstExitUnique(g, e', exit);
    }
    UniverseConfines(g, start);
    path := DepthFirst(Step(g), Universe(g, start), start, exit);
  }

  /** The invariant of the depth-first loop: the marked cells form a tree
      rooted at start; every marked cell is finished, is on the stack or is
      the cell being expanded (extra); every successor of a finished cell is
      marked; the target is never finished. */
  ghost predicate DfsInv(step: Cell -> seq<Cell>, universe: set<Cell>, start: Cell, target: Cell,
                         stack: seq<Cell>, par: map<Cell, Option<Cell>>, rank: map<Cell, nat>,
                         done: set<Cell>, extra: set<Cell>)
  {
    && ParentTree(step, par, rank, start)
    && par.Keys <= universe
    && done <= par.Keys
    && extra <= par.Keys
    && (forall j :: 0 <= j < |stack| ==> stack[j] in par)
    && (forall v :: v in par ==> v in done || v in extra || v in stack)
    && (forall v, n :: v in done && n in step(v) ==> n in par)
    && target !in done
  }

  lemma DfsPop(step: Cell -> seq<Cell>, universe: set<Cell>, start: Cell, target: Cell,
               stack: seq<Cell>, par: map<Cell, Option<Cell>>, rank: map<Cell, nat>, done: set<Cell>)
    requires DfsInv(step, universe, start, target, stack, par, rank, done, {})
    requires stack != []
    ensures DfsInv(step, universe, start, target, stack[..|stack|-1], par, rank, done, {stack[|stack|-1]})
  {
    var last := |stack| - 1;
    var s := stack[..last];
    forall v | v in par ensures v in done || v == stack[last] || v in s {
      if v in stack && v != stack[last] {
        var j :| 0 <= j < |stack| && stack[j] == v;
        assert j != last;
        assert s[j] == v;
      }
    }
  }

  lemma DfsPush(step: Cell -> seq<Cell>, universe: set<Cell>, start: Cell, target: Cell,
                stack: seq<Cell>, par: map<Cell, Option<Cell>>, rank: map<Cell, nat>, done: set<Cell>,
                cur: Cell, n: Cell)
    requires Confined(step, universe)
    requires DfsInv(step, universe, start, target, stack, par, rank, done, {cur})
    requires n in step(cur) && n !in par
    ensures DfsInv(step, universe, start, target, stack + [n], par[n := Some(cur)],
                   rank[n := rank[cur] + 1], done, {cur})
  {
    var s := stack + [n];
    forall v | v in par && v !in done && v != cur ensures v in s {
      var j :| 0 <= j < |stack| && stack[j] == v;
      assert s[j] == v;
    }
    assert s[|stack|] == n;
  }

  lemma DfsFinish(step: Cell -> seq<Cell>, universe: set<Cell>, start: Cell, target: Cell,
                  stack: seq<Cell>, par: map<Cell, Option<Cell>>, rank: map<Cell, nat>,
                  done: set<Cell>, cur: Cell)
    requires DfsInv(step, universe, start, target, stack, par, rank, done, {cur})
    requires cur != target
    requires forall n :: n in step(cur) ==> n in par
    ensures DfsInv(step, universe, start, target, stack, par, rank, done + {cur}, {})
  {
  }

  lemma PrefixSnoc(s: seq<Cell>, k: nat)
    requires k < |s|
    ensures s[..k+1] == s[..k] + [s[k]]
  {
  }

  /** The inner loop of find_exit_dfs: marks and pushes every unmarked
      successor of cur, in successor order. */
  method DfsExpand(step: Cell -> seq<Cell>, ghost universe: set<Cell>, start: Cell, ghost target: Cell,
                   cur: Cell, stack0: seq<Cell>, par0: map<Cell, Option<Cell>>,
                   ghost rank0: map<Cell, nat>, ghost done: set<Cell>)
    returns (stack: seq<Cell>, par: map<Cell, Option<Cell>>, ghost rank: map<Cell, nat>)
    requires Confined(step, universe)
    requires DfsInv(step, universe, start, target, stack0, par0, rank0, done, {cur})
    ensures DfsInv(step, universe, start, target, stack, par, rank, done, {cur})
    ensures forall n :: n in step(cur) ==> n in par
    ensures par0.Keys <= par.Keys
    ensures par.Keys == par0.Keys ==> stack == stack0
  {
    stack, par, rank := stack0, par0, rank0;
    var ns := step(cur);
    var k := 0;
    while k < |ns|
      invariant 0 <= k <= |ns|
      invariant DfsInv(step, universe, start, target, stack, par, rank, done, {cur})
      invariant forall n :: n in ns[..k] ==> n in par
      invariant par0.Keys <= par.Keys
      invariant par.Keys == par0.Keys ==> stack == stack0
    {
      var n := ns[k];
      PrefixSnoc(ns, k);
      if n !in par {
        DfsPush(step, universe, start, target, stack, par, rank, done, cur, n);
        par := par[n := Some(cur)];
        rank := rank[n := rank[cur] + 1];
        stack := stack + [n];
      }
      k := k + 1;
    }
    assert ns[..k] == ns;
  }

  /** The depth-first search of find_exit_dfs, from start to target over any
      successor function confined to a finite universe. */
  method DepthFirst(step: Cell -> seq<Cell>, universe: set<Cell>, start: Cell, target: Cell)
    returns (path: seq<Cell>)
    requires start in universe && Confined(step, universe)
    ensures path != [] ==> IsPathBy(step, path, start, target)
    ensures path == [] <==> !ReachableBy(step, start, target)
  {
    var stack := [start];
    var par: map<Cell, Option<Cell>> := map[start := None];
    ghost var rank: map<Cell, nat> := map[start := 0];
    ghost var done: set<Cell> := {};
    while stack != []
      invariant DfsInv(step, universe, start, target, stack, par, rank, done, {})
      decreases |universe - par.Keys|, |stack|
    {
      DfsPop(step, universe, start, target, stack, par, rank, done);
      var cur := stack[|stack|-1];
      stack := stack[..|stack|-1];
      if cur == target {
        path := Rebuild(step, par, rank, start, cur);
        return;
      }
      ghost var par0 := par;
      stack, par, rank := DfsExpand(step, universe, start, target, cur, stack, par, rank, done);
      DfsFinish(step, universe, start, target, stack, par, rank, done, cur);
      done := done + {cur};
      RemainderShrinks(universe, par0.Keys, par.Keys);
    }
    path := [];
    forall p | IsPathBy(step, p, start, target) ensures false {
      ClosedBoundsReach(step, par.Keys, start, p);
    }
  }
}
