/** find_exit_astar on the dungeon grid: the A* search steered by the
    Manhattan distance to the exit (the bot's heuristic). */
module ExitAstar {
  import opened Paths
  import opened Grid
  import Astar
  import Pathfinding

  /** heuristic(n, exit) as a function of the cell alone. */
  function ToExit(exit: Cell): Cell -> nat {
    c => Manhattan(c, exit)
  }

  /** The Manhattan distance to the exit drops by at most one per step of
      the grid, which is what makes the A* answer a shortest path. */
  lemma HeuristicConsistent(g: Grid, exit: Cell)
    ensures Astar.Consistent(Step(g), ToExit(exit))
  {
    StepIsUnit(g);
    forall c, n | n in Step(g)(c) ensures ToExit(exit)(c) <= ToExit(exit)(n) + 1 {
      assert Manhattan(c, n) == 1;
    }
  }

  /** The heuristic never overestimates: every path from c to the exit has
      at least Manhattan(c, exit) steps. */
  lemma HeuristicAdmissible(g: Grid, p: seq<Cell>, c: Cell, exit: Cell)
    requires IsPath(g, p, c, exit)
    ensures Manhattan(c, exit) <= |p| - 1
  {
    StepIsUnit(g);
    WalkDistance(Step(g), p, 0, |p| - 1);
  }

  /** find_exit_astar: no exit gives nothing; otherwise a shortest path to
      the first exit in row-major order, or nothing exactly when that exit
      cannot be reached. */
  method FindExitAstar(start: Cell, g: Grid) returns (path: seq<Cell>)
    ensures !HasExit(g) ==> path == []
    ensures forall e :: FirstExit(g, e) ==>
              (path == [] <==> !Reachable(g, start, e)) &&
              (path != [] ==> Pathfinding.Shortest(Step(g), path, start, e))
  {
    var e := FindExit(g);
    if e.None? {
      return [];
    }
    var exit := e.value;
    forall e' | FirstExit(g, e') ensures e' == exit {
      Pathfinding.FirstExitUnique(g, e', exit);
    }
    HeuristicConsistent(g, exit);
    Pathfinding.UniverseConfines(g, start);
    path := Astar.Search(Step(g), ToExit(exit), Pathfinding.Universe(g, start), start, exit);
  }

  /** The A* and breadth-first exit searches agree: both find a path or
      neither does, and the paths have the same length. */
  method AstarAgreesWithBfs(start: Cell, g: Grid) returns (a: seq<Cell>, b: seq<Cell>)
    ensures a == [] <==> b == []
    ensures |a| == |b|
  {
    a := FindExitAstar(start, g);
    b := Pathfinding.FindExitBfs(start, g);
    // The first exit is named by one more scan: both contracts speak of
    // every first exit, and this gives them the one to agree on.
    var e := FindExit(g);
  }
}
