/** The A* search of find_exit_astar, over any successor function and any
    heuristic that never drops by more than one per step (Manhattan distance
    to the exit on the grid is one). The frontier is a list of
    (priority, cell) entries; each round removes the least entry in the
    order heapq uses for such tuples. */
module Astar {
  import opened Paths

  type Entry = (int, Cell)

  /** The tuple order of (priority, (x, y)): priority, then x, then y. */
  predicate EntryLe(a: Entry, b: Entry) {
    a.0 < b.0 || (a.0 == b.0 && (a.1.0 < b.1.0 || (a.1.0 == b.1.0 && a.1.1 <= b.1.1)))
  }

  /** The position of a least entry of the frontier (heappop). */
  method PopIndex(F: seq<Entry>) returns (i: nat)
    requires F != []
    ensures i < |F|
    ensures forall j :: 0 <= j < |F| ==> EntryLe(F[i], F[j])
  {
    i := 0;
    var k := 1;
    while k < |F|
      invariant i < k <= |F|
      invariant forall j :: 0 <= j < k ==> EntryLe(F[i], F[j])
    {
      if !EntryLe(F[i], F[k]) {
        i := k;
      }
      k := k + 1;
    }
  }

  /** The heuristic drops by at most one along each step. */
  ghost predicate Consistent(step: Cell -> seq<Cell>, h: Cell -> nat) {
    forall c, n :: n in step(c) ==> h(c) <= h(n) + 1
  }

  /** cost[v] is no more than the length of any walk from start to v. */
  ghost predicate Opt(step: Cell -> seq<Cell>, start: Cell, cost: map<Cell, nat>, v: Cell) {
    v in cost && forall p :: IsPathBy(step, p, start, v) ==> cost[v] <= |p| - 1
  }

  /** Every successor of v has a cost at most one more than v's. */
  ghost predicate Relaxed(step: Cell -> seq<Cell>, cost: map<Cell, nat>, v: Cell) {
    v in cost && forall n :: n in step(v) ==> n in cost && cost[n] <= cost[v] + 1
  }

  /** Along a walk the heuristic drops by at most the number of steps. */
  lemma {:induction false} HeuristicAlongWalk(step: Cell -> seq<Cell>, h: Cell -> nat, p: seq<Cell>, i: nat)
    requires Consistent(step, h) && Walk(step, p)
    requires i < |p|
    ensures h(p[i]) <= h(p[|p|-1]) + (|p| - 1 - i)
    decreases |p| - i
  {
    if i < |p| - 1 {
      HeuristicAlongWalk(step, h, p, i + 1);
      assert p[i+1] in step(p[i]);
    }
  }

  /** The predecessor chain of v is a walk from start of at most cost[v] + 1
      cells, because costs strictly drop along it. */
  lemma {:induction false} TreePath(step: Cell -> seq<Cell>, par: map<Cell, Option<Cell>>,
                                    cost: map<Cell, nat>, start: Cell, v: Cell)
    returns (p: seq<Cell>)
    requires ParentTree(step, par, cost, start)
    requires v in par
    ensures IsPathBy(step, p, start, v) && |p| <= cost[v] + 1
    decreases cost[v]
  {
    if par[v].None? {
      p := [v];
    } else {
      var u := par[v].value;
      var q := TreePath(step, par, cost, start, u);
      PathSnoc(step, q, start, u, v);
      p := q + [v];
    }
  }

  /** Every expanded cell keeps its successors relaxed and its cost optimal. */
  ghost predicate Settled(step: Cell -> seq<Cell>, start: Cell, cost: map<Cell, nat>, S: set<Cell>) {
    forall u :: u in S ==> Relaxed(step, cost, u) && Opt(step, start, cost, u)
  }

  /** What the frontier promises: every entry names a known cell and (apart
      from the initial entry for start) a priority at least its cost plus its
      heuristic; every known cell not yet expanded has an entry of priority
      at most its cost plus its heuristic. */
  ghost predicate Frontier(h: Cell -> nat, start: Cell, cost: map<Cell, nat>, S: set<Cell>,
                           F: seq<Entry>, best: map<Cell, int>)
  {
    && (forall j :: 0 <= j < |F| ==>
          F[j].1 in cost && (F[j].1 == start || F[j].0 >= cost[F[j].1] + h(F[j].1)))
    && (forall w :: w in cost && w !in S ==>
          w in best && (best[w], w) in F && best[w] <= cost[w] + h(w))
  }

  /** The bookkeeping the search keeps between rounds. */
  ghost predicate Core(step: Cell -> seq<Cell>, universe: set<Cell>, start: Cell,
                       cost: map<Cell, nat>, par: map<Cell, Option<Cell>>, S: set<Cell>)
  {
    && ParentTree(step, par, cost, start)
    && par.Keys == cost.Keys
    && start in cost && cost[start] == 0
    && cost.Keys <= universe
    && S <= cost.Keys
    && Settled(step, start, cost, S)
  }

  /** A walk from start to a cell outside S first leaves S at a cell that
      is known, not expanded, and costs no more than its position. */
  lemma {:induction false} Crossing(step: Cell -> seq<Cell>, start: Cell, cost: map<Cell, nat>,
                                    S: set<Cell>, p: seq<Cell>, v: Cell, k: nat)
    returns (j: nat)
    requires Settled(step, start, cost, S) && start in cost && cost[start] == 0
    requires IsPathBy(step, p, start, v) && v !in S
    requires k < |p|
    requires forall i :: 0 <= i < k ==> p[i] in S
    ensures k <= j < |p| && p[j] in cost && p[j] !in S && cost[p[j]] <= j
    decreases |p| - k
  {
    if p[k] !in S {
      if k > 0 {
        assert p[k-1] in S;
        PathPrefix(step, p, start, k - 1);
        assert p[k] in step(p[k-1]);
      }
      j := k;
    } else {
      j := Crossing(step, start, cost, S, p, v, k + 1);
    }
  }

  /** The cell of a least frontier entry already has its optimal cost. */
  lemma OptAtMin(step: Cell -> seq<Cell>, h: Cell -> nat, start: Cell, cost: map<Cell, nat>,
                 S: set<Cell>, F: seq<Entry>, best: map<Cell, int>, i: nat)
    requires Consistent(step, h)
    requires Settled(step, start, cost, S) && start in cost && cost[start] == 0
    requires Frontier(h, start, cost, S, F, best)
    requires i < |F| && forall j :: 0 <= j < |F| ==> EntryLe(F[i], F[j])
    ensures Opt(step, start, cost, F[i].1)
  {
    var v := F[i].1;
    assert v in cost;
    if v !in S && v != start {
      forall p | IsPathBy(step, p, start, v) ensures cost[v] <= |p| - 1 {
        if |p| - 1 < cost[v] {
          var j := Crossing(step, start, cost, S, p, v, 0);
          var w := p[j];
          HeuristicAlongWalk(step, h, p, j);
          assert false;
        }
      }
    }
  }

  /** Relaxing an edge never lowers the cost of an expanded cell. */
  lemma NoUpdateSettled(step: Cell -> seq<Cell>, start: Cell, cost: map<Cell, nat>,
                        par: map<Cell, Option<Cell>>, v: Cell, u: Cell)
    requires ParentTree(step, par, cost, start) && v in par
    requires u in step(v) && Opt(step, start, cost, u)
    ensures cost[u] <= cost[v] + 1
  {
    var q := TreePath(step, par, cost, start, v);
    PathSnoc(step, q, start, v, u);
  }

  /** Lowering the cost of n to one more than v's and making v its
      predecessor keeps the predecessor map a tree. */
  lemma ParentUpdate(step: Cell -> seq<Cell>, par: map<Cell, Option<Cell>>, cost: map<Cell, nat>,
                     start: Cell, v: Cell, n: Cell, nc: nat)
    requires ParentTree(step, par, cost, start) && par.Keys == cost.Keys
    requires v in par && n in step(v) && n != start
    requires nc == cost[v] + 1 && (n !in cost || nc < cost[n])
    ensures ParentTree(step, par[n := Some(v)], cost[n := nc], start)
  {
    var par', cost' := par[n := Some(v)], cost[n := nc];
    forall x | x in par' && par'[x].Some?
      ensures par'[x].value in par' && x in step(par'[x].value)
      ensures cost'[par'[x].value] < cost'[x]
    {
      if x != n {
        assert par'[x] == par[x];
      }
    }
  }

  /** Lowering the cost of a cell that is not expanded keeps the expanded
      cells settled. */
  lemma SettledUpdate(step: Cell -> seq<Cell>, start: Cell, cost: map<Cell, nat>, S: set<Cell>,
                      n: Cell, nc: nat)
    requires Settled(step, start, cost, S) && n !in S
    requires n !in cost || nc < cost[n]
    ensures Settled(step, start, cost[n := nc], S)
  {
    var cost' := cost[n := nc];
    forall u | u in S ensures Relaxed(step, cost', u) && Opt(step, start, cost', u) {
      assert cost'[u] == cost[u];
    }
  }

  /** Pushing the entry for a lowered cost keeps the frontier's promises. */
  lemma FrontierUpdate(h: Cell -> nat, start: Cell, cost: map<Cell, nat>, S: set<Cell>,
                       F: seq<Entry>, best: map<Cell, int>, n: Cell, nc: nat)
    requires Frontier(h, start, cost, S, F, best) && n != start
    requires n !in cost || nc < cost[n]
    ensures Frontier(h, start, cost[n := nc], S, F + [(nc + h(n), n)], best[n := nc + h(n)])
  {
    var cost', F', best' := cost[n := nc], F + [(nc + h(n), n)], best[n := nc + h(n)];
    forall j | 0 <= j < |F'|
      ensures F'[j].1 in cost' && (F'[j].1 == start || F'[j].0 >= cost'[F'[j].1] + h(F'[j].1))
    {
      if j < |F| {
        assert F'[j] == F[j];
      }
    }
    forall w | w in cost' && w !in S
      ensures w in best' && (best'[w], w) in F' && best'[w] <= cost'[w] + h(w)
    {
      if w != n {
        assert (best[w], w) in F;
      } else {
        assert F'[|F|] == (best'[w], w);
      }
    }
  }

  /** Removing entry i, whose cell is about to be expanded, keeps the
      frontier's promises once that cell counts as expanded. */
  lemma PopFrontier(h: Cell -> nat, start: Cell, cost: map<Cell, nat>, S: set<Cell>,
                    F: seq<Entry>, best: map<Cell, int>, i: nat)
    requires Frontier(h, start, cost, S, F, best) && i < |F|
    ensures Frontier(h, start, cost, S + {F[i].1}, F[..i] + F[i+1..], best)
  {
    var F' := F[..i] + F[i+1..];
    forall j | 0 <= j < |F'| ensures F'[j] in F {
      if j < i { assert F'[j] == F[j]; } else { assert F'[j] == F[j+1]; }
    }
    forall w | w in cost && w !in S + {F[i].1} ensures (best[w], w) in F' {
      var m :| 0 <= m < |F| && F[m] == (best[w], w);
      if m < i { assert F'[m] == F[m]; } else { assert F'[m-1] == F[m]; }
    }
  }

  /** Once every known cell is expanded the known cells are closed under
      steps, so a cell outside them cannot be reached. */
  lemma ClosedWhenDone(step: Cell -> seq<Cell>, start: Cell, cost: map<Cell, nat>, S: set<Cell>, goal: Cell)
    requires Settled(step, start, cost, S) && cost.Keys <= S
    requires start in cost && goal !in cost
    ensures !ReachableBy(step, start, goal)
  {
    forall c, n | c in cost.Keys && n in step(c) ensures n in cost.Keys {
      assert Relaxed(step, cost, c);
    }
    forall p | IsPathBy(step, p, start, goal) ensures false {
      ClosedBoundsReach(step, cost.Keys, start, p);
    }
  }

  /** Relaxing the edge from v to a cell whose cost improves keeps the
      bookkeeping intact. */
  lemma CoreUpdate(step: Cell -> seq<Cell>, universe: set<Cell>, start: Cell, cost: map<Cell, nat>,
                   par: map<Cell, Option<Cell>>, S: set<Cell>, v: Cell, n: Cell, nc: nat)
    requires Core(step, universe, start, cost, par, S) && Confined(step, universe)
    requires v in cost && n in step(v)
    requires nc == cost[v] + 1 && (n !in cost || nc < cost[n])
    ensures n !in S && n != start
    ensures Core(step, universe, start, cost[n := nc], par[n := Some(v)], S)
  {
    if n in S {
      NoUpdateSettled(step, start, cost, par, v, n);
    }
    ParentUpdate(step, par, cost, start, v, n, nc);
    SettledUpdate(step, start, cost, S, n, nc);
  }

  /** The first k successors in ns cost at most one more than v. */
  ghost predicate RelaxedUpTo(cost: map<Cell, nat>, ns: seq<Cell>, k: nat, v: Cell) {
    v in cost && forall j :: 0 <= j < k && j < |ns| ==> ns[j] in cost && cost[ns[j]] <= cost[v] + 1
  }

  /** Giving ns[k] the cost one more than v's extends the relaxed prefix. */
  lemma RelaxedUpToUpdate(cost: map<Cell, nat>, ns: seq<Cell>, k: nat, v: Cell, nc: nat)
    requires k < |ns| && v in cost && ns[k] != v && nc == cost[v] + 1
    requires RelaxedUpTo(cost, ns, k, v)
    ensures RelaxedUpTo(cost[ns[k] := nc], ns, k + 1, v)
  {
    var cost' := cost[ns[k] := nc];
    forall j | 0 <= j < k + 1 ensures ns[j] in cost' && cost'[ns[j]] <= cost'[v] + 1 {
      if ns[j] != ns[k] {
        assert cost'[ns[j]] == cost[ns[j]];
      }
    }
  }

  /** A successor that already costs at most one more than v extends the
      relaxed prefix. */
  lemma RelaxedUpToKeep(cost: map<Cell, nat>, ns: seq<Cell>, k: nat, v: Cell)
    requires k < |ns| && ns[k] in cost && v in cost && cost[ns[k]] <= cost[v] + 1
    requires RelaxedUpTo(cost, ns, k, v)
    ensures RelaxedUpTo(cost, ns, k + 1, v)
  {
  }

  /** One expansion: every successor n of v whose cost improves through v
      (or is not known yet) gets cost[v] + 1, v as predecessor, and a new
      frontier entry prioritised by that cost plus h(n). */
  method Expand(step: Cell -> seq<Cell>, h: Cell -> nat, ghost universe: set<Cell>, ghost start: Cell,
                v: Cell, cost0: map<Cell, nat>, par0: map<Cell, Option<Cell>>, F0: seq<Entry>,
                ghost best0: map<Cell, int>, ghost S: set<Cell>)
    returns (cost: map<Cell, nat>, par: map<Cell, Option<Cell>>, F: seq<Entry>, ghost best: map<Cell, int>)
    requires Core(step, universe, start, cost0, par0, S) && Confined(step, universe)
    requires v in cost0 && Frontier(h, start, cost0, S + {v}, F0, best0)
    ensures Core(step, universe, start, cost, par, S)
    ensures Frontier(h, start, cost, S + {v}, F, best)
    ensures Relaxed(step, cost, v) && cost[v] == cost0[v]
    ensures Relaxed(step, cost0, v) ==> F == F0
  {
    cost, par, F, best := cost0, par0, F0, best0;
    var ns := step(v);
    var k := 0;
    while k < |ns|
      invariant k <= |ns|
      invariant Core(step, universe, start, cost, par, S)
      invariant Frontier(h, start, cost, S + {v}, F, best)
      invariant v in cost && cost[v] == cost0[v]
      invariant RelaxedUpTo(cost, ns, k, v)
      invariant Relaxed(step, cost0, v) ==> cost == cost0 && F == F0
    {
      var n := ns[k];
      var nc := cost[v] + 1;
      if n !in cost || nc < cost[n] {
        assert n in step(v);
        CoreUpdate(step, universe, start, cost, par, S, v, n, nc);
        FrontierUpdate(h, start, cost, S + {v}, F, best, n, nc);
        RelaxedUpToUpdate(cost, ns, k, v, nc);
        cost := cost[n := nc];
        par := par[n := Some(v)];
        F := F + [(nc + h(n), n)];
        best := best[n := nc + h(n)];
      } else {
        RelaxedUpToKeep(cost, ns, k, v);
      }
      k := k + 1;
    }
  }

  /** find_exit_astar's search: repeatedly takes a least frontier entry,
      stops when its cell is the goal, and otherwise expands the cell. With
      a consistent heuristic the walk rebuilt from the predecessor map is a
      shortest one, and none is returned exactly when the goal cannot be
      reached. Cells may be expanded again through stale entries, as in the
      source, which keeps no closed set. */
  method Search(step: Cell -> seq<Cell>, h: Cell -> nat, ghost universe: set<Cell>, start: Cell, goal: Cell)
    returns (path: seq<Cell>)
    requires Consistent(step, h)
    requires start in universe && Confined(step, universe)
    ensures path != [] ==> IsPathBy(step, path, start, goal)
    ensures path != [] ==> forall p :: IsPathBy(step, p, start, goal) ==> |path| <= |p|
    ensures path == [] <==> !ReachableBy(step, start, goal)
  {
    var cost: map<Cell, nat> := map[start := 0];
    var par: map<Cell, Option<Cell>> := map[start := None];
    var F: seq<Entry> := [(0, start)];
    ghost var best: map<Cell, int> := map[start := 0];
    ghost var S: set<Cell> := {};
    var found := false;
    while F != [] && !found
      invariant Core(step, universe, start, cost, par, S) && goal !in S
      invariant !found ==> Frontier(h, start, cost, S, F, best)
      invariant found ==> Opt(step, start, cost, goal)
      decreases |universe - S|, |F|
    {
      var i := PopIndex(F);
      var v := F[i].1;
      OptAtMin(step, h, start, cost, S, F, best, i);
      PopFrontier(h, start, cost, S, F, best, i);
      F := F[..i] + F[i+1..];
      if v == goal {
        found := true;
      } else {
        ghost var S' := S + {v};
        RemainderShrinks(universe, S, S');
        cost, par, F, best := Expand(step, h, universe, start, v, cost, par, F, best, S);
        S := S';
      }
    }
    if goal !in par {
      ClosedWhenDone(step, start, cost, S, goal);
      path := [];
    } else {
      path := Rebuild(step, par, cost, start, goal);
    }
  }
}
