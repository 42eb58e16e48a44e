/** The first-in first-out search shared by bfs_path, bfs_path_no_exit,
    find_nearest_floor and the flood fill of compute_largest_component: a queue
    seeded with the start cell, a "came from" map that marks a cell the moment
    it is enqueued, and a goal test applied to each cell as it is dequeued. */
module Bfs {
  import opened Paths

  /** p is a walk from start that ends on a goal cell. */
  ghost predicate GoalPath(step: Cell -> seq<Cell>, p: seq<Cell>, start: Cell, isGoal: Cell -> bool) {
    PathFrom(step, p, start) && isGoal(p[|p|-1])
  }

  /** The first m queued cells sit at depth lvl and the rest at depth lvl + 1. */
  ghost predicate Layered(queue: seq<Cell>, par: map<Cell, Option<Cell>>, d: map<Cell, nat>, lvl: nat, m: nat)
  {
    && m <= |queue|
    && (queue != [] ==> 0 < m)
    && forall i :: 0 <= i < |queue| ==>
         queue[i] in par && queue[i] in d && d[queue[i]] == if i < m then lvl else lvl + 1
  }

  /** Every visited cell v is recorded at its true distance: no walk from
      start reaches v in d[v] steps or fewer. */
  ghost predicate DepthIsMinimal(step: Cell -> seq<Cell>, start: Cell, par: map<Cell, Option<Cell>>,
                                 d: map<Cell, nat>)
    requires par.Keys <= d.Keys
  {
    forall v, p :: v in par && IsPathBy(step, p, start, v) ==> d[v] < |p|
  }

  /** The loop invariant of the search, at the head of the loop; done holds
      the cells already dequeued. */
  ghost predicate SearchInv(step: Cell -> seq<Cell>, universe: set<Cell>, start: Cell, isGoal: Cell -> bool,
                            queue: seq<Cell>, par: map<Cell, Option<Cell>>, d: map<Cell, nat>,
                            done: set<Cell>, lvl: nat, m: nat)
  {
    && ParentTree(step, par, d, start)
    && d.Keys == par.Keys && d[start] == 0
    && par.Keys <= universe
    && done <= par.Keys
    && Layered(queue, par, d, lvl, m)
    && (forall v :: v in par ==> v in done || v in queue)
    && (forall v, n :: v in done && n in step(v) ==> n in par)
    && DepthIsMinimal(step, start, par, d)
    && (forall v :: v in done ==> !isGoal(v))
  }

  /** Every cell of the tree is reachable from start along its links. */
  lemma {:induction false} TreeReach(step: Cell -> seq<Cell>, par: map<Cell, Option<Cell>>,
                                     rank: map<Cell, nat>, start: Cell, v: Cell)
    requires ParentTree(step, par, rank, start)
    requires v in par
    ensures ReachableBy(step, start, v)
    decreases rank[v]
  {
    if v == start {
      assert IsPathBy(step, [start], start, start);
    } else {
      var u := par[v].value;
      TreeReach(step, par, rank, start, u);
      var p :| IsPathBy(step, p, start, u);
      PathSnoc(step, p, start, u, v);
    }
  }

  /** While the head of the queue has depth lvl, every walk from start passes
      only through visited cells during its first lvl steps, each at a
      recorded depth no larger than its position. */
  lemma {:induction false} Frontier(step: Cell -> seq<Cell>, start: Cell,
                                    queue: seq<Cell>, par: map<Cell, Option<Cell>>, d: map<Cell, nat>,
                                    done: set<Cell>, lvl: nat, p: seq<Cell>, i: nat)
    requires par.Keys <= d.Keys && start in par && d[start] == 0
    requires forall j :: 0 <= j < |queue| ==> queue[j] in d && lvl <= d[queue[j]]
    requires forall v :: v in par ==> v in done || v in queue
    requires forall v, n :: v in done && n in step(v) ==> n in par
    requires DepthIsMinimal(step, start, par, d)
    requires PathFrom(step, p, start) && i < |p|
    ensures i <= lvl ==> p[i] in par && d[p[i]] <= i
  {
    if i > 0 && i <= lvl {
      Frontier(step, start, queue, par, d, done, lvl, p, i - 1);
      var u := p[i-1];
      assert u !in queue by {
        forall j | 0 <= j < |queue| ensures queue[j] != u {
          assert lvl <= d[queue[j]];
        }
      }
      assert p[i] in step(u);
      PathPrefix(step, p, start, i);
    }
  }

  /** Facts about the state at the head of the loop: cells not yet visited
      lie more than lvl steps away, and so does every goal cell. */
  lemma HeadFacts(step: Cell -> seq<Cell>, universe: set<Cell>, start: Cell, isGoal: Cell -> bool,
                  queue: seq<Cell>, par: map<Cell, Option<Cell>>, d: map<Cell, nat>,
                  done: set<Cell>, lvl: nat, m: nat)
    requires SearchInv(step, universe, start, isGoal, queue, par, d, done, lvl, m)
    requires queue != []
    ensures d[queue[0]] == lvl
    ensures forall v, p :: v !in par && IsPathBy(step, p, start, v) ==> lvl + 1 < |p|
    ensures forall p :: GoalPath(step, p, start, isGoal) ==> lvl < |p|
  {
    forall v, p | v !in par && IsPathBy(step, p, start, v) ensures lvl + 1 < |p| {
      Frontier(step, start, queue, par, d, done, lvl, p, |p| - 1);
    }
    forall p | GoalPath(step, p, start, isGoal) ensures lvl < |p| {
      Frontier(step, start, queue, par, d, done, lvl, p, |p| - 1);
    }
  }

  /** The invariant of the inner loop that scans the successors ns of cur,
      the cell just dequeued at depth D, after the first k of them. */
  ghost predicate ExpandInv(step: Cell -> seq<Cell>, universe: set<Cell>, start: Cell,
                            cur: Cell, D: nat, m0: nat, ns: seq<Cell>, k: nat, queue0: seq<Cell>,
                            par0: map<Cell, Option<Cell>>, d0: map<Cell, nat>, done: set<Cell>,
                            queue: seq<Cell>, par: map<Cell, Option<Cell>>, d: map<Cell, nat>)
  {
    && k <= |ns| && 0 < m0
    && ParentTree(step, par, d, start)
    && d.Keys == par.Keys && d[start] == 0
    && par0.Keys <= par.Keys <= universe
    && (forall v :: v in par0 && v in d0 ==> d[v] == d0[v])
    && (forall i :: 0 <= i < |queue| ==>
          queue[i] in par && d[queue[i]] == if i < m0 - 1 then D else D + 1)
    && (m0 - 1 <= |queue|)
    && (forall v :: v in par ==> v in done || v in queue || v == cur)
    && (forall j :: 0 <= j < k ==> ns[j] in par)
    && DepthIsMinimal(step, start, par, d)
    && (par.Keys == par0.Keys ==> queue0 != [] && queue == queue0[1..])
  }

  lemma EnqueueKeepsMinimal(step: Cell -> seq<Cell>, start: Cell, n: Cell, D: nat,
                            par0: map<Cell, Option<Cell>>, par: map<Cell, Option<Cell>>, d: map<Cell, nat>)
    requires par.Keys <= d.Keys && par0.Keys <= par.Keys && n !in par
    requires DepthIsMinimal(step, start, par, d)
    requires forall v, p :: v !in par0 && IsPathBy(step, p, start, v) ==> D + 1 < |p|
    ensures DepthIsMinimal(step, start, par[n := Some(n)], d[n := D + 1])
  {
  }

  /** Enqueuing an unvisited successor n of cur at depth D + 1 keeps the
      inner-loop invariant. */
  lemma EnqueueKeeps(step: Cell -> seq<Cell>, universe: set<Cell>, start: Cell,
                     cur: Cell, D: nat, m0: nat, ns: seq<Cell>, k: nat, queue0: seq<Cell>,
                     par0: map<Cell, Option<Cell>>, d0: map<Cell, nat>, done: set<Cell>,
                     queue: seq<Cell>, par: map<Cell, Option<Cell>>, d: map<Cell, nat>)
    requires Confined(step, universe)
    requires ExpandInv(step, universe, start, cur, D, m0, ns, k, queue0, par0, d0, done, queue, par, d)
    requires k < |ns| && ns[k] in step(cur) && ns[k] !in par && cur in par && d[cur] == D
    requires forall v, p :: v !in par0 && IsPathBy(step, p, start, v) ==> D + 1 < |p|
    ensures var n := ns[k];
      ExpandInv(step, universe, start, cur, D, m0, ns, k + 1, queue0, par0, d0, done,
                queue + [n], par[n := Some(cur)], d[n := D + 1])
  {
    var n := ns[k];
    EnqueueKeepsMinimal(step, start, n, D, par0, par, d);
    assert par[n := Some(n)].Keys == par[n := Some(cur)].Keys;
    var queue', par' := queue + [n], par[n := Some(cur)];
    assert par'.Keys != par0.Keys;
  }

  /** Dequeuing the head establishes the inner-loop invariant. */
  lemma ExpandStart(step: Cell -> seq<Cell>, universe: set<Cell>, start: Cell, isGoal: Cell -> bool,
                    queue0: seq<Cell>, par0: map<Cell, Option<Cell>>, d0: map<Cell, nat>,
                    done0: set<Cell>, lvl0: nat, m0: nat)
    requires SearchInv(step, universe, start, isGoal, queue0, par0, d0, done0, lvl0, m0)
    requires queue0 != []
    ensures ExpandInv(step, universe, start, queue0[0], lvl0, m0, step(queue0[0]), 0, queue0, par0, d0, done0,
                      queue0[1..], par0, d0)
  {
    var queue := queue0[1..];
    forall i | 0 <= i < |queue|
      ensures queue[i] in par0 && d0[queue[i]] == if i < m0 - 1 then lvl0 else lvl0 + 1
    {
      assert queue[i] == queue0[i + 1];
    }
    forall v | v in par0 ensures v in done0 || v in queue || v == queue0[0] {
      if v !in done0 && v != queue0[0] {
        var j :| 0 <= j < |queue0| && queue0[j] == v;
        assert queue[j - 1] == v;
      }
    }
  }

  /** Once every successor of cur is visited, cur joins the dequeued cells
      and the outer invariant holds again. */
  lemma ExpandDone(step: Cell -> seq<Cell>, universe: set<Cell>, start: Cell, isGoal: Cell -> bool,
                   cur: Cell, D: nat, m0: nat, ns: seq<Cell>, queue0: seq<Cell>,
                   par0: map<Cell, Option<Cell>>, d0: map<Cell, nat>, done0: set<Cell>,
                   queue: seq<Cell>, par: map<Cell, Option<Cell>>, d: map<Cell, nat>, lvl: nat, m: nat)
    requires SearchInv(step, universe, start, isGoal, queue0, par0, d0, done0, D, m0)
    requires queue0 != [] && cur == queue0[0] && !isGoal(cur) && ns == step(cur)
    requires ExpandInv(step, universe, start, cur, D, m0, ns, |ns|, queue0, par0, d0, done0, queue, par, d)
    requires if m0 - 1 == 0 then lvl == D + 1 && m == |queue| else lvl == D && m == m0 - 1
    ensures SearchInv(step, universe, start, isGoal, queue, par, d, done0 + {cur}, lvl, m)
  {
    var done := done0 + {cur};
    assert Layered(queue, par, d, lvl, m);
    assert forall v, n :: v in done && n in step(v) ==> n in par;
    assert forall v :: v in done ==> !isGoal(v);
    assert forall v :: v in par ==> v in done || v in queue;
  }

  /** One pass of the outer loop for a non-goal head: dequeues it and enqueues
      each of its successors not yet in the "came from" map. */
  method Expand(step: Cell -> seq<Cell>, ghost universe: set<Cell>, start: Cell, ghost isGoal: Cell -> bool,
                queue0: seq<Cell>, par0: map<Cell, Option<Cell>>, ghost d0: map<Cell, nat>,
                ghost done0: set<Cell>, ghost lvl0: nat, ghost m0: nat)
    returns (queue: seq<Cell>, par: map<Cell, Option<Cell>>, ghost d: map<Cell, nat>,
             ghost done: set<Cell>, ghost lvl: nat, ghost m: nat)
    requires Confined(step, universe)
    requires SearchInv(step, universe, start, isGoal, queue0, par0, d0, done0, lvl0, m0)
    requires queue0 != [] && !isGoal(queue0[0])
    requires forall v, p :: v !in par0 && IsPathBy(step, p, start, v) ==> lvl0 + 1 < |p|
    ensures SearchInv(step, universe, start, isGoal, queue, par, d, done, lvl, m)
    ensures par0.Keys <= par.Keys
    ensures par.Keys == par0.Keys ==> queue == queue0[1..]
  {
    var cur := queue0[0];
    ghost var D := lvl0;
    queue, par, d := queue0[1..], par0, d0;
    var ns := step(cur);
    var k := 0;
    ExpandStart(step, universe, start, isGoal, queue0, par0, d0, done0, lvl0, m0);
    while k < |ns|
      invariant ExpandInv(step, universe, start, cur, D, m0, ns, k, queue0, par0, d0, done0, queue, par, d)
    {
      var n := ns[k];
      if n !in par {
        EnqueueKeeps(step, universe, start, cur, D, m0, ns, k, queue0, par0, d0, done0, queue, par, d);
        par := par[n := Some(cur)];
        d := d[n := D + 1];
        queue := queue + [n];
      }
      k := k + 1;
    }
    done := done0 + {cur};
    if m0 - 1 == 0 {
      lvl, m := D + 1, |queue|;
    } else {
      lvl, m := D, m0 - 1;
    }
    ExpandDone(step, universe, start, isGoal, cur, D, m0, ns, queue0, par0, d0, done0, queue, par, d, lvl, m);
  }

  /** Runs the search from start and returns the walk to the first goal cell
      dequeued (the empty sequence when the queue runs dry), together with the
      set of cells marked in the "came from" map. */
  method Search(step: Cell -> seq<Cell>, universe: set<Cell>, start: Cell, isGoal: Cell -> bool)
    returns (path: seq<Cell>, reached: set<Cell>)
    requires start in universe
    requires Confined(step, universe)
    ensures path != [] ==> GoalPath(step, path, start, isGoal)
    ensures path != [] ==> forall p :: GoalPath(step, p, start, isGoal) ==> |path| <= |p|
    ensures path == [] ==> forall p :: PathFrom(step, p, start) ==> !isGoal(p[|p|-1])
    ensures path == [] ==> start in reached && reached <= universe && Closed(step, reached)
    ensures path == [] ==> forall c :: c in reached ==> ReachableBy(step, start, c)
  {
    var queue := [start];
    var par: map<Cell, Option<Cell>> := map[start := None];
    ghost var d: map<Cell, nat> := map[start := 0];
    ghost var done: set<Cell> := {};
    ghost var lvl: nat, m: nat := 0, 1;
    while queue != []
      invariant SearchInv(step, universe, start, isGoal, queue, par, d, done, lvl, m)
      decreases |universe - par.Keys|, |queue|
    {
      var cur := queue[0];
      HeadFacts(step, universe, start, isGoal, queue, par, d, done, lvl, m);
      if isGoal(cur) {
        path := Rebuild(step, par, d, start, cur);
        reached := par.Keys;
        return;
      }
      ghost var par0 := par;
      queue, par, d, done, lvl, m := Expand(step, universe, start, isGoal, queue, par, d, done, lvl, m);
      RemainderShrinks(universe, par0.Keys, par.Keys);
    }
    path := [];
    reached := par.Keys;
    assert Closed(step, reached);
    forall p | PathFrom(step, p, start) ensures !isGoal(p[|p|-1]) {
      ClosedBoundsReach(step, reached, start, p);
    }
    forall c | c in reached ensures ReachableBy(step, start, c) {
      TreeReach(step, par, d, start, c);
    }
  }
}
