/** Walks over a graph whose edges are given by a successor function on grid
    cells, and the reconstruction of a walk from a predecessor ("came from") map.
    Every search of the dungeon (breadth-first, depth-first, A*, the flood fill
    and the nearest-floor search) is phrased in these terms. */
module Paths {

  /** A grid coordinate (x, y): x is the column, y is the row. */
  type Cell = (int, int)

  datatype Option<T> = None | Some(value: T)

  /** Each cell after the first lies in the successor list of its predecessor. */
  ghost predicate Walk(step: Cell -> seq<Cell>, p: seq<Cell>) {
    forall i :: 0 <= i < |p| - 1 ==> p[i+1] in step(p[i])
  }

  /** p is a walk from s to t (so it has at least one cell). */
  ghost predicate IsPathBy(step: Cell -> seq<Cell>, p: seq<Cell>, s: Cell, t: Cell) {
    |p| > 0 && p[0] == s && p[|p|-1] == t && Walk(step, p)
  }

  /** p is a walk starting at s, ending anywhere. */
  ghost predicate PathFrom(step: Cell -> seq<Cell>, p: seq<Cell>, s: Cell) {
    |p| > 0 && p[0] == s && Walk(step, p)
  }

  ghost predicate ReachableBy(step: Cell -> seq<Cell>, s: Cell, t: Cell) {
    exists p :: IsPathBy(step, p, s, t)
  }

  /** No step leads out of S. */
  ghost predicate Closed(step: Cell -> seq<Cell>, S: set<Cell>) {
    forall c, n :: c in S && n in step(c) ==> n in S
  }

  /** Every successor of every cell lies in the finite set U. */
  ghost predicate Confined(step: Cell -> seq<Cell>, U: set<Cell>) {
    forall c, n :: n in step(c) ==> n in U
  }

  /** A predecessor map whose chains all lead back to start: start maps to
      None, every other key maps to a key it is a successor of, and the rank
      strictly drops along each link (so following links terminates). */
  ghost predicate ParentTree(step: Cell -> seq<Cell>, par: map<Cell, Option<Cell>>,
                             rank: map<Cell, nat>, start: Cell)
  {
    && start in par && par[start] == None
    && par.Keys <= rank.Keys
    && forall v :: v in par ==>
         && (par[v].None? ==> v == start)
         && (par[v].Some? ==> par[v].value in par && v in step(par[v].value)
                               && rank[par[v].value] < rank[v])
  }

  /** Appending a successor of the last cell extends a path. */
  lemma PathSnoc(step: Cell -> seq<Cell>, p: seq<Cell>, s: Cell, t: Cell, n: Cell)
    requires IsPathBy(step, p, s, t)
    requires n in step(t)
    ensures IsPathBy(step, p + [n], s, n)
  {
    var q := p + [n];
    forall i | 0 <= i < |q| - 1 ensures q[i+1] in step(q[i]) {
      if i < |p| - 1 {
        assert q[i] == p[i] && q[i+1] == p[i+1];
      } else {
        assert q[i] == t && q[i+1] == n;
      }
    }
  }

  /** A prefix of a path is a path to the cell where it stops. */
  lemma PathPrefix(step: Cell -> seq<Cell>, p: seq<Cell>, s: Cell, k: nat)
    requires PathFrom(step, p, s)
    requires k < |p|
    ensures IsPathBy(step, p[..k+1], s, p[k])
  {
    var q := p[..k+1];
    forall i | 0 <= i < |q| - 1 ensures q[i+1] in step(q[i]) {
      assert q[i] == p[i] && q[i+1] == p[i+1];
    }
  }

  /** Joining two walks that meet at a shared cell, keeping that cell once. */
  lemma PathJoin(step: Cell -> seq<Cell>, p: seq<Cell>, q: seq<Cell>, s: Cell, m: Cell, t: Cell)
    requires IsPathBy(step, p, s, m)
    requires IsPathBy(step, q, m, t)
    ensures IsPathBy(step, p + q[1..], s, t)
  {
    var r := p + q[1..];
    forall i | 0 <= i < |r| - 1 ensures r[i+1] in step(r[i]) {
      if i < |p| - 1 {
        assert r[i] == p[i] && r[i+1] == p[i+1];
      } else {
        var j := i - (|p| - 1);
        assert r[i] == q[j] && r[i+1] == q[j+1];
      }
    }
  }

  /** A walk that starts inside a closed set never leaves it. */
  lemma {:induction false} WalkStaysInside(step: Cell -> seq<Cell>, S: set<Cell>, p: seq<Cell>, i: nat)
    requires Closed(step, S)
    requires |p| > 0 && p[0] in S && Walk(step, p)
    requires i < |p|
    ensures p[i] in S
  {
    if i > 0 {
      WalkStaysInside(step, S, p, i - 1);
      assert p[i] in step(p[i-1]);
    }
  }

  /** Nothing outside a closed set containing s is reachable from s. */
  lemma ClosedBoundsReach(step: Cell -> seq<Cell>, S: set<Cell>, s: Cell, p: seq<Cell>)
    requires Closed(step, S) && s in S
    requires PathFrom(step, p, s)
    ensures p[|p|-1] in S
  {
    WalkStaysInside(step, S, p, |p| - 1);
  }

  /** Growing a set inside a finite universe shrinks what is left of it. */
  lemma RemainderShrinks(U: set<Cell>, A: set<Cell>, B: set<Cell>)
    requires A <= B <= U
    ensures |U - B| <= |U - A|
    ensures A != B ==> |U - B| < |U - A|
  {
    var X, Y := U - B, (U - A) - (U - B);
    assert U - A == X + Y && X * Y == {};
    assert |U - A| == |X| + |Y|;
    if A != B {
      var x :| x in B && x !in A;
      assert x in Y;
    }
  }

  /** Follows the predecessor links from target back to start, collecting the
      cells, and returns them in start-to-target order (the source builds the
      reversed list and reverses it; prepending gives the same sequence). */
  method Rebuild(ghost step: Cell -> seq<Cell>, par: map<Cell, Option<Cell>>,
                 ghost rank: map<Cell, nat>, start: Cell, target: Cell)
    returns (path: seq<Cell>)
    requires ParentTree(step, par, rank, start)
    requires target in par
    ensures IsPathBy(step, path, start, target)
    ensures |path| <= rank[target] + 1
  {
    path := [];
    var cur: Option<Cell> := Some(target);
    while cur.Some?
      invariant cur.Some? ==> cur.value in par
      invariant cur.Some? ==> |path| + rank[cur.value] <= rank[target]
      invariant cur.Some? && path == [] ==> cur.value == target
      invariant cur.Some? && path != [] ==> path[0] in step(cur.value)
      invariant path != [] ==> path[|path|-1] == target && Walk(step, path)
      invariant cur.None? ==> path != [] && path[0] == start && |path| <= rank[target] + 1
      decreases if cur.Some? then rank[cur.value] + 1 else 0
    {
      var c := cur.value;
      var q := [c] + path;
      forall i | 0 <= i < |q| - 1 ensures q[i+1] in step(q[i]) {
        if i > 0 {
          assert q[i] == path[i-1] && q[i+1] == path[i];
        }
      }
      path := q;
      cur := par[c];
    }
  }
}
