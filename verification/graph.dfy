/**
 * Cells of a maze, neighbour tables and reachability through them.
 *
 * A neighbour table holds, for every cell (i, j) of an h-by-w grid, the set
 * of cells that (i, j) is connected to.  The relation need not be
 * symmetric: each cell's set is computed from that cell's own 3x3 window.
 */
module Graph {

  /** A cell (row, column). */
  type Cell = (int, int)

  /** Per-cell neighbour sets, indexed [row][column]. */
  type Table = seq<seq<set<Cell>>>

  predicate InGrid(c: Cell, h: int, w: int) {
    0 <= c.0 < h && 0 <= c.1 < w
  }

  /** The table has h rows of w entries and only names cells of the grid. */
  ghost predicate WellShaped(nb: Table, h: int, w: int) {
    && |nb| == h
    && (forall i :: 0 <= i < h ==> |nb[i]| == w)
    && (forall i, j, c :: 0 <= i < h && 0 <= j < w && c in nb[i][j] ==> InGrid(c, h, w))
  }

  /** The neighbours of c; a cell outside the table has none. */
  function Nb(nb: Table, c: Cell): set<Cell> {
    if 0 <= c.0 < |nb| && 0 <= c.1 < |nb[c.0]| then nb[c.0][c.1] else {}
  }

  /** Every neighbour of a cell of s lies in s. */
  ghost predicate Closed(nb: Table, s: set<Cell>) {
    forall u, v :: u in s && v in Nb(nb, u) ==> v in s
  }

  /** v is a neighbour of u exactly when u is a neighbour of v. */
  ghost predicate Symmetric(nb: Table) {
    forall u, v :: v in Nb(nb, u) ==> u in Nb(nb, v)
  }

  /** Each cell of p after the first is a neighbour of the one before it. */
  ghost predicate IsPath(nb: Table, p: seq<Cell>) {
    forall k :: 0 <= k < |p| - 1 ==> p[k + 1] in Nb(nb, p[k])
  }

  /** b can be reached from a in one step or more. */
  ghost predicate Reaches(nb: Table, a: Cell, b: Cell) {
    exists p :: IsPath(nb, p) && |p| >= 2 && p[0] == a && p[|p| - 1] == b
  }

  /** No cell of p after the first lies in avoid. */
  ghost predicate Avoids(p: seq<Cell>, avoid: set<Cell>) {
    forall k :: 1 <= k < |p| ==> p[k] !in avoid
  }

  /**
   * b can be reached from a in one step or more through cells outside
   * avoid (a itself may lie in it).
   */
  ghost predicate ReachesAvoiding(nb: Table, a: Cell, b: Cell, avoid: set<Cell>) {
    exists p :: IsPath(nb, p) && |p| >= 2 && p[0] == a && p[|p| - 1] == b && Avoids(p, avoid)
  }

  /** Extending a walk by one neighbour keeps it reaching. */
  lemma ReachesStep(nb: Table, a: Cell, b: Cell, c: Cell)
    requires a == b || Reaches(nb, a, b)
    requires c in Nb(nb, b)
    ensures Reaches(nb, a, c)
  {
    if a == b {
      var p := [a, c];
      assert IsPath(nb, p);
    } else {
      var p :| IsPath(nb, p) && |p| >= 2 && p[0] == a && p[|p| - 1] == b;
      var p' := p + [c];
      assert IsPath(nb, p') by {
        forall k | 0 <= k < |p'| - 1 ensures p'[k + 1] in Nb(nb, p'[k]) {
          if k < |p| - 1 {
            assert p'[k] == p[k] && p'[k + 1] == p[k + 1];
          }
        }
      }
      assert p'[0] == a && p'[|p'| - 1] == c;
    }
  }

  /** Extending a walk that avoids a set by a neighbour outside the set. */
  lemma AvoidingStep(nb: Table, a: Cell, b: Cell, c: Cell, avoid: set<Cell>)
    requires a == b || ReachesAvoiding(nb, a, b, avoid)
    requires c in Nb(nb, b) && c !in avoid
    ensures ReachesAvoiding(nb, a, c, avoid)
  {
    if a == b {
      var p := [a, c];
      assert IsPath(nb, p) && Avoids(p, avoid);
    } else {
      var p :| IsPath(nb, p) && |p| >= 2 && p[0] == a && p[|p| - 1] == b && Avoids(p, avoid);
      var p' := p + [c];
      forall k | 0 <= k < |p'| - 1 ensures p'[k + 1] in Nb(nb, p'[k]) {
        if k < |p| - 1 {
          assert p'[k] == p[k] && p'[k + 1] == p[k + 1];
        }
      }
      forall k | 1 <= k < |p'| ensures p'[k] !in avoid {
        if k < |p| {
          assert p'[k] == p[k];
        }
      }
      assert p'[0] == a && p'[|p'| - 1] == c;
    }
  }

  /** A walk leaves a through one of its neighbours. */
  lemma FirstStep(nb: Table, a: Cell, b: Cell, avoid: set<Cell>)
    requires ReachesAvoiding(nb, a, b, avoid)
    ensures Nb(nb, a) != {}
  {
    var p :| IsPath(nb, p) && |p| >= 2 && p[0] == a && p[|p| - 1] == b && Avoids(p, avoid);
    assert p[1] in Nb(nb, p[0]);
  }

  /** A walk avoiding a set is a walk. */
  lemma AvoidingReaches(nb: Table, a: Cell, b: Cell, avoid: set<Cell>)
    requires ReachesAvoiding(nb, a, b, avoid)
    ensures Reaches(nb, a, b)
  {
  }

  /**
   * A path avoiding a set, starting in s, stays in s when every neighbour
   * of a cell of s lies in s or in the avoided set.
   */
  lemma {:induction false} AvoidingPathInside(nb: Table, s: set<Cell>, avoid: set<Cell>, p: seq<Cell>, k: nat)
    requires forall u, v :: u in s && v in Nb(nb, u) ==> v in s || v in avoid
    requires IsPath(nb, p) && Avoids(p, avoid)
    requires |p| > 0 && p[0] in s
    requires k < |p|
    ensures p[k] in s
  {
    if k > 0 {
      AvoidingPathInside(nb, s, avoid, p, k - 1);
      assert p[k] in Nb(nb, p[k - 1]) && p[k] !in avoid;
    }
  }

  /**
   * A set holding a, closed under neighbours except for cells of avoid,
   * holds everything a reaches while avoiding them.
   */
  lemma ClosedExceptHolds(nb: Table, s: set<Cell>, avoid: set<Cell>, a: Cell, b: Cell)
    requires forall u, v :: u in s && v in Nb(nb, u) ==> v in s || v in avoid
    requires a in s && ReachesAvoiding(nb, a, b, avoid)
    ensures b in s
  {
    var p :| IsPath(nb, p) && |p| >= 2 && p[0] == a && p[|p| - 1] == b && Avoids(p, avoid);
    AvoidingPathInside(nb, s, avoid, p, |p| - 1);
  }

  /** A path that starts inside a closed set never leaves it. */
  lemma {:induction false} PathStaysInside(nb: Table, s: set<Cell>, p: seq<Cell>, k: nat)
    requires Closed(nb, s) && IsPath(nb, p)
    requires |p| > 0 && p[0] in s
    requires k < |p|
    ensures p[k] in s
  {
    if k > 0 {
      PathStaysInside(nb, s, p, k - 1);
      assert p[k] in Nb(nb, p[k - 1]);
    }
  }

  /** A closed set holding a holds everything a reaches. */
  lemma ClosedHoldsReachable(nb: Table, s: set<Cell>, a: Cell, b: Cell)
    requires Closed(nb, s) && a in s
    requires Reaches(nb, a, b)
    ensures b in s
  {
    var p :| IsPath(nb, p) && |p| >= 2 && p[0] == a && p[|p| - 1] == b;
    PathStaysInside(nb, s, p, |p| - 1);
  }

  /** Under a symmetric relation, a walk can be taken backwards. */
  lemma ReachesSymmetric(nb: Table, a: Cell, b: Cell)
    requires Symmetric(nb) && Reaches(nb, a, b)
    ensures Reaches(nb, b, a)
  {
    var p :| IsPath(nb, p) && |p| >= 2 && p[0] == a && p[|p| - 1] == b;
    var n := |p|;
    var r := seq(n, k requires 0 <= k < n => p[n - 1 - k]);
    forall k | 0 <= k < n - 1 ensures r[k + 1] in Nb(nb, r[k]) {
      assert p[n - 1 - k] in Nb(nb, p[n - 2 - k]);
    }
    assert r[0] == b && r[n - 1] == a;
  }
}
