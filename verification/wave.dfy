/**
 * The two traversals the component-wave scene uses to grow a component on
 * screen: a breadth-first search that reports each batch ("packet") of
 * newly found cells, and a recursive depth-first visiting order.
 */
module ComponentsWave {
  import opened Graph
  import opened TenPrint

  /**
   * A wave from start: the first packet is {start}; every later packet is
   * non-empty, shares no cell with another later packet, and holds only
   * neighbours of cells of earlier packets.
   */
  ghost predicate Packets(nb: Table, start: Cell, sequence: seq<set<Cell>>) {
    && |sequence| >= 1 && sequence[0] == {start}
    && (forall k :: 1 <= k < |sequence| ==> sequence[k] != {})
    && (forall k, l :: 1 <= k < l < |sequence| ==> sequence[k] !! sequence[l])
    && (forall k, c :: 1 <= k < |sequence| && c in sequence[k] ==>
          exists l, u :: 0 <= l < k && u in sequence[l] && c in Nb(nb, u))
  }

  /**
   * Appending the fresh neighbours of a cell already in the wave, none of
   * them in an earlier later packet, keeps it a wave.
   */
  lemma PacketsSnoc(nb: Table, start: Cell, sequence: seq<set<Cell>>, marks: set<Cell>,
                    u: Cell, packet: set<Cell>)
    requires Packets(nb, start, sequence)
    requires forall k :: 1 <= k < |sequence| ==> sequence[k] <= marks
    requires u in Union(sequence) && packet != {} && packet <= Nb(nb, u) && packet !! marks
    ensures Packets(nb, start, sequence + [packet])
  {
    var l := UnionIndex(sequence, u);
    var s := sequence + [packet];
    forall k, c | 1 <= k < |s| && c in s[k]
      ensures exists l', u' :: 0 <= l' < k && u' in s[l'] && c in Nb(nb, u')
    {
      if k == |s| - 1 {
        assert s[l] == sequence[l];
      } else {
        assert s[k] == sequence[k];
        var l', u' :| 0 <= l' < k && u' in sequence[l'] && c in Nb(nb, u');
        assert s[l'] == sequence[l'];
      }
    }
  }

  /**
   * The packets found so far: a wave whose later packets are all marked,
   * and whose cells are start and the marked cells.
   */
  ghost predicate WaveState(nb: Table, start: Cell, sequence: seq<set<Cell>>, marks: set<Cell>) {
    && Packets(nb, start, sequence)
    && (forall k :: 1 <= k < |sequence| ==> sequence[k] <= marks)
    && Union(sequence) == marks + {start}
  }

  /** The wave starts as {start}, nothing marked. */
  lemma WaveStart(nb: Table, start: Cell)
    ensures WaveState(nb, start, [{start}], {})
  {
    assert [{start}][..0] == [];
  }

  /** The cells newly marked from u, a cell of the wave, become the next packet. */
  lemma WaveStep(nb: Table, start: Cell, sequence: seq<set<Cell>>, marks: set<Cell>, u: Cell, added: set<Cell>)
    requires WaveState(nb, start, sequence, marks)
    requires (u == start || u in marks) && added != {} && added <= Nb(nb, u) && added !! marks
    ensures WaveState(nb, start, sequence + [added], marks + added)
  {
    var s := sequence + [added];
    assert Union(s) == marks + added + {start} by {
      UnionSnoc(sequence, added);
    }
    forall k | 1 <= k < |s| ensures s[k] <= marks + added {
      if k < |sequence| {
        assert s[k] == sequence[k];
      }
    }
    PacketsSnoc(nb, start, sequence, marks, u, added);
  }

  /**
   * neighbours_sequence_wave: each cell taken from the queue contributes,
   * as one packet, those of its neighbours not visited before, when there
   * are any.  start is not marked at the outset, so it may come back in a
   * later packet when a neighbour leads back to it.
   */
  method NeighboursSequenceWave(maze: Maze, start: Cell) returns (sequence: seq<set<Cell>>)
    requires maze.TableShaped() && InGrid(start, maze.height, maze.width)
    ensures Packets(maze.neighbours, start, sequence)
    ensures forall c :: c in Union(sequence) <==> c == start || Reaches(maze.neighbours, start, c)
  {
    var h, w := maze.height, maze.width;
    var visited := new bool[h, w]((i, j) => false);
    ghost var marks: set<Cell> := {};
    ghost var done: set<Cell> := {};
    ghost var todo := maze.Grid();
    forall c | InGrid(c, h, w) ensures c in todo {
      assert c == (c.0, c.1);
    }
    var q := [start];
    sequence := [{start}];
    WaveStart(maze.neighbours, start);
    while q != []
      invariant WaveState(maze.neighbours, start, sequence, marks)
      invariant BfsState(maze.neighbours, h, w, start, {}, marks, done, q, todo)
      invariant forall i, j :: 0 <= i < h && 0 <= j < w ==> (visited[i, j] <==> (i, j) in marks)
      decreases |q| + 2 * |todo|
    {
      var u := q[|q| - 1];
      BfsQueued(maze.neighbours, h, w, start, {}, marks, done, q, todo, u);
      ghost var q0, todo0 := q, todo;
      var neighbours;
      q, neighbours, todo := maze.VisitNeighbours(start, u, visited, q[..|q| - 1], marks, {}, todo);
      BfsStep(maze.neighbours, h, w, start, {}, marks, done, q0, todo0, q, neighbours, todo);
      if neighbours != {} {
        WaveStep(maze.neighbours, start, sequence, marks, u, neighbours);
        sequence := sequence + [neighbours];
      } else {
        assert marks + neighbours == marks;
      }
      marks := marks + neighbours;
      done := done + {u};
    }
    forall c | c in marks ensures Reaches(maze.neighbours, start, c) {
      AvoidingReaches(maze.neighbours, start, c, {});
    }
    forall c | Reaches(maze.neighbours, start, c) ensures c in Union(sequence) {
      ClosedHoldsReachable(maze.neighbours, Union(sequence), start, c);
    }
  }

  /**
   * What a descent from u promises: result extends sequence with u and then
   * the cells of added, each once, none of them in seen, each a neighbour
   * of one appended before it.
   */
  ghost predicate Descent(nb: Table, h: int, w: int, sequence: seq<Cell>, u: Cell,
                          result: seq<Cell>, added: set<Cell>, seen: set<Cell>) {
    && |result| > |sequence| && result[..|sequence|] == sequence && result[|sequence|] == u
    && (forall c :: c in added <==> c in result[|sequence|..])
    && (forall c :: c in added ==> InGrid(c, h, w) && c !in seen)
    && (forall k, l :: |sequence| <= k < l < |result| ==> result[k] != result[l])
    && (forall k :: |sequence| < k < |result| ==>
          exists l :: |sequence| <= l < k && result[k] in Nb(nb, result[l]))
  }

  /**
   * neighbours_sequence_dfs: marks u, appends it to the sequence, then
   * descends into every neighbour still unvisited, in the set's order.
   * The visited matrix is read as the set seen; added is the set of cells
   * appended, and todo holds every unvisited cell and shrinks with each
   * descent.
   */
  method Dfs(maze: Maze, u: Cell, visited: array2<bool>, sequence: seq<Cell>,
             ghost seen: set<Cell>, ghost todo: set<Cell>)
    returns (result: seq<Cell>, ghost added: set<Cell>)
    requires maze.TableShaped() && InGrid(u, maze.height, maze.width)
    requires visited.Length0 == maze.height && visited.Length1 == maze.width
    requires forall i, j :: 0 <= i < maze.height && 0 <= j < maze.width ==>
      (visited[i, j] <==> (i, j) in seen)
    requires u !in seen && u in todo
    requires forall c :: InGrid(c, maze.height, maze.width) && c !in seen ==> c in todo
    modifies visited
    ensures Descent(maze.neighbours, maze.height, maze.width, sequence, u, result, added, seen)
    ensures forall c, v :: c in added && v in Nb(maze.neighbours, c) ==> v in seen || v in added
    ensures forall i, j :: 0 <= i < maze.height && 0 <= j < maze.width ==>
      (visited[i, j] <==> (i, j) in seen || (i, j) in added)
    decreases todo
  {
    visited[u.0, u.1] := true;
    result := sequence + [u];
    added := {u};
    DescentStart(maze.neighbours, maze.height, maze.width, sequence, u, seen);
    var rest := maze.Neighbours(u);
    while rest != {}
      invariant rest <= Nb(maze.neighbours, u)
      invariant Descent(maze.neighbours, maze.height, maze.width, sequence, u, result, added, seen)
      invariant forall i, j :: 0 <= i < maze.height && 0 <= j < maze.width ==>
        (visited[i, j] <==> (i, j) in seen || (i, j) in added)
      invariant forall c :: InGrid(c, maze.height, maze.width) && c !in seen && c !in added ==> c in todo - {u}
      invariant forall v :: v in Nb(maze.neighbours, u) - rest ==> v in seen || v in added
      invariant forall c, v :: c in added && c != u && v in Nb(maze.neighbours, c) ==> v in seen || v in added
      decreases rest
    {
      var v :| v in rest;
      rest := rest - {v};
      if !visited[v.0, v.1] {
        ghost var before := result;
        ghost var more;
        result, more := Dfs(maze, v, visited, result, seen + added, todo - {u});
        DescentExtend(maze.neighbours, maze.height, maze.width, sequence, u, before, added, seen, v, result, more);
        added := added + more;
      }
    }
  }

  /** A descent begins with u alone. */
  lemma DescentStart(nb: Table, h: int, w: int, sequence: seq<Cell>, u: Cell, seen: set<Cell>)
    requires InGrid(u, h, w) && u !in seen
    ensures Descent(nb, h, w, sequence, u, sequence + [u], {u}, seen)
  {
    assert (sequence + [u])[|sequence|..] == [u];
  }

  /**
   * The bookkeeping of one descent: the cells appended by a recursive call
   * from v, a neighbour of u, continue the descent from u.
   */
  lemma DescentExtend(nb: Table, h: int, w: int, sequence: seq<Cell>, u: Cell,
                      before: seq<Cell>, added: set<Cell>, seen: set<Cell>,
                      v: Cell, after: seq<Cell>, more: set<Cell>)
    requires Descent(nb, h, w, sequence, u, before, added, seen)
    requires Descent(nb, h, w, before, v, after, more, seen + added)
    requires v in Nb(nb, u)
    ensures Descent(nb, h, w, sequence, u, after, added + more, seen)
  {
    assert after[..|sequence|] == before[..|sequence|];
    assert after[|sequence|..] == before[|sequence|..] + after[|before|..];
    forall k, l | |sequence| <= k < l < |after| ensures after[k] != after[l] {
      if l >= |before| && k < |before| {
        assert after[k] == before[k] && before[k] in added;
        assert after[l] in more;
      } else if l < |before| {
        assert after[k] == before[k] && after[l] == before[l];
      }
    }
    forall k | |sequence| < k < |after|
      ensures exists l :: |sequence| <= l < k && after[k] in Nb(nb, after[l])
    {
      if k < |before| {
        var l :| |sequence| <= l < k && before[k] in Nb(nb, before[l]);
        assert after[k] == before[k] && after[l] == before[l];
      } else if k == |before| {
        assert after[|sequence|] == u;
      } else {
        var l :| |before| <= l < k && after[k] in Nb(nb, after[l]);
      }
    }
  }

  /** neighbours_sequence_dfs from u with a fresh visited matrix and an empty sequence. */
  method NeighboursSequenceDfs(maze: Maze, u: Cell) returns (sequence: seq<Cell>)
    requires maze.TableShaped() && InGrid(u, maze.height, maze.width)
    ensures |sequence| >= 1 && sequence[0] == u
    ensures forall k, l :: 0 <= k < l < |sequence| ==> sequence[k] != sequence[l]
    ensures forall k :: 0 < k < |sequence| ==>
      exists l :: 0 <= l < k && sequence[k] in Nb(maze.neighbours, sequence[l])
    ensures forall c :: c in sequence <==> c == u || Reaches(maze.neighbours, u, c)
  {
    var visited := new bool[maze.height, maze.width]((i, j) => false);
    ghost var todo := maze.Grid();
    forall c | InGrid(c, maze.height, maze.width) ensures c in todo {
      assert c == (c.0, c.1);
    }
    ghost var added;
    sequence, added := Dfs(maze, u, visited, [], {}, todo);
    assert sequence[0..] == sequence;
    forall c | c in sequence && c != u ensures Reaches(maze.neighbours, u, c) {
      var k :| 0 <= k < |sequence| && sequence[k] == c;
      ReachesAlong(maze.neighbours, sequence, k);
    }
    assert Closed(maze.neighbours, added);
    forall c | Reaches(maze.neighbours, u, c) ensures c in sequence {
      ClosedHoldsReachable(maze.neighbours, added, u, c);
    }
  }

  /**
   * When each element after the first is a neighbour of an earlier one,
   * every element is reachable from the first.
   */
  lemma {:induction false} ReachesAlong(nb: Table, s: seq<Cell>, k: int)
    requires 0 < k < |s|
    requires forall m :: 0 < m < |s| ==> exists l :: 0 <= l < m && s[m] in Nb(nb, s[l])
    ensures s[0] == s[k] || Reaches(nb, s[0], s[k])
    decreases k
  {
    var l :| 0 <= l < k && s[k] in Nb(nb, s[l]);
    if l > 0 {
      ReachesAlong(nb, s, l);
    }
    ReachesStep(nb, s[0], s[l], s[k]);
  }
}
