/**
 * The maze: a grid of symbols drawn in row-major order, its per-cell
 * neighbour sets under an adjacency pattern, its connected components
 * and the cell-to-component table.
 *
 * The grid and the pattern are fixed when a Maze is built; the neighbour
 * table, the component list and the cell-to-component table are fields
 * that the building steps fill in place, one after the other.
 */
module TenPrint {
  import opened Graph
  import opened MazePattern

  // ---------------------------------------------------------------------
  // Generation
  // ---------------------------------------------------------------------

  /** A pattern a maze can use: two symbols, each with a full template. */
  predicate PatternReady(p: Pattern) {
    |p.chars| >= 2 && HasTemplate(p, p.chars[0]) && HasTemplate(p, p.chars[1])
  }

  /** The symbol one draw selects: a draw is the bit int(0.5 + random()). */
  function Symbol(chars: string, bit: bool): char
    requires |chars| >= 2
  {
    if bit then chars[1] else chars[0]
  }

  /** A positive multiple of w is at least w. */
  lemma {:induction false} MultipleAtLeast(x: int, w: int)
    requires x >= 1 && w >= 0
    ensures x * w >= w
  {
    if x > 1 {
      MultipleAtLeast(x - 1, w);
      assert x * w == (x - 1) * w + w;
    }
  }

  /** The draw number of cell (i, j) in a grid w cells wide. */
  function DrawIndex(i: int, j: int, w: int): int {
    i * w + j
  }

  /** Row-major numbering maps the cells of an h-by-w grid into [0, w*h). */
  lemma RowMajorBound(i: int, j: int, w: int, h: int)
    requires 0 <= i < h && 0 <= j < w
    ensures 0 <= DrawIndex(i, j, w) < w * h
  {
    MultipleAtLeast(h - i, w);
    assert h * w == i * w + (h - i) * w;
    if i > 0 {
      MultipleAtLeast(i, w);
    }
  }

  /** Distinct cells use distinct draws. */
  lemma RowMajorInjective(i: int, j: int, i': int, j': int, w: int)
    requires 0 <= j < w && 0 <= j' < w && 0 <= i && 0 <= i'
    requires DrawIndex(i, j, w) == DrawIndex(i', j', w)
    ensures i == i' && j == j'
  {
    if i < i' {
      MultipleAtLeast(i' - i, w);
    } else if i' < i {
      MultipleAtLeast(i - i', w);
    }
  }

  /** The draw that decides cell (i, j): draw number i*w + j. */
  function DrawAt(draws: seq<bool>, i: int, j: int, w: int, h: int): bool
    requires 0 <= i < h && 0 <= j < w && |draws| >= w * h
  {
    RowMajorBound(i, j, w, h);
    draws[DrawIndex(i, j, w)]
  }

  /** h rows of w symbols, cell (i, j) chosen by draw number i*w + j. */
  function Generate(w: nat, h: nat, draws: seq<bool>, chars: string): (g: seq<seq<char>>)
    requires |chars| >= 2 && |draws| >= w * h
    ensures |g| == h && forall i :: 0 <= i < h ==> |g[i]| == w
    ensures forall i, j :: 0 <= i < h && 0 <= j < w ==> g[i][j] == Symbol(chars, DrawAt(draws, i, j, w, h))
  {
    seq(h, i requires 0 <= i < h =>
      seq(w, j requires 0 <= j < w => Symbol(chars, DrawAt(draws, i, j, w, h))))
  }

  /** Only the first w*h draws matter: equal prefixes give equal grids. */
  lemma GenerateUsesPrefix(w: nat, h: nat, d1: seq<bool>, d2: seq<bool>, chars: string)
    requires |chars| >= 2 && |d1| >= w * h && |d2| >= w * h
    requires d1[..w * h] == d2[..w * h]
    ensures Generate(w, h, d1, chars) == Generate(w, h, d2, chars)
  {
    var g1, g2 := Generate(w, h, d1, chars), Generate(w, h, d2, chars);
    forall i | 0 <= i < h ensures g1[i] == g2[i] {
      forall j | 0 <= j < w ensures g1[i][j] == g2[i][j] {
        RowMajorBound(i, j, w, h);
        assert DrawAt(d1, i, j, w, h) == d1[..w * h][DrawIndex(i, j, w)];
      }
    }
  }

  /** Every generated cell holds one of the first two symbols. */
  lemma GenerateSymbols(w: nat, h: nat, draws: seq<bool>, chars: string, i: int, j: int)
    requires |chars| >= 2 && |draws| >= w * h
    requires 0 <= i < h && 0 <= j < w
    ensures Generate(w, h, draws, chars)[i][j] in chars[..2]
  {
    assert chars[..2] == [chars[0], chars[1]];
  }

  // ---------------------------------------------------------------------
  // Grids, padding and windows
  // ---------------------------------------------------------------------

  /** g has h rows of w symbols. */
  ghost predicate IsGrid(g: seq<seq<char>>, w: int, h: int) {
    |g| == h && forall i :: 0 <= i < h ==> |g[i]| == w
  }

  /** Every cell of g is one of the pattern's first two symbols. */
  ghost predicate Drawn(p: Pattern, g: seq<seq<char>>, w: int, h: int)
    requires IsGrid(g, w, h) && |p.chars| >= 2
  {
    forall i, j :: 0 <= i < h && 0 <= j < w ==> g[i][j] == p.chars[0] || g[i][j] == p.chars[1]
  }

  /** The symbol at (i, j), or fill outside the grid. */
  function CellOrFill(g: seq<seq<char>>, fill: char, w: int, h: int, i: int, j: int): char
    requires IsGrid(g, w, h)
  {
    if 0 <= i < h && 0 <= j < w then g[i][j] else fill
  }

  function Border(fill: char, w: nat): seq<char> {
    seq(w + 2, _ => fill)
  }

  /**
   * The grid with a one-cell border of fill on all four sides: row r,
   * column c of the result is the grid's cell (r - 1, c - 1) or fill.
   */
  function Padded(g: seq<seq<char>>, fill: char, w: nat, h: nat): (pg: seq<seq<char>>)
    requires IsGrid(g, w, h)
    ensures |pg| == h + 2 && forall r :: 0 <= r < h + 2 ==> |pg[r]| == w + 2
    ensures forall r, c :: 0 <= r < h + 2 && 0 <= c < w + 2 ==>
      pg[r][c] == CellOrFill(g, fill, w, h, r - 1, c - 1)
  {
    [Border(fill, w)] + seq(h, i requires 0 <= i < h => [fill] + g[i] + [fill]) + [Border(fill, w)]
  }

  /** The 3x3 window around (i, j) in row-major order, fill outside the grid. */
  function WindowAt(g: seq<seq<char>>, fill: char, w: int, h: int, i: int, j: int): string
    requires IsGrid(g, w, h)
  {
    seq(9, n => CellOrFill(g, fill, w, h, i + n / 3 - 1, j + n % 3 - 1))
  }

  /** Row r of the window of (i, j) is a 3-symbol slice of the padded grid. */
  lemma PaddedSlice(g: seq<seq<char>>, fill: char, w: nat, h: nat, i: int, j: int, r: int)
    requires IsGrid(g, w, h) && 0 <= i < h && 0 <= j < w && 0 <= r < 3
    ensures Padded(g, fill, w, h)[i + r][j..j + 3] ==
      [CellOrFill(g, fill, w, h, i + r - 1, j - 1), CellOrFill(g, fill, w, h, i + r - 1, j),
       CellOrFill(g, fill, w, h, i + r - 1, j + 1)]
  {
    var row := Padded(g, fill, w, h)[i + r];
    assert row[j] == CellOrFill(g, fill, w, h, i + r - 1, j - 1);
    assert row[j + 1] == CellOrFill(g, fill, w, h, i + r - 1, j);
    assert row[j + 2] == CellOrFill(g, fill, w, h, i + r - 1, j + 1);
  }

  /** The three 3-symbol slices of the padded grid make the window of (i, j). */
  lemma PaddedWindow(g: seq<seq<char>>, fill: char, w: nat, h: nat, i: int, j: int)
    requires IsGrid(g, w, h) && 0 <= i < h && 0 <= j < w
    ensures var pg := Padded(g, fill, w, h);
      JoinMatrix([pg[i][j..j + 3], pg[i + 1][j..j + 3], pg[i + 2][j..j + 3]]) == WindowAt(g, fill, w, h, i, j)
  {
    var pg := Padded(g, fill, w, h);
    var m := [pg[i][j..j + 3], pg[i + 1][j..j + 3], pg[i + 2][j..j + 3]];
    PaddedSlice(g, fill, w, h, i, j, 0);
    PaddedSlice(g, fill, w, h, i, j, 1);
    PaddedSlice(g, fill, w, h, i, j, 2);
    JoinThreeByThree(m);
    var s, win := JoinMatrix(m), WindowAt(g, fill, w, h, i, j);
    forall n | 0 <= n < 9 ensures s[n] == win[n] {
      var r := if n < 3 then 0 else if n < 6 then 1 else 2;
      var c := n - 3 * r;
      assert n / 3 == r && n % 3 == c;
      assert s[n] == m[r][c];
    }
  }

  // ---------------------------------------------------------------------
  // Neighbour sets
  // ---------------------------------------------------------------------

  /** The in-grid cells (i + di, j + dj) for the offsets (di, dj) of adj. */
  function Targets(adj: seq<Offset>, i: int, j: int, w: int, h: int): (s: set<Cell>)
    ensures forall c :: c in s <==> InGrid(c, h, w) && (c.0 - i, c.1 - j) in adj
  {
    set o | o in adj && InGrid((i + o.0, j + o.1), h, w) :: (i + o.0, j + o.1)
  }

  /** Cell (i, j) exists and its symbol has a template. */
  ghost predicate CellReady(p: Pattern, g: seq<seq<char>>, w: int, h: int, i: int, j: int) {
    IsGrid(g, w, h) && 0 <= i < h && 0 <= j < w && HasTemplate(p, g[i][j])
  }

  /** The neighbours of (i, j): in-grid cells at the offsets Adjacent finds. */
  function NeighbourSet(p: Pattern, g: seq<seq<char>>, w: int, h: int, i: int, j: int): (s: set<Cell>)
    requires CellReady(p, g, w, h, i, j)
    ensures forall c :: c in s ==>
      InGrid(c, h, w) && c != (i, j) && -1 <= c.0 - i <= 1 && -1 <= c.1 - j <= 1
  {
    var win := WindowAt(g, p.fill, w, h, i, j);
    assert win[4] == g[i][j];
    Targets(Adjacent(p, win), i, j, w, h)
  }

  /**
   * Adjacent on the 3x3 slice of the padded grid at (i, j) gives the same
   * offsets as Adjacent on the window of (i, j).
   */
  lemma WindowAdjacent(p: Pattern, g: seq<seq<char>>, w: nat, h: nat, i: int, j: int)
    requires IsGrid(g, w, h) && 0 <= i < h && 0 <= j < w && HasTemplate(p, g[i][j])
    ensures var pg := Padded(g, p.fill, w, h);
      var m := [pg[i][j..j + 3], pg[i + 1][j..j + 3], pg[i + 2][j..j + 3]];
      && (forall r :: 0 <= r < 3 ==> |m[r]| == 3)
      && HasTemplate(p, m[1][1])
      && AdjacentMatrix(p, m) == Adjacent(p, WindowAt(g, p.fill, w, h, i, j))
      && Targets(AdjacentMatrix(p, m), i, j, w, h) == NeighbourSet(p, g, w, h, i, j)
  {
    var pg := Padded(g, p.fill, w, h);
    var m := [pg[i][j..j + 3], pg[i + 1][j..j + 3], pg[i + 2][j..j + 3]];
    PaddedWindow(g, p.fill, w, h, i, j);
    assert m[1][1] == g[i][j];
  }

  /**
   * A cell c is a neighbour of (i, j) exactly when it is in the grid, one
   * step away in some direction, not the fill symbol, and holds the symbol
   * that the template of (i, j)'s symbol puts at that relative position.
   */
  lemma NeighbourExact(p: Pattern, g: seq<seq<char>>, w: int, h: int, i: int, j: int, c: Cell)
    requires CellReady(p, g, w, h, i, j)
    ensures c in NeighbourSet(p, g, w, h, i, j) <==>
      && InGrid(c, h, w)
      && -1 <= c.0 - i <= 1 && -1 <= c.1 - j <= 1 && c != (i, j)
      && g[c.0][c.1] != p.fill
      && g[c.0][c.1] == TemplateFor(p, g[i][j])[FlatIndex((c.0 - i, c.1 - j))]
  {
    var win := WindowAt(g, p.fill, w, h, i, j);
    assert win[4] == g[i][j];
    var o := (c.0 - i, c.1 - j);
    if InGrid(c, h, w) && -1 <= o.0 <= 1 && -1 <= o.1 <= 1 {
      var n := FlatIndex(o);
      assert 0 <= n < 9;
      assert OffsetOf(n) == o;
      assert win[n] == g[c.0][c.1];
      assert n == 4 <==> c == (i, j);
    }
  }

  /** Every cell of the grid has a ready symbol. */
  ghost predicate GridReady(p: Pattern, g: seq<seq<char>>, w: int, h: int) {
    IsGrid(g, w, h) && forall i, j :: 0 <= i < h && 0 <= j < w ==> HasTemplate(p, g[i][j])
  }

  /** The neighbour table of a whole grid. */
  function NeighbourTable(p: Pattern, g: seq<seq<char>>, w: nat, h: nat): Table
    requires GridReady(p, g, w, h)
  {
    seq(h, i requires 0 <= i < h =>
      seq(w, j requires 0 <= j < w => NeighbourSet(p, g, w, h, i, j)))
  }

  /** The table has one entry per cell and only names cells of the grid. */
  lemma NeighbourTableShape(p: Pattern, g: seq<seq<char>>, w: nat, h: nat)
    requires GridReady(p, g, w, h)
    ensures WellShaped(NeighbourTable(p, g, w, h), h, w)
  {
    var nb := NeighbourTable(p, g, w, h);
    forall i, j, c | 0 <= i < h && 0 <= j < w && c in nb[i][j] ensures InGrid(c, h, w) {
      assert nb[i][j] == NeighbourSet(p, g, w, h, i, j);
    }
  }

  /** The table has h rows of w entries; entry (i, j) is the neighbour set of (i, j). */
  lemma NeighbourTableAt(p: Pattern, g: seq<seq<char>>, w: nat, h: nat, i: int, j: int)
    requires GridReady(p, g, w, h) && 0 <= i < h && 0 <= j < w
    ensures |NeighbourTable(p, g, w, h)| == h && |NeighbourTable(p, g, w, h)[i]| == w
    ensures NeighbourTable(p, g, w, h)[i][j] == NeighbourSet(p, g, w, h, i, j)
  {
  }

  /** The table entry of an in-grid cell is that cell's neighbour set. */
  lemma NeighbourTableEntry(p: Pattern, g: seq<seq<char>>, w: nat, h: nat, v: Cell)
    requires GridReady(p, g, w, h) && InGrid(v, h, w)
    ensures Nb(NeighbourTable(p, g, w, h), v) == NeighbourSet(p, g, w, h, v.0, v.1)
  {
    var nb := NeighbourTable(p, g, w, h);
    assert |nb| == h && |nb[v.0]| == w;
    assert nb[v.0][v.1] == NeighbourSet(p, g, w, h, v.0, v.1);
  }

  /** A cell's neighbours in the table are in-grid cells one step from it. */
  lemma TableNeighboursNear(p: Pattern, g: seq<seq<char>>, w: nat, h: nat, v: Cell)
    requires GridReady(p, g, w, h) && InGrid(v, h, w)
    ensures forall c :: c in Nb(NeighbourTable(p, g, w, h), v) ==>
      InGrid(c, h, w) && c != v && -1 <= c.0 - v.0 <= 1 && -1 <= c.1 - v.1 <= 1
  {
    NeighbourTableEntry(p, g, w, h, v);
  }

  /** No cell of a neighbour table is its own neighbour. */
  lemma NeighbourTableIrreflexive(p: Pattern, g: seq<seq<char>>, w: nat, h: nat, c: Cell)
    requires GridReady(p, g, w, h)
    ensures c !in Nb(NeighbourTable(p, g, w, h), c)
  {
    if InGrid(c, h, w) {
      NeighbourTableEntry(p, g, w, h, c);
    }
  }

  // ---------------------------------------------------------------------
  // Components and the cell-to-component table
  // ---------------------------------------------------------------------

  /** Writing x at position j extends the prefix before j by x. */
  lemma UpdateSnoc<T>(s: seq<T>, j: nat, x: T)
    requires j < |s|
    ensures s[j := x][..j + 1] == s[..j] + [x]
    ensures s[j := x][..j] == s[..j]
  {
  }

  /** The prefix up to k + 1 is the prefix up to k followed by s[k]. */
  lemma PrefixSnoc<T>(s: seq<T>, k: nat)
    requires k < |s|
    ensures s[..k + 1] == s[..k] + [s[k]]
  {
  }

  /** An h-by-w matrix holding val everywhere. */
  function FillMatrix<T>(val: T, w: nat, h: nat): (m: seq<seq<T>>)
    ensures |m| == h
    ensures forall i :: 0 <= i < h ==> |m[i]| == w && forall j :: 0 <= j < w ==> m[i][j] == val
  {
    seq(h, _ => seq(w, _ => val))
  }

  /** Every cell of the grid lies in some component. */
  ghost predicate Covers(cs: seq<set<Cell>>, h: int, w: int) {
    forall c :: InGrid(c, h, w) ==> exists k :: 0 <= k < |cs| && c in cs[k]
  }

  /** No two components share a cell. */
  ghost predicate PairwiseDisjoint(cs: seq<set<Cell>>) {
    forall k, l :: 0 <= k < l < |cs| ==> cs[k] !! cs[l]
  }

  /** The last component holding c, or -1 when none does. */
  function LastIndex(cs: seq<set<Cell>>, c: Cell): (k: int)
    ensures -1 <= k < |cs|
    ensures k >= 0 ==> c in cs[k]
    ensures forall l :: k < l < |cs| ==> c !in cs[l]
  {
    if cs == [] then -1
    else if c in cs[|cs| - 1] then |cs| - 1
    else LastIndex(cs[..|cs| - 1], c)
  }

  /** The value _calc_vertex_belong leaves for c after the first k components. */
  function BelongAfter(cs: seq<set<Cell>>, k: nat, c: Cell): int
    requires k <= |cs|
  {
    var l := LastIndex(cs[..k], c);
    if l < 0 then 0 else l
  }

  /** Writing component k's index over its cells turns the k-prefix value into the (k+1)-prefix one. */
  lemma BelongStep(cs: seq<set<Cell>>, k: nat, c: Cell)
    requires k < |cs|
    ensures BelongAfter(cs, k + 1, c) == if c in cs[k] then k else BelongAfter(cs, k, c)
  {
    assert cs[..k + 1][..k] == cs[..k];
  }

  /** Under a cover, each cell's entry names a component that holds it. */
  lemma BelongNamesHolder(cs: seq<set<Cell>>, h: int, w: int, c: Cell)
    requires Covers(cs, h, w) && InGrid(c, h, w)
    ensures 0 <= BelongAfter(cs, |cs|, c) < |cs| && c in cs[BelongAfter(cs, |cs|, c)]
  {
    assert cs[..|cs|] == cs;
    var k :| 0 <= k < |cs| && c in cs[k];
    assert LastIndex(cs, c) >= k;
  }

  /**
   * When the components are disjoint, a cell's entry names the one
   * component holding it: entry k exactly when the cell is in component k.
   */
  lemma BelongExact(cs: seq<set<Cell>>, h: int, w: int, c: Cell, k: int)
    requires Covers(cs, h, w) && PairwiseDisjoint(cs) && InGrid(c, h, w) && 0 <= k < |cs|
    ensures BelongAfter(cs, |cs|, c) == k <==> c in cs[k]
  {
    BelongNamesHolder(cs, h, w, c);
  }

  /** The row-major scan has passed cell c when it stands at (i, j). */
  predicate Before(c: Cell, i: int, j: int) {
    c.0 < i || (c.0 == i && c.1 < j)
  }

  /** The cells come in strictly increasing row-major order. */
  ghost predicate Increasing(starts: seq<Cell>) {
    forall k, l :: 0 <= k < l < |starts| ==> Before(starts[k], starts[l].0, starts[l].1)
  }

  /** A cell two components share is the start of the earlier one. */
  ghost predicate SharedOnlyStarts(cs: seq<set<Cell>>, starts: seq<Cell>)
    requires |starts| == |cs|
  {
    forall k, l, c :: 0 <= l < k < |cs| && c in cs[l] && c in cs[k] ==> c == starts[l]
  }

  /** All cells of all components. */
  ghost function Union(cs: seq<set<Cell>>): set<Cell> {
    if cs == [] then {} else Union(cs[..|cs| - 1]) + cs[|cs| - 1]
  }

  /** A component holding a given cell of the union. */
  lemma {:induction false} UnionIndex(cs: seq<set<Cell>>, c: Cell) returns (k: int)
    requires c in Union(cs)
    ensures 0 <= k < |cs| && c in cs[k]
  {
    if c in cs[|cs| - 1] {
      k := |cs| - 1;
    } else {
      k := UnionIndex(cs[..|cs| - 1], c);
    }
  }

  lemma UnionSnoc(cs: seq<set<Cell>>, K: set<Cell>)
    ensures Union(cs + [K]) == Union(cs) + K
  {
    assert (cs + [K])[..|cs|] == cs;
  }

  /**
   * The outcome _calc_components promises: one start per component, the
   * starts in row-major order, each component made of its start and cells
   * reachable from it, every cell of the grid covered.  Two components
   * share at most the start of the earlier one, which its own search may
   * leave unmarked; with a symmetric neighbour relation they share nothing
   * and are closed, i.e. they are the connected components.
   */
  ghost predicate Decomposition(nb: Table, h: int, w: int, cs: seq<set<Cell>>, starts: seq<Cell>) {
    && |starts| == |cs|
    && Covers(cs, h, w)
    && (forall k :: 0 <= k < |cs| ==> starts[k] in cs[k])
    && Increasing(starts)
    && (forall k, l :: 0 <= l < k < |cs| ==> starts[k] !in cs[l])
    && SharedOnlyStarts(cs, starts)
    && (forall k, c :: 0 <= k < |cs| && c in cs[k] ==>
          InGrid(c, h, w) && (c == starts[k] || Reaches(nb, starts[k], c)))
    && (Symmetric(nb) ==>
          PairwiseDisjoint(cs) && forall k :: 0 <= k < |cs| ==> Closed(nb, cs[k]))
  }

  /**
   * What holds of the scan in _calc_components when it stands at (i, j),
   * seen being the cells the shared visited matrix marks.
   */
  ghost predicate ScanState(nb: Table, h: int, w: int, cs: seq<set<Cell>>, starts: seq<Cell>,
                            seen: set<Cell>, i: int, j: int) {
    && |starts| == |cs|
    && (forall k :: 0 <= k < |cs| ==>
          starts[k] in cs[k] && InGrid(starts[k], h, w) && Before(starts[k], i, j))
    && Increasing(starts)
    && Members(nb, h, w, cs, starts, seen)
    && SharedOnlyStarts(cs, starts)
    && (forall c :: c in seen ==> InGrid(c, h, w) && c in Union(cs))
    && (forall c :: InGrid(c, h, w) && Before(c, i, j) ==> c in Union(cs))
    && (forall u, v :: u in Union(cs) && v in Nb(nb, u) ==> v in seen)
    && (Symmetric(nb) ==>
          PairwiseDisjoint(cs) && forall k :: 0 <= k < |cs| ==> Closed(nb, cs[k]))
  }

  /**
   * Each component holds cells of the grid reached from its start, all of
   * them visited but perhaps the start.
   */
  ghost predicate Members(nb: Table, h: int, w: int, cs: seq<set<Cell>>, starts: seq<Cell>, seen: set<Cell>)
    requires |starts| == |cs|
  {
    forall k, c :: 0 <= k < |cs| && c in cs[k] ==>
      && InGrid(c, h, w)
      && (c == starts[k] || Reaches(nb, starts[k], c))
      && (c in seen || c == starts[k])
  }

  /**
   * What a search from s promises about the set K it returns, the visited
   * cells growing from seen to seen2: K is s and cells not visited before,
   * each reached from s through such cells; the search marks exactly the
   * neighbours of cells of K, so s itself ends up marked only when some
   * cell of K leads back to it; every neighbour of K is in K or was
   * visited before.
   */
  ghost predicate Found(nb: Table, h: int, w: int, seen: set<Cell>, seen2: set<Cell>, K: set<Cell>, s: Cell) {
    && s in K
    && (forall c :: c in K ==> InGrid(c, h, w))
    && (forall c :: c in K && c != s ==> c in seen2 && c !in seen && ReachesAvoiding(nb, s, c, seen))
    && seen <= seen2
    && (forall c :: c in seen2 ==> c in seen || c in K)
    && (s in seen2 <==> s in seen || exists u :: u in K && s in Nb(nb, u))
    && (forall u, v :: u in K && v in Nb(nb, u) ==> v in seen2 && (v in K || v in seen))
  }

  /**
   * The cells a search finds are exactly its start and the cells the start
   * reaches without passing through a cell visited before.
   */
  lemma FoundExact(nb: Table, h: int, w: int, seen: set<Cell>, seen2: set<Cell>, K: set<Cell>, s: Cell, c: Cell)
    requires Found(nb, h, w, seen, seen2, K, s)
    ensures c in K <==> c == s || ReachesAvoiding(nb, s, c, seen)
  {
    if ReachesAvoiding(nb, s, c, seen) {
      ClosedExceptHolds(nb, K, seen, s, c);
    }
  }

  /**
   * A neighbour table on one row of two cells: (0, 1) is connected to
   * (0, 0), but (0, 0) to nothing.
   */
  const OneWay: Table := [[{}, {(0, 0)}]]

  /**
   * On OneWay the scan's first search, from (0, 0), finds (0, 0) alone and
   * leaves it unmarked; so the scan also searches from (0, 1), which takes
   * (0, 0) a second time: the two components overlap.
   */
  lemma OneWayOverlap(seen1: set<Cell>, K1: set<Cell>, seen2: set<Cell>, K2: set<Cell>)
    requires Found(OneWay, 1, 2, {}, seen1, K1, (0, 0))
    requires Found(OneWay, 1, 2, seen1, seen2, K2, (0, 1))
    ensures K1 == {(0, 0)} && seen1 == {} && (0, 1) !in seen1
    ensures K2 == {(0, 0), (0, 1)} && (0, 0) in K1 * K2
  {
    assert Nb(OneWay, (0, 0)) == {};
    assert Nb(OneWay, (0, 1)) == {(0, 0)};
    forall c | c in K1 && c != (0, 0) ensures false {
      FirstStep(OneWay, (0, 0), c, {});
    }
    forall c | c in K2 ensures c == (0, 0) || c == (0, 1) {
      assert InGrid(c, 1, 2);
    }
  }

  /**
   * The state of a breadth-first search from start between two queue pops:
   * seen holds the cells visited before the search, marks those it has
   * visited, done those already popped, q the queue, and todo a superset
   * of the unvisited cells.
   */
  ghost predicate BfsState(nb: Table, h: int, w: int, start: Cell, seen: set<Cell>,
                           marks: set<Cell>, done: set<Cell>, q: seq<Cell>, todo: set<Cell>) {
    && marks !! seen
    && (forall c :: c in marks ==> InGrid(c, h, w) && ReachesAvoiding(nb, start, c, seen))
    && (start in marks ==> exists u :: u in done && start in Nb(nb, u))
    && (forall c :: InGrid(c, h, w) && c !in seen && c !in marks ==> c in todo)
    && (forall c :: c in q ==> c == start || c in marks)
    && done <= marks + {start}
    && (forall c :: c in marks + {start} ==> c in done || c in q)
    && (forall u, v :: u in done && v in Nb(nb, u) ==> v in seen || v in marks)
  }

  /** The queue only ever holds start and cells reached from it avoiding seen. */
  lemma BfsQueued(nb: Table, h: int, w: int, start: Cell, seen: set<Cell>,
                  marks: set<Cell>, done: set<Cell>, q: seq<Cell>, todo: set<Cell>, u: Cell)
    requires BfsState(nb, h, w, start, seen, marks, done, q, todo) && u in q
    ensures u == start || ReachesAvoiding(nb, start, u, seen)
  {
  }

  /**
   * Popping u from the back of the queue and marking, as added, its
   * neighbours not visited before, which join the front of the queue.
   */
  lemma BfsStep(nb: Table, h: int, w: int, start: Cell, seen: set<Cell>,
                marks: set<Cell>, done: set<Cell>, q: seq<Cell>, todo: set<Cell>,
                q': seq<Cell>, added: set<Cell>, todo': set<Cell>)
    requires BfsState(nb, h, w, start, seen, marks, done, q, todo) && q != []
    requires added <= Nb(nb, q[|q| - 1]) && added !! (seen + marks)
    requires forall c :: c in added ==> InGrid(c, h, w) && ReachesAvoiding(nb, start, c, seen)
    requires forall v :: v in Nb(nb, q[|q| - 1]) ==> v in seen + marks || v in added
    requires forall c :: c in q' <==> c in q[..|q| - 1] || c in added
    requires forall c :: InGrid(c, h, w) && c !in seen + marks && c !in added ==> c in todo'
    ensures BfsState(nb, h, w, start, seen, marks + added, done + {q[|q| - 1]}, q', todo')
  {
    forall c | c in q ensures c in q[..|q| - 1] || c == q[|q| - 1] {
      var k :| 0 <= k < |q| && q[k] == c;
      if k < |q| - 1 {
        assert q[..|q| - 1][k] == c;
      }
    }
    var done' := done + {q[|q| - 1]};
    if start in added {
      assert q[|q| - 1] in done' && start in Nb(nb, q[|q| - 1]);
    } else if start in marks {
      var u :| u in done && start in Nb(nb, u);
      assert u in done';
    }
  }

  /** Appending a component found from s keeps Members. */
  lemma MembersSnoc(nb: Table, h: int, w: int, cs: seq<set<Cell>>, starts: seq<Cell>,
                    seen: set<Cell>, seen2: set<Cell>, K: set<Cell>, s: Cell)
    requires |starts| == |cs| && Members(nb, h, w, cs, starts, seen)
    requires Found(nb, h, w, seen, seen2, K, s)
    ensures Members(nb, h, w, cs + [K], starts + [s], seen2)
  {
    var cs2, st2 := cs + [K], starts + [s];
    forall k, c | 0 <= k < |cs2| && c in cs2[k]
      ensures InGrid(c, h, w) && (c == st2[k] || Reaches(nb, st2[k], c)) && (c in seen2 || c == st2[k])
    {
      if k < |cs| {
        assert cs2[k] == cs[k] && st2[k] == starts[k];
      } else if c != s {
        AvoidingReaches(nb, s, c, seen);
      }
    }
  }

  /** Appending a cell the others all come before keeps the order increasing. */
  lemma IncreasingSnoc(starts: seq<Cell>, i: int, j: int)
    requires Increasing(starts)
    requires forall k :: 0 <= k < |starts| ==> Before(starts[k], i, j)
    ensures Increasing(starts + [(i, j)])
  {
    var st2 := starts + [(i, j)];
    forall k, l | 0 <= k < l < |st2| ensures Before(st2[k], st2[l].0, st2[l].1) {
      assert st2[k] == starts[k];
      if l < |starts| {
        assert st2[l] == starts[l];
      }
    }
  }

  /**
   * A new component from an unvisited start s, its other cells unvisited
   * too, shares with an earlier component only that component's start:
   * the earlier components' other cells are all visited.
   */
  lemma SharedSnoc(cs: seq<set<Cell>>, starts: seq<Cell>, seen: set<Cell>, K: set<Cell>, s: Cell)
    requires |starts| == |cs| && SharedOnlyStarts(cs, starts)
    requires forall k, c :: 0 <= k < |cs| && c in cs[k] ==> c in seen || c == starts[k]
    requires s !in seen && forall c :: c in K && c != s ==> c !in seen
    ensures SharedOnlyStarts(cs + [K], starts + [s])
  {
    var cs2, st2 := cs + [K], starts + [s];
    forall k, l, c | 0 <= l < k < |cs2| && c in cs2[l] && c in cs2[k] ensures c == st2[l] {
      assert cs2[l] == cs[l] && st2[l] == starts[l];
      if k < |cs| {
        assert cs2[k] == cs[k];
      }
    }
  }

  /**
   * With increasing starts and components sharing only earlier starts, no
   * start lies in an earlier component.
   */
  lemma StartsNotEarlier(cs: seq<set<Cell>>, starts: seq<Cell>)
    requires |starts| == |cs| && Increasing(starts) && SharedOnlyStarts(cs, starts)
    requires forall k :: 0 <= k < |cs| ==> starts[k] in cs[k]
    ensures forall k, l :: 0 <= l < k < |cs| ==> starts[k] !in cs[l]
  {
    forall k, l | 0 <= l < k < |cs| ensures starts[k] !in cs[l] {
      assert Before(starts[l], starts[k].0, starts[k].1);
    }
  }

  /** The scan starts with no components and nothing visited. */
  lemma ScanStart(nb: Table, h: int, w: int)
    ensures ScanState(nb, h, w, [], [], {}, 0, 0)
  {
  }

  /** A visited cell is passed over. */
  lemma ScanSkip(nb: Table, h: int, w: int, cs: seq<set<Cell>>, starts: seq<Cell>, seen: set<Cell>, i: int, j: int)
    requires ScanState(nb, h, w, cs, starts, seen, i, j) && (i, j) in seen
    ensures ScanState(nb, h, w, cs, starts, seen, i, j + 1)
  {
  }

  /** The end of a row is the start of the next. */
  lemma ScanNextRow(nb: Table, h: int, w: int, cs: seq<set<Cell>>, starts: seq<Cell>, seen: set<Cell>, i: int)
    requires ScanState(nb, h, w, cs, starts, seen, i, w)
    ensures ScanState(nb, h, w, cs, starts, seen, i + 1, 0)
  {
  }

  /** After the last row the components are a decomposition of the grid. */
  lemma ScanDone(nb: Table, h: int, w: int, cs: seq<set<Cell>>, starts: seq<Cell>, seen: set<Cell>)
    requires ScanState(nb, h, w, cs, starts, seen, h, 0)
    ensures Decomposition(nb, h, w, cs, starts)
  {
    forall c | InGrid(c, h, w) ensures exists k :: 0 <= k < |cs| && c in cs[k] {
      var k := UnionIndex(cs, c);
    }
    StartsNotEarlier(cs, starts);
  }

  /**
   * Under symmetry, a component found from an unvisited cell shares no
   * cell with an earlier one: the shared cell would have to be the earlier
   * start t, and walking back from t would put (i, j) in t's closed
   * component, although (i, j) was not visited.
   */
  lemma NewDisjoint(nb: Table, h: int, w: int, cs: seq<set<Cell>>, starts: seq<Cell>,
                    seen: set<Cell>, seen2: set<Cell>, K: set<Cell>, i: int, j: int, k: int)
    requires Symmetric(nb) && ScanState(nb, h, w, cs, starts, seen, i, j)
    requires Found(nb, h, w, seen, seen2, K, (i, j)) && (i, j) !in seen
    requires 0 <= k < |cs|
    ensures K !! cs[k]
  {
    var t := starts[k];
    if t in K && t != (i, j) {
      AvoidingReaches(nb, (i, j), t, seen);
      ReachesSymmetric(nb, (i, j), t);
      ClosedHoldsReachable(nb, cs[k], t, (i, j));
    }
  }

  /** Under symmetry, a component found from an unvisited cell is closed. */
  lemma NewClosed(nb: Table, h: int, w: int, cs: seq<set<Cell>>, starts: seq<Cell>,
                  seen: set<Cell>, seen2: set<Cell>, K: set<Cell>, i: int, j: int)
    requires Symmetric(nb) && ScanState(nb, h, w, cs, starts, seen, i, j)
    requires Found(nb, h, w, seen, seen2, K, (i, j)) && (i, j) !in seen
    ensures Closed(nb, K)
  {
    forall u, v | u in K && v in Nb(nb, u) ensures v in K {
      if v !in K {
        var k := UnionIndex(cs, v);
        NewDisjoint(nb, h, w, cs, starts, seen, seen2, K, i, j, k);
      }
    }
  }

  /** Appending the component found at an unvisited cell keeps the scan state. */
  lemma ScanNew(nb: Table, h: int, w: int, cs: seq<set<Cell>>, starts: seq<Cell>,
                seen: set<Cell>, seen2: set<Cell>, K: set<Cell>, i: int, j: int)
    requires ScanState(nb, h, w, cs, starts, seen, i, j) && InGrid((i, j), h, w)
    requires Found(nb, h, w, seen, seen2, K, (i, j)) && (i, j) !in seen
    ensures ScanState(nb, h, w, cs + [K], starts + [(i, j)], seen2, i, j + 1)
  {
    UnionSnoc(cs, K);
    var cs2, st2 := cs + [K], starts + [(i, j)];
    MembersSnoc(nb, h, w, cs, starts, seen, seen2, K, (i, j));
    IncreasingSnoc(starts, i, j);
    SharedSnoc(cs, starts, seen, K, (i, j));
    FrontierSnoc(nb, h, w, Union(cs), seen, seen2, K, i, j);
    if Symmetric(nb) {
      NewSymmetric(nb, h, w, cs, starts, seen, seen2, K, i, j);
    }
  }

  /**
   * Adding the component found at (i, j) to the cells U gathered so far
   * moves the scan past (i, j): visited cells stay gathered and their
   * neighbours visited.
   */
  lemma FrontierSnoc(nb: Table, h: int, w: int, U: set<Cell>, seen: set<Cell>, seen2: set<Cell>,
                     K: set<Cell>, i: int, j: int)
    requires forall c :: c in seen ==> InGrid(c, h, w) && c in U
    requires forall c :: InGrid(c, h, w) && Before(c, i, j) ==> c in U
    requires forall u, v :: u in U && v in Nb(nb, u) ==> v in seen
    requires Found(nb, h, w, seen, seen2, K, (i, j))
    ensures forall c :: c in seen2 ==> InGrid(c, h, w) && c in U + K
    ensures forall c :: InGrid(c, h, w) && Before(c, i, j + 1) ==> c in U + K
    ensures forall u, v :: u in U + K && v in Nb(nb, u) ==> v in seen2
  {
  }

  /** Under a symmetric relation, the components stay disjoint and closed. */
  lemma NewSymmetric(nb: Table, h: int, w: int, cs: seq<set<Cell>>, starts: seq<Cell>,
                     seen: set<Cell>, seen2: set<Cell>, K: set<Cell>, i: int, j: int)
    requires Symmetric(nb)
    requires ScanState(nb, h, w, cs, starts, seen, i, j) && InGrid((i, j), h, w)
    requires Found(nb, h, w, seen, seen2, K, (i, j)) && (i, j) !in seen
    ensures PairwiseDisjoint(cs + [K]) && forall k :: 0 <= k < |cs| + 1 ==> Closed(nb, (cs + [K])[k])
  {
    var cs2 := cs + [K];
    forall k, l | 0 <= k < l < |cs2| ensures cs2[k] !! cs2[l] {
      if l == |cs| {
        NewDisjoint(nb, h, w, cs, starts, seen, seen2, K, i, j, k);
      }
    }
    NewClosed(nb, h, w, cs, starts, seen, seen2, K, i, j);
    forall k | 0 <= k < |cs2| ensures Closed(nb, cs2[k]) {
      if k < |cs| {
        assert cs2[k] == cs[k];
      }
    }
  }

  // ------------------------------------------------------------ scan order

  /**
   * Search k of the scan: it starts at starts[k], which no earlier search
   * left visited, every cell before it in row-major order being visited
   * or an earlier start; it turns the visited cells seens[k] into
   * seens[k + 1] and returns cs[k].
   */
  ghost predicate SearchAt(nb: Table, h: int, w: int, cs: seq<set<Cell>>, starts: seq<Cell>,
                           seens: seq<set<Cell>>, k: int)
    requires |starts| == |cs| && |seens| == |cs| + 1 && 0 <= k < |cs|
  {
    && Found(nb, h, w, seens[k], seens[k + 1], cs[k], starts[k])
    && starts[k] !in seens[k]
    && forall c :: InGrid(c, h, w) && Before(c, starts[k].0, starts[k].1) ==> c in seens[k] || c in starts[..k]
  }

  /** The searches of a scan, in row-major order of their starts, from nothing visited. */
  ghost predicate Searches(nb: Table, h: int, w: int, cs: seq<set<Cell>>, starts: seq<Cell>, seens: seq<set<Cell>>) {
    && |starts| == |cs| && |seens| == |cs| + 1 && seens[0] == {}
    && Increasing(starts)
    && forall k :: 0 <= k < |cs| ==> SearchAt(nb, h, w, cs, starts, seens, k)
  }

  /** The searches of the scan standing at (i, j): every cell before it visited or a start. */
  ghost predicate ScanTrace(nb: Table, h: int, w: int, cs: seq<set<Cell>>, starts: seq<Cell>,
                            seens: seq<set<Cell>>, i: int, j: int) {
    && Searches(nb, h, w, cs, starts, seens)
    && (forall k :: 0 <= k < |starts| ==> Before(starts[k], i, j))
    && (forall c :: InGrid(c, h, w) && Before(c, i, j) ==> c in seens[|cs|] || c in starts)
  }

  /**
   * What _calc_components computes: the searches of a scan that has passed
   * every cell of the grid. ScanOrderUnique shows this fixes the list.
   */
  ghost predicate ScanOrder(nb: Table, h: int, w: int, cs: seq<set<Cell>>, starts: seq<Cell>, seens: seq<set<Cell>>) {
    && Searches(nb, h, w, cs, starts, seens)
    && forall c :: InGrid(c, h, w) ==> c in seens[|cs|] || c in starts
  }

  lemma TraceStart(nb: Table, h: int, w: int)
    ensures ScanTrace(nb, h, w, [], [], [{}], 0, 0)
  {
  }

  lemma TraceSkip(nb: Table, h: int, w: int, cs: seq<set<Cell>>, starts: seq<Cell>, seens: seq<set<Cell>>, i: int, j: int)
    requires ScanTrace(nb, h, w, cs, starts, seens, i, j) && (i, j) in seens[|cs|]
    ensures ScanTrace(nb, h, w, cs, starts, seens, i, j + 1)
  {
  }

  lemma TraceNextRow(nb: Table, h: int, w: int, cs: seq<set<Cell>>, starts: seq<Cell>, seens: seq<set<Cell>>, i: int)
    requires ScanTrace(nb, h, w, cs, starts, seens, i, w)
    ensures ScanTrace(nb, h, w, cs, starts, seens, i + 1, 0)
  {
  }

  lemma TraceDone(nb: Table, h: int, w: int, cs: seq<set<Cell>>, starts: seq<Cell>, seens: seq<set<Cell>>)
    requires ScanTrace(nb, h, w, cs, starts, seens, h, 0)
    ensures ScanOrder(nb, h, w, cs, starts, seens)
  {
  }

  /** Earlier searches are unchanged by appending one. */
  lemma SearchAtSnoc(nb: Table, h: int, w: int, cs: seq<set<Cell>>, starts: seq<Cell>, seens: seq<set<Cell>>,
                     K: set<Cell>, s: Cell, seen2: set<Cell>, k: int)
    requires |starts| == |cs| && |seens| == |cs| + 1 && 0 <= k < |cs|
    requires SearchAt(nb, h, w, cs, starts, seens, k)
    ensures SearchAt(nb, h, w, cs + [K], starts + [s], seens + [seen2], k)
  {
    assert (cs + [K])[k] == cs[k] && (starts + [s])[k] == starts[k];
    assert (seens + [seen2])[k] == seens[k] && (seens + [seen2])[k + 1] == seens[k + 1];
    assert (starts + [s])[..k] == starts[..k];
  }

  /** A search from the unvisited cell (i, j) is the scan's next search. */
  lemma TraceNew(nb: Table, h: int, w: int, cs: seq<set<Cell>>, starts: seq<Cell>, seens: seq<set<Cell>>,
                 seen2: set<Cell>, K: set<Cell>, i: int, j: int)
    requires ScanTrace(nb, h, w, cs, starts, seens, i, j) && (i, j) !in seens[|cs|]
    requires Found(nb, h, w, seens[|cs|], seen2, K, (i, j))
    ensures ScanTrace(nb, h, w, cs + [K], starts + [(i, j)], seens + [seen2], i, j + 1)
  {
    var cs2, st2, sn2 := cs + [K], starts + [(i, j)], seens + [seen2];
    IncreasingSnoc(starts, i, j);
    forall k | 0 <= k < |cs2| ensures SearchAt(nb, h, w, cs2, st2, sn2, k) {
      if k < |cs| {
        SearchAtSnoc(nb, h, w, cs, starts, seens, K, (i, j), seen2, k);
      } else {
        assert st2[..k] == starts && sn2[k] == seens[|cs|] && sn2[k + 1] == seen2;
      }
    }
  }

  /** Two searches from the same cell over the same visited cells agree. */
  lemma FoundUnique(nb: Table, h: int, w: int, seen: set<Cell>, s: Cell,
                    seen2: set<Cell>, K: set<Cell>, seen2': set<Cell>, K': set<Cell>)
    requires Found(nb, h, w, seen, seen2, K, s) && Found(nb, h, w, seen, seen2', K', s)
    ensures K == K' && seen2 == seen2'
  {
    forall c ensures c in K <==> c in K' {
      FoundExact(nb, h, w, seen, seen2, K, s, c);
      FoundExact(nb, h, w, seen, seen2', K', s, c);
    }
  }

  /** Every earlier start comes before start k. */
  lemma StartsBefore(starts: seq<Cell>, k: int)
    requires Increasing(starts) && 0 <= k < |starts|
    ensures forall c :: c in starts[..k] ==> Before(c, starts[k].0, starts[k].1)
  {
    forall c | c in starts[..k] ensures Before(c, starts[k].0, starts[k].1) {
      var m :| 0 <= m < k && starts[..k][m] == c;
      assert starts[m] == c;
    }
  }

  /**
   * With the same searches before it, search k starts at the same cell:
   * the first cell after the earlier starts left unvisited.
   */
  lemma StartUnique(h: int, w: int, starts: seq<Cell>, starts': seq<Cell>, seen: set<Cell>, k: int)
    requires 0 <= k < |starts| && 0 <= k < |starts'| && starts[..k] == starts'[..k]
    requires Increasing(starts) && Increasing(starts')
    requires InGrid(starts[k], h, w) && starts[k] !in seen
    requires InGrid(starts'[k], h, w) && starts'[k] !in seen
    requires forall c :: InGrid(c, h, w) && Before(c, starts[k].0, starts[k].1) ==> c in seen || c in starts[..k]
    requires forall c :: InGrid(c, h, w) && Before(c, starts'[k].0, starts'[k].1) ==> c in seen || c in starts'[..k]
    ensures starts[k] == starts'[k]
  {
    StartsBefore(starts, k);
    StartsBefore(starts', k);
  }

  /** The start of search n, when there is one, is unvisited and after the earlier starts. */
  lemma NextStart(nb: Table, h: int, w: int, cs: seq<set<Cell>>, starts: seq<Cell>, seens: seq<set<Cell>>, n: int)
    requires Searches(nb, h, w, cs, starts, seens) && 0 <= n <= |cs|
    ensures n < |cs| ==>
      && InGrid(starts[n], h, w) && starts[n] !in seens[n]
      && forall c :: c in starts[..n] ==> Before(c, starts[n].0, starts[n].1)
  {
    if n < |cs| {
      assert SearchAt(nb, h, w, cs, starts, seens, n);
      StartsBefore(starts, n);
    }
  }

  /** Two scans that agree on their first k searches agree on the next one too. */
  lemma {:induction false} ScanPrefix(nb: Table, h: int, w: int,
                                      cs: seq<set<Cell>>, starts: seq<Cell>, seens: seq<set<Cell>>,
                                      cs': seq<set<Cell>>, starts': seq<Cell>, seens': seq<set<Cell>>, k: nat)
    requires Searches(nb, h, w, cs, starts, seens) && Searches(nb, h, w, cs', starts', seens')
    requires k <= |cs| && k <= |cs'|
    ensures cs[..k] == cs'[..k] && starts[..k] == starts'[..k] && seens[k] == seens'[k]
  {
    if k > 0 {
      ScanPrefix(nb, h, w, cs, starts, seens, cs', starts', seens', k - 1);
      var n := k - 1;
      assert SearchAt(nb, h, w, cs, starts, seens, n) && SearchAt(nb, h, w, cs', starts', seens', n);
      StartUnique(h, w, starts, starts', seens[n], n);
      FoundUnique(nb, h, w, seens[n], starts[n], seens[k], cs[n], seens'[k], cs'[n]);
      assert cs[..k] == cs[..n] + [cs[n]] && cs'[..k] == cs'[..n] + [cs'[n]];
      assert starts[..k] == starts[..n] + [starts[n]] && starts'[..k] == starts'[..n] + [starts'[n]];
    }
  }

  /** A finished scan leaves no cell for a further search. */
  lemma ScanLength(nb: Table, h: int, w: int,
                   cs: seq<set<Cell>>, starts: seq<Cell>, seens: seq<set<Cell>>,
                   cs': seq<set<Cell>>, starts': seq<Cell>, seens': seq<set<Cell>>)
    requires ScanOrder(nb, h, w, cs, starts, seens) && Searches(nb, h, w, cs', starts', seens')
    requires |cs| <= |cs'| && starts == starts'[..|cs|] && seens[|cs|] == seens'[|cs|]
    ensures |cs'| == |cs|
  {
    NextStart(nb, h, w, cs', starts', seens', |cs|);
  }

  /** The scan determines its result: one list of components, with its starts. */
  lemma ScanOrderUnique(nb: Table, h: int, w: int,
                        cs: seq<set<Cell>>, starts: seq<Cell>, seens: seq<set<Cell>>,
                        cs': seq<set<Cell>>, starts': seq<Cell>, seens': seq<set<Cell>>)
    requires ScanOrder(nb, h, w, cs, starts, seens) && ScanOrder(nb, h, w, cs', starts', seens')
    ensures cs == cs' && starts == starts' && seens == seens'
  {
    if |cs| <= |cs'| {
      ScanPrefix(nb, h, w, cs, starts, seens, cs', starts', seens', |cs|);
      assert starts[..|cs|] == starts;
      ScanLength(nb, h, w, cs, starts, seens, cs', starts', seens');
    } else {
      ScanPrefix(nb, h, w, cs', starts', seens', cs, starts, seens, |cs'|);
      assert starts'[..|cs'|] == starts';
      ScanLength(nb, h, w, cs', starts', seens', cs, starts, seens);
    }
    var n := |cs|;
    forall k | 0 <= k <= n ensures seens[k] == seens'[k] {
      ScanPrefix(nb, h, w, cs, starts, seens, cs', starts', seens', k);
    }
    ScanPrefix(nb, h, w, cs, starts, seens, cs', starts', seens', n);
    assert cs == cs[..n] && starts == starts[..n] && cs' == cs'[..n] && starts' == starts'[..n];
  }

  /** A neighbour table on one row of three cells, each leading only to the next. */
  const Chain: Table := [[{(0, 1)}, {(0, 2)}, {}]]

  /** On Chain the scan's one search, from (0, 0), takes the whole row. */
  lemma ChainScan()
    ensures ScanOrder(Chain, 1, 3, [{(0, 0), (0, 1), (0, 2)}], [(0, 0)], [{}, {(0, 1), (0, 2)}])
  {
    var K := {(0, 0), (0, 1), (0, 2)};
    assert Nb(Chain, (0, 0)) == {(0, 1)} && Nb(Chain, (0, 1)) == {(0, 2)} && Nb(Chain, (0, 2)) == {};
    AvoidingStep(Chain, (0, 0), (0, 0), (0, 1), {});
    AvoidingStep(Chain, (0, 0), (0, 1), (0, 2), {});
    assert Found(Chain, 1, 3, {}, {(0, 1), (0, 2)}, K, (0, 0));
    forall c | InGrid(c, 1, 3) ensures c in {(0, 1), (0, 2)} || c in [(0, 0)] {
      assert c == (0, 0) || c == (0, 1) || c == (0, 2);
    }
  }

  /** So every scan result on Chain is that one component: the row is not split. */
  lemma ChainOneComponent(cs: seq<set<Cell>>, starts: seq<Cell>, seens: seq<set<Cell>>)
    requires ScanOrder(Chain, 1, 3, cs, starts, seens)
    ensures cs == [{(0, 0), (0, 1), (0, 2)}] && starts == [(0, 0)]
  {
    ChainScan();
    ScanOrderUnique(Chain, 1, 3, cs, starts, seens, [{(0, 0), (0, 1), (0, 2)}], [(0, 0)], [{}, {(0, 1), (0, 2)}]);
  }

  class Maze {
    const width: nat
    const height: nat
    const pattern: Pattern
    /** The symbol grid, height rows of width symbols. */
    const maze: seq<seq<char>>
    var neighbours: Table
    var components: seq<set<Cell>>
    /** The cell each component's search started from. */
    ghost var starts: seq<Cell>
    /** The cells visited before each search, and after the last one. */
    ghost var seens: seq<set<Cell>>
    var vertexBelong: seq<seq<int>>

    /** The grid is drawn from the pattern's two symbols. */
    ghost predicate GridOk()
      reads this
    {
      PatternReady(pattern) && IsGrid(maze, width, height) && Drawn(pattern, maze, width, height)
    }

    ghost predicate NeighboursOk()
      reads this
    {
      && GridOk() && GridReady(pattern, maze, width, height)
      && neighbours == NeighbourTable(pattern, maze, width, height)
      && WellShaped(neighbours, height, width)
    }

    /**
     * The component list is the one the row-major scan produces (see
     * ScanOrder), and with its starts it decomposes the grid (see
     * Decomposition).
     */
    ghost predicate ComponentsOk()
      reads this
    {
      && Decomposition(neighbours, height, width, components, starts)
      && ScanOrder(neighbours, height, width, components, starts, seens)
    }

    ghost predicate Valid()
      reads this
    {
      NeighboursOk() && ComponentsOk() && BelongOk()
    }

    /** Each cell's entry is what _calc_vertex_belong writes last for it. */
    ghost predicate BelongOk()
      reads this
    {
      && IsGridOf(vertexBelong)
      && forall i, j :: 0 <= i < height && 0 <= j < width ==>
           vertexBelong[i][j] == BelongAfter(components, |components|, (i, j))
    }

    /** All cells of the grid. */
    ghost function Grid(): set<Cell>
      reads this
    {
      set i, j | 0 <= i < height && 0 <= j < width :: (i, j)
    }

    ghost predicate IsGridOf(m: seq<seq<int>>)
      reads this
    {
      |m| == height && forall i :: 0 <= i < height ==> |m[i]| == width
    }

    /**
     * Builds the maze: draws the grid, then fills the neighbour table,
     * the component list and the cell-to-component table in turn.
     */
    constructor (width: nat, height: nat, draws: seq<bool>, pattern: Pattern)
      requires PatternReady(pattern) && |draws| >= width * height
      ensures Valid()
      ensures this.width == width && this.height == height && this.pattern == pattern
      ensures maze == Generate(width, height, draws, pattern.chars)
    {
      this.width := width;
      this.height := height;
      this.pattern := pattern;
      var g := Generate(width, height, draws, pattern.chars);
      forall i, j | 0 <= i < height && 0 <= j < width
        ensures g[i][j] == pattern.chars[0] || g[i][j] == pattern.chars[1]
      {
        GenerateSymbols(width, height, draws, pattern.chars, i, j);
        assert pattern.chars[..2] == [pattern.chars[0], pattern.chars[1]];
      }
      this.maze := g;
      neighbours := [];
      components := [];
      starts := [];
      seens := [];
      vertexBelong := [];
      new;
      CalcNeighbours();
      CalcComponents();
      CalcVertexBelong();
    }

    /** Every cell's symbol has a template. */
    lemma ReadyFromDrawn()
      requires GridOk()
      ensures GridReady(pattern, maze, width, height)
    {
      forall i, j | 0 <= i < height && 0 <= j < width ensures HasTemplate(pattern, maze[i][j]) {
        assert maze[i][j] == pattern.chars[0] || maze[i][j] == pattern.chars[1];
      }
    }

    /** The grid surrounded by a one-cell border of the fill symbol. */
    method GhostMaze() returns (ghostMaze: seq<seq<char>>)
      requires GridOk()
      ensures ghostMaze == Padded(maze, pattern.fill, width, height)
    {
      var fill := pattern.fill;
      ghost var pg := Padded(maze, fill, width, height);
      ghostMaze := [seq(width + 2, _ => fill)];
      for i := 0 to height
        invariant ghostMaze == pg[..i + 1]
      {
        ghostMaze := ghostMaze + [[fill] + maze[i] + [fill]];
      }
      ghostMaze := ghostMaze + [seq(width + 2, _ => fill)];
    }

    /** The neighbours of (i, j), read off the window of the padded grid. */
    method CellNeighbours(ghostMaze: seq<seq<char>>, i: int, j: int) returns (neigh: set<Cell>)
      requires GridOk() && GridReady(pattern, maze, width, height)
      requires ghostMaze == Padded(maze, pattern.fill, width, height)
      requires 0 <= i < height && 0 <= j < width
      ensures neigh == NeighbourTable(pattern, maze, width, height)[i][j]
    {
      NeighbourTableAt(pattern, maze, width, height, i, j);
      var window := [ghostMaze[i][j..j + 3], ghostMaze[i + 1][j..j + 3], ghostMaze[i + 2][j..j + 3]];
      WindowAdjacent(pattern, maze, width, height, i, j);
      var adj := AdjacentMatrix(pattern, window);
      neigh := InGridTargets(adj, i, j);
    }

    /** The in-grid cells (i + di, j + dj) for the offsets (di, dj) of adj. */
    method InGridTargets(adj: seq<Offset>, i: int, j: int) returns (neigh: set<Cell>)
      ensures neigh == Targets(adj, i, j, width, height)
    {
      neigh := {};
      for k := 0 to |adj|
        invariant forall c :: c in neigh <==>
          InGrid(c, height, width) && exists m :: 0 <= m < k && adj[m] == (c.0 - i, c.1 - j)
      {
        var di, dj := adj[k].0, adj[k].1;
        var ii, jj := i + di, j + dj;
        if 0 <= ii < height && 0 <= jj < width {
          neigh := neigh + {(ii, jj)};
        }
      }
    }

    /** Row i of the neighbour table, filled in one cell at a time. */
    method RowNeighbours(ghostMaze: seq<seq<char>>, i: int, row0: seq<set<Cell>>) returns (row: seq<set<Cell>>)
      requires GridOk() && GridReady(pattern, maze, width, height)
      requires ghostMaze == Padded(maze, pattern.fill, width, height)
      requires 0 <= i < height
      requires |row0| == width
      ensures row == NeighbourTable(pattern, maze, width, height)[i]
    {
      ghost var table := NeighbourTable(pattern, maze, width, height);
      row := row0;
      for j := 0 to width
        invariant |row| == width
        invariant row[..j] == table[i][..j]
      {
        var neigh := CellNeighbours(ghostMaze, i, j);
        UpdateSnoc(row, j, neigh);
        PrefixSnoc(table[i], j);
        row := row[j := neigh];
      }
      assert row == row[..width] && table[i] == table[i][..width];
    }

    /**
     * Fills the neighbour table: pads the grid with fill, slides a 3x3
     * window over it and keeps the in-grid targets of the connected offsets.
     */
    method CalcNeighbours()
      requires GridOk()
      modifies this`neighbours
      ensures NeighboursOk()
    {
      ReadyFromDrawn();
      ghost var table := NeighbourTable(pattern, maze, width, height);
      neighbours := FillMatrix({}, width, height);
      var ghostMaze := GhostMaze();
      for i := 0 to height
        invariant |neighbours| == height && forall r :: 0 <= r < height ==> |neighbours[r]| == width
        invariant neighbours[..i] == table[..i]
      {
        var row := RowNeighbours(ghostMaze, i, neighbours[i]);
        neighbours := neighbours[i := row];
        PrefixSnoc(neighbours, i);
        PrefixSnoc(table, i);
      }
      assert neighbours == neighbours[..height] && table == table[..height];
      NeighbourTableShape(pattern, maze, width, height);
    }

    /** The table has the grid's shape and names only cells of the grid. */
    ghost predicate TableShaped()
      reads this
    {
      WellShaped(neighbours, height, width)
    }

    /** The neighbours of cell v, all of them cells of the grid. */
    function Neighbours(v: Cell): (r: set<Cell>)
      reads this
      requires TableShaped() && InGrid(v, height, width)
      ensures forall c :: c in r ==> InGrid(c, height, width)
    {
      Nb(neighbours, v)
    }

    /** Once the table is filled, a cell's neighbours are the cells one step from it. */
    lemma NeighboursNear(v: Cell)
      requires NeighboursOk() && InGrid(v, height, width)
      ensures forall c :: c in Neighbours(v) ==>
        c != v && -1 <= c.0 - v.0 <= 1 && -1 <= c.1 - v.1 <= 1
    {
      TableNeighboursNear(pattern, maze, width, height, v);
    }

    /**
     * The inner loop of the search: marks every unvisited neighbour of u
     * and puts it at the front of the queue.  The visited matrix is read
     * as the set seen0 of cells it marks.
     */
    method VisitNeighbours(start: Cell, u: Cell, visited: array2<bool>, q0: seq<Cell>,
                           ghost seen0: set<Cell>, ghost avoid: set<Cell>, ghost todo0: set<Cell>)
      returns (q: seq<Cell>, added: set<Cell>, ghost todo: set<Cell>)
      requires TableShaped() && InGrid(u, height, width)
      requires visited.Length0 == height && visited.Length1 == width
      requires forall i, j :: 0 <= i < height && 0 <= j < width ==> (visited[i, j] <==> (i, j) in seen0)
      requires avoid <= seen0 && (u == start || ReachesAvoiding(neighbours, start, u, avoid))
      requires forall c :: InGrid(c, height, width) && c !in seen0 ==> c in todo0
      modifies visited
      ensures added <= Nb(neighbours, u) && added !! seen0
      ensures forall c :: c in added ==> InGrid(c, height, width) && ReachesAvoiding(neighbours, start, c, avoid)
      ensures forall i, j :: 0 <= i < height && 0 <= j < width ==>
        (visited[i, j] <==> (i, j) in seen0 || (i, j) in added)
      ensures forall v :: v in Nb(neighbours, u) ==> InGrid(v, height, width) && (v in seen0 || v in added)
      ensures forall c :: c in q <==> c in q0 || c in added
      ensures forall c :: InGrid(c, height, width) && c !in seen0 && c !in added ==> c in todo
      ensures |q| + 2 * |todo| <= |q0| + 2 * |todo0|
    {
      q, added, todo := q0, {}, todo0;
      var rest := Neighbours(u);
      while rest != {}
        invariant rest <= Nb(neighbours, u) && added <= Nb(neighbours, u) && added !! seen0
        invariant forall c :: c in added ==> InGrid(c, height, width) && ReachesAvoiding(neighbours, start, c, avoid)
        invariant forall i, j :: 0 <= i < height && 0 <= j < width ==>
          (visited[i, j] <==> (i, j) in seen0 || (i, j) in added)
        invariant forall v :: v in Nb(neighbours, u) - rest ==> v in seen0 || v in added
        invariant forall c :: c in q <==> c in q0 || c in added
        invariant forall c :: InGrid(c, height, width) && c !in seen0 && c !in added ==> c in todo
        invariant |q| + 2 * |todo| <= |q0| + 2 * |todo0|
        decreases rest
      {
        var v :| v in rest;
        rest := rest - {v};
        if !visited[v.0, v.1] {
          visited[v.0, v.1] := true;
          q := [v] + q;
          added := added + {v};
          AvoidingStep(neighbours, start, u, v, avoid);
          todo := todo - {v};
        }
      }
    }

    /**
     * The breadth-first search of components(): from start, marks in the
     * shared visited matrix every cell reached that was not marked before.
     * start itself is marked only when some neighbour leads back to it.
     * The matrix is read as the set seen before and seen2 after.
     */
    method Component(start: Cell, visited: array2<bool>, ghost seen: set<Cell>)
      returns (component: set<Cell>, ghost seen2: set<Cell>)
      requires TableShaped() && InGrid(start, height, width)
      requires visited.Length0 == height && visited.Length1 == width
      requires forall i, j :: 0 <= i < height && 0 <= j < width ==> (visited[i, j] <==> (i, j) in seen)
      modifies visited
      ensures Found(neighbours, height, width, seen, seen2, component, start)
      ensures forall i, j :: 0 <= i < height && 0 <= j < width ==> (visited[i, j] <==> (i, j) in seen2)
    {
      ghost var marks: set<Cell> := {};
      ghost var done: set<Cell> := {};
      ghost var todo := Grid();
      forall c | InGrid(c, height, width) ensures c in todo {
        assert c == (c.0, c.1);
      }
      var q := [start];
      component := {start};
      while q != []
        invariant component == marks + {start}
        invariant BfsState(neighbours, height, width, start, seen, marks, done, q, todo)
        invariant forall i, j :: 0 <= i < height && 0 <= j < width ==>
          (visited[i, j] <==> (i, j) in seen || (i, j) in marks)
        decreases |q| + 2 * |todo|
      {
        var u := q[|q| - 1];
        BfsQueued(neighbours, height, width, start, seen, marks, done, q, todo, u);
        ghost var q0, todo0 := q, todo;
        var added;
        q, added, todo := VisitNeighbours(start, u, visited, q[..|q| - 1], seen + marks, seen, todo);
        BfsStep(neighbours, height, width, start, seen, marks, done, q0, todo0, q, added, todo);
        component := component + added;
        marks := marks + added;
        done := done + {u};
      }
      seen2 := seen + marks;
    }

    /** Component with a fresh visited matrix: start and everything it reaches. */
    method ComponentFresh(start: Cell) returns (component: set<Cell>)
      requires TableShaped() && InGrid(start, height, width)
      ensures forall c :: c in component <==> c == start || Reaches(neighbours, start, c)
    {
      var visited := new bool[height, width]((i, j) => false);
      ghost var seen2;
      component, seen2 := Component(start, visited, {});
      forall c | c in component && c != start ensures Reaches(neighbours, start, c) {
        AvoidingReaches(neighbours, start, c, {});
      }
      forall c | Reaches(neighbours, start, c) ensures c in component {
        ClosedHoldsReachable(neighbours, component, start, c);
      }
    }

    /**
     * Scans the cells in row-major order and starts a new component at
     * every cell not yet visited, sharing one visited matrix between the
     * searches.
     */
    method CalcComponents()
      requires TableShaped()
      modifies this`components, this`starts, this`seens
      ensures ComponentsOk()
    {
      var cs: seq<set<Cell>> := [];
      ghost var st: seq<Cell> := [];
      ghost var seen: set<Cell> := {};
      ghost var sn: seq<set<Cell>> := [{}];
      var visited := new bool[height, width]((i, j) => false);
      ScanStart(neighbours, height, width);
      TraceStart(neighbours, height, width);
      for i := 0 to height
        invariant ScanState(neighbours, height, width, cs, st, seen, i, 0)
        invariant ScanTrace(neighbours, height, width, cs, st, sn, i, 0) && sn[|cs|] == seen
        invariant forall r, c :: 0 <= r < height && 0 <= c < width ==> (visited[r, c] <==> (r, c) in seen)
      {
        for j := 0 to width
          invariant ScanState(neighbours, height, width, cs, st, seen, i, j)
          invariant ScanTrace(neighbours, height, width, cs, st, sn, i, j) && sn[|cs|] == seen
          invariant forall r, c :: 0 <= r < height && 0 <= c < width ==> (visited[r, c] <==> (r, c) in seen)
        {
          if !visited[i, j] {
            var component;
            ghost var seen2;
            component, seen2 := Component((i, j), visited, seen);
            ScanNew(neighbours, height, width, cs, st, seen, seen2, component, i, j);
            TraceNew(neighbours, height, width, cs, st, sn, seen2, component, i, j);
            cs := cs + [component];
            st := st + [(i, j)];
            sn := sn + [seen2];
            seen := seen2;
          } else {
            ScanSkip(neighbours, height, width, cs, st, seen, i, j);
            TraceSkip(neighbours, height, width, cs, st, sn, i, j);
          }
        }
        ScanNextRow(neighbours, height, width, cs, st, seen, i);
        TraceNextRow(neighbours, height, width, cs, st, sn, i);
      }
      ScanDone(neighbours, height, width, cs, st, seen);
      TraceDone(neighbours, height, width, cs, st, sn);
      components := cs;
      starts := st;
      seens := sn;
    }

    /**
     * Writes each component's index over its cells, in list order, so the
     * last component holding a cell names it; cells of no component keep 0.
     */
    method CalcVertexBelong()
      requires forall k, c :: 0 <= k < |components| && c in components[k] ==> InGrid(c, height, width)
      modifies this`vertexBelong
      ensures BelongOk()
    {
      var belong := new int[height, width]((i, j) => 0);
      for k := 0 to |components|
        invariant forall i, j :: 0 <= i < height && 0 <= j < width ==>
          belong[i, j] == BelongAfter(components, k, (i, j))
      {
        var rest := components[k];
        while rest != {}
          invariant rest <= components[k]
          invariant forall i, j :: 0 <= i < height && 0 <= j < width ==>
            belong[i, j] == if (i, j) in components[k] - rest then k else BelongAfter(components, k, (i, j))
          decreases rest
        {
          var c :| c in rest;
          assert c in components[k] && InGrid(c, height, width);
          rest := rest - {c};
          belong[c.0, c.1] := k;
        }
        forall i, j | 0 <= i < height && 0 <= j < width
          ensures belong[i, j] == BelongAfter(components, k + 1, (i, j))
        {
          BelongStep(components, k, (i, j));
        }
      }
      vertexBelong := seq(height, i requires 0 <= i < height reads belong =>
        seq(width, j requires 0 <= j < width reads belong => belong[i, j]));
    }

    /** The components, once built, decompose the grid. */
    function Components(): (r: seq<set<Cell>>)
      reads this
      requires ComponentsOk()
      ensures r == components
      ensures ScanOrder(neighbours, height, width, r, starts, seens)
      ensures |r| == |starts| && forall k :: 0 <= k < |r| ==> starts[k] in r[k]
      ensures Increasing(starts) && SharedOnlyStarts(r, starts)
      ensures forall k, l :: 0 <= l < k < |r| ==> starts[k] !in r[l]
      ensures Covers(r, height, width)
      ensures forall k, c :: 0 <= k < |r| && c in r[k] ==>
        InGrid(c, height, width) && (c == starts[k] || Reaches(neighbours, starts[k], c))
      ensures Symmetric(neighbours) ==>
        PairwiseDisjoint(r) && forall k :: 0 <= k < |r| ==> Closed(neighbours, r[k])
    {
      components
    }

    /**
     * The cell-to-component table: each cell's entry names a component
     * holding it, and under a symmetric relation the only one.
     */
    function VertexBelong(): (r: seq<seq<int>>)
      reads this
      requires ComponentsOk() && BelongOk()
      ensures IsGridOf(r)
      ensures forall i, j :: 0 <= i < height && 0 <= j < width ==>
        0 <= r[i][j] < |components| && (i, j) in components[r[i][j]]
      ensures Symmetric(neighbours) ==> forall i, j, k ::
        0 <= i < height && 0 <= j < width && 0 <= k < |components| ==>
          (r[i][j] == k <==> (i, j) in components[k])
    {
      BelongFacts();
      vertexBelong
    }

    lemma BelongFacts()
      requires ComponentsOk() && BelongOk()
      ensures forall i, j :: 0 <= i < height && 0 <= j < width ==>
        0 <= vertexBelong[i][j] < |components| && (i, j) in components[vertexBelong[i][j]]
      ensures Symmetric(neighbours) ==> forall i, j, k ::
        0 <= i < height && 0 <= j < width && 0 <= k < |components| ==>
          (vertexBelong[i][j] == k <==> (i, j) in components[k])
    {
      forall i, j | 0 <= i < height && 0 <= j < width
        ensures 0 <= vertexBelong[i][j] < |components| && (i, j) in components[vertexBelong[i][j]]
      {
        BelongNamesHolder(components, height, width, (i, j));
      }
      if Symmetric(neighbours) {
        forall i, j, k | 0 <= i < height && 0 <= j < width && 0 <= k < |components|
          ensures vertexBelong[i][j] == k <==> (i, j) in components[k]
        {
          BelongExact(components, height, width, (i, j), k);
        }
      }
    }
  }
}
