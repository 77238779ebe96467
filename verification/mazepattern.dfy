/**
 * The adjacency rule engine of the maze.
 *
 * A pattern gives, for each maze symbol, a 9-character template: a 3x3
 * window in row-major order centred on that symbol.  A position of a real
 * window is connected to the centre when the window holds, at that
 * position, the same symbol as the template does.  The fill symbol stands
 * for "outside the maze" and never connects.
 */
module MazePattern {

  /** A relative position (di, dj) around the centre of a window. */
  type Offset = (int, int)

  /** The maze symbols, the fill symbol and one template per symbol index. */
  datatype Pattern = Pattern(chars: string, fill: char, templates: seq<string>)

  /** A built pattern and whether building it logged the fill warning. */
  datatype Construction = Construction(pattern: Pattern, warned: bool)

  /**
   * Building a pattern always succeeds and keeps its three arguments as
   * given; a fill symbol that is also a maze symbol only raises a warning.
   */
  function New(chars: string, fill: char, templates: seq<string>): (r: Construction)
    ensures r.warned <==> fill in chars
    ensures r.pattern.chars == chars && r.pattern.fill == fill && r.pattern.templates == templates
  {
    Construction(Pattern(chars, fill, templates), fill in chars)
  }

  /** The first position of c in s. */
  function IndexOf(s: string, c: char): (k: nat)
    requires c in s
    ensures k < |s| && s[k] == c
    ensures c !in s[..k]
  {
    if s[0] == c then 0 else 1 + IndexOf(s[1..], c)
  }

  /** The template of symbol c exists and is a full 3x3 window. */
  predicate HasTemplate(p: Pattern, c: char) {
    c in p.chars && IndexOf(p.chars, c) < |p.templates| && |p.templates[IndexOf(p.chars, c)]| == 9
  }

  /** The template chosen for a window whose centre holds c. */
  function TemplateFor(p: Pattern, c: char): (t: string)
    requires HasTemplate(p, c)
    ensures |t| == 9
    ensures t == p.templates[IndexOf(p.chars, c)]
  {
    p.templates[IndexOf(p.chars, c)]
  }

  /** The offset from the centre of the window position with flat index n. */
  function OffsetOf(n: int): Offset {
    (n / 3 - 1, n % 3 - 1)
  }

  /** The flat, row-major index of the window position at offset o. */
  function FlatIndex(o: Offset): int {
    3 * (o.0 + 1) + (o.1 + 1)
  }

  lemma OffsetRoundTrip(n: int)
    requires 0 <= n < 9
    ensures FlatIndex(OffsetOf(n)) == n
    ensures -1 <= OffsetOf(n).0 <= 1 && -1 <= OffsetOf(n).1 <= 1
    ensures OffsetOf(n) == (0, 0) <==> n == 4
  {
  }

  /** Position n (not the centre, not fill) matches the template there. */
  predicate Contributes(window: string, template: string, fill: char, n: int)
    requires |window| == 9 && |template| == 9 && 0 <= n < 9
  {
    n != 4 && window[n] != fill && window[n] == template[n]
  }

  /** The contributing positions among n, n+1, ..., 8, in increasing order. */
  function Scan(window: string, template: string, fill: char, n: nat): seq<nat>
    requires |window| == 9 && |template| == 9 && n <= 9
    decreases 9 - n
  {
    if n == 9 then []
    else (if Contributes(window, template, fill, n) then [n] else []) + Scan(window, template, fill, n + 1)
  }

  /**
   * The scan from n holds exactly the contributing positions from n on,
   * each once and in increasing order.
   */
  lemma {:induction false} ScanFacts(window: string, template: string, fill: char, n: nat)
    requires |window| == 9 && |template| == 9 && n <= 9
    ensures var ps := Scan(window, template, fill, n);
      && |ps| <= 9 - n - (if n <= 4 then 1 else 0)
      && (forall k :: 0 <= k < |ps| ==> n <= ps[k] < 9 && Contributes(window, template, fill, ps[k]))
      && (forall k, l :: 0 <= k < l < |ps| ==> ps[k] < ps[l])
      && (forall m :: n <= m < 9 && Contributes(window, template, fill, m) ==> m in ps)
    decreases 9 - n
  {
    if n < 9 {
      ScanFacts(window, template, fill, n + 1);
    }
  }

  /** The offsets of the window positions ps, in the same order. */
  function Offsets(ps: seq<nat>): (adj: seq<Offset>)
    ensures |adj| == |ps|
    ensures forall k :: 0 <= k < |ps| ==> adj[k] == OffsetOf(ps[k])
  {
    if ps == [] then [] else [OffsetOf(ps[0])] + Offsets(ps[1..])
  }

  /** Offsets of distinct positions of one window are distinct. */
  lemma OffsetInjective(n: int, m: int)
    requires 0 <= n < 9 && 0 <= m < 9 && OffsetOf(n) == OffsetOf(m)
    ensures n == m
  {
    OffsetRoundTrip(n);
    OffsetRoundTrip(m);
  }

  /** What the offsets of a full scan say, position by position. */
  lemma ScanOffsets(window: string, template: string, fill: char)
    requires |window| == 9 && |template| == 9
    ensures var adj := Offsets(Scan(window, template, fill, 0));
      && (forall k :: 0 <= k < |adj| ==>
            adj[k] != (0, 0) && -1 <= adj[k].0 <= 1 && -1 <= adj[k].1 <= 1)
      && (forall k, l :: 0 <= k < l < |adj| ==> FlatIndex(adj[k]) < FlatIndex(adj[l]))
  {
    var ps := Scan(window, template, fill, 0);
    var adj := Offsets(ps);
    ScanFacts(window, template, fill, 0);
    forall k | 0 <= k < |adj|
      ensures adj[k] != (0, 0) && -1 <= adj[k].0 <= 1 && -1 <= adj[k].1 <= 1
      ensures FlatIndex(adj[k]) == ps[k]
    {
      OffsetRoundTrip(ps[k]);
    }
  }

  /** A contributing position's offset is in a full scan. */
  lemma ScanComplete(window: string, template: string, fill: char, n: int)
    requires |window| == 9 && |template| == 9 && 0 <= n < 9
    requires Contributes(window, template, fill, n)
    ensures OffsetOf(n) in Offsets(Scan(window, template, fill, 0))
  {
    var ps := Scan(window, template, fill, 0);
    ScanFacts(window, template, fill, 0);
    var k :| 0 <= k < |ps| && ps[k] == n;
    assert Offsets(ps)[k] == OffsetOf(n);
  }

  /** Every offset in a full scan comes from a contributing position. */
  lemma ScanSound(window: string, template: string, fill: char, n: int)
    requires |window| == 9 && |template| == 9 && 0 <= n < 9
    requires OffsetOf(n) in Offsets(Scan(window, template, fill, 0))
    ensures Contributes(window, template, fill, n)
  {
    var ps := Scan(window, template, fill, 0);
    var adj := Offsets(ps);
    ScanFacts(window, template, fill, 0);
    var k :| 0 <= k < |adj| && adj[k] == OffsetOf(n);
    assert adj[k] == OffsetOf(ps[k]);
    OffsetInjective(ps[k], n);
    assert Contributes(window, template, fill, ps[k]);
  }

  /**
   * The connected offsets of a 9-character row-major window: exactly the
   * non-centre, non-fill positions that agree with the centre symbol's
   * template, in increasing position order.
   */
  function Adjacent(p: Pattern, window: string): (adj: seq<Offset>)
    requires |window| == 9 && HasTemplate(p, window[4])
    ensures |adj| <= 8
    ensures forall k :: 0 <= k < |adj| ==>
      adj[k] != (0, 0) && -1 <= adj[k].0 <= 1 && -1 <= adj[k].1 <= 1
    ensures forall n :: 0 <= n < 9 ==>
      (OffsetOf(n) in adj <==> Contributes(window, TemplateFor(p, window[4]), p.fill, n))
    ensures forall k, l :: 0 <= k < l < |adj| ==> FlatIndex(adj[k]) < FlatIndex(adj[l])
  {
    var t := TemplateFor(p, window[4]);
    ScanOffsets(window, t, p.fill);
    ScanFacts(window, t, p.fill, 0);
    forall n | 0 <= n < 9
      ensures OffsetOf(n) in Offsets(Scan(window, t, p.fill, 0)) <==> Contributes(window, t, p.fill, n)
    {
      if Contributes(window, t, p.fill, n) {
        ScanComplete(window, t, p.fill, n);
      }
      if OffsetOf(n) in Offsets(Scan(window, t, p.fill, 0)) {
        ScanSound(window, t, p.fill, n);
      }
    }
    Offsets(Scan(window, t, p.fill, 0))
  }

  /** Concatenation of the rows of a matrix, in order. */
  function JoinMatrix(m: seq<seq<char>>): (s: string)
  {
    if m == [] then [] else m[0] + JoinMatrix(m[1..])
  }

  /** Joining a 3x3 matrix puts m[r][c] at flat index 3r + c. */
  lemma JoinThreeByThree(m: seq<seq<char>>)
    requires |m| == 3 && forall r :: 0 <= r < 3 ==> |m[r]| == 3
    ensures |JoinMatrix(m)| == 9
    ensures forall r, c :: 0 <= r < 3 && 0 <= c < 3 ==> JoinMatrix(m)[3 * r + c] == m[r][c]
  {
    assert m[1..][1..][1..] == [];
    assert JoinMatrix(m[1..][1..]) == m[2];
    assert JoinMatrix(m[1..]) == m[1] + m[2];
    assert JoinMatrix(m) == m[0] + m[1] + m[2];
  }

  /** One cell of a 3x3 matrix window, read through the joined string. */
  lemma MatrixCell(p: Pattern, m: seq<seq<char>>, r: int, c: int)
    requires |m| == 3 && forall r :: 0 <= r < 3 ==> |m[r]| == 3
    requires HasTemplate(p, m[1][1])
    requires 0 <= r < 3 && 0 <= c < 3
    ensures |JoinMatrix(m)| == 9 && JoinMatrix(m)[4] == m[1][1]
    ensures OffsetOf(3 * r + c) in Adjacent(p, JoinMatrix(m)) <==>
      (r, c) != (1, 1) && m[r][c] != p.fill && m[r][c] == TemplateFor(p, m[1][1])[3 * r + c]
  {
    JoinThreeByThree(m);
    var w := JoinMatrix(m);
    var n := 3 * r + c;
    assert w[n] == m[r][c];
    assert n == 4 <==> (r, c) == (1, 1);
    assert OffsetOf(n) in Adjacent(p, w) <==> Contributes(w, TemplateFor(p, w[4]), p.fill, n);
  }

  /**
   * The matrix form of Adjacent: the window is given as 3 rows of 3
   * symbols and is joined row by row before the rules are applied.
   */
  function AdjacentMatrix(p: Pattern, m: seq<seq<char>>): (adj: seq<Offset>)
    requires |m| == 3 && forall r :: 0 <= r < 3 ==> |m[r]| == 3
    requires HasTemplate(p, m[1][1])
    ensures forall r, c :: 0 <= r < 3 && 0 <= c < 3 ==>
      (OffsetOf(3 * r + c) in adj <==>
        (r, c) != (1, 1) && m[r][c] != p.fill && m[r][c] == TemplateFor(p, m[1][1])[3 * r + c])
    ensures |JoinMatrix(m)| == 9 && JoinMatrix(m)[4] == m[1][1] && adj == Adjacent(p, JoinMatrix(m))
  {
    JoinThreeByThree(m);
    forall r, c | 0 <= r < 3 && 0 <= c < 3
      ensures OffsetOf(3 * r + c) in Adjacent(p, JoinMatrix(m)) <==>
        (r, c) != (1, 1) && m[r][c] != p.fill && m[r][c] == TemplateFor(p, m[1][1])[3 * r + c]
    {
      MatrixCell(p, m, r, c);
    }
    Adjacent(p, JoinMatrix(m))
  }

  /**
   * A diagonal-tile pattern: '/' and '\' connect where their strokes meet
   * at a shared corner of two cells; 'x' marks positions that never
   * connect, and ' ' is the fill.
   */
  const Diagonal := Pattern("/\\", ' ', ["x\\/\\/\\/\\x", "\\/x/\\/x/\\"])

  /** The scan of an all-'/' window against the '/' template, from position 3 on. */
  lemma SlashScanTail()
    ensures Scan("/////////", "x\\/\\/\\/\\x", ' ', 3) == [6]
  {
    var w, t := "/////////", "x\\/\\/\\/\\x";
    assert !Contributes(w, t, ' ', 8) && !Contributes(w, t, ' ', 7);
    assert Contributes(w, t, ' ', 6) && !Contributes(w, t, ' ', 5);
    assert !Contributes(w, t, ' ', 4) && !Contributes(w, t, ' ', 3);
    assert Scan(w, t, ' ', 7) == [];
    assert Scan(w, t, ' ', 6) == [6];
  }

  /** The full scan of an all-'/' window against the '/' template. */
  lemma SlashScan()
    ensures Scan("/////////", "x\\/\\/\\/\\x", ' ', 0) == [2, 6]
  {
    var w, t := "/////////", "x\\/\\/\\/\\x";
    SlashScanTail();
    assert Contributes(w, t, ' ', 2) && !Contributes(w, t, ' ', 1);
    assert !Contributes(w, t, ' ', 0);
    assert Scan(w, t, ' ', 2) == [2, 6];
  }

  /**
   * A '/' surrounded by '/' connects only along its own stroke: to the
   * two diagonal cells up-right and down-left, and to no orthogonal cell.
   */
  lemma DiagonalSlashRun()
    ensures HasTemplate(Diagonal, '/')
    ensures Adjacent(Diagonal, "/////////") == [(-1, 1), (1, -1)]
  {
    assert IndexOf(Diagonal.chars, '/') == 0;
    var t := TemplateFor(Diagonal, '/');
    assert t == "x\\/\\/\\/\\x";
    SlashScan();
    SlashOffsets();
    assert Adjacent(Diagonal, "/////////") == Offsets(Scan("/////////", t, ' ', 0));
  }

  /** The offsets of window positions 2 and 6: up-right and down-left. */
  lemma SlashOffsets()
    ensures Offsets([2, 6]) == [(-1, 1), (1, -1)]
  {
    assert OffsetOf(2) == (-1, 1) && OffsetOf(6) == (1, -1);
    assert Offsets([6]) == [OffsetOf(6)] + Offsets([]);
    assert Offsets([2, 6]) == [OffsetOf(2)] + Offsets([6]);
  }

  /** The warning condition on construction, shown on a clashing fill. */
  lemma FillClashOnlyWarns()
    ensures New("/\\", '/', Diagonal.templates).warned
    ensures New("/\\", '/', Diagonal.templates).pattern == Pattern("/\\", '/', Diagonal.templates)
    ensures !New(Diagonal.chars, Diagonal.fill, Diagonal.templates).warned
  {
  }
}
