/**
 * A text screen of fixed size with a tracked cursor.  Every relative move
 * is clamped to the screen and written out as an ANSI cursor code
 * (CUU, CUD, CUF, CUB: ESC [ n A/B/C/D, section 8.3 of ECMA-48); what goes
 * to standard output is kept as a log of events.
 */
module Screen {

  datatype Option<T> = None | Some(value: T)

  /** What the screen writes: a cursor code with its count, or plain text. */
  datatype Event =
    | CUU(n: int)   // ESC [ n A, cursor up
    | CUD(n: int)   // ESC [ n B, cursor down
    | CUF(n: int)   // ESC [ n C, cursor forward (right)
    | CUB(n: int)   // ESC [ n D, cursor backward (left)
    | Text(s: string)

  /** Cursor position: row i and column j, both 0-based. */
  datatype Cursor = Cursor(row: int, col: int)

  function Min(a: int, b: int): int { if a < b then a else b }
  function Max(a: int, b: int): int { if a < b then b else a }

  /** x brought into [lo, hi]. */
  function Clamp(x: int, lo: int, hi: int): int { Min(hi, Max(lo, x)) }

  predicate IsVertical(e: Event) { e.CUU? || e.CUD? }
  predicate IsHorizontal(e: Event) { e.CUF? || e.CUB? }

  // ---------------------------------------------------------------- text

  /** The decimal digits of n, most significant first, as str() writes them. */
  function NatToString(n: nat): (s: string)
    ensures |s| >= 1 && forall k :: 0 <= k < |s| ==> '0' <= s[k] <= '9'
    ensures n < 10 <==> |s| == 1
  {
    if n < 10 then [(('0' as int) + n) as char]
    else NatToString(n / 10) + [(('0' as int) + n % 10) as char]
  }

  /** The value of a string of decimal digits. */
  function DigitsValue(s: string): nat
    requires forall k :: 0 <= k < |s| ==> '0' <= s[k] <= '9'
  {
    if s == [] then 0
    else 10 * DigitsValue(s[..|s| - 1]) + (s[|s| - 1] as int - '0' as int)
  }

  /** Reading the digits back gives the number. */
  lemma {:induction false} NatToStringRoundTrip(n: nat)
    ensures DigitsValue(NatToString(n)) == n
  {
    if n >= 10 {
      NatToStringRoundTrip(n / 10);
      var s := NatToString(n);
      assert s[..|s| - 1] == NatToString(n / 10);
    }
  }

  /** An integer as str() writes it: a minus sign for negatives, then the digits. */
  function IntToString(n: int): (s: string)
    ensures |s| >= 1
    ensures n < 0 <==> s[0] == '-'
  {
    if n < 0 then "-" + NatToString(-n) else NatToString(n)
  }

  /** The inverse of IntToString. */
  function ParseInt(s: string): int
    requires Numeral(s)
  {
    if s[0] == '-' then -(DigitsValue(s[1..]) as int) else DigitsValue(s)
  }

  /** The digits of a numeral, after its sign when it has one, are decimal digits. */
  ghost predicate Numeral(s: string) {
    |s| >= 1 && forall k :: (if s[0] == '-' then 1 else 0) <= k < |s| ==> '0' <= s[k] <= '9'
  }

  /** A negative number is written as a minus sign and the digits of its magnitude. */
  lemma NegativeText(n: int)
    requires n < 0
    ensures Numeral(IntToString(n)) && IntToString(n)[1..] == NatToString(-n)
  {
    var t := NatToString(-n);
    var s := "-" + t;
    assert s[1..] == t;
    forall k | 1 <= k < |s| ensures '0' <= s[k] <= '9' {
      assert s[k] == t[k - 1];
    }
  }

  /** IntToString loses nothing: the count of every code can be read back. */
  lemma IntToStringRoundTrip(n: int)
    ensures Numeral(IntToString(n)) && ParseInt(IntToString(n)) == n
  {
    var s := IntToString(n);
    if n < 0 {
      NegativeText(n);
      NatToStringRoundTrip(-n);
      assert ParseInt(s) == -(DigitsValue(s[1..]) as int);
    } else {
      NatToStringRoundTrip(n);
      assert s == NatToString(n) && s[0] != '-';
      assert ParseInt(s) == DigitsValue(s);
    }
  }

  const ESC: char := 27 as char

  /** The characters an event puts on standard output. */
  function Render(e: Event): (s: string)
    ensures !e.Text? ==> (|s| >= 4 && s[..2] == [ESC, '['] &&
      s[|s| - 1] == (match e case CUU(_) => 'A' case CUD(_) => 'B' case CUF(_) => 'C' case _ => 'D'))
  {
    match e
    case CUU(n) => [ESC, '['] + IntToString(n) + "A"
    case CUD(n) => [ESC, '['] + IntToString(n) + "B"
    case CUF(n) => [ESC, '['] + IntToString(n) + "C"
    case CUB(n) => [ESC, '['] + IntToString(n) + "D"
    case Text(s) => s
  }

  /** A cursor code carries its count: the text between ESC [ and the letter reads back as it. */
  lemma RenderCount(e: Event)
    requires !e.Text?
    ensures var s := Render(e); Numeral(s[2..|s| - 1]) && ParseInt(s[2..|s| - 1]) == e.n
  {
    IntToStringRoundTrip(e.n);
    var s := Render(e);
    assert s[2..|s| - 1] == IntToString(e.n);
  }

  /** The whole output of a log, event after event. */
  function RenderAll(log: seq<Event>): string
  {
    if log == [] then "" else RenderAll(log[..|log| - 1]) + Render(log[|log| - 1])
  }

  /** One blank line of the screen: w spaces and a newline. */
  function Line(w: nat): (s: string)
    ensures |s| == w + 1 && s[w] == '\n' && forall k :: 0 <= k < w ==> s[k] == ' '
  {
    seq(w, _ => ' ') + "\n"
  }

  /** h blank lines: what _init_screen writes first. */
  function Blank(w: nat, h: nat): (s: string)
  {
    if h == 0 then "" else Line(w) + Blank(w, h - 1)
  }

  /** Where line r of the blank screen starts: r lines of w + 1 characters precede it. */
  function LineStart(w: nat, r: nat): nat
  {
    if r == 0 then 0 else LineStart(w, r - 1) + w + 1
  }

  /** Line r of the blank screen, for each r < h, is a blank line, and nothing follows line h - 1. */
  lemma {:induction false} BlankLines(w: nat, h: nat, r: nat)
    requires r < h
    ensures |Blank(w, h)| == LineStart(w, h)
    ensures LineStart(w, r) <= LineStart(w, r + 1) <= |Blank(w, h)|
      && Blank(w, h)[LineStart(w, r)..LineStart(w, r + 1)] == Line(w)
  {
    var rest := Blank(w, h - 1);
    if h > 1 {
      BlankLines(w, h - 1, if r == 0 then 0 else r - 1);
    } else {
      assert rest == "";
    }
    if r > 0 {
      assert Blank(w, h)[LineStart(w, r)..LineStart(w, r + 1)] == rest[LineStart(w, r - 1)..LineStart(w, r)];
    }
  }

  // ------------------------------------------------------- cursor moves

  /** _cursor_move_up: the row goes up by step, but not above row 0. */
  function Up(cur: Cursor, step: int): (Cursor, Event)
  {
    var c := cur.(row := Max(0, cur.row - step));
    (c, CUU(cur.row - c.row))
  }

  /** _cursor_move_down: the row goes down by step, but not below row h - 1. */
  function Down(h: int, cur: Cursor, step: int): (Cursor, Event)
  {
    var c := cur.(row := Min(h - 1, cur.row + step));
    (c, CUD(c.row - cur.row))
  }

  /** _cursor_move_left: the column goes left by step, but not left of column 0. */
  function Left(cur: Cursor, step: int): (Cursor, Event)
  {
    var c := cur.(col := Max(0, cur.col - step));
    (c, CUB(cur.col - c.col))
  }

  /** _cursor_move_right: the column goes right by step, but not right of column w - 1. */
  function Right(w: int, cur: Cursor, step: int): (Cursor, Event)
  {
    var c := cur.(col := Min(w - 1, cur.col + step));
    (c, CUF(c.col - cur.col))
  }

  /** The vertical half of _cursor_move_to. */
  function MoveRow(h: int, cur: Cursor, i: int): (Cursor, seq<Event>)
  {
    if i > cur.row then var (c, e) := Down(h, cur, i - cur.row); (c, [e])
    else if i < cur.row then var (c, e) := Up(cur, cur.row - i); (c, [e])
    else (cur, [])
  }

  /** The horizontal half of _cursor_move_to. */
  function MoveCol(w: int, cur: Cursor, j: int): (Cursor, seq<Event>)
  {
    if j > cur.col then var (c, e) := Right(w, cur, j - cur.col); (c, [e])
    else if j < cur.col then var (c, e) := Left(cur, cur.col - j); (c, [e])
    else (cur, [])
  }

  /** _cursor_move_to on a w-by-h screen: the row move, then the column move. */
  function MoveTo(w: int, h: int, cur: Cursor, i: int, j: int): (Cursor, seq<Event>)
  {
    var (c1, e1) := MoveRow(h, cur, i);
    var (c2, e2) := MoveCol(w, c1, j);
    (c2, e1 + e2)
  }

  /** cursor_move_outside: to the start of row h, then one line further down. */
  function MoveOutside(w: int, h: int, cur: Cursor): (Cursor, seq<Event>)
  {
    var (c, e) := MoveTo(w, h, cur, h, 0);
    (c, e + [CUD(1)])
  }

  /** Where the cursor codes of a log take a cursor; text is not counted. */
  function Displace(cur: Cursor, log: seq<Event>): Cursor
  {
    if log == [] then cur else
      var c := Displace(cur, log[..|log| - 1]);
      match log[|log| - 1]
      case CUU(n) => c.(row := c.row - n)
      case CUD(n) => c.(row := c.row + n)
      case CUF(n) => c.(col := c.col + n)
      case CUB(n) => c.(col := c.col - n)
      case Text(_) => c
  }

  /** A cursor on the screen: a row of it and a column not left of it. */
  predicate OnScreen(h: int, cur: Cursor) {
    0 <= cur.row < h && 0 <= cur.col
  }

  // ------------------------------------------------------------ lemmas

  /**
   * _cursor_move_to writes at most one vertical code followed by at most
   * one horizontal code, and writes nothing for an axis whose coordinate
   * already equals the target.
   */
  lemma MoveToOrder(w: int, h: int, cur: Cursor, i: int, j: int)
    ensures var evs := MoveTo(w, h, cur, i, j).1;
      && |evs| <= 2
      && (forall k, l :: 0 <= k < l < |evs| ==> IsVertical(evs[k]) && IsHorizontal(evs[l]))
      && (forall k :: 0 <= k < |evs| ==> IsVertical(evs[k]) || IsHorizontal(evs[k]))
      && ((exists k :: 0 <= k < |evs| && IsVertical(evs[k])) <==> i != cur.row)
      && ((exists k :: 0 <= k < |evs| && IsHorizontal(evs[k])) <==> j != cur.col)
  {
    var (c1, e1) := MoveRow(h, cur, i);
    var (c2, e2) := MoveCol(w, c1, j);
    assert c1.col == cur.col;
    var evs := e1 + e2;
    if i != cur.row {
      assert IsVertical(evs[0]);
    }
    if j != cur.col {
      assert IsHorizontal(evs[|evs| - 1]);
    }
  }

  /**
   * Where _cursor_move_to leaves the cursor: the row is clamped to the
   * screen; the column is clamped on a move right, floored at 0 on a move
   * left, and left alone when it already equals the target.
   */
  lemma MoveToPosition(w: int, h: int, cur: Cursor, i: int, j: int)
    requires h > 0 && OnScreen(h, cur)
    ensures var c := MoveTo(w, h, cur, i, j).0;
      && c.row == Clamp(i, 0, h - 1)
      && c.col == (if j > cur.col then Min(w - 1, j) else if j < cur.col then Max(0, j) else cur.col)
  {
  }

  /** From a cursor inside the screen, the column is clamped too. */
  lemma MoveToClamps(w: int, h: int, cur: Cursor, i: int, j: int)
    requires h > 0 && w > 0 && OnScreen(h, cur) && cur.col < w
    ensures MoveTo(w, h, cur, i, j).0 == Cursor(Clamp(i, 0, h - 1), Clamp(j, 0, w - 1))
  {
    MoveToPosition(w, h, cur, i, j);
  }

  /** A move keeps the cursor on the screen. */
  lemma MoveToOnScreen(w: int, h: int, cur: Cursor, i: int, j: int)
    requires h > 0 && w > 0 && OnScreen(h, cur)
    ensures OnScreen(h, MoveTo(w, h, cur, i, j).0)
  {
    MoveToPosition(w, h, cur, i, j);
  }

  /**
   * Every code's count is the distance the cursor actually moved, so
   * replaying the codes from the old cursor arrives at the new one.
   */
  lemma MoveToDisplaces(w: int, h: int, cur: Cursor, i: int, j: int)
    ensures Displace(cur, MoveTo(w, h, cur, i, j).1) == MoveTo(w, h, cur, i, j).0
  {
    var (c1, e1) := MoveRow(h, cur, i);
    var (c2, e2) := MoveCol(w, c1, j);
    assert Displace(cur, e1) == c1;
    if e2 != [] {
      assert (e1 + e2)[..|e1 + e2| - 1] == e1;
    } else {
      assert e1 + e2 == e1;
    }
  }

  /** Inside the screen no count is negative. */
  lemma MoveToCountsNonNegative(w: int, h: int, cur: Cursor, i: int, j: int)
    requires h > 0 && w > 0 && OnScreen(h, cur) && cur.col < w
    ensures forall e :: e in MoveTo(w, h, cur, i, j).1 ==> !e.Text? && e.n >= 0
  {
  }

  /**
   * Past the right edge, as after writing in the last column, a move
   * further right is clamped back and its CUF count is negative.
   */
  lemma RightPastEdge()
    ensures MoveTo(10, 20, Cursor(0, 10), 0, 12) == (Cursor(0, 9), [CUF(-1)])
    ensures Render(CUF(-1)) == [ESC, '[', '-', '1', 'C']
  {
    assert MoveRow(20, Cursor(0, 10), 0) == (Cursor(0, 10), []);
    assert MoveCol(10, Cursor(0, 10), 12) == (Cursor(0, 9), [CUF(-1)]);
    assert [] + [CUF(-1)] == [CUF(-1)];
    assert NatToString(1) == "1";
  }

  /** Moving to a target on the screen a second time writes nothing. */
  lemma MoveToIdempotent(w: int, h: int, cur: Cursor, i: int, j: int)
    requires h > 0 && w > 0 && OnScreen(h, cur)
    requires 0 <= i < h && 0 <= j < w
    ensures MoveTo(w, h, cur, i, j).0 == Cursor(i, j)
    ensures MoveTo(w, h, Cursor(i, j), i, j) == (Cursor(i, j), [])
  {
    MoveToPosition(w, h, cur, i, j);
    assert MoveRow(h, Cursor(i, j), i) == (Cursor(i, j), []);
    assert MoveCol(w, Cursor(i, j), j) == (Cursor(i, j), []);
    var none: seq<Event> := [];
    assert none + none == none;
  }

  /** On a 10-by-20 screen, (0, 0) to (3, 5) writes ESC[3B then ESC[5C. */
  lemma MoveExample()
    ensures MoveTo(10, 20, Cursor(0, 0), 3, 5) == (Cursor(3, 5), [CUD(3), CUF(5)])
    ensures RenderAll([CUD(3), CUF(5)]) == [ESC, '[', '3', 'B', ESC, '[', '5', 'C']
  {
    assert MoveRow(20, Cursor(0, 0), 3) == (Cursor(3, 0), [CUD(3)]);
    assert MoveCol(10, Cursor(3, 0), 5) == (Cursor(3, 5), [CUF(5)]);
    assert [CUD(3)] + [CUF(5)] == [CUD(3), CUF(5)];
    assert NatToString(3) == "3" && NatToString(5) == "5";
    assert [CUD(3), CUF(5)][..1] == [CUD(3)];
    assert RenderAll([CUD(3)]) == [ESC, '[', '3', 'B'];
  }

  /** cursor_move_outside leaves the cursor at the start of the last row, then steps one line down. */
  lemma MoveOutsideEnds(w: int, h: int, cur: Cursor)
    requires h > 0 && OnScreen(h, cur)
    ensures var (c, evs) := MoveOutside(w, h, cur);
      c == Cursor(h - 1, 0) && |evs| >= 1 && evs[|evs| - 1] == CUD(1)
  {
    MoveToPosition(w, h, cur, h, 0);
  }

  // ------------------------------------------------------------ screen

  class Screen {
    const width: int
    const height: int
    var row: int
    var col: int
    /** Everything written to standard output, in order. */
    var out: seq<Event>

    ghost predicate Valid()
      reads this
    {
      width > 0 && height > 0 && OnScreen(height, Cursor(row, col))
    }

    function Pos(): Cursor
      reads this
    {
      Cursor(row, col)
    }

    /**
     * _set_size and _init_screen: writes a blank screen and moves the
     * cursor back up to its first line.
     */
    constructor (width: int, height: int)
      requires width > 0 && height > 0
      ensures Valid() && this.width == width && this.height == height
      ensures Pos() == Cursor(0, 0)
      ensures out == [Text(Blank(width, height)), CUU(height)]
    {
      this.width := width;
      this.height := height;
      out := [Text(Blank(width, height))];
      row, col := height, 0;
      new;
      CursorMoveUp(height);
    }

    method CursorMoveUp(step: int)
      modifies this
      ensures (Pos(), out) == (Up(old(Pos()), step).0, old(out) + [Up(old(Pos()), step).1])
    {
      var ci := row;
      row := Max(0, ci - step);
      out := out + [CUU(ci - row)];
    }

    method CursorMoveDown(step: int)
      modifies this
      ensures (Pos(), out) == (Down(height, old(Pos()), step).0, old(out) + [Down(height, old(Pos()), step).1])
    {
      var ci := row;
      row := Min(height - 1, ci + step);
      out := out + [CUD(row - ci)];
    }

    method CursorMoveLeft(step: int)
      modifies this
      ensures (Pos(), out) == (Left(old(Pos()), step).0, old(out) + [Left(old(Pos()), step).1])
    {
      var cj := col;
      col := Max(0, cj - step);
      out := out + [CUB(cj - col)];
    }

    method CursorMoveRight(step: int)
      modifies this
      ensures (Pos(), out) == (Right(width, old(Pos()), step).0, old(out) + [Right(width, old(Pos()), step).1])
    {
      var cj := col;
      col := Min(width - 1, cj + step);
      out := out + [CUF(col - cj)];
    }

    method CursorMoveTo(i: int, j: int)
      modifies this
      ensures Pos() == MoveTo(width, height, old(Pos()), i, j).0
      ensures out == old(out) + MoveTo(width, height, old(Pos()), i, j).1
      ensures old(Valid()) ==> Valid()
    {
      ghost var start := Pos();
      if Valid() {
        MoveToOnScreen(width, height, start, i, j);
      }
      var ci, cj := row, col;
      if i > ci {
        CursorMoveDown(i - ci);
      } else if i < ci {
        CursorMoveUp(ci - i);
      }
      if j > cj {
        CursorMoveRight(j - cj);
      } else if j < cj {
        CursorMoveLeft(cj - j);
      }
    }

    /** Moves the cursor to (i, j), bounded by the screen. */
    method CursorMove(i: int, j: int)
      modifies this
      ensures Pos() == MoveTo(width, height, old(Pos()), i, j).0
      ensures out == old(out) + MoveTo(width, height, old(Pos()), i, j).1
      ensures old(Valid()) ==> Valid()
    {
      CursorMoveTo(i, j);
    }

    /** Moves the cursor to the line just below the screen. */
    method CursorMoveOutside()
      modifies this
      ensures Pos() == MoveOutside(width, height, old(Pos())).0
      ensures out == old(out) + MoveOutside(width, height, old(Pos())).1
      ensures old(Valid()) ==> Valid() && Pos() == Cursor(height - 1, 0)
    {
      if Valid() {
        MoveOutsideEnds(width, height, Pos());
      }
      CursorMoveTo(height, 0);
      out := out + [CUD(1)];
    }

    method IncrJPos(step: int)
      modifies this
      ensures Pos() == old(Pos()).(col := old(col) + step) && out == old(out)
    {
      col := col + step;
    }

    /**
     * Writes one character at `at`, or where the cursor is, and advances
     * the column by one without clamping it.
     */
    method WriteChar(ch: string, at: Option<(int, int)>)
      requires |ch| == 1
      modifies this
      ensures var (c, evs) := if at.Some? then MoveTo(width, height, old(Pos()), at.value.0, at.value.1)
                              else (old(Pos()), []);
        Pos() == c.(col := c.col + 1) && out == old(out) + evs + [Text(ch)]
      ensures old(Valid()) ==> Valid()
    {
      if at.Some? {
        CursorMoveTo(at.value.0, at.value.1);
      }
      out := out + [Text(ch)];
      IncrJPos(1);
    }

    /** Writes markup codes at `at`, or where the cursor is; the cursor stays. */
    method WriteAnsiMarkup(ansi: string, at: Option<(int, int)>)
      modifies this
      ensures var (c, evs) := if at.Some? then MoveTo(width, height, old(Pos()), at.value.0, at.value.1)
                              else (old(Pos()), []);
        Pos() == c && out == old(out) + evs + [Text(ansi)]
      ensures old(Valid()) ==> Valid()
    {
      if at.Some? {
        CursorMoveTo(at.value.0, at.value.1);
      }
      out := out + [Text(ansi)];
    }
  }
}
