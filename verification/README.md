# 10PRINT maze: a verified model

10PRINT draws a random maze of two symbols, one per cell of a width × height
grid. An adjacency pattern decides which cells are connected. The program then
finds the connected components of the maze and animates them in a terminal.
This project models the core of that program in Dafny and proves what it does:

- **`MazePattern`** (`mazepattern.dfy`). The adjacency rule. A pattern holds
  the two maze symbols, a fill symbol meaning "outside the maze", and a
  9-character template per symbol. The template is a 3×3 window centred on the
  symbol. `Adjacent` lists the offsets of a real window that connect to its
  centre.
- **`TenPrint`** (`tenprint.dfy`). The `Maze` class.
  - The grid is drawn in row-major order from a sequence of random draws.
  - `CalcNeighbours` pads the grid with the fill symbol and slides a 3×3
    window over it to build the neighbour table.
  - `CalcComponents` runs a breadth-first "wave" from every unvisited cell,
    sharing one `visited` matrix across all searches.
  - `CalcVertexBelong` records, for each cell, the component that holds it.
- **`ComponentsWave`** (`wave.dfy`). The two traversals the component-wave
  scene uses:
  - a breadth-first search that reports each batch ("packet") of newly found
    cells;
  - a recursive depth-first visiting order.
- **`Screen`** (`screen.dfy`). The cursor-tracking terminal writer. The screen
  keeps a logical cursor and emits ANSI cursor-movement sequences. Here they
  are an event log, and `Render` gives each event's text.
- **`Graph`** (`graph.dfy`). Cells, neighbour tables, paths and reachability,
  shared by the modules above.

Randomness and standard output are parameters and logs:

- The random draws are a `seq<bool>`. `true` stands for the bit
  `int(0.5 + random())` being 1.
- Everything written to standard output is a `seq<Event>`.

Where the code's own comments promise more than its statements do, the model
follows the statements:

- **Components are not always a partition.** `_component` says it returns the
  component that `start` belongs to (lib/tenprint.py:83). But the search does
  not mark `start` visited at the outset (lib/tenprint.py:86-97). `start` is
  marked only when a cell of the component leads back to it. So the
  components always cover the grid, each cell of a component is its start or
  reachable from it, and the starts come in row-major order. Two components
  share at most the earlier one's start. When the neighbour relation is
  symmetric they are disjoint and closed; when it is not they may overlap.
  `OneWayOverlap` shows this on a 1×2 grid where (0,1) leads to (0,0) but not
  back. `Decomposition`, `Maze.Components` and `Maze.VertexBelong` state the
  guarantee exactly that way. Beyond these properties, `ScanOrder` fixes the
  list itself. It records each search with the visited cells before and
  after it, and `ScanOrderUnique` proves that only one list satisfies it.
- **The column is not always clamped.** `cursor_move` says the move is bounded
  by the size of the screen (lib/screen.py:79). But `write_char` advances the
  column by one without clamping (lib/screen.py:24-31). After a character is
  written in the last column, a move further right emits a negative `CUF`
  count (lib/screen.py:60-63). `Screen.Valid` therefore bounds only the row.
  `RightPastEdge` exhibits the negative count. `MoveToCountsNonNegative` and
  `MoveToClamps` hold only while the column is inside the screen.
- **A move can emit a zero count.** `_cursor_move_to` compares the target
  before clamping with the current position (lib/screen.py:65-76). So a move
  towards an edge the cursor already stands on emits a zero count.
  `MoveToOrder` states this rule.

The wave of `NeighboursSequenceWave` and the search of `Maze.ComponentFresh`
gather the same set: both ensure it is the start together with every cell
reachable from it.

## Model

| member | source | states |
|---|---|---|
| MazePattern.New | lib/mazepattern.py:8-17 | building a pattern keeps chars, fill and templates as given; the warning is raised exactly when the fill symbol is one of the maze symbols |
| MazePattern.FillClashOnlyWarns | lib/mazepattern.py:12-13 | a fill symbol that clashes with a maze symbol still yields the pattern, with the warning; the diagonal pattern's own fill raises none |
| MazePattern.IndexOf | lib/mazepattern.py:39 | the index returned is the first position of the symbol in chars |
| MazePattern.TemplateFor | lib/mazepattern.py:39 | the template picked for a centre symbol is the one at that symbol's first index, and has 9 characters |
| MazePattern.OffsetRoundTrip | lib/mazepattern.py:41-46 | a window position 0..8 maps to an offset in [-1,1]², which maps back to the same position; only position 4 maps to (0,0) |
| MazePattern.OffsetInjective | lib/mazepattern.py:41-46 | distinct window positions give distinct offsets |
| MazePattern.ScanFacts | lib/mazepattern.py:41-46 | the scan from position n returns increasing positions ≥ n, each of which connects; it skips the centre; it returns every connecting position ≥ n |
| MazePattern.ScanOffsets | lib/mazepattern.py:41-47 | the offsets the scan yields are never (0,0), lie in [-1,1]² and appear in row-major order |
| MazePattern.ScanComplete | lib/mazepattern.py:41-46 | every window position whose symbol is not fill and equals the template's is reported |
| MazePattern.ScanSound | lib/mazepattern.py:41-46 | only such positions are reported |
| MazePattern.Adjacent | lib/mazepattern.py:27-47 | at most 8 offsets, none (0,0), all in [-1,1]², in row-major order; an offset is listed exactly when that window position holds a non-fill symbol equal to the centre symbol's template there |
| MazePattern.JoinThreeByThree | lib/mazepattern.py:49-52 | joining a 3×3 matrix row by row gives 9 characters with element (r,c) at 3r+c |
| MazePattern.MatrixCell | lib/mazepattern.py:35-36 | for a 3×3 matrix, offset (r-1,c-1) is adjacent exactly when (r,c) is not the centre, holds no fill and matches the template |
| MazePattern.AdjacentMatrix | lib/mazepattern.py:35-36 | the matrix form equals the adjacency of the joined string and satisfies the cell-wise rule above |
| MazePattern.DiagonalSlashRun | lib/mazepattern.py:27-47 | with the diagonal pattern, a window of nine '/' connects its centre to the two cells along the slash, (-1,1) and (1,-1) |
| TenPrint.RowMajorBound | lib/tenprint.py:36 | cell (i,j) consumes draw i·w+j, which lies within the first w·h draws |
| TenPrint.RowMajorInjective | lib/tenprint.py:36 | different cells consume different draws |
| TenPrint.Generate | lib/tenprint.py:31-37 | the grid has h rows of w symbols; cell (i,j) is chars[1] when its draw is 1 and chars[0] otherwise |
| TenPrint.GenerateUsesPrefix | lib/tenprint.py:34-36 | only the first w·h draws matter: two draw sequences agreeing on them give the same grid |
| TenPrint.GenerateSymbols | lib/tenprint.py:35-36 | every cell holds one of the pattern's first two symbols |
| TenPrint.Padded | lib/tenprint.py:50-58 | the padded grid has h+2 rows of w+2 symbols; it holds the fill symbol on the border and grid cell (r-1,c-1) inside |
| TenPrint.PaddedWindow | lib/tenprint.py:65-69 | the 3×3 slice of the padded grid at (i,j) is the window centred on cell (i,j), with fill outside the grid |
| TenPrint.Targets | lib/tenprint.py:71-75 | a cell is a target exactly when it lies inside the grid and its offset from (i,j) is listed |
| TenPrint.NeighbourSet | lib/tenprint.py:61-76 | a cell's neighbours lie inside the grid, within one step of it, and are not the cell itself |
| TenPrint.WindowAdjacent | lib/tenprint.py:65-76 | the matrix window taken from the padded grid gives the same offsets as the string window, and its in-grid targets are the cell's neighbour set |
| TenPrint.NeighbourExact | lib/tenprint.py:61-76 | c is a neighbour of (i,j) exactly when c is in the grid, within one step and not (i,j); c holds no fill; and c holds the symbol the centre's template has at that offset |
| TenPrint.NeighbourTableShape | lib/tenprint.py:39-76 | the neighbour table has one entry per cell, and every entry lies inside the grid |
| TenPrint.NeighbourTableIrreflexive | lib/tenprint.py:61-76 | no cell is its own neighbour |
| TenPrint.TableNeighboursNear | lib/tenprint.py:72-75 | every neighbour in the table is within one row and one column of its cell |
| TenPrint.FillMatrix | lib/tenprint.py:104-112 | h rows of w copies of the value |
| TenPrint.BelongStep | lib/tenprint.py:127-129 | after component k is written, a cell's entry is k if k holds it, and is unchanged otherwise |
| TenPrint.BelongNamesHolder | lib/tenprint.py:124-129 | when the components cover the grid, each cell's final entry is the index of a component holding it |
| TenPrint.BelongExact | lib/tenprint.py:124-129 | with covering, pairwise-disjoint components, a cell's entry is k exactly when component k holds it |
| TenPrint.BfsQueued | lib/tenprint.py:91-92 | every cell popped from the queue is the start or reachable from it |
| TenPrint.BfsStep | lib/tenprint.py:91-97 | processing the last queued cell, marking and enqueuing its unvisited neighbours, keeps the search invariant; start stays unmarked unless a processed cell leads to it |
| TenPrint.FoundExact | lib/tenprint.py:82-98 | a component found from s is exactly s and the cells reachable from s through cells not visited before |
| TenPrint.OneWayOverlap | lib/tenprint.py:86-97 | on the 1×2 grid where only (0,1) leads to (0,0), the search from (0,0) finds {(0,0)} and leaves (0,1) unvisited; the search from (0,1) then finds {(0,0),(0,1)}, overlapping the first |
| TenPrint.IncreasingSnoc | lib/tenprint.py:118-122 | the scan adds starts in row-major order |
| TenPrint.SharedSnoc | lib/tenprint.py:118-122 | a new component shares with earlier ones only their starts |
| TenPrint.StartsNotEarlier | lib/tenprint.py:118-122 | no start lies in an earlier component |
| TenPrint.MembersSnoc | lib/tenprint.py:120-122 | a new component holds in-grid cells reached from its start, all visited but perhaps the start |
| TenPrint.ScanDone | lib/tenprint.py:114-122 | when the scan has passed every cell, the components form a decomposition: covering, each start in its component, starts in row-major order and in no earlier component, overlaps only at earlier starts, each cell reachable from its start, and disjoint closed components under a symmetric relation |
| TenPrint.NewDisjoint | lib/tenprint.py:120-122 | under a symmetric relation, a search started at an unvisited cell returns a component disjoint from all earlier ones |
| TenPrint.NewClosed | lib/tenprint.py:120-122 | under a symmetric relation, that component is closed under neighbours |
| TenPrint.ScanNew | lib/tenprint.py:120-122 | appending the component found from an unvisited cell keeps the scan invariant |
| TenPrint.TraceNew | lib/tenprint.py:118-122 | a search from the unvisited cell (i,j) is the scan's next search: (i,j) is unvisited, and every cell before it is visited or an earlier start |
| TenPrint.TraceSkip | lib/tenprint.py:119-120 | a visited cell is passed over |
| TenPrint.TraceNextRow | lib/tenprint.py:118-119 | the end of a row moves the scan to the next row |
| TenPrint.TraceDone | lib/tenprint.py:114-122 | after the last row every cell is visited or a start |
| TenPrint.FoundUnique | lib/tenprint.py:86-97 | two searches from the same cell over the same visited cells return the same component and visit the same cells |
| TenPrint.StartUnique | lib/tenprint.py:118-120 | with the same searches before it, the next search starts at the same cell |
| TenPrint.ScanPrefix | lib/tenprint.py:114-122 | two scan results agree on every common prefix of searches |
| TenPrint.ScanLength | lib/tenprint.py:114-122 | a finished scan leaves no cell for a further search |
| TenPrint.ScanOrderUnique | lib/tenprint.py:114-122 | the scan's result is unique: two results have the same components, starts and visited sets |
| TenPrint.ChainScan | lib/tenprint.py:114-122 | on the one-row chain (0,0)→(0,1)→(0,2), the scan finds one component holding the whole row |
| TenPrint.ChainOneComponent | lib/tenprint.py:114-122 | every scan result on that chain is that single component; the row is not split |
| TenPrint.Maze.constructor | lib/tenprint.py:20-29 | the grid is Generate of the draws; neighbours, components and vertex table are then all valid |
| TenPrint.Maze.GhostMaze | lib/tenprint.py:50-58 | builds the fill-padded grid |
| TenPrint.Maze.CellNeighbours | lib/tenprint.py:65-76 | the set computed for cell (i,j) is the neighbour-table entry for it |
| TenPrint.Maze.InGridTargets | lib/tenprint.py:71-75 | keeps exactly the in-grid targets of the listed offsets |
| TenPrint.Maze.RowNeighbours | lib/tenprint.py:62-76 | the row computed is row i of the neighbour table |
| TenPrint.Maze.CalcNeighbours | lib/tenprint.py:39-76 | the neighbours field becomes the neighbour table of the grid |
| TenPrint.Maze.Neighbours | lib/tenprint.py:78-80 | a cell's neighbours all lie inside the grid |
| TenPrint.Maze.NeighboursNear | lib/tenprint.py:78-80 | a cell's neighbours lie within one step of it and exclude it |
| TenPrint.Maze.VisitNeighbours | lib/tenprint.py:93-97 | marks exactly the unvisited neighbours of u, enqueues them and adds them; afterwards every neighbour of u is visited |
| TenPrint.Maze.Component | lib/tenprint.py:82-98 | with a shared visited matrix, returns start plus cells reachable from it through unvisited cells; marks those, and marks start only when a cell of the result leads to it; every neighbour of the result is visited |
| TenPrint.Maze.ComponentFresh | lib/tenprint.py:82-98 | with a fresh visited matrix, the component is exactly start together with every cell reachable from it |
| TenPrint.Maze.CalcComponents | lib/tenprint.py:114-122 | the component list is the scan's: search k starts at the first cell in row-major order that the earlier searches left unvisited and that is not an earlier start, and returns exactly what that search finds (a single list, by ScanOrderUnique); the components decompose the grid: each start in its component, starts in row-major order and in no earlier component, overlaps only at earlier starts, cover, reachability from the start, and disjoint closed components when the relation is symmetric |
| TenPrint.Maze.CalcVertexBelong | lib/tenprint.py:124-129 | each cell's entry is the index of the last component that holds it |
| TenPrint.Maze.Components | lib/tenprint.py:100-102 | returns the stored list, which is the scan's; it has all the decomposition properties |
| TenPrint.Maze.VertexBelong | lib/tenprint.py:131-133 | each entry names a component holding the cell; under a symmetric relation it names the only one |
| TenPrint.Maze.BelongFacts | lib/tenprint.py:124-133 | the same two facts about the stored table |
| Graph.ClosedHoldsReachable | lib/tenprint.py:91-97 | a set closed under neighbours that holds start holds every cell reachable from start |
| Graph.ClosedExceptHolds | lib/tenprint.py:91-97 | a set closed under neighbours except into a set avoided holds every cell reached from it while avoiding that set |
| Graph.AvoidingStep | lib/tenprint.py:93-97 | a walk avoiding a set extends by a neighbour outside it |
| Graph.ReachesSymmetric | lib/tenprint.py:114-122 | under a symmetric relation, reachability runs both ways |
| ComponentsWave.PacketsSnoc | tenprint_scene_components_wave.py:46-47 | appending a non-empty batch of fresh neighbours of a cell already in the wave keeps the packet structure |
| ComponentsWave.WaveStart | tenprint_scene_components_wave.py:35-37 | the wave starts as the single packet {start} |
| ComponentsWave.WaveStep | tenprint_scene_components_wave.py:39-47 | one pop that finds new cells appends them as a new packet and keeps the wave invariant |
| ComponentsWave.NeighboursSequenceWave | tenprint_scene_components_wave.py:34-48 | the first packet is {start}; later packets are non-empty, pairwise disjoint and made of neighbours of earlier packets; their union is start plus every reachable cell |
| ComponentsWave.Dfs | tenprint_scene_components_wave.py:20-31 | appends u and then the cells reached through unvisited neighbours, each once and each after a neighbour of it; all neighbours of the appended cells end up visited |
| ComponentsWave.DescentStart | tenprint_scene_components_wave.py:25-26 | appending u starts a descent |
| ComponentsWave.DescentExtend | tenprint_scene_components_wave.py:27-30 | the cells appended by a recursive call from a neighbour continue the descent from u |
| ComponentsWave.NeighboursSequenceDfs | tenprint_scene_components_wave.py:20-31 | the order starts at u, has no repeats, puts each cell after a neighbour of it, and holds exactly u and every cell reachable from it |
| ComponentsWave.ReachesAlong | tenprint_scene_components_wave.py:27-30 | in such an order every element is reachable from the first |
| Screen.NatToStringRoundTrip | lib/screen.py:48 | the decimal text of a natural number reads back as the number |
| Screen.IntToStringRoundTrip | lib/screen.py:48 | the text of any integer, including a negative one, is a numeral that reads back as the integer |
| Screen.Render | lib/screen.py:45-63 | each movement renders as ESC [ count and its letter: A up, B down, C right, D left |
| Screen.RenderCount | lib/screen.py:48-63 | in a movement's text, what lies between ESC [ and the letter is a numeral that reads back as the event's count |
| Screen.Line | lib/screen.py:18-22 | a blank line is width spaces and a newline |
| Screen.BlankLines | lib/screen.py:18-22 | the blank screen is height such lines, each starting at its own offset |
| Screen.MoveToOrder | lib/screen.py:65-76 | a move emits at most one vertical then at most one horizontal step; a vertical step exactly when the target row differs, a horizontal one exactly when the target column differs |
| Screen.MoveToPosition | lib/screen.py:65-76 | the row ends clamped to the screen; the column ends clamped towards the side it moved to, and is unchanged when it is the target |
| Screen.MoveToClamps | lib/screen.py:65-76 | from a cursor inside the screen, the move lands on the target clamped to the screen |
| Screen.MoveToOnScreen | lib/screen.py:65-76 | a move keeps the row inside the screen |
| Screen.MoveToDisplaces | lib/screen.py:65-76 | replaying the emitted steps from the old cursor gives the new cursor |
| Screen.MoveToCountsNonNegative | lib/screen.py:45-76 | from a cursor inside the screen, no emitted count is negative |
| Screen.RightPastEdge | lib/screen.py:60-63 | from column width, after a write in the last column, a move right emits CUF(-1), rendered ESC[-1C |
| Screen.MoveToIdempotent | lib/screen.py:65-76 | a target inside the screen is reached exactly, and moving there again emits nothing |
| Screen.MoveExample | lib/screen.py:65-76 | from (0,0), moving to (3,5) emits ESC[3B then ESC[5C |
| Screen.MoveOutsideEnds | lib/screen.py:82-86 | moving outside ends with one CUD(1) and leaves the tracked cursor at (height-1, 0) |
| Screen.Screen.constructor | lib/screen.py:9-22 | requires positive sizes; writes a blank screen, moves the cursor up height lines, and starts at (0,0) |
| Screen.Screen.CursorMoveUp | lib/screen.py:45-48 | the row becomes max(0, row-step) and CUU of the distance actually moved is emitted |
| Screen.Screen.CursorMoveDown | lib/screen.py:50-53 | the row becomes min(height-1, row+step) and CUD of the distance actually moved is emitted |
| Screen.Screen.CursorMoveLeft | lib/screen.py:55-58 | the column becomes max(0, col-step) and CUB of the distance actually moved is emitted |
| Screen.Screen.CursorMoveRight | lib/screen.py:60-63 | the column becomes min(width-1, col+step) and CUF of the distance is emitted, negative when the column was already past the edge |
| Screen.Screen.CursorMoveTo | lib/screen.py:65-76 | position and log follow MoveTo; the row stays on screen |
| Screen.Screen.CursorMove | lib/screen.py:78-80 | the same as CursorMoveTo |
| Screen.Screen.CursorMoveOutside | lib/screen.py:82-86 | position and log follow MoveOutside, ending at (height-1, 0) |
| Screen.Screen.IncrJPos | lib/screen.py:42-43 | the column grows by the step; nothing is written |
| Screen.Screen.WriteChar | lib/screen.py:24-31 | moves to `at` if given, writes the character, and advances the column by one without clamping |
| Screen.Screen.WriteAnsiMarkup | lib/screen.py:33-40 | moves to `at` if given and writes the markup; the cursor stays |

## Left out

- Randomness: `random.seed` and `random.random` (Mersenne Twister, float rounding) are not modelled. The grid takes a sequence of draws, one bit per cell.
- Standard output: the real terminal is not modelled. Writes and flushes become events appended to the `out` log, and `Render` gives their text.
- Set iteration order: Python iterates a set in an unspecified order. The model picks an arbitrary element (`:|`), so every proved property holds for any order.
- Queue order: the queue keeps the deque's order, since `appendleft` prepends and `pop` takes the last cell. But the contracts of the searches state membership only, not the order in which cells are visited.
- TenPrint.FillMatrix: the default `None` placeholder of `fill_matrix` is modelled by filling with the value given (an empty set for the neighbour table).
- TenPrint.Maze.Components and TenPrint.Maze.VertexBelong: the defensive copies in `components()` and `vertex_belong()` become value semantics.
- MazePattern.New: `logging.warning` is reduced to the `warned` flag.
- `__str__` of the maze and of the pattern is left out: it only formats text.
- ComponentsWave.Dfs: the unused parameter `p` (the parent cell) is dropped. Python's recursion limit is not modelled.
- lib/config.py and lib/utils.py are not part of this model. The default size, seed and pattern become constructor parameters.
- `highlight`, `write_char_colored` and `scene` of tenprint_scene_components_wave.py are left out: they are animation and colour.
- tenprint_scene_intro.py, lib/color.py and ansi_pallete.py are left out for the same reason.
- Screen.Screen.WriteChar: the assertion that `char` has length 1 becomes a precondition.
- Screen.Screen.constructor: the assertions of `_set_size` become a precondition.
- TenPrint.Maze.CalcNeighbours: the field is assigned an empty table before the loop and then reassigned once per row, rather than updated cell by cell in place.
- MazePattern.HasTemplate: a precondition replaces three failures of `adjacent`: the ValueError of `chars.index` for a centre symbol not in chars (lib/mazepattern.py:39), and the IndexError of a missing template (lib/mazepattern.py:39) or of one too short (lib/mazepattern.py:44). It also refuses templates longer than 9 characters, which the code accepts.
- Screen.Screen.Valid: bounds the row only, because the code lets the column pass the right edge.
