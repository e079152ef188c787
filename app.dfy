/**
 * The grid helpers of src/App.tsx: building a fresh grid and its default
 * markers, rebuilding it for a new size, the reducer cases that edit cells or
 * move a marker, and the path reset.
 *
 * Grids here are values (`GridCell[][]` that the reducer copies with `map`).
 * The source also stores each cell's position in the cell (`x`, `y`, and the
 * key `${x}x${y}`); `makeEmptyGrid` writes them from the indices and no helper
 * changes them, so the model reads them off the indices (the Keys module shows
 * that the keys determine the position).
 */
module AppGrid {
  import opened GridModel
  import opened Keys

  function Min(a: int, b: int): int
  {
    if a <= b then a else b
  }

  // ---------------------------------------------------------------------------
  // Fresh grids

  /**
   * `defaultStartEnd`: both markers in row `rows / 4`, the start a quarter and
   * the end three quarters of the way across. For a non-empty grid both are
   * inside it, and they differ once the grid has two columns.
   */
  function DefaultStartEnd(rows: nat, cols: nat): (markers: (Pos, Pos))
    ensures rows >= 1 && cols >= 1 ==> InBounds(rows, cols, markers.0) && InBounds(rows, cols, markers.1)
    ensures cols >= 2 ==> markers.0 != markers.1
    ensures markers.0.x == markers.1.x && markers.0.y <= markers.1.y
  {
    (Pos(rows / 4, cols / 4), Pos(rows / 4, (3 * cols) / 4))
  }

  /** `makeEmptyGrid`: `rows` rows of `cols` cells, each empty, unvisited, unlinked and at infinite cost. */
  method MakeEmptyGrid(rows: nat, cols: nat) returns (g: Grid)
    ensures IsGrid(g, rows, cols)
    ensures forall i, j :: 0 <= i < rows && 0 <= j < cols ==> g[i][j] == BlankCell
  {
    g := [];
    for r := 0 to rows
      invariant IsGrid(g, r, cols)
      invariant forall i, j :: 0 <= i < r && 0 <= j < cols ==> g[i][j] == BlankCell
    {
      var row := [];
      for c := 0 to cols
        invariant |row| == c
        invariant forall j :: 0 <= j < c ==> row[j] == BlankCell
      {
        row := row + [BlankCell];
      }
      g := g + [row];
    }
  }

  /** The state a cell gets when the markers are stamped on it, the end last: `st` if it holds neither. */
  function MarkerState(p: Pos, start: Pos, end: Pos, st: CellState): CellState
  {
    if p == end then End else if p == start then Start else st
  }

  /**
   * `createGrid`: a fresh grid with the start and then the end stamped, the
   * markers defaulting to `defaultStartEnd`. The end wins if the two coincide.
   * The result meets what the searches ask of their input: it is clean and its
   * only end cell is the end marker.
   */
  method CreateGrid(rows: nat, cols: nat, start: Option<Pos>, end: Option<Pos>) returns (g: Grid)
    requires rows >= 1 && cols >= 1
    requires start.Some? ==> InBounds(rows, cols, start.value)
    requires end.Some? ==> InBounds(rows, cols, end.value)
    ensures IsGrid(g, rows, cols) && Clean(g)
    ensures var s := if start.Some? then start.value else DefaultStartEnd(rows, cols).0;
            var e := if end.Some? then end.value else DefaultStartEnd(rows, cols).1;
            forall i, j :: 0 <= i < rows && 0 <= j < cols ==>
              g[i][j] == BlankCell.(state := MarkerState(Pos(i, j), s, e, Empty))
  {
    var blank := MakeEmptyGrid(rows, cols);
    var s := if start.Some? then start.value else DefaultStartEnd(rows, cols).0;
    var e := if end.Some? then end.value else DefaultStartEnd(rows, cols).1;
    g := Marked(blank, s, e);
    MarkedBlank(blank, rows, cols, s, e);
  }

  /** The markers stamped on a blank grid: blank cells but for the markers' states. */
  lemma MarkedBlank(G: Grid, rows: nat, cols: nat, s: Pos, e: Pos)
    requires IsGrid(G, rows, cols) && InBounds(rows, cols, s) && InBounds(rows, cols, e)
    requires forall i, j :: 0 <= i < rows && 0 <= j < cols ==> G[i][j] == BlankCell
    ensures forall i, j :: 0 <= i < rows && 0 <= j < cols ==>
      Marked(G, s, e)[i][j] == BlankCell.(state := MarkerState(Pos(i, j), s, e, Empty))
  {
  }

  // ---------------------------------------------------------------------------
  // Resizing

  /** Whether the old grid has a wall at `p`. */
  predicate WasWall(prior: Grid, p: Pos)
  {
    InGrid(prior, p) && prior[p.x][p.y].state == Wall
  }

  /**
   * The first half of `rebuildGridForSize`: a fresh `rows` by `cols` grid in
   * which the cells of the overlap with the old grid that were walls are walls
   * again, and every other cell is empty.
   */
  method CopyWalls(oldGrid: Grid, rows: nat, cols: nat) returns (g: Grid)
    requires |oldGrid| >= 1 && IsGrid(oldGrid, |oldGrid|, |oldGrid[0]|)
    ensures IsGrid(g, rows, cols)
    ensures forall i, j :: 0 <= i < rows && 0 <= j < cols ==>
      g[i][j] == BlankCell.(state := if WasWall(oldGrid, Pos(i, j)) then Wall else Empty)
  {
    g := MakeEmptyGrid(rows, cols);
    var keepRows := Min(|oldGrid|, rows);
    var keepCols := Min(|oldGrid[0]|, cols);
    for r := 0 to keepRows
      invariant IsGrid(g, rows, cols)
      invariant forall i, j :: 0 <= i < rows && 0 <= j < cols ==>
        g[i][j] == BlankCell.(state := if i < r && WasWall(oldGrid, Pos(i, j)) then Wall else Empty)
    {
      for c := 0 to keepCols
        invariant IsGrid(g, rows, cols)
        invariant forall i, j :: 0 <= i < rows && 0 <= j < cols ==>
          g[i][j] == BlankCell.(state := if (i < r || (i == r && j < c)) && WasWall(oldGrid, Pos(i, j)) then Wall else Empty)
      {
        if oldGrid[r][c].state == Wall {
          g := SetState(g, Pos(r, c), Wall);
        }
      }
      assert forall j :: keepCols <= j < cols ==> !WasWall(oldGrid, Pos(r, j));
    }
    assert forall i, j :: keepRows <= i < rows && 0 <= j < cols ==> !WasWall(oldGrid, Pos(i, j));
  }

  /**
   * `rebuildGridForSize`: the copied walls, with the old markers clamped into
   * the new bounds and stamped over whatever is there, the end last. The
   * result is clean, and only the markers' cells hold a marker.
   */
  method RebuildGridForSize(oldGrid: Grid, oldStart: Pos, oldEnd: Pos, rows: nat, cols: nat)
    returns (g: Grid, start: Pos, end: Pos)
    requires |oldGrid| >= 1 && IsGrid(oldGrid, |oldGrid|, |oldGrid[0]|)
    requires rows >= 1 && cols >= 1
    requires oldStart.x >= 0 && oldStart.y >= 0 && oldEnd.x >= 0 && oldEnd.y >= 0
    ensures start == Pos(Min(rows - 1, oldStart.x), Min(cols - 1, oldStart.y))
    ensures end == Pos(Min(rows - 1, oldEnd.x), Min(cols - 1, oldEnd.y))
    ensures InBounds(rows, cols, start) && InBounds(rows, cols, end)
    ensures IsGrid(g, rows, cols) && Clean(g)
    ensures forall i, j :: 0 <= i < rows && 0 <= j < cols ==>
      g[i][j] == BlankCell.(state := MarkerState(Pos(i, j), start, end, if WasWall(oldGrid, Pos(i, j)) then Wall else Empty))
  {
    var walls := CopyWalls(oldGrid, rows, cols);
    start := Pos(Min(rows - 1, oldStart.x), Min(cols - 1, oldStart.y));
    end := Pos(Min(rows - 1, oldEnd.x), Min(cols - 1, oldEnd.y));
    g := Marked(walls, start, end);
  }

  // ---------------------------------------------------------------------------
  // Cell edits of the reducer

  /** `Partial<GridCell>` restricted to the fields the reducer is sent: each one present or absent. */
  datatype Patch = Patch(state: Option<CellState>, visited: Option<bool>, prev: Option<Option<Pos>>, cost: Option<Cost>)

  /** `{ ...cell, ...updates }`: the fields present in the patch replace the cell's. */
  function Merge(c: Cell, u: Patch): (d: Cell)
    ensures d.state == (if u.state.Some? then u.state.value else c.state)
    ensures d.visited == (if u.visited.Some? then u.visited.value else c.visited)
    ensures d.prev == (if u.prev.Some? then u.prev.value else c.prev)
    ensures d.cost == (if u.cost.Some? then u.cost.value else c.cost)
  {
    Cell(
      if u.state.Some? then u.state.value else c.state,
      if u.visited.Some? then u.visited.value else c.visited,
      if u.prev.Some? then u.prev.value else c.prev,
      if u.cost.Some? then u.cost.value else c.cost)
  }

  /** Merging the same patch twice is merging it once. */
  lemma MergeIdempotent(c: Cell, u: Patch)
    ensures Merge(Merge(c, u), u) == Merge(c, u)
  {
  }

  /** Two grids of the same shape. */
  predicate SameShape(G: Grid, H: Grid)
  {
    |H| == |G| && forall i :: 0 <= i < |G| ==> |H[i]| == |G[i]|
  }

  /**
   * The `SET_CELL` case: the patch merged into cell `(x, y)` and no other;
   * a position outside the grid matches no cell and changes nothing.
   */
  function SetCell(G: Grid, x: int, y: int, u: Patch): (H: Grid)
    ensures SameShape(G, H)
    ensures forall i, j :: 0 <= i < |G| && 0 <= j < |G[i]| ==>
      H[i][j] == if i == x && j == y then Merge(G[i][j], u) else G[i][j]
  {
    seq(|G|, i requires 0 <= i < |G| =>
      if i == x then seq(|G[i]|, j requires 0 <= j < |G[i]| => if j == y then Merge(G[i][j], u) else G[i][j])
      else G[i])
  }

  /** A patch that only sets the state is `SetState`; outside the grid it is the identity. */
  lemma SetCellState(G: Grid, p: Pos, st: CellState)
    ensures InGrid(G, p) ==> SetCell(G, p.x, p.y, Patch(Some(st), None, None, None)) == SetState(G, p, st)
    ensures !InGrid(G, p) ==> SetCell(G, p.x, p.y, Patch(Some(st), None, None, None)) == G
  {
    var H := SetCell(G, p.x, p.y, Patch(Some(st), None, None, None));
    if InGrid(G, p) {
      var K := SetState(G, p, st);
      forall i | 0 <= i < |G| ensures H[i] == K[i] {
        forall j | 0 <= j < |G[i]| ensures H[i][j] == K[i][j] {
          if i == p.x && j == p.y {
            assert H[i][j] == G[i][j].(state := st);
          }
        }
      }
    } else {
      forall i | 0 <= i < |G| ensures H[i] == G[i] {
        assert forall j :: 0 <= j < |G[i]| ==> H[i][j] == G[i][j];
      }
    }
  }

  /** Sending the same cell edit twice has the effect of sending it once. */
  lemma SetCellIdempotent(G: Grid, x: int, y: int, u: Patch)
    ensures SetCell(SetCell(G, x, y, u), x, y, u) == SetCell(G, x, y, u)
  {
    var H := SetCell(G, x, y, u);
    var K := SetCell(H, x, y, u);
    forall i | 0 <= i < |G| ensures K[i] == H[i] {
      forall j | 0 <= j < |G[i]| ensures K[i][j] == H[i][j] {
        if i == x && j == y {
          MergeIdempotent(G[i][j], u);
        }
      }
    }
  }

  /**
   * The `BATCH_UPDATE_CELLS` case: every cell whose key `${x},${y}` is in the
   * update map gets that patch merged in; every other cell is unchanged.
   */
  function BatchUpdate(G: Grid, updates: map<string, Patch>): (H: Grid)
    ensures SameShape(G, H)
    ensures forall i, j :: 0 <= i < |G| && 0 <= j < |G[i]| ==>
      H[i][j] == if BatchKey(Pos(i, j)) in updates then Merge(G[i][j], updates[BatchKey(Pos(i, j))]) else G[i][j]
  {
    seq(|G|, i requires 0 <= i < |G| =>
      seq(|G[i]|, j requires 0 <= j < |G[i]| =>
        var key := BatchKey(Pos(i, j));
        if key in updates then Merge(G[i][j], updates[key]) else G[i][j]))
  }

  /** A batch of one update is the single-cell edit of that cell: batch keys name one cell each. */
  lemma BatchOfOne(G: Grid, p: Pos, u: Patch)
    requires p.x >= 0 && p.y >= 0
    ensures BatchUpdate(G, map[BatchKey(p) := u]) == SetCell(G, p.x, p.y, u)
  {
    var H := BatchUpdate(G, map[BatchKey(p) := u]);
    var K := SetCell(G, p.x, p.y, u);
    forall i | 0 <= i < |G| ensures H[i] == K[i] {
      forall j | 0 <= j < |G[i]| ensures H[i][j] == K[i][j] {
        BatchKeyInjective(Pos(i, j), p);
      }
    }
  }

  /** An empty batch changes nothing. */
  lemma EmptyBatch(G: Grid)
    ensures BatchUpdate(G, map[]) == G
  {
    var H := BatchUpdate(G, map[]);
    forall i | 0 <= i < |G| ensures H[i] == G[i] {
      assert forall j :: 0 <= j < |G[i]| ==> H[i][j] == G[i][j];
    }
  }

  /**
   * The `MOVE_START` and `MOVE_END` grid update: the marker's old cell becomes
   * empty, then its new cell gets the marker; nothing else changes.
   */
  function MoveMarker(G: Grid, from: Pos, to: Pos, marker: CellState): (H: Grid)
    requires InGrid(G, from) && InGrid(G, to)
    ensures SameShape(G, H)
    ensures H[to.x][to.y] == G[to.x][to.y].(state := marker)
    ensures from != to ==> H[from.x][from.y] == G[from.x][from.y].(state := Empty)
    ensures forall i, j :: 0 <= i < |G| && 0 <= j < |G[i]| && Pos(i, j) != from && Pos(i, j) != to ==> H[i][j] == G[i][j]
  {
    SetState(SetState(G, from, Empty), to, marker)
  }

  /** Dragging a marker onto an empty cell and back restores the grid. */
  lemma MoveBack(G: Grid, from: Pos, to: Pos, marker: CellState)
    requires InGrid(G, from) && InGrid(G, to)
    requires G[from.x][from.y].state == marker && G[to.x][to.y].state == Empty
    ensures MoveMarker(MoveMarker(G, from, to, marker), to, from, marker) == G
  {
    var H := MoveMarker(MoveMarker(G, from, to, marker), to, from, marker);
    forall i | 0 <= i < |G| ensures H[i] == G[i] {
      forall j | 0 <= j < |G[i]| ensures H[i][j] == G[i][j] {
        if Pos(i, j) == from || Pos(i, j) == to {
          assert G[i][j].(state := G[i][j].state) == G[i][j];
        }
      }
    }
  }

  // ---------------------------------------------------------------------------
  // The reducer

  datatype Algorithm = DijkstraAlgorithm | AStarAlgorithm | DfsAlgorithm | BfsAlgorithm

  /** The draw mode: walls, empty cells, or none (`null`). */
  datatype DrawMode = DrawWalls | DrawEmpty | NoDrawing

  datatype AppState = AppState(
    grid: Grid, algorithm: Algorithm, isRunning: bool, drawMode: DrawMode,
    start: Pos, end: Pos, isDraggingStart: bool, isDraggingEnd: bool)

  datatype Action =
    | SetGridAction(grid: Grid)
    | ResetForSizeAction(grid: Grid, start: Pos, end: Pos)
    | SetCellAction(x: int, y: int, patch: Patch)
    | BatchUpdateCellsAction(batch: map<string, Patch>)
    | SetAlgorithmAction(algorithm: Algorithm)
    | SetRunningAction(isRunning: bool)
    | SetDrawModeAction(drawMode: DrawMode)
    | SetDraggingStartAction(isDragging: bool)
    | SetDraggingEndAction(isDragging: bool)
    | MoveStartAction(newPos: Pos)
    | MoveEndAction(newPos: Pos)

  /** A state the application keeps: a non-empty rectangular grid with both markers inside it. */
  predicate Valid(s: AppState)
  {
    && |s.grid| >= 1 && |s.grid[0]| >= 1 && IsGrid(s.grid, |s.grid|, |s.grid[0]|)
    && InGrid(s.grid, s.start) && InGrid(s.grid, s.end)
  }

  /**
   * What the application's dispatches guarantee about an action: a grid
   * replacement has the current size, a size reset brings a valid grid and
   * markers, and a marker moves onto a cell of the grid.
   */
  predicate Sensible(s: AppState, a: Action)
  {
    match a
    case SetGridAction(g) => SameShape(s.grid, g)
    case ResetForSizeAction(g, st, e) =>
      |g| >= 1 && |g[0]| >= 1 && IsGrid(g, |g|, |g[0]|) && InGrid(g, st) && InGrid(g, e)
    case MoveStartAction(p) => InGrid(s.grid, p)
    case MoveEndAction(p) => InGrid(s.grid, p)
    case _ => true
  }

  /**
   * `gridReducer` without `RESET_GRID`. A marker move needs both of its cells
   * inside the grid, as the source indexes them unchecked.
   */
  function Reduce(s: AppState, a: Action): (r: AppState)
    requires a.MoveStartAction? ==> InGrid(s.grid, s.start) && InGrid(s.grid, a.newPos)
    requires a.MoveEndAction? ==> InGrid(s.grid, s.end) && InGrid(s.grid, a.newPos)
    ensures !a.SetGridAction? && !a.ResetForSizeAction? ==> SameShape(s.grid, r.grid)
    ensures r.start == (if a.MoveStartAction? then a.newPos else if a.ResetForSizeAction? then a.start else s.start)
    ensures r.end == (if a.MoveEndAction? then a.newPos else if a.ResetForSizeAction? then a.end else s.end)
  {
    match a
    case SetGridAction(g) => s.(grid := g)
    case ResetForSizeAction(g, st, e) =>
      s.(grid := g, start := st, end := e, isRunning := false, drawMode := NoDrawing,
         isDraggingStart := false, isDraggingEnd := false)
    case SetCellAction(x, y, u) => s.(grid := SetCell(s.grid, x, y, u))
    case BatchUpdateCellsAction(ups) => s.(grid := BatchUpdate(s.grid, ups))
    case SetAlgorithmAction(al) => s.(algorithm := al)
    case SetRunningAction(b) => s.(isRunning := b)
    case SetDrawModeAction(m) => s.(drawMode := m)
    case SetDraggingStartAction(b) => s.(isDraggingStart := b)
    case SetDraggingEndAction(b) => s.(isDraggingEnd := b)
    case MoveStartAction(p) => s.(grid := MoveMarker(s.grid, s.start, p, Start), start := p)
    case MoveEndAction(p) => s.(grid := MoveMarker(s.grid, s.end, p, End), end := p)
  }

  /** The reducer keeps the application's state valid under every action the application sends. */
  lemma ReduceKeepsValid(s: AppState, a: Action)
    requires Valid(s) && Sensible(s, a)
    ensures Valid(Reduce(s, a))
  {
  }

  /** The grid shows each marker on its own cell: the start cell holds `Start` and the end cell `End`. */
  predicate Shown(s: AppState)
  {
    Valid(s) && s.start != s.end
    && s.grid[s.start.x][s.start.y].state == Start && s.grid[s.end.x][s.end.y].state == End
  }

  /**
   * What the application's event handlers add to `Sensible`: cell edits, from
   * drawing and from the search animation, skip the two marker cells; a marker
   * is dragged onto any cell but the other marker's; a grid handed over
   * whole shows the markers where the state says they are. The maze
   * generator's animation frames break the last condition: they are handed
   * over whole while the carving may have emptied a marker cell, and only the
   * final grid, stamped again, shows the markers (`RestampShown`).
   */
  predicate Dispatched(s: AppState, a: Action)
    requires Valid(s)
  {
    Sensible(s, a) &&
    match a
    case SetGridAction(g) =>
      g[s.start.x][s.start.y].state == Start && g[s.end.x][s.end.y].state == End
    case ResetForSizeAction(g, st, e) =>
      st != e && g[st.x][st.y].state == Start && g[e.x][e.y].state == End
    case SetCellAction(x, y, _) => Pos(x, y) != s.start && Pos(x, y) != s.end
    case BatchUpdateCellsAction(ups) => BatchKey(s.start) !in ups && BatchKey(s.end) !in ups
    case MoveStartAction(p) => p != s.end
    case MoveEndAction(p) => p != s.start
    case _ => true
  }

  /**
   * Under the dispatched actions other than the maze animation frames, the
   * grid keeps showing both markers where the state says they are.
   */
  lemma ReduceKeepsShown(s: AppState, a: Action)
    requires Shown(s) && Dispatched(s, a)
    ensures Shown(Reduce(s, a))
  {
  }

  /**
   * The maze generator's last dispatch: whatever its animation frames showed,
   * the generated grid with the start and then the end stamped again shows
   * both markers.
   */
  lemma RestampShown(s: AppState, M: Grid)
    requires Valid(s) && s.start != s.end && SameShape(s.grid, M)
    ensures Dispatched(s, SetGridAction(Marked(M, s.start, s.end)))
    ensures Shown(Reduce(s, SetGridAction(Marked(M, s.start, s.end))))
  {
  }

  /** The path reset keeps both markers, so handing its grid over whole is an action the invariant allows. */
  lemma ResetPathKeepsShown(s: AppState)
    requires Shown(s)
    ensures Dispatched(s, SetGridAction(ResetPath(s.grid, s.start, s.end)))
    ensures Shown(Reduce(s, SetGridAction(ResetPath(s.grid, s.start, s.end))))
  {
    ReduceKeepsShown(s, SetGridAction(ResetPath(s.grid, s.start, s.end)));
  }

  // ---------------------------------------------------------------------------
  // Path reset

  /**
   * `resetPath`: every cell loses its search bookkeeping (unvisited, no
   * `prevNode`, infinite cost); walls and the cells at the two marker
   * positions keep their state, and every other cell becomes empty.
   */
  function ResetPath(G: Grid, start: Pos, end: Pos): (H: Grid)
    ensures SameShape(G, H) && Clean(H)
    ensures forall i, j :: 0 <= i < |G| && 0 <= j < |G[i]| ==>
      H[i][j].state == (if G[i][j].state == Wall || Pos(i, j) == start || Pos(i, j) == end then G[i][j].state else Empty)
  {
    seq(|G|, i requires 0 <= i < |G| =>
      seq(|G[i]|, j requires 0 <= j < |G[i]| =>
        var c := G[i][j];
        if c.state == Wall then c.(visited := false, prev := None, cost := Infinite)
        else if Pos(i, j) == start || Pos(i, j) == end then c.(visited := false, prev := None, cost := Infinite)
        else c.(state := Empty, visited := false, prev := None, cost := Infinite)))
  }

  /** Resetting twice is resetting once. */
  lemma ResetPathIdempotent(G: Grid, start: Pos, end: Pos)
    ensures ResetPath(ResetPath(G, start, end), start, end) == ResetPath(G, start, end)
  {
    var H := ResetPath(G, start, end);
    var K := ResetPath(H, start, end);
    forall i | 0 <= i < |G| ensures K[i] == H[i] {
      forall j | 0 <= j < |G[i]| ensures K[i][j] == H[i][j] {
        assert K[i][j].state == H[i][j].state;
      }
    }
  }

  /**
   * After a reset, whatever the grid held, no end cell lies outside the two
   * marker positions: the condition the Dijkstra search relies on to stop at
   * the right cell.
   */
  lemma ResetPathEnds(G: Grid, start: Pos, end: Pos)
    ensures var H := ResetPath(G, start, end);
      forall i, j :: 0 <= i < |H| && 0 <= j < |H[i]| && H[i][j].state == End ==> Pos(i, j) == start || Pos(i, j) == end
  {
  }
}
