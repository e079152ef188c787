# Grid path-finding visualiser, verified model

This project models the core of a React path-finding visualiser. It covers four parts:
- the four grid searches: breadth-first, depth-first, Dijkstra and A*;
- the recursive-backtracker maze generator;
- the grid helpers of the application: building a grid with its start and end markers, rebuilding it for a new size, the reducer cases that edit cells or move a marker, and the path reset.

A grid is `rows × cols` cells. Each cell has a state (empty, wall, start, end, visited, path), a `visited` flag, a `prevNode` link and a cost.

The searches and the maze generator change a grid in place, so they work on an `array2<Cell>`:
- Each loop is a `method` with its invariants.
- A ghost function `Snapshot` turns the array into a value so that it can be related to specification predicates.

The application helpers build new grids with `map`, so they work on values (`seq<seq<Cell>>`).

Modules:
- `GridModel` (grid.dfy): the cell and grid types, and stamping a state onto a cell.
- `Walks` (walks.dfy): walks through non-wall cells, reachability, and shortest walks. It also shows that the grid graph is bipartite: every walk between two cells has the same length parity.
- `Neighbourhood` (neighbours.dfy): the shared `getNeighbours` rule and the shared backtrace along `prevNode`.
- `Bfs`, `Dfs`, `Dijkstra`, `AStar`: the four searches.
- `Relaxation` (frontier.dfy): the settled-set/frontier invariants that Dijkstra and A* share.
- `Maze` (maze.dfy): `generateMazeDFS` and its helpers.
- `Keys` (keys.dfy): the string keys `${x}x${y}` and `${x},${y}`, and why positions can stand in for them.
- `AppGrid` (app.dfy): `defaultStartEnd`, `makeEmptyGrid`, `createGrid`, `rebuildGridForSize`, `gridReducer` and `resetPath`.

What the proofs establish:
- No search visits a cell twice. Each finds the end exactly when the end is reachable, and otherwise visits exactly the start's component. For DFS this holds from a start that is not a wall: DFS marks every wall visited before it starts, so from a wall start it visits nothing. The application never walls a marker cell.
- The visiting order is proved for three searches. BFS and Dijkstra never visit a cell before a cell nearer to the start. A* never closes a cell before one with a smaller distance plus Manhattan distance to the end.
- DFS always visits the top of its stack, and pushes the neighbours in the order up, right, down, left. This is stated round by round; no global order is stated.
- BFS, Dijkstra and A* return a shortest path. BFS does so even though it overwrites `prevNode` on every enqueue.
- The path excludes both markers and runs from the cell next to the end back to the cell next to the start.
- The maze generator only changes states. It joins the start and the first end cell, and leaves every empty cell reachable from the start. Every other cell is a wall or empty, so the maze holds exactly one start and one end.
- The grid helpers produce exactly the cells the source builds. Under the actions the application dispatches, apart from the maze generator's animation frames, the reducer keeps both markers shown on their own cells. The generator's last dispatch, stamped again, shows them once more.

Where the code and its comments disagree, the model follows the code:
- The backtrace's `path.shift()` removes the end cell, not the start.
- `ensurePathToNode`'s "horizontal first" loop moves the row index `x` first.
- The maze generator does not adjust the start to odd coordinates.

Resizing clamps each marker separately. A shrink can therefore put the start and the end on the same cell. `RebuildGridForSize` states this case: the cell holds the end, and no cell holds the start.

## Model

| member | source | states |
|---|---|---|
| GridModel.SetState | src/App.tsx:64-65 | the grid with one cell's state replaced; every other cell and field is unchanged |
| GridModel.Marked | src/App.tsx:64-65 | the start then the end stamped: the end cell holds `end`, the start cell holds `start` unless it is the end, and nothing else changes |
| GridModel.Remove | src/algorithms/dijkstra.ts:92 | deleting a key from an insertion-ordered map: exactly that key goes; on a list free of repeats the result is the list with that one entry cut out, the rest in their order; an absent key changes nothing |
| Walks.WalkLengthParity | src/algorithms/bfs.ts:51-56 | any two walks between the same cells have lengths of equal parity, which is why overwriting `prevNode` at each enqueue keeps BFS links one level apart |
| Walks.TracesBackWalk | src/algorithms/bfs.ts:40-49 | a traced-back path, read from the start, is a walk from start to end through open adjacent cells |
| Neighbourhood.CandidatesAreAdjacent | src/algorithms/bfs.ts:5-10 | the four candidates (x-1,y), (x,y+1), (x+1,y), (x,y-1) are exactly the orthogonally adjacent cells |
| Neighbourhood.Neighbours | src/algorithms/bfs.ts:4-21 | `getNeighbours`: exactly the adjacent cells that are in bounds, not walls and not visited, in the order up, right, down, left, without repeats |
| Neighbourhood.TraceBack | src/algorithms/bfs.ts:41-48 | the backtrace plus `shift`: the path links the end back to the start, excludes both, has no repeats and no walls, and follows the `prevNode` links |
| Neighbourhood.ChainRank | src/algorithms/bfs.ts:43-47 | along a chain of `prevNode` links the rank falls by one per step, so the backtrace loop terminates |
| Bfs.Bfs | src/algorithms/bfs.ts:23-60 | visited cells are distinct with the start first and in order of distance from it; the end is visited iff reachable, and is then last with a shortest path; otherwise the path is empty and visited is the start's component; only `visited`, `prevNode` and the start's cost change; every non-start visited cell links to a visited adjacent cell |
| Bfs.Search | src/algorithms/bfs.ts:34-59 | the main loop establishes the outcome predicate from a clean grid |
| Bfs.Round | src/algorithms/bfs.ts:35-57 | the queue front is dequeued; a visited front is dropped with nothing else changed; otherwise it is appended to visited, the search finishes iff it is the end, and else its open unvisited neighbours are enqueued one level up and linked to it; the invariant is kept |
| Bfs.Advance | src/algorithms/bfs.ts:38-57 | a dequeued unvisited cell is appended to visited; the search finishes iff it is the end, with the outcome; otherwise its open unvisited neighbours are enqueued one level up and linked to it, and the invariant is kept |
| Bfs.Arrive | src/algorithms/bfs.ts:40-49 | visiting the end cell ends the search: it is reachable, visited last, and the backtraced path is shortest |
| Bfs.VisitOrder | src/algorithms/bfs.ts:35-39 | visited cells appended at non-decreasing queue levels, which are their distances, are in order of distance from the start |
| Bfs.VisitCell | src/algorithms/bfs.ts:37-39 | a dequeued unvisited cell is marked and appended at its queue level, with no shorter walk to it |
| Bfs.VisitMinimal | src/algorithms/bfs.ts:35-39 | the first-exit argument: the front of the queue is no closer to the start than its level |
| Bfs.Expand | src/algorithms/bfs.ts:51-57 | every unvisited neighbour is linked to the visited cell and pushed one level above it |
| Bfs.Spread | src/algorithms/bfs.ts:52-57 | the `for` loop pushes every listed neighbour, one level above the visited cell and linked to it, and keeps the queue invariants |
| Bfs.Enqueue | src/algorithms/bfs.ts:53-56 | one push keeps the queue's level and link invariants |
| Bfs.PushQueue | src/algorithms/bfs.ts:54-55 | a re-pushed cell's older queue entries are at the same level, so the overwritten link still serves them |
| Bfs.DropVisited | src/algorithms/bfs.ts:37 | skipping an already visited front entry keeps the invariants |
| Bfs.Finish | src/algorithms/bfs.ts:40-49 | reaching the end yields a shortest backtraced path |
| Bfs.Exhausted | src/algorithms/bfs.ts:59 | with the queue empty, the visited cells are exactly those reachable from the start |
| Bfs.SearchEnd | src/algorithms/bfs.ts:59 | an empty queue leaves the end unvisited, and the path is empty |
| Dfs.CopyCleared | src/algorithms/dfs.ts:30-37 | a fresh copy of the same size whose cells keep their state, with `visited` false, `prevNode` null and cost infinite |
| Dfs.MarkWalls | src/algorithms/dfs.ts:40-46 | exactly the walls get `visited` set; nothing else changes |
| Dfs.Prepare | src/algorithms/dfs.ts:30-53 | the working copy the loop starts from: cleared, walls marked, start cost 0 |
| Dfs.Search | src/algorithms/dfs.ts:55-80 | from the prepared copy with only the start on the stack, the main loop ends in the outcome `Dfs` promises |
| Dfs.Dfs | src/algorithms/dfs.ts:24-81 | the caller's grid is untouched; visited cells are distinct, open and reachable with the start first; the end is visited iff the start is open and the end reachable, and is then last with a backtraced path; otherwise the path is empty and visited is the open start's component |
| Dfs.Round | src/algorithms/dfs.ts:56-78 | the stack top is popped; a visited or wall top is dropped with nothing else changed; otherwise it is appended to visited, the search finishes iff it is the end, and else its open unvisited neighbours are pushed on the rest of the stack and linked to it |
| Dfs.Step | src/algorithms/dfs.ts:59-78 | a popped unvisited cell is appended to visited; the search finishes iff it is the end, with the backtrace; otherwise its neighbours are pushed and linked to it and the invariant is kept |
| Dfs.Descend | src/algorithms/dfs.ts:72-78 | the stack grows by the open unvisited neighbours of the visited cell, each linked to it, and the search invariant holds |
| Dfs.MarkVisited | src/algorithms/dfs.ts:59 | setting `visited` on the popped cell keeps the working grid matching the visited list |
| Dfs.Skip | src/algorithms/dfs.ts:58 | a popped visited cell (a wall or a cell pushed twice) is dropped |
| Dfs.VisitCell | src/algorithms/dfs.ts:59-60 | a popped unvisited cell is marked and appended last |
| Dfs.Expand | src/algorithms/dfs.ts:72-78 | the stack becomes the old stack followed by the neighbours in the order up, right, down, left, each linked to the visited cell |
| Dfs.Push | src/algorithms/dfs.ts:74-77 | one push: the stack is the old stack plus the first k+1 neighbours, and that neighbour's link is the visited cell |
| Dfs.Finish | src/algorithms/dfs.ts:61-70 | reaching the end yields the backtraced path |
| Dfs.SearchEnd | src/algorithms/dfs.ts:80 | an empty stack: the end is unreachable and visited is the open start's component |
| Dijkstra.EuclideanDistance | src/algorithms/dijkstra.ts:19-20 | for orthogonal neighbours the distance squared is dx² + dy², so the step is exactly 1 |
| Dijkstra.MinCostNode | src/algorithms/dijkstra.ts:4-17 | none iff every frontier cost is infinite; otherwise the first frontier cell with a finite cost strictly below every earlier one and not above any |
| Dijkstra.Dijkstra | src/algorithms/dijkstra.ts:42-95 | on the grid with start and end marked: visited starts at the start, in order of distance from it, and each visited cell's cost is its distance; the end is visited iff reachable, and is then last with a shortest path; otherwise the path is empty and visited is the reachable set; visited flags are set on the visited cells except the end |
| Dijkstra.Prepare | src/algorithms/dijkstra.ts:52-55 | the start and end stamped, the start's cost 0, and the end the only `end` cell |
| Dijkstra.Search | src/algorithms/dijkstra.ts:57-94 | from the marked grid with only the start on the frontier at cost 0, the main loop ends in the outcome `Dijkstra` promises |
| Dijkstra.Round | src/algorithms/dijkstra.ts:58-92 | the chosen cell is appended to visited; the search finishes iff it is the end; otherwise the frontier, costs and links become the relaxation of its open unvisited neighbours with the cell then removed from the frontier, and the invariant holds |
| Dijkstra.Step | src/algorithms/dijkstra.ts:76-92 | relaxing the chosen cell's open unvisited neighbours in order and then settling it: visited grows by that cell, and frontier, costs and links are the relaxation fold minus the cell |
| Dijkstra.Expand | src/algorithms/dijkstra.ts:77-87 | the inner loop computes exactly the relaxation fold over the neighbour list, and keeps the settled cells' keys below the frontier's |
| Dijkstra.Choose | src/algorithms/dijkstra.ts:58-62 | the least-cost frontier cell is at its distance, and it is the end iff its state is `end` |
| Dijkstra.Relax | src/algorithms/dijkstra.ts:78-86 | a neighbour's cost and link drop only on a strict improvement, and every neighbour joins the frontier once; the result is the fold one neighbour further |
| Dijkstra.RelaxFirstLowered | src/algorithms/dijkstra.ts:77-87 | relaxing the first k neighbours puts them all on the frontier and lowers to cost + 1, and relinks, exactly the cells whose cost that beats |
| Dijkstra.RelaxOne | src/algorithms/dijkstra.ts:79-86 | the bookkeeping of one relaxation |
| Dijkstra.Settle | src/algorithms/dijkstra.ts:89-92 | the chosen cell is marked, appended and removed from the frontier |
| Relaxation.OrderSettle | src/algorithms/dijkstra.ts:58-62 | settling a frontier cell of least key keeps the settled keys ascending and below every frontier key (also astar.ts:59-63) |
| Relaxation.OrderRelax | src/algorithms/dijkstra.ts:78-86 | with a consistent h, relaxing a neighbour of the least-key cell keeps the settled keys below the frontier's (also astar.ts:85-93) |
| Relaxation.KeyOrder | src/algorithms/astar.ts:58-98 | ascending keys at distance costs mean distance + h never drops along the settled list (with h = 0 for dijkstra.ts:57-94) |
| Relaxation.LoweredStep | src/algorithms/dijkstra.ts:79-86 | one more relaxed neighbour improves exactly when its cost still beats, and extends the lowering by that neighbour |
| Relaxation.Select | src/algorithms/dijkstra.ts:57-62 | the frontier cell with least cost + h (h consistent) is settled at its distance |
| Relaxation.Exhausted | src/algorithms/astar.ts:98 | an empty frontier means the settled cells are exactly the reachable ones |
| Relaxation.SearchEnd | src/algorithms/dijkstra.ts:94 | an empty frontier (also astar.ts:98): the end is unreachable, the path is empty, and the settled cells are exactly the reachable ones |
| Relaxation.FrontierFinite | src/algorithms/dijkstra.ts:59 | every frontier cell lies in the grid with a finite cost, so the `break` on a null pick (also astar.ts:60) never fires |
| Relaxation.Plus | src/algorithms/astar.ts:21 | a key is finite iff the cost is, and then exceeds it by exactly the heuristic term; with no heuristic term it is the cost |
| Relaxation.Least | src/algorithms/dijkstra.ts:58-60 | the cell the minimum scan picks has the least key `cost + h` on the frontier; Dijkstra's key has h = 0 |
| Relaxation.Close | src/algorithms/astar.ts:79-82 | moving the chosen cell from the frontier to the settled cells keeps the invariants |
| Relaxation.CloseCosts | src/algorithms/dijkstra.ts:89-92 | the settled list grows by the chosen cell, which leaves the frontier, and every settled cost is still a distance |
| Relaxation.CloseRelaxed | src/algorithms/astar.ts:79-80 | after the move only the chosen cell's neighbours may be left unrelaxed |
| Relaxation.Found | src/algorithms/dijkstra.ts:62-73 | a backtrace one move shorter than the end's cost is a shortest path |
| Relaxation.Finish | src/algorithms/dijkstra.ts:66-72 | the backtrace from the end follows the `prevNode` links to the start, and is one move shorter than the end's cost |
| Relaxation.ChainCost | src/algorithms/dijkstra.ts:68-71 | along `prevNode` links back to the start, costs fall by one per link |
| Relaxation.Lower | src/algorithms/dijkstra.ts:80-81 | writing a lower cost and a link updates the array to match the bookkeeping |
| Relaxation.MarkVisited | src/algorithms/dijkstra.ts:89-91 | setting `visited` updates the array to match the settled cells |
| Relaxation.Conclude | src/algorithms/dijkstra.ts:42-95 | the loop's outcome gives each visited cell its distance as cost, keeps states, and flags exactly the settled cells |
| AStar.Heuristic | src/algorithms/astar.ts:5-6 | the Manhattan distance, zero exactly at the end |
| AStar.HeuristicConsistent | src/algorithms/astar.ts:5-6 | the heuristic never drops by more than the distance moved |
| AStar.FScore | src/algorithms/astar.ts:21 | f is finite iff the cost is, and then exceeds it by exactly the heuristic |
| AStar.MinFNode | src/algorithms/astar.ts:24-36 | none iff every cost is infinite; otherwise the first open cell whose finite f is strictly below every earlier one and not above any |
| AStar.AStar | src/algorithms/astar.ts:8-99 | the closed set starts at the start, in order of distance plus Manhattan distance to the end, and each closed cell's cost is its distance; the end is closed iff reachable, and is then last with a shortest path; otherwise the path is empty and closed is the reachable set; no state changes |
| AStar.Prepare | src/algorithms/astar.ts:17-18 | the start's cost 0, and only the start open |
| AStar.Search | src/algorithms/astar.ts:58-98 | from the grid with only the start open at cost 0, the main loop ends in the outcome `AStar` promises |
| AStar.Picked | src/algorithms/astar.ts:59-60 | the cell `minFNode` picks has the least cost + Manhattan distance to the end on the open set |
| AStar.Round | src/algorithms/astar.ts:59-94 | the chosen cell is appended to the closed list; the search finishes iff it is the end; otherwise the open set, costs and links become the relaxation of its open unclosed neighbours applied after the cell leaves the open set, and the invariant holds |
| AStar.Step | src/algorithms/astar.ts:79-94 | closing the chosen cell and relaxing its open unclosed neighbours in order: the closed list grows by that cell, and open set, costs and links are the relaxation fold from the open set without it |
| AStar.Expand | src/algorithms/astar.ts:85-94 | the inner loop computes exactly the relaxation fold over the neighbour list, and keeps the closed cells' keys below the open set's |
| AStar.Choose | src/algorithms/astar.ts:59-63 | the open cell of least cost + h is at its distance |
| AStar.Relax | src/algorithms/astar.ts:85-93 | a neighbour is lowered, linked and opened only on a strict improvement, and never opened twice; the result is one step `RelaxNext` of the relaxation fold |
| AStar.RelaxFirstLowered | src/algorithms/astar.ts:85-94 | relaxing the first k neighbours opens exactly the cells whose cost drops, and lowers to cost + 1, and relinks, exactly those cells |
| AStar.RelaxOne | src/algorithms/astar.ts:86-92 | a neighbour whose cost does not drop is already open |
| AStar.CloseOne | src/algorithms/astar.ts:79-82 | the chosen cell leaves the open set for the closed set before its neighbours are relaxed |
| Maze.FillWalls | src/algorithms/mazeGenerator.ts:24-30 | a fresh same-size copy in which every cell is a wall and keeps its other fields |
| Maze.FirstEndUnique | src/algorithms/mazeGenerator.ts:33-42 | the first end cell in row-major order is unique |
| Maze.FindEnd | src/algorithms/mazeGenerator.ts:33-46 | none iff no cell is an end (the source throws there); otherwise the first end cell in row-major order |
| Maze.UnvisitedNeighbours | src/algorithms/mazeGenerator.ts:151-171 | exactly the in-bounds wall cells two steps away on one axis, in the order up, left, down, right |
| Maze.Carve | src/algorithms/mazeGenerator.ts:64-94 | the carving loop terminates; it empties only cells with an odd coordinate, keeps every empty cell reachable from (1,1), and leaves no carved lattice cell with a wall two steps away |
| Maze.CarveStep | src/algorithms/mazeGenerator.ts:76-87 | one carving step keeps the loop invariant and strictly shrinks the set of walls |
| Maze.PopStep | src/algorithms/mazeGenerator.ts:70-72 | popping an exhausted stack top keeps the loop invariant |
| Maze.NoneLeft | src/algorithms/mazeGenerator.ts:68-70 | no neighbour returned means no wall two steps away |
| Maze.NearestEmpty | src/algorithms/mazeGenerator.ts:110-123 | none iff the grid has no empty cell; otherwise an empty cell at least Manhattan distance, the first such in row-major order |
| Maze.ScanStep | src/algorithms/mazeGenerator.ts:115-120 | the pick changes exactly at an empty cell strictly nearer than the best so far |
| Maze.ScanCell | src/algorithms/mazeGenerator.ts:115-120 | one cell of the scan keeps the scan's invariant: the pick so far is the nearest empty cell, the first such |
| Maze.Paved | src/algorithms/mazeGenerator.ts:135-137 | a corridor cell becomes empty unless it is a start or end cell, which is left alone; it is never a wall afterwards |
| Maze.DigCorridor | src/algorithms/mazeGenerator.ts:128-147 | exactly the cells of the L-shaped corridor (along the row index first, then the column) are paved |
| Maze.CorridorWalk | src/algorithms/mazeGenerator.ts:131-147 | every cell of an open corridor can be walked to from its first cell |
| Maze.EnsurePathToNode | src/algorithms/mazeGenerator.ts:108-148 | no empty cell: the grid is unchanged; otherwise the corridor from the nearest empty cell to the node is paved and walkable from that cell |
| Maze.PaveKeeps | src/algorithms/mazeGenerator.ts:97-98 | a paved corridor keeps every empty cell reachable from the root and makes the node reachable |
| Maze.StampKeeps | src/algorithms/mazeGenerator.ts:101-102 | stamping a marker changes only that state and keeps reachability from the root |
| Maze.Stamp | src/algorithms/mazeGenerator.ts:101 | writing one cell's state changes the array exactly as stamping the value grid does |
| Maze.PlainKept | src/algorithms/mazeGenerator.ts:83-84 | emptying cells puts no marker anywhere: cells other than start and end stay walls or empty |
| Maze.Stamped | src/algorithms/mazeGenerator.ts:24-59 | the wall-filled, stamped grid differs from the input only in states, and (1,1) is its only empty cell |
| Maze.Prepare | src/algorithms/mazeGenerator.ts:24-59 | the grid the carving starts from: the same size, only states changed, (1,1) empty and rooted |
| Maze.StampedPlain | src/algorithms/mazeGenerator.ts:24-59 | after the wall fill and the stamps, every cell other than the start and the end is a wall or empty |
| Maze.Link | src/algorithms/mazeGenerator.ts:97-98 | after `ensurePathToNode` the node is reachable from (1,1), which stays empty and rooted |
| Maze.Joined | src/algorithms/mazeGenerator.ts:96-104 | start and end hanging off an open root reach each other, and every empty cell is reachable from the start |
| Maze.Connect | src/algorithms/mazeGenerator.ts:96-102 | the two corridors and the final stamps leave a maze in which start and end are joined |
| Maze.GenerateMaze | src/algorithms/mazeGenerator.ts:17-105 | none iff no end cell exists or the grid is narrower than 2 in either direction; otherwise a fresh grid that differs only in states, has start and first end marked and every other cell a wall or empty, joins start and end, and keeps every empty cell reachable from the start |
| Maze.MazeMarkers | src/algorithms/mazeGenerator.ts:101-102 | a generated maze has exactly one end cell, and exactly one start cell unless the two coincide |
| Keys.Digits | src/App.tsx:181 | a number's decimal text: nonempty digits with no leading zero |
| Keys.ValueOfDigits | src/algorithms/bfs.ts:45 | `Number` of a number's decimal text gives the number back |
| Keys.Split | src/algorithms/bfs.ts:45 | `split`: at least one piece, none containing the separator |
| Keys.JoinSplit | src/algorithms/bfs.ts:45 | joining the pieces of a split gives the string back |
| Keys.SplitAt | src/algorithms/bfs.ts:45 | a separator-free prefix followed by the separator splits off as the first piece |
| Keys.ParseKey | src/algorithms/dfs.ts:66 | the first two pieces of the split, read as numbers when both are decimal digit strings (later pieces ignored, as destructuring does), give non-negative coordinates; any other string gives nothing |
| Keys.ParseCellKey | src/algorithms/astar.ts:71 | `split("x").map(Number)` inverts the cell key `${x}x${y}` |
| Keys.CellKeyInjective | src/App.tsx:181 | two cells share a cell key iff they are the same cell |
| Keys.BatchKeyInjective | src/App.tsx:127 | two cells share a batch key iff they are the same cell |
| AppGrid.DefaultStartEnd | src/App.tsx:54-58 | both markers in bounds for rows, cols ≥ 1, distinct for cols ≥ 2, on the same row with the start left of the end |
| AppGrid.MakeEmptyGrid | src/App.tsx:175-193 | rows × cols cells, each empty, unvisited, unlinked, with infinite cost |
| AppGrid.CreateGrid | src/App.tsx:60-67 | a clean rows × cols grid whose end cell holds `end`, whose start cell holds `start` unless it is the end, and whose every other cell is blank; the markers default to `defaultStartEnd` |
| AppGrid.CopyWalls | src/App.tsx:203-217 | a fresh grid in which a cell is a wall iff it is in the overlap and was a wall, and every other cell is empty |
| AppGrid.RebuildGridForSize | src/App.tsx:196-234 | markers clamped to (min(rows-1, x), min(cols-1, y)); a clean grid in which the end cell holds `end`, the start cell holds `start` unless it is the end, and each other cell is a wall iff it was a wall in the overlap, otherwise empty |
| AppGrid.Merge | src/App.tsx:104 | `{ ...cell, ...updates }`: each field present in the patch replaces the cell's, and the others stay |
| AppGrid.MergeIdempotent | src/App.tsx:104 | merging the same patch twice equals merging it once |
| AppGrid.SetCell | src/App.tsx:98-108 | `SET_CELL`: only cell (x, y) takes the patch; out of range nothing changes; the shape is kept |
| AppGrid.SetCellState | src/App.tsx:98-108 | a state-only `SET_CELL` is stamping that state, and the identity outside the grid |
| AppGrid.SetCellIdempotent | src/App.tsx:98-108 | sending the same cell edit twice equals sending it once |
| AppGrid.BatchUpdate | src/App.tsx:122-133 | `BATCH_UPDATE_CELLS`: a cell takes a patch iff its `${x},${y}` key is in the map; every other cell is unchanged |
| AppGrid.BatchOfOne | src/App.tsx:122-133 | a one-entry batch is the single-cell edit of that cell |
| AppGrid.EmptyBatch | src/App.tsx:122-133 | an empty batch changes nothing |
| AppGrid.MoveMarker | src/App.tsx:150-166 | the old marker cell becomes empty, the new cell takes the marker, and nothing else changes |
| AppGrid.MoveBack | src/App.tsx:150-166 | dragging a marker onto an empty cell and back restores the grid |
| AppGrid.Reduce | src/App.tsx:90-170 | `gridReducer`: cell edits keep the grid's shape, and the markers change only on a move or a size reset |
| AppGrid.ReduceKeepsValid | src/App.tsx:90-170 | a rectangular non-empty grid with both markers inside stays so under every action the application sends |
| AppGrid.ReduceKeepsShown | src/App.tsx:90-170 | under the actions the event handlers dispatch, other than the maze animation frames, the grid keeps `start` on the start cell and `end` on a different end cell |
| AppGrid.RestampShown | src/App.tsx:488-491 | the generated maze with the start and the end stamped again, handed over by `SET_GRID`, shows both markers, whatever the animation frames showed |
| AppGrid.ResetPath | src/App.tsx:431-450 | every cell unvisited, unlinked and at infinite cost; walls and the two marker cells keep their state; every other cell becomes empty |
| AppGrid.ResetPathIdempotent | src/App.tsx:431-450 | resetting twice equals resetting once |
| AppGrid.ResetPathEnds | src/App.tsx:431-450 | no end cell appears outside the marker positions, which is what Dijkstra's stop-on-state relies on |
| AppGrid.ResetPathKeepsShown | src/App.tsx:429-452 | the reset grid handed over by `SET_GRID` keeps both markers shown |

## Left out

- Rendering and UI: React hooks, mouse handlers, layout, the `color` field and the colour constants are presentation and are not modelled. The same goes for the animation batching and the `delay` timers.
- Concurrency: the async orchestration of a search run and of maze generation is not modelled. `await updateVisualization(...)` and `setTimeout` in the generator are dropped, and the generator is a synchronous method.
- `Math.random`: the neighbour choice in the carving loop is an arbitrary index (a nondeterministic choice), so the proofs hold for every choice.
- Floating point: costs are natural numbers of unit steps, and `Infinity` is a separate constructor. `euclideanDistance` is modelled only on orthogonal neighbours, where it is exactly 1. `Math.sqrt` is not modelled.
- `RESET_GRID`: the case calls a function the repository does not define, so it has no behaviour to model.
- Cell keys and coordinates: the cell fields `key`, `x` and `y` are not stored; a cell's position is its index. `makeEmptyGrid` writes them from the indices and nothing changes them. `Keys.CellKeyInjective` and `Keys.ParseCellKey` show that the key and the position determine each other. `prevNode` holds a position instead of the key string.
- Maps: the searches' `visited`, frontier and closed maps are key lists in insertion order. Aliasing between map entries and grid cells is not modelled.
- AppGrid.Merge: a patch carries only `state`, `visited`, `prevNode` and `cost`. The application never sends `key`, `x`, `y` or `color`.
- Maze.GenerateMaze: requires the start to be inside the grid. An outside start is a type error in the source, and the application always passes its own start marker.
- Dijkstra.Dijkstra: requires a clean grid in which no cell other than the two markers holds `end`. That is what the application's path reset leaves (`AppGrid.ResetPathEnds`). Otherwise the stop-on-state test could stop at a stray end cell.
- AStar.AStar: requires a clean grid, as the path reset leaves it.
- Bfs.Bfs: requires an unvisited grid. It states that every visited cell's link is a visited adjacent cell, not that the link was visited earlier.
- AppGrid.RebuildGridForSize: requires a non-empty rectangular old grid and markers with non-negative coordinates, as the application keeps them. Otherwise the source reads an undefined row. It also requires `rows >= 1 && cols >= 1`: with no rows or no columns the source clamps a marker to index -1, reads an undefined row or cell there, and throws.
- AppGrid.CreateGrid: requires given markers to lie in the grid, as every caller passes. It also requires `rows >= 1 && cols >= 1`: with no rows or no columns the source's marker stamp reads an undefined row or cell and throws, and no caller passes such sizes.
- Keys.ParseKey: reads a piece only when it is a string of decimal digits. JavaScript's `Number` also accepts surrounding white space, signs, exponents and hexadecimal forms. The program only parses keys it built from two non-negative integers, and those are never such strings.
- AppGrid.ReduceKeepsShown: excludes a size reset whose clamped markers coincide. The source allows it, and it loses the start marker from the grid.
- AppGrid.ReduceKeepsShown: also excludes the maze generator's animation frames (`SET_GRID` from its progress callback). In those frames cell (1, 1) and the cells between lattice cells have been emptied, markers included, so a frame can lack a marker. `AppGrid.RestampShown` covers the final dispatch, which shows both markers again.
- Search return values: the searches return positions, not the cell records. The pairs `[visited, path]` are the two sequences of positions.
- Mutation of the caller's grid by `dijkstra` and `aStar`: this is modelled on the array. The copy the application makes before a run (`map(r => r.map(c => ({ ...c })))`) is not modelled.
