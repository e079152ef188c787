/**
 * The maze generator (src/algorithms/mazeGenerator.ts): a randomised
 * recursive backtracker on the cells with two odd coordinates, followed by
 * two straight corridors that connect the start and the end to the carved
 * passages.
 *
 * The generator works on a fresh copy of the caller's grid in which every cell
 * is a wall. It stamps the start and the end, empties cell (1, 1), and then
 * carves from an explicit stack: it looks at the wall cells two steps away
 * from the top of the stack, picks one of them at random, empties it and the
 * cell between, and pushes it; a top with no such cell is popped. Afterwards
 * `ensurePathToNode` digs an L-shaped corridor from the nearest empty cell to
 * the start, then another to the end, and the two markers are stamped again.
 *
 * What is proved: every empty cell stays reachable from (1, 1) through
 * non-wall cells, which makes the start and the end reachable from each
 * other; the backtracker leaves no wall two steps away from a carved
 * odd-coordinate cell; it only ever empties cells with an odd coordinate;
 * every cell other than the start and the end ends up a wall or empty, so the
 * maze holds exactly one start and one end; and only the cells' states change.
 */
module Maze {
  import opened GridModel
  import opened Walks

  // ---------------------------------------------------------------------------
  // The wall-filled copy and the end marker

  /**
   * `grid.map(row => row.map(cell => ({ ...cell, state: "wall" })))`: a fresh
   * array of the same size in which every cell is a wall and keeps its other fields.
   */
  method FillWalls(grid: array2<Cell>) returns (m: array2<Cell>)
    ensures fresh(m) && m.Length0 == grid.Length0 && m.Length1 == grid.Length1
    ensures forall i, j :: 0 <= i < m.Length0 && 0 <= j < m.Length1 ==> m[i, j] == grid[i, j].(state := Wall)
  {
    m := new Cell[grid.Length0, grid.Length1];
    for i := 0 to grid.Length0
      invariant forall a, b :: 0 <= a < i && 0 <= b < grid.Length1 ==> m[a, b] == grid[a, b].(state := Wall)
    {
      for j := 0 to grid.Length1
        invariant forall a, b :: 0 <= a < i && 0 <= b < grid.Length1 ==> m[a, b] == grid[a, b].(state := Wall)
        invariant forall b :: 0 <= b < j ==> m[i, b] == grid[i, b].(state := Wall)
      {
        m[i, j] := grid[i, j].(state := Wall);
      }
    }
  }

  /** Row-major order, the order of the generator's scans: `p` is visited before `q`. */
  predicate Before(p: Pos, q: Pos)
  {
    p.x < q.x || (p.x == q.x && p.y < q.y)
  }

  /** `e` is the first end cell of the grid in row-major order. */
  predicate FirstEnd(g: array2<Cell>, e: Pos)
    reads g
  {
    && InBounds(g.Length0, g.Length1, e) && g[e.x, e.y].state == End
    && forall i, j :: 0 <= i < g.Length0 && 0 <= j < g.Length1 && Before(Pos(i, j), e) ==> g[i, j].state != End
  }

  /** A grid has at most one first end cell. */
  lemma FirstEndUnique(g: array2<Cell>, e: Pos, e': Pos)
    requires FirstEnd(g, e) && FirstEnd(g, e')
    ensures e == e'
  {
  }

  /**
   * The scan for the end marker: the first end cell in row-major order, or
   * `None` when the grid has none (where the source throws "End position not
   * found in grid").
   */
  method FindEnd(g: array2<Cell>) returns (end: Option<Pos>)
    ensures end.None? <==> forall i, j :: 0 <= i < g.Length0 && 0 <= j < g.Length1 ==> g[i, j].state != End
    ensures end.Some? ==> FirstEnd(g, end.value)
  {
    end := None;
    var i := 0;
    while i < g.Length0 && end.None?
      invariant 0 <= i <= g.Length0
      invariant end.None? ==> forall a, b :: 0 <= a < i && 0 <= b < g.Length1 ==> g[a, b].state != End
      invariant end.Some? ==> FirstEnd(g, end.value)
    {
      var j := 0;
      while j < g.Length1 && end.None?
        invariant 0 <= j <= g.Length1
        invariant end.None? ==> forall b :: 0 <= b < j ==> g[i, b].state != End
        invariant end.Some? ==> FirstEnd(g, end.value)
      {
        if g[i, j].state == End {
          end := Some(Pos(i, j));
        }
        j := j + 1;
      }
      i := i + 1;
    }
  }

  // ---------------------------------------------------------------------------
  // The neighbours two steps away

  /** The cells two steps away, in the order the generator tries them: up, left, down, right. */
  function Jumps(p: Pos): seq<Pos>
  {
    [Pos(p.x - 2, p.y), Pos(p.x, p.y - 2), Pos(p.x + 2, p.y), Pos(p.x, p.y + 2)]
  }

  /** The position of `q` in that order. */
  function JumpRank(p: Pos, q: Pos): int
  {
    if q == Pos(p.x - 2, p.y) then 0
    else if q == Pos(p.x, p.y - 2) then 1
    else if q == Pos(p.x + 2, p.y) then 2
    else 3
  }

  /** `q` lies two cells from `p` along a row or a column. */
  predicate TwoAway(p: Pos, q: Pos)
  {
    (Abs(p.x - q.x) == 2 && p.y == q.y) || (p.x == q.x && Abs(p.y - q.y) == 2)
  }

  /** A cell the backtracker may still carve into: inside the grid and a wall. */
  predicate Uncarved(g: array2<Cell>, q: Pos)
    reads g
  {
    InBounds(g.Length0, g.Length1, q) && g[q.x, q.y].state == Wall
  }

  /**
   * `getUnvisitedNeighbors`: exactly the wall cells inside the grid two steps
   * away from `p`, in the order up, left, down, right.
   */
  method UnvisitedNeighbours(g: array2<Cell>, p: Pos) returns (ns: seq<Pos>)
    ensures forall q :: q in ns <==> TwoAway(p, q) && Uncarved(g, q)
    ensures forall i, j :: 0 <= i < j < |ns| ==> JumpRank(p, ns[i]) < JumpRank(p, ns[j])
  {
    var jumps := Jumps(p);
    assert forall q :: q in jumps <==> TwoAway(p, q);
    ns := [];
    for k := 0 to 4
      invariant forall q :: q in ns <==> q in jumps[..k] && Uncarved(g, q)
      invariant forall i :: 0 <= i < |ns| ==> JumpRank(p, ns[i]) < k
      invariant forall i, j :: 0 <= i < j < |ns| ==> JumpRank(p, ns[i]) < JumpRank(p, ns[j])
    {
      var q := jumps[k];
      assert JumpRank(p, q) == k;
      assert jumps[..k + 1] == jumps[..k] + [q];
      if 0 <= q.x < g.Length0 && 0 <= q.y < g.Length1 && g[q.x, q.y].state == Wall {
        ns := ns + [q];
      }
    }
    assert jumps[..4] == jumps;
  }

  // ---------------------------------------------------------------------------
  // Grid values the carving is reasoned about on

  predicate Odd(n: int)
  {
    n % 2 == 1
  }

  /** The cells the backtracker moves between: both coordinates odd. */
  predicate Lattice(p: Pos)
  {
    Odd(p.x) && Odd(p.y)
  }

  /** The cell `(x + (nx - x) / 2, y + (ny - y) / 2)` between a stack top and the neighbour chosen. */
  function Between(p: Pos, q: Pos): Pos
  {
    Pos(p.x + (q.x - p.x) / 2, p.y + (q.y - p.y) / 2)
  }

  /** The cell at `p` is a wall. */
  predicate WallAt(G: Grid, p: Pos)
  {
    InGrid(G, p) && G[p.x][p.y].state == Wall
  }

  /** The set of wall cells: it shrinks with every cell the backtracker carves. */
  ghost function Walls(G: Grid): set<Pos>
  {
    set i, j | 0 <= i < |G| && 0 <= j < |G[i]| && G[i][j].state == Wall :: Pos(i, j)
  }

  /** Every empty cell can be walked to from `root` through cells that are not walls. */
  ghost predicate Rooted(G: Grid, root: Pos)
  {
    forall i, j {:trigger Reachable(G, root, Pos(i, j))} ::
      0 <= i < |G| && 0 <= j < |G[i]| && G[i][j].state == Empty ==> Reachable(G, root, Pos(i, j))
  }

  /** No cell of `G` that is open has become a wall in `H`. */
  ghost predicate OpenMono(G: Grid, H: Grid)
  {
    forall p :: Open(G, p) ==> Open(H, p)
  }

  /** `H` is `G` with some cells' states changed and nothing else. */
  predicate SameButState(G: Grid, H: Grid)
  {
    && |H| == |G|
    && (forall i :: 0 <= i < |G| ==> |H[i]| == |G[i]|)
    && forall i, j {:trigger H[i][j]} :: 0 <= i < |G| && 0 <= j < |G[i]| ==> H[i][j] == G[i][j].(state := H[i][j].state)
  }

  /** Every cell other than `s` and `e` is a wall or empty: no stray marker or search state. */
  predicate Plain(G: Grid, s: Pos, e: Pos)
  {
    forall i, j {:trigger G[i][j]} :: 0 <= i < |G| && 0 <= j < |G[i]| && Pos(i, j) != s && Pos(i, j) != e ==>
      G[i][j].state == Wall || G[i][j].state == Empty
  }

  /** `H` is `G` with some cells emptied: every state is kept or has become empty. */
  predicate OnlyEmptied(G: Grid, H: Grid)
  {
    && |H| == |G|
    && (forall i :: 0 <= i < |G| ==> |H[i]| == |G[i]|)
    && forall i, j {:trigger H[i][j]} :: 0 <= i < |G| && 0 <= j < |G[i]| ==>
         H[i][j].state == G[i][j].state || H[i][j].state == Empty
  }

  /** Emptying cells puts no marker anywhere. */
  lemma PlainKept(G: Grid, H: Grid, s: Pos, e: Pos)
    requires Plain(G, s, e) && OnlyEmptied(G, H)
    ensures Plain(H, s, e)
  {
    forall i, j | 0 <= i < |H| && 0 <= j < |H[i]| && Pos(i, j) != s && Pos(i, j) != e
      ensures H[i][j].state == Wall || H[i][j].state == Empty
    {
      assert G[i][j].state == Wall || G[i][j].state == Empty;
    }
  }

  /**
   * What the backtracker has done to `G0` to get `G`: some cells, each with an
   * odd coordinate, were emptied; nothing else changed.
   */
  predicate Dug(G0: Grid, G: Grid)
  {
    && |G| == |G0|
    && (forall i :: 0 <= i < |G0| ==> |G[i]| == |G0[i]|)
    && forall i, j {:trigger G[i][j]} :: 0 <= i < |G0| && 0 <= j < |G0[i]| ==>
         G[i][j] == G0[i][j] || (G[i][j] == G0[i][j].(state := Empty) && (Odd(i) || Odd(j)))
  }

  /** Every stack entry is an empty odd-coordinate cell of the grid. */
  predicate StackOk(G: Grid, S: seq<Pos>)
  {
    forall k :: 0 <= k < |S| ==> InGrid(G, S[k]) && Lattice(S[k]) && G[S[k].x][S[k].y].state == Empty
  }

  /** No cell two steps from `p` is a wall: the backtracker is done with `p`. */
  predicate Exhausted(G: Grid, p: Pos)
  {
    forall k :: 0 <= k < 4 ==> !WallAt(G, Jumps(p)[k])
  }

  /** Every carved odd-coordinate cell that has left the stack is exhausted. */
  predicate Backtracked(G: Grid, S: seq<Pos>)
  {
    forall i, j {:trigger Lattice(Pos(i, j))} ::
      0 <= i < |G| && 0 <= j < |G[i]| && Lattice(Pos(i, j)) && G[i][j].state == Empty && Pos(i, j) !in S ==>
        Exhausted(G, Pos(i, j))
  }

  /** The invariant of the carving loop, on the grid `G` reached from `G0` with stack `S`. */
  ghost predicate Carving(G0: Grid, G: Grid, S: seq<Pos>)
  {
    Dug(G0, G) && Rooted(G, Pos(1, 1)) && StackOk(G, S) && Backtracked(G, S)
  }

  lemma WalkHere(G: Grid, p: Pos)
    ensures Reachable(G, p, p)
  {
    assert WalkFrom(G, p, p, [p]);
  }

  /** Emptying cells never closes a cell nor makes a new empty cell unreachable, given the new ones are. */
  lemma DugOpen(G0: Grid, G: Grid)
    requires Dug(G0, G)
    ensures OpenMono(G0, G) && SameButState(G0, G) && OnlyEmptied(G0, G)
  {
    forall p | Open(G0, p) ensures Open(G, p) {
      assert G[p.x][p.y] == G0[p.x][p.y] || G[p.x][p.y].state == Empty;
    }
    forall i, j | 0 <= i < |G0| && 0 <= j < |G0[i]| ensures G[i][j] == G0[i][j].(state := G[i][j].state) {
      if G[i][j] == G0[i][j] {
        assert G0[i][j].(state := G0[i][j].state) == G0[i][j];
      }
    }
  }

  /**
   * One carving step keeps the loop invariant: from the stack top `top`, the
   * chosen wall `n` two steps away and the cell between them are emptied and
   * `n` is pushed; the set of walls strictly shrinks.
   */
  lemma CarveStep(G0: Grid, G: Grid, S: seq<Pos>, top: Pos, n: Pos, H: Grid)
    requires Carving(G0, G, S)
    requires S != [] && top == S[|S| - 1]
    requires TwoAway(top, n) && WallAt(G, n)
    requires InGrid(G, Between(top, n))
    requires H == SetState(SetState(G, Between(top, n), Empty), n, Empty)
    ensures Carving(G0, H, S + [n])
    ensures Walls(H) < Walls(G)
  {
    var w := Between(top, n);
    assert InGrid(G, top) && Lattice(top) && G[top.x][top.y].state == Empty;
    assert Emptied(G, H, w, n);
    assert Adjacent(top, w) && Adjacent(w, n) && (Odd(w.x) || Odd(w.y)) && !Lattice(w) && Lattice(n);
    EmptiedOpen(G, H, w, n);
    CarveReach(G, H, top, w, n);
    CarveStack(G, H, S, w, n);
    CarveBacktracked(G, H, S, w, n);
    CarveHistory(G0, G, H, w, n);
    CarveWalls(G, H, w, n);
  }

  /** `H` is `G` with the cells `w` and `n` emptied. */
  predicate Emptied(G: Grid, H: Grid, w: Pos, n: Pos)
  {
    && InGrid(G, w) && InGrid(G, n)
    && |H| == |G| && (forall i :: 0 <= i < |G| ==> |H[i]| == |G[i]|)
    && forall i, j {:trigger H[i][j]} :: 0 <= i < |G| && 0 <= j < |G[i]| ==>
         H[i][j] == if Pos(i, j) == w || Pos(i, j) == n then G[i][j].(state := Empty) else G[i][j]
  }

  lemma EmptiedOpen(G: Grid, H: Grid, w: Pos, n: Pos)
    requires Emptied(G, H, w, n)
    ensures OpenMono(G, H) && Open(H, w) && Open(H, n)
  {
    forall p | Open(G, p) ensures Open(H, p) {
      assert H[p.x][p.y].state == Empty || H[p.x][p.y] == G[p.x][p.y];
    }
  }

  /** The two cells emptied hang off the stack top, which is reachable from (1, 1): so are they. */
  lemma CarveReach(G: Grid, H: Grid, top: Pos, w: Pos, n: Pos)
    requires Rooted(G, Pos(1, 1)) && InGrid(G, top) && G[top.x][top.y].state == Empty
    requires Emptied(G, H, w, n) && OpenMono(G, H) && Open(H, w) && Open(H, n)
    requires Adjacent(top, w) && Adjacent(w, n)
    ensures Rooted(H, Pos(1, 1))
  {
    assert Reachable(G, Pos(1, 1), top);
    ReachMono(G, H, Pos(1, 1), top);
    ReachExtend(H, Pos(1, 1), top, w);
    ReachExtend(H, Pos(1, 1), w, n);
    forall i, j | 0 <= i < |H| && 0 <= j < |H[i]| && H[i][j].state == Empty
      ensures Reachable(H, Pos(1, 1), Pos(i, j))
    {
      if Pos(i, j) != w && Pos(i, j) != n {
        assert G[i][j] == H[i][j];
        assert Reachable(G, Pos(1, 1), Pos(i, j));
        ReachMono(G, H, Pos(1, 1), Pos(i, j));
      }
    }
  }

  lemma CarveStack(G: Grid, H: Grid, S: seq<Pos>, w: Pos, n: Pos)
    requires StackOk(G, S) && Emptied(G, H, w, n) && Lattice(n)
    ensures StackOk(H, S + [n])
  {
    var S' := S + [n];
    forall k | 0 <= k < |S'| ensures InGrid(H, S'[k]) && Lattice(S'[k]) && H[S'[k].x][S'[k].y].state == Empty {
      if k < |S| {
        assert S'[k] == S[k];
      }
    }
  }

  /** Exhausted cells stay exhausted: no wall appears, and the new odd-coordinate cell is on the stack. */
  lemma CarveBacktracked(G: Grid, H: Grid, S: seq<Pos>, w: Pos, n: Pos)
    requires Backtracked(G, S) && Emptied(G, H, w, n) && !Lattice(w)
    ensures Backtracked(H, S + [n])
  {
    forall i, j | 0 <= i < |H| && 0 <= j < |H[i]| && Lattice(Pos(i, j)) && H[i][j].state == Empty && Pos(i, j) !in S + [n]
      ensures Exhausted(H, Pos(i, j))
    {
      assert G[i][j] == H[i][j];
      assert Exhausted(G, Pos(i, j));
      forall k | 0 <= k < 4 ensures !WallAt(H, Jumps(Pos(i, j))[k]) {
        assert !WallAt(G, Jumps(Pos(i, j))[k]);
      }
    }
  }

  lemma CarveHistory(G0: Grid, G: Grid, H: Grid, w: Pos, n: Pos)
    requires Dug(G0, G) && Emptied(G, H, w, n) && (Odd(w.x) || Odd(w.y)) && Lattice(n)
    ensures Dug(G0, H)
  {
    forall i, j | 0 <= i < |G0| && 0 <= j < |G0[i]|
      ensures H[i][j] == G0[i][j] || (H[i][j] == G0[i][j].(state := Empty) && (Odd(i) || Odd(j)))
    {
      assert G[i][j] == G0[i][j] || G[i][j] == G0[i][j].(state := Empty);
    }
  }

  lemma CarveWalls(G: Grid, H: Grid, w: Pos, n: Pos)
    requires Emptied(G, H, w, n) && WallAt(G, n)
    ensures Walls(H) < Walls(G)
  {
    assert n in Walls(G) && n !in Walls(H);
    forall p | p in Walls(H) ensures p in Walls(G) {
      assert WallAt(H, p);
    }
  }

  /** Popping an exhausted top keeps the loop invariant. */
  lemma PopStep(G0: Grid, G: Grid, S: seq<Pos>)
    requires Carving(G0, G, S)
    requires S != [] && Exhausted(G, S[|S| - 1])
    ensures Carving(G0, G, S[..|S| - 1])
  {
    var S' := S[..|S| - 1];
    assert S == S' + [S[|S| - 1]];
    forall k | 0 <= k < |S'| ensures InGrid(G, S'[k]) && Lattice(S'[k]) && G[S'[k].x][S'[k].y].state == Empty {
      assert S'[k] == S[k];
    }
    forall i, j | 0 <= i < |G| && 0 <= j < |G[i]| && Lattice(Pos(i, j)) && G[i][j].state == Empty && Pos(i, j) !in S'
      ensures Exhausted(G, Pos(i, j))
    {
      assert Pos(i, j) !in S || Pos(i, j) == S[|S| - 1];
    }
  }

  /** The cell `p` of an array as a cell of its snapshot. */
  lemma SnapshotWall(g: array2<Cell>, G: Grid, p: Pos)
    requires G == Snapshot(g)
    ensures Uncarved(g, p) <==> WallAt(G, p)
  {
  }

  /** No wall two steps away, as the array sees it, is the same as exhaustion on the snapshot. */
  lemma NoneLeft(g: array2<Cell>, G: Grid, p: Pos, ns: seq<Pos>)
    requires G == Snapshot(g)
    requires forall q :: q in ns <==> TwoAway(p, q) && Uncarved(g, q)
    requires ns == []
    ensures Exhausted(G, p)
  {
    forall k | 0 <= k < 4 ensures !WallAt(G, Jumps(p)[k]) {
      var q := Jumps(p)[k];
      assert TwoAway(p, q);
      assert q !in ns;
    }
  }

  /** Sets the state of one cell. */
  method Stamp(g: array2<Cell>, ghost G: Grid, p: Pos, st: CellState)
    requires G == Snapshot(g) && InBounds(g.Length0, g.Length1, p)
    modifies g
    ensures Snapshot(g) == SetState(G, p, st)
  {
    g[p.x, p.y] := g[p.x, p.y].(state := st);
    var H := SetState(G, p, st);
    assert forall i :: 0 <= i < |H| ==> Snapshot(g)[i] == H[i];
  }

  /**
   * The carving loop. Each round looks at the top of the stack: without a wall
   * two steps away it is popped; otherwise one such wall, chosen arbitrarily
   * (the source draws it with `Math.random`), and the cell between are emptied
   * and the wall is pushed. Every empty cell stays reachable from (1, 1), every
   * cell dug has an odd coordinate, and when the stack runs out no carved
   * odd-coordinate cell has a wall two steps away.
   */
  method Carve(g: array2<Cell>)
    requires g.Length0 >= 2 && g.Length1 >= 2
    requires g[1, 1].state == Empty
    requires Rooted(Snapshot(g), Pos(1, 1))
    requires Backtracked(Snapshot(g), [Pos(1, 1)])
    modifies g
    ensures Dug(old(Snapshot(g)), Snapshot(g))
    ensures Rooted(Snapshot(g), Pos(1, 1))
    ensures Backtracked(Snapshot(g), [])
  {
    ghost var G0 := Snapshot(g);
    var stack := [Pos(1, 1)];
    while stack != []
      invariant Carving(G0, Snapshot(g), stack)
      decreases Walls(Snapshot(g)), |stack|
    {
      ghost var G := Snapshot(g);
      var top := stack[|stack| - 1];
      var ns := UnvisitedNeighbours(g, top);
      if ns == [] {
        NoneLeft(g, G, top, ns);
        PopStep(G0, G, stack);
        stack := stack[..|stack| - 1];
      } else {
        var k :| 0 <= k < |ns|;
        var n := ns[k];
        assert n in ns;
        SnapshotWall(g, G, n);
        var w := Between(top, n);
        Stamp(g, G, w, Empty);
        Stamp(g, SetState(G, w, Empty), n, Empty);
        CarveStep(G0, G, stack, top, n, Snapshot(g));
        stack := stack + [n];
      }
    }
  }

  // ---------------------------------------------------------------------------
  // ensurePathToNode

  /**
   * `n` is the cell the nearest-empty scan settles on: an empty cell at the
   * least Manhattan distance from `node`, the first such in row-major order
   * (the scan replaces its pick only on a strictly smaller distance).
   */
  ghost predicate Nearest(G: Grid, node: Pos, n: Pos)
  {
    && InGrid(G, n) && G[n.x][n.y].state == Empty
    && (forall i, j {:trigger G[i][j]} :: 0 <= i < |G| && 0 <= j < |G[i]| && G[i][j].state == Empty ==>
          Manhattan(n, node) <= Manhattan(Pos(i, j), node))
    && (forall i, j {:trigger G[i][j]} :: 0 <= i < |G| && 0 <= j < |G[i]| && G[i][j].state == Empty && Before(Pos(i, j), n) ==>
          Manhattan(n, node) < Manhattan(Pos(i, j), node))
  }

  /** The grid has no empty cell. */
  ghost predicate NoEmpty(G: Grid)
  {
    forall i, j {:trigger G[i][j]} :: 0 <= i < |G| && 0 <= j < |G[i]| ==> G[i][j].state != Empty
  }

  /** The scan for the empty cell nearest to `node`, keeping its best distance as `minDistance`. */
  method NearestEmpty(g: array2<Cell>, node: Pos) returns (nearest: Option<Pos>)
    ensures nearest.None? <==> NoEmpty(Snapshot(g))
    ensures nearest.Some? ==> Nearest(Snapshot(g), node, nearest.value)
  {
    nearest := None;
    var minDistance := Infinite;
    for i := 0 to g.Length0
      invariant Scanned(g, node, nearest, minDistance, Pos(i, 0))
    {
      for j := 0 to g.Length1
        invariant Scanned(g, node, nearest, minDistance, Pos(i, j))
      {
        nearest, minDistance := ScanCell(g, node, nearest, minDistance, i, j);
      }
      RowDone(g, node, nearest, minDistance, i);
    }
    ScanDone(g, node, nearest, minDistance);
  }

  /** One cell of the scan: an empty cell strictly nearer than the best so far becomes the pick. */
  method ScanCell(g: array2<Cell>, node: Pos, nearest: Option<Pos>, minDistance: Cost, i: int, j: int)
    returns (nearest': Option<Pos>, minDistance': Cost)
    requires 0 <= i < g.Length0 && 0 <= j < g.Length1
    requires Scanned(g, node, nearest, minDistance, Pos(i, j))
    ensures Scanned(g, node, nearest', minDistance', Pos(i, j + 1))
  {
    nearest', minDistance' := nearest, minDistance;
    if g[i, j].state == Empty {
      var distance := Manhattan(Pos(i, j), node);
      if Below(Finite(distance), minDistance) {
        minDistance' := Finite(distance);
        nearest' := Some(Pos(i, j));
      }
    }
    ScanStep(g, node, nearest, minDistance, i, j, nearest', minDistance');
  }

  /**
   * The scan's state on reaching cell `c`: no pick while no empty cell was
   * scanned, otherwise the best pick among the cells scanned so far, with its
   * distance as `minDistance`.
   */
  ghost predicate Scanned(g: array2<Cell>, node: Pos, nearest: Option<Pos>, minDistance: Cost, c: Pos)
    reads g
  {
    && (nearest.None? <==>
         forall a, b :: 0 <= a < g.Length0 && 0 <= b < g.Length1 && Before(Pos(a, b), c) ==> g[a, b].state != Empty)
    && (nearest.None? ==> minDistance == Infinite)
    && (nearest.Some? ==> NearestSoFar(g, node, nearest.value, minDistance, c))
  }

  /** The best pick among the cells before `c`: `n` is empty, no farther than any of them, and nearer than those before it. */
  ghost predicate NearestSoFar(g: array2<Cell>, node: Pos, n: Pos, minDistance: Cost, c: Pos)
    reads g
  {
    && InBounds(g.Length0, g.Length1, n) && g[n.x, n.y].state == Empty && Before(n, c)
    && minDistance == Finite(Manhattan(n, node))
    && (forall a, b :: 0 <= a < g.Length0 && 0 <= b < g.Length1 && g[a, b].state == Empty && Before(Pos(a, b), c) ==>
          Manhattan(n, node) <= Manhattan(Pos(a, b), node))
    && (forall a, b :: 0 <= a < g.Length0 && 0 <= b < g.Length1 && g[a, b].state == Empty && Before(Pos(a, b), n) ==>
          Manhattan(n, node) < Manhattan(Pos(a, b), node))
  }

  /** Scanning cell `(i, j)`: the pick changes exactly when the cell is empty and strictly nearer. */
  lemma ScanStep(g: array2<Cell>, node: Pos, nearest: Option<Pos>, minDistance: Cost, i: int, j: int,
                 nearest': Option<Pos>, minDistance': Cost)
    requires 0 <= i < g.Length0 && 0 <= j < g.Length1
    requires Scanned(g, node, nearest, minDistance, Pos(i, j))
    requires var d := Manhattan(Pos(i, j), node);
      if g[i, j].state == Empty && Below(Finite(d), minDistance)
      then nearest' == Some(Pos(i, j)) && minDistance' == Finite(d)
      else nearest' == nearest && minDistance' == minDistance
    ensures Scanned(g, node, nearest', minDistance', Pos(i, j + 1))
  {
    var c, c' := Pos(i, j), Pos(i, j + 1);
    assert forall a, b :: Before(Pos(a, b), c') <==> Before(Pos(a, b), c) || (a == i && b == j);
    if nearest'.Some? && nearest' != nearest {
      var d := Manhattan(c, node);
      forall a, b | 0 <= a < g.Length0 && 0 <= b < g.Length1 && g[a, b].state == Empty && Before(Pos(a, b), c)
        ensures d < Manhattan(Pos(a, b), node)
      {
        assert nearest.Some? && Manhattan(nearest.value, node) <= Manhattan(Pos(a, b), node);
      }
    }
  }

  /** Past the last column of row `i` is the start of row `i + 1`. */
  lemma RowDone(g: array2<Cell>, node: Pos, nearest: Option<Pos>, minDistance: Cost, i: int)
    requires Scanned(g, node, nearest, minDistance, Pos(i, g.Length1))
    ensures Scanned(g, node, nearest, minDistance, Pos(i + 1, 0))
  {
    assert forall a, b :: 0 <= b < g.Length1 ==> (Before(Pos(a, b), Pos(i + 1, 0)) <==> Before(Pos(a, b), Pos(i, g.Length1)));
  }

  /** Past the last row, the scan has seen every cell. */
  lemma ScanDone(g: array2<Cell>, node: Pos, nearest: Option<Pos>, minDistance: Cost)
    requires Scanned(g, node, nearest, minDistance, Pos(g.Length0, 0))
    ensures nearest.None? <==> NoEmpty(Snapshot(g))
    ensures nearest.Some? ==> Nearest(Snapshot(g), node, nearest.value)
  {
    var G := Snapshot(g);
    assert forall a, b :: 0 <= a < g.Length0 ==> Before(Pos(a, b), Pos(g.Length0, 0));
    if nearest.Some? {
      assert NearestSoFar(g, node, nearest.value, minDistance, Pos(g.Length0, 0));
    }
  }

  /** `v` lies between `u` and `w`, inclusive, in either direction. */
  predicate Within(u: int, v: int, w: int)
  {
    (u <= v <= w) || (w <= v <= u)
  }

  /**
   * The L-shaped corridor from `a` to `b`: along `a`'s column index `a.y`
   * from row `a.x` to row `b.x`, then along row `b.x` to column `b.y`.
   */
  predicate OnCorridor(a: Pos, b: Pos, p: Pos)
  {
    (p.y == a.y && Within(a.x, p.x, b.x)) || (p.x == b.x && Within(a.y, p.y, b.y))
  }

  /** A corridor cell after digging: start and end keep their state, any other cell becomes empty. */
  function Paved(c: Cell): (d: Cell)
    ensures d.state != Wall
    ensures d == c.(state := d.state)
    ensures c.state == Start || c.state == End ==> d == c
    ensures c.state != Start && c.state != End ==> d.state == Empty
  {
    if c.state == Start || c.state == End then c else c.(state := Empty)
  }

  /** Every cell of the corridor can be walked to from `a` when no corridor cell is a wall. */
  lemma {:induction false} CorridorWalk(G: Grid, a: Pos, b: Pos, p: Pos)
    requires forall q :: OnCorridor(a, b, q) ==> Open(G, q)
    requires OnCorridor(a, b, p)
    ensures Reachable(G, a, p)
    decreases Abs(p.y - a.y), Abs(p.x - a.x)
  {
    if p.y != a.y {
      // On the second leg: step back towards column a.y.
      var q := if a.y < p.y then Pos(p.x, p.y - 1) else Pos(p.x, p.y + 1);
      assert OnCorridor(a, b, q);
      CorridorWalk(G, a, b, q);
      ReachExtend(G, a, q, p);
    } else if p.x != a.x {
      var q := if a.x < p.x then Pos(p.x - 1, p.y) else Pos(p.x + 1, p.y);
      assert OnCorridor(a, b, q);
      CorridorWalk(G, a, b, q);
      ReachExtend(G, a, q, p);
    } else {
      WalkHere(G, a);
    }
  }

  /**
   * The two digging loops of `ensurePathToNode`: from the empty cell `a`, step
   * along the column to `node`'s row, then along the row to `node`, paving
   * every cell entered.
   */
  method DigCorridor(g: array2<Cell>, a: Pos, node: Pos)
    requires InBounds(g.Length0, g.Length1, a) && g[a.x, a.y].state == Empty
    requires InBounds(g.Length0, g.Length1, node)
    modifies g
    ensures forall i, j :: 0 <= i < g.Length0 && 0 <= j < g.Length1 ==>
      g[i, j] == if OnCorridor(a, node, Pos(i, j)) then Paved(old(g[i, j])) else old(g[i, j])
  {
    var currentX, currentY := a.x, a.y;
    assert Paved(g[a.x, a.y]) == g[a.x, a.y];
    // Move along the column first, then along the row.
    while currentX != node.x
      invariant currentY == a.y && Within(a.x, currentX, node.x)
      invariant forall i, j :: 0 <= i < g.Length0 && 0 <= j < g.Length1 ==>
        g[i, j] == if j == a.y && Within(a.x, i, currentX) then Paved(old(g[i, j])) else old(g[i, j])
      decreases Abs(node.x - currentX)
    {
      currentX := if currentX < node.x then currentX + 1 else currentX - 1;
      if !(g[currentX, currentY].state == Start || g[currentX, currentY].state == End) {
        g[currentX, currentY] := g[currentX, currentY].(state := Empty);
      }
    }
    while currentY != node.y
      invariant currentX == node.x && Within(a.y, currentY, node.y)
      invariant forall i, j :: 0 <= i < g.Length0 && 0 <= j < g.Length1 ==>
        g[i, j] == if (j == a.y && Within(a.x, i, node.x)) || (i == node.x && Within(a.y, j, currentY))
                   then Paved(old(g[i, j])) else old(g[i, j])
      decreases Abs(node.y - currentY)
    {
      currentY := if currentY < node.y then currentY + 1 else currentY - 1;
      if !(g[currentX, currentY].state == Start || g[currentX, currentY].state == End) {
        g[currentX, currentY] := g[currentX, currentY].(state := Empty);
      }
    }
  }

  /** `H` is `G` with the corridor from `a` to `node` paved. */
  predicate PavedFrom(G: Grid, H: Grid, a: Pos, node: Pos)
  {
    && |H| == |G| && (forall i :: 0 <= i < |G| ==> |H[i]| == |G[i]|)
    && forall i, j {:trigger H[i][j]} :: 0 <= i < |G| && 0 <= j < |G[i]| ==>
         H[i][j] == if OnCorridor(a, node, Pos(i, j)) then Paved(G[i][j]) else G[i][j]
  }

  /**
   * `ensurePathToNode`: when the grid has an empty cell, the corridor from the
   * nearest one to `node` is dug (start and end cells are left alone) and
   * every corridor cell, `node` included, can then be walked to from it; with
   * no empty cell the grid is left as it is. `nearest` names the cell the scan
   * settled on.
   */
  method EnsurePathToNode(g: array2<Cell>, node: Pos) returns (ghost nearest: Option<Pos>)
    requires InBounds(g.Length0, g.Length1, node)
    modifies g
    ensures nearest.None? <==> NoEmpty(old(Snapshot(g)))
    ensures nearest.None? ==> Snapshot(g) == old(Snapshot(g))
    ensures nearest.Some? ==> Nearest(old(Snapshot(g)), node, nearest.value)
    ensures nearest.Some? ==> PavedFrom(old(Snapshot(g)), Snapshot(g), nearest.value, node)
    ensures nearest.Some? ==> forall p :: OnCorridor(nearest.value, node, p) ==> Reachable(Snapshot(g), nearest.value, p)
  {
    ghost var G := Snapshot(g);
    var found := NearestEmpty(g, node);
    nearest := found;
    if found.None? {
      return;
    }
    var a := found.value;
    DigCorridor(g, a, node);
    ghost var H := Snapshot(g);
    assert PavedFrom(G, H, a, node);
    forall q | OnCorridor(a, node, q) ensures Open(H, q) {
      assert Within(0, q.x, g.Length0 - 1) && Within(0, q.y, g.Length1 - 1);
    }
    forall p | OnCorridor(a, node, p) ensures Reachable(H, a, p) {
      CorridorWalk(H, a, node, p);
    }
  }

  // ---------------------------------------------------------------------------
  // The whole generator

  /** `H` is `G` with the cell at `p` stamped with `st`, a marker that is neither a wall nor empty. */
  lemma StampKeeps(G: Grid, H: Grid, p: Pos, st: CellState, root: Pos)
    requires InGrid(G, p) && st != Wall && st != Empty
    requires H == SetState(G, p, st)
    requires Rooted(G, root)
    ensures Rooted(H, root) && OpenMono(G, H) && SameButState(G, H)
  {
    forall q | Open(G, q) ensures Open(H, q) {
      assert H[q.x][q.y].state == st || H[q.x][q.y] == G[q.x][q.y];
    }
    forall i, j | 0 <= i < |H| && 0 <= j < |H[i]| && H[i][j].state == Empty
      ensures Reachable(H, root, Pos(i, j))
    {
      assert G[i][j] == H[i][j];
      assert Reachable(G, root, Pos(i, j));
      ReachMono(G, H, root, Pos(i, j));
    }
  }

  /**
   * A paved corridor keeps every empty cell reachable from `root`, and makes
   * `node` reachable too: the corridor starts at an empty cell, which already was.
   */
  lemma PaveKeeps(G: Grid, H: Grid, a: Pos, node: Pos, root: Pos)
    requires Rooted(G, root) && InGrid(G, a) && G[a.x][a.y].state == Empty
    requires PavedFrom(G, H, a, node)
    requires forall p :: OnCorridor(a, node, p) ==> Reachable(H, a, p)
    ensures Rooted(H, root) && Reachable(H, root, node) && OpenMono(G, H) && SameButState(G, H)
    ensures OnlyEmptied(G, H)
  {
    forall q | Open(G, q) ensures Open(H, q) {
      assert H[q.x][q.y] == Paved(G[q.x][q.y]) || H[q.x][q.y] == G[q.x][q.y];
    }
    forall i, j | 0 <= i < |G| && 0 <= j < |G[i]| ensures H[i][j] == G[i][j].(state := H[i][j].state) {
      if H[i][j] == G[i][j] {
        assert G[i][j].(state := G[i][j].state) == G[i][j];
      }
    }
    assert Reachable(G, root, a);
    ReachMono(G, H, root, a);
    assert OnCorridor(a, node, node);
    ReachTrans(H, root, a, node);
    forall i, j | 0 <= i < |H| && 0 <= j < |H[i]| && H[i][j].state == Empty
      ensures Reachable(H, root, Pos(i, j))
    {
      if OnCorridor(a, node, Pos(i, j)) {
        ReachTrans(H, root, a, Pos(i, j));
      } else {
        assert G[i][j] == H[i][j];
        assert Reachable(G, root, Pos(i, j));
        ReachMono(G, H, root, Pos(i, j));
      }
    }
  }

  lemma SameButStateTrans(F: Grid, G: Grid, H: Grid)
    requires SameButState(F, G) && SameButState(G, H)
    ensures SameButState(F, H)
  {
    forall i, j | 0 <= i < |F| && 0 <= j < |F[i]| ensures H[i][j] == F[i][j].(state := H[i][j].state) {
      assert G[i][j] == F[i][j].(state := G[i][j].state);
    }
  }

  /** The generator's freshly stamped grid: (1, 1) is its only empty cell. */
  lemma InitialMaze(G: Grid)
    requires |G| >= 2 && |G[1]| >= 2 && G[1][1].state == Empty
    requires forall i, j :: 0 <= i < |G| && 0 <= j < |G[i]| && G[i][j].state == Empty ==> i == 1 && j == 1
    ensures Rooted(G, Pos(1, 1)) && Backtracked(G, [Pos(1, 1)])
  {
    WalkHere(G, Pos(1, 1));
  }

  /** The start and the end hang off (1, 1), which is open: each is reachable from the other side. */
  lemma Joined(G: Grid, root: Pos, s: Pos, e: Pos)
    requires Open(G, root) && Rooted(G, root)
    requires Reachable(G, root, s) && Reachable(G, root, e)
    ensures Reachable(G, s, e)
    ensures forall i, j :: 0 <= i < |G| && 0 <= j < |G[i]| && G[i][j].state == Empty ==> Reachable(G, s, Pos(i, j))
  {
    ReachSymmetric(G, root, s);
    ReachTrans(G, s, root, e);
    forall i, j | 0 <= i < |G| && 0 <= j < |G[i]| && G[i][j].state == Empty ensures Reachable(G, s, Pos(i, j)) {
      assert Reachable(G, root, Pos(i, j));
      ReachTrans(G, s, root, Pos(i, j));
    }
  }

  /** What a generated maze `M` promises for the start `s` and the end `e`. */
  ghost predicate MazeOk(M: Grid, s: Pos, e: Pos)
  {
    && InGrid(M, s) && InGrid(M, e)
    && M[e.x][e.y].state == End
    && M[s.x][s.y].state == (if s == e then End else Start)
    && Plain(M, s, e)
    && Reachable(M, s, e)
    && forall i, j :: 0 <= i < |M| && 0 <= j < |M[i]| && M[i][j].state == Empty ==> Reachable(M, s, Pos(i, j))
  }

  /**
   * A generated maze holds exactly one end cell, `e`, and exactly one start
   * cell, `s`, unless the two coincide, when the end has taken it.
   */
  lemma MazeMarkers(M: Grid, s: Pos, e: Pos)
    requires MazeOk(M, s, e)
    ensures forall i, j :: 0 <= i < |M| && 0 <= j < |M[i]| ==> (M[i][j].state == End <==> Pos(i, j) == e)
    ensures forall i, j :: 0 <= i < |M| && 0 <= j < |M[i]| ==> (M[i][j].state == Start <==> Pos(i, j) == s && s != e)
  {
  }

  /**
   * `generateMazeDFS`: `None` where the source throws, that is when the grid
   * has no end cell or is too small to hold cell (1, 1); otherwise a fresh
   * grid that differs from the caller's only in cell states, with the start
   * and the first end cell marked, every other cell a wall or empty, the end
   * reachable from the start, and every empty cell reachable from the start.
   */
  method GenerateMaze(grid: array2<Cell>, start: Pos) returns (maze: Option<array2<Cell>>)
    requires InBounds(grid.Length0, grid.Length1, start)
    ensures maze.None? <==>
      (forall i, j :: 0 <= i < grid.Length0 && 0 <= j < grid.Length1 ==> grid[i, j].state != End) ||
      grid.Length0 < 2 || grid.Length1 < 2
    ensures maze.Some? ==> fresh(maze.value) && SameButState(Snapshot(grid), Snapshot(maze.value))
    ensures maze.Some? ==> forall e :: FirstEnd(grid, e) ==> MazeOk(Snapshot(maze.value), start, e)
  {
    var end := FindEnd(grid);
    if end.None? || grid.Length0 < 2 || grid.Length1 < 2 {
      return None;
    }
    var e := end.value;
    var m := Prepare(grid, start, e);
    ghost var G1 := Snapshot(m);
    Carve(m);
    ghost var G2: Grid := Snapshot(m);
    DugOpen(G1, G2);
    PlainKept(G1, G2, start, e);
    SameButStateTrans(Snapshot(grid), G1, G2);
    Connect(m, start, e);
    SameButStateTrans(Snapshot(grid), G2, Snapshot(m));
    forall e' | FirstEnd(grid, e') ensures MazeOk(Snapshot(m), start, e') {
      FirstEndUnique(grid, e, e');
    }
    maze := Some(m);
  }

  /**
   * The grid the carving starts from: the wall-filled copy with the start and
   * the end stamped and cell (1, 1) emptied, the only empty cell.
   */
  method Prepare(grid: array2<Cell>, start: Pos, e: Pos) returns (m: array2<Cell>)
    requires grid.Length0 >= 2 && grid.Length1 >= 2
    requires InBounds(grid.Length0, grid.Length1, start) && InBounds(grid.Length0, grid.Length1, e)
    ensures fresh(m) && m.Length0 == grid.Length0 && m.Length1 == grid.Length1
    ensures SameButState(Snapshot(grid), Snapshot(m))
    ensures m[1, 1].state == Empty && Plain(Snapshot(m), start, e)
    ensures Rooted(Snapshot(m), Pos(1, 1)) && Backtracked(Snapshot(m), [Pos(1, 1)])
  {
    m := FillWalls(grid);
    ghost var W: Grid := Snapshot(m);
    assert forall i, j :: 0 <= i < |W| && 0 <= j < |W[i]| ==> W[i][j] == grid[i, j].(state := Wall);
    Stamp(m, W, start, Start);
    Stamp(m, SetState(W, start, Start), e, End);
    Stamp(m, SetState(SetState(W, start, Start), e, End), Pos(1, 1), Empty);
    Stamped(Snapshot(grid), W, Snapshot(m), start, e);
    StampedPlain(W, Snapshot(m), start, e);
  }

  /** The wall-filled grid with the two markers stamped and (1, 1) emptied holds no other marker. */
  lemma StampedPlain(W: Grid, G1: Grid, start: Pos, e: Pos)
    requires InGrid(W, start) && InGrid(W, e) && InGrid(W, Pos(1, 1))
    requires forall i, j :: 0 <= i < |W| && 0 <= j < |W[i]| ==> W[i][j].state == Wall
    requires G1 == SetState(SetState(SetState(W, start, Start), e, End), Pos(1, 1), Empty)
    ensures Plain(G1, start, e)
  {
  }

  /** The wall-filled copy `W` of `G0`, stamped: only states differ from `G0`, and (1, 1) is the only empty cell. */
  lemma Stamped(G0: Grid, W: Grid, G1: Grid, start: Pos, e: Pos)
    requires |G0| >= 2 && IsGrid(G0, |G0|, |G0[0]|) && |G0[0]| >= 2
    requires InGrid(G0, start) && InGrid(G0, e)
    requires IsGrid(W, |G0|, |G0[0]|)
    requires forall i, j :: 0 <= i < |W| && 0 <= j < |W[i]| ==> W[i][j] == G0[i][j].(state := Wall)
    requires G1 == SetState(SetState(SetState(W, start, Start), e, End), Pos(1, 1), Empty)
    ensures SameButState(G0, G1) && G1[1][1].state == Empty
    ensures Rooted(G1, Pos(1, 1)) && Backtracked(G1, [Pos(1, 1)])
  {
    forall i, j | 0 <= i < |G1| && 0 <= j < |G1[i]| && G1[i][j].state == Empty ensures i == 1 && j == 1 {
    }
    InitialMaze(G1);
  }

  /**
   * `ensurePathToNode` inside the generator: with (1, 1) empty and every empty
   * cell reachable from it, `node` becomes reachable from (1, 1) and the empty
   * cells stay so.
   */
  method Link(m: array2<Cell>, node: Pos)
    requires InBounds(m.Length0, m.Length1, node) && m.Length0 >= 2 && m.Length1 >= 2
    requires m[1, 1].state == Empty && Rooted(Snapshot(m), Pos(1, 1))
    modifies m
    ensures m[1, 1].state == Empty && Rooted(Snapshot(m), Pos(1, 1))
    ensures Reachable(Snapshot(m), Pos(1, 1), node)
    ensures OpenMono(old(Snapshot(m)), Snapshot(m)) && SameButState(old(Snapshot(m)), Snapshot(m))
    ensures OnlyEmptied(old(Snapshot(m)), Snapshot(m))
  {
    ghost var G: Grid := Snapshot(m);
    assert G[1][1].state == Empty;
    ghost var nearest := EnsurePathToNode(m, node);
    PaveKeeps(G, Snapshot(m), nearest.value, node, Pos(1, 1));
    assert Paved(G[1][1]) == G[1][1];
  }

  /** The two corridors and the final stamps: the start and the end joined through (1, 1). */
  method Connect(m: array2<Cell>, start: Pos, e: Pos)
    requires InBounds(m.Length0, m.Length1, start) && InBounds(m.Length0, m.Length1, e)
    requires m.Length0 >= 2 && m.Length1 >= 2
    requires m[1, 1].state == Empty && Rooted(Snapshot(m), Pos(1, 1))
    requires Plain(Snapshot(m), start, e)
    modifies m
    ensures SameButState(old(Snapshot(m)), Snapshot(m))
    ensures MazeOk(Snapshot(m), start, e)
  {
    ghost var root := Pos(1, 1);
    ghost var G2: Grid := Snapshot(m);
    Link(m, start);
    ghost var G3: Grid := Snapshot(m);
    Link(m, e);
    ghost var G4: Grid := Snapshot(m);
    PlainKept(G2, G3, start, e);
    PlainKept(G3, G4, start, e);
    ReachMono(G3, G4, root, start);
    assert Open(G4, root);
    Stamp(m, G4, start, Start);
    ghost var G5: Grid := Snapshot(m);
    StampKeeps(G4, G5, start, Start, root);
    Stamp(m, G5, e, End);
    ghost var G6: Grid := Snapshot(m);
    StampKeeps(G5, G6, e, End, root);
    SameButStateTrans(G2, G3, G4);
    SameButStateTrans(G2, G4, G5);
    SameButStateTrans(G2, G5, G6);
    ReachMono(G4, G5, root, start);
    ReachMono(G5, G6, root, start);
    ReachMono(G4, G5, root, e);
    ReachMono(G5, G6, root, e);
    Joined(G6, root, start, e);
  }
}
