/**
 * Depth-first search (src/algorithms/dfs.ts). The caller's grid is only read:
 * the search runs on a working copy whose `visited`, `prevNode` and `cost` are
 * cleared and whose walls are then pre-marked visited. A stack replaces the
 * queue; every enterable neighbour of a visited cell gets its `prevNode`
 * pointed back and is pushed, so the last neighbour pushed (left) is the next
 * one popped.
 *
 * The proof keeps, as ghost state, the rank of every visited cell (its
 * position in the visited list) and the `prevNode` links as a map. A visited
 * cell's link is never rewritten, because only unvisited cells are pushed, so
 * links always go to a cell visited earlier and the backtrace terminates.
 */
module Dfs {
  import opened GridModel
  import opened Walks
  import opened Neighbourhood

  /** A cell of the working copy before the walls are marked: flags and links cleared, cost infinite. */
  function Cleared(c: Cell): Cell
  {
    c.(visited := false, prev := None, cost := Infinite)
  }

  /**
   * The `grid.map(row => row.map(...))` copy: a fresh array of the same size
   * whose cells keep their state and lose their search fields.
   */
  method CopyCleared(grid: array2<Cell>) returns (w: array2<Cell>)
    ensures fresh(w) && w.Length0 == grid.Length0 && w.Length1 == grid.Length1
    ensures forall i, j :: 0 <= i < w.Length0 && 0 <= j < w.Length1 ==>
      w[i, j].state == grid[i, j].state && !w[i, j].visited && w[i, j].prev == None && w[i, j].cost == Infinite
  {
    w := new Cell[grid.Length0, grid.Length1];
    for i := 0 to grid.Length0
      invariant forall a, b :: 0 <= a < i && 0 <= b < grid.Length1 ==> w[a, b] == Cleared(grid[a, b])
    {
      for j := 0 to grid.Length1
        invariant forall a, b :: 0 <= a < i && 0 <= b < grid.Length1 ==> w[a, b] == Cleared(grid[a, b])
        invariant forall b :: 0 <= b < j ==> w[i, b] == Cleared(grid[i, b])
      {
        w[i, j] := Cleared(grid[i, j]);
      }
    }
  }

  /** The nested loop that marks every wall of the working copy visited; nothing else changes. */
  method MarkWalls(w: array2<Cell>)
    modifies w
    ensures forall i, j :: 0 <= i < w.Length0 && 0 <= j < w.Length1 ==>
      w[i, j] == old(w[i, j]).(visited := old(w[i, j]).visited || old(w[i, j]).state == Wall)
  {
    for i := 0 to w.Length0
      invariant forall a, b :: 0 <= a < w.Length0 && 0 <= b < w.Length1 ==>
        w[a, b] == if a < i then old(w[a, b]).(visited := old(w[a, b]).visited || old(w[a, b]).state == Wall)
                   else old(w[a, b])
    {
      for j := 0 to w.Length1
        invariant forall a, b :: 0 <= a < w.Length0 && 0 <= b < w.Length1 ==>
          w[a, b] == if a < i || (a == i && b < j) then old(w[a, b]).(visited := old(w[a, b]).visited || old(w[a, b]).state == Wall)
                     else old(w[a, b])
      {
        if w[i, j].state == Wall {
          w[i, j] := w[i, j].(visited := true);
        }
      }
    }
  }

  /**
   * The working copy against the search's bookkeeping: states as in the
   * caller's grid `G0`, cost 0 at the start and infinite elsewhere, `visited`
   * set on walls and on the cells of `V`, `prevNode` as recorded in `prv`.
   */
  ghost predicate Mirror(w: array2<Cell>, G0: Grid, s: Pos, V: seq<Pos>, prv: map<Pos, Pos>)
    reads w
  {
    && IsGrid(G0, w.Length0, w.Length1)
    && forall i, j {:trigger w[i, j]} :: 0 <= i < w.Length0 && 0 <= j < w.Length1 ==>
         && w[i, j].state == G0[i][j].state
         && w[i, j].cost == (if Pos(i, j) == s then Finite(0) else Infinite)
         && (w[i, j].visited <==> G0[i][j].state == Wall || Pos(i, j) in V)
         && w[i, j].prev == (if Pos(i, j) in prv then Some(prv[Pos(i, j)]) else None)
  }

  /**
   * The visited cells, in visiting order: distinct, the start first, each one
   * open and reachable from the start, each ranked below the list's length.
   */
  ghost predicate VisitedOk(G0: Grid, s: Pos, V: seq<Pos>, rk: map<Pos, nat>)
  {
    && NoDup(V)
    && (V != [] ==> V[0] == s)
    && forall v :: v in V ==> Open(G0, v) && Reachable(G0, s, v) && v in rk && rk[v] < |V|
  }

  /**
   * The links: the start has none, every other visited cell has one, every
   * link goes from an open cell to an adjacent visited cell, and a visited
   * cell's link goes to a cell of lower rank.
   */
  ghost predicate Linked(G0: Grid, s: Pos, V: seq<Pos>, rk: map<Pos, nat>, prv: map<Pos, Pos>)
  {
    && s !in prv
    && (forall v :: v in V && v != s ==> v in prv)
    && (forall v {:trigger prv[v]} :: v in prv ==> prv[v] in V && Adjacent(prv[v], v) && Open(G0, v))
    && (forall v {:trigger prv[v]} :: v in prv && v in V ==> prv[v] in rk && v in rk && rk[prv[v]] < rk[v])
  }

  /** Every stack entry is a grid cell, and is the start or a linked cell. */
  ghost predicate StackOk(G0: Grid, s: Pos, prv: map<Pos, Pos>, S: seq<Pos>)
  {
    forall i :: 0 <= i < |S| ==> InGrid(G0, S[i]) && (S[i] == s || S[i] in prv)
  }

  /** Every open neighbour of a visited cell outside `Ex` is visited or on the stack. */
  ghost predicate Closed(G0: Grid, V: seq<Pos>, S: seq<Pos>, Ex: set<Pos>)
  {
    forall v, p :: v in V && v !in Ex && Adjacent(v, p) && Open(G0, p) ==> p in V || p in S
  }

  /** What holds before each round of the main loop. */
  ghost predicate SearchInv(w: array2<Cell>, G0: Grid, s: Pos, e: Pos, V: seq<Pos>, rk: map<Pos, nat>,
                            prv: map<Pos, Pos>, S: seq<Pos>)
    reads w
  {
    && Mirror(w, G0, s, V, prv)
    && VisitedOk(G0, s, V, rk)
    && Linked(G0, s, V, rk, prv)
    && StackOk(G0, s, prv, S)
    && Closed(G0, V, S, {})
    && (s !in V ==> V == [] && (S == [s] || (S == [] && !Open(G0, s))))
    && e !in V
  }

  /**
   * What the main loop leaves behind: either `e` visited last with a
   * backtraced path, or `e` not reachable, the path empty and every cell
   * reachable from an open start visited. A walled start is popped, found
   * visited, and skipped, so nothing is visited at all.
   */
  ghost predicate Outcome(w: array2<Cell>, G0: Grid, s: Pos, e: Pos, V: seq<Pos>, path: seq<Pos>,
                          rk: map<Pos, nat>, prv: map<Pos, Pos>)
    reads w
  {
    && Mirror(w, G0, s, V, prv) && VisitedOk(G0, s, V, rk) && Linked(G0, s, V, rk, prv)
    && (e in V <==> Open(G0, s) && Reachable(G0, s, e))
    && (e in V ==> V[|V| - 1] == e && TracesBack(G0, s, e, path))
    && (e !in V ==> path == [] && forall p :: p in V <==> Open(G0, s) && Reachable(G0, s, p))
  }

  /**
   * `dfs`. The caller's grid is not modified. The visited list holds distinct
   * open cells reachable from the start, the start first; `e` is in it
   * exactly when the start is open and `e` is reachable, and then it is the
   * last one and the path is the backtrace. Otherwise the path is empty and
   * the visited cells are the start's open component.
   */
  method Dfs(grid: array2<Cell>, s: Pos, e: Pos) returns (visited: seq<Pos>, path: seq<Pos>)
    requires InBounds(grid.Length0, grid.Length1, s) && InBounds(grid.Length0, grid.Length1, e)
    ensures NoDup(visited) && (visited != [] ==> visited[0] == s)
    ensures forall v :: v in visited ==> Open(Snapshot(grid), v) && Reachable(Snapshot(grid), s, v)
    ensures e in visited <==> Open(Snapshot(grid), s) && Reachable(Snapshot(grid), s, e)
    ensures e in visited ==> visited[|visited| - 1] == e && TracesBack(Snapshot(grid), s, e, path)
    ensures e !in visited ==>
      path == [] && forall p :: p in visited <==> Open(Snapshot(grid), s) && Reachable(Snapshot(grid), s, p)
  {
    var w := Prepare(grid, s);
    ghost var rk: map<Pos, nat>, prv: map<Pos, Pos>;
    visited, path, rk, prv := Search(w, Snapshot(grid), s, e);
  }

  /**
   * The set-up of `dfs`: the cleared copy with its walls marked visited and
   * the start's cost set to 0, which is the state the main loop starts from.
   */
  method Prepare(grid: array2<Cell>, s: Pos) returns (w: array2<Cell>)
    requires InBounds(grid.Length0, grid.Length1, s)
    ensures fresh(w) && Mirror(w, Snapshot(grid), s, [], map[])
  {
    ghost var G0: Grid := Snapshot(grid);
    w := CopyCleared(grid);
    MarkWalls(w);
    w[s.x, s.y] := w[s.x, s.y].(cost := Finite(0));
    forall i, j | 0 <= i < w.Length0 && 0 <= j < w.Length1
      ensures w[i, j].cost == (if Pos(i, j) == s then Finite(0) else Infinite)
    {
      if Pos(i, j) == s {
        assert i == s.x && j == s.y;
      }
    }
  }

  /** The main loop of `dfs`, on the working copy `w` of the caller's grid `G0`. */
  method Search(w: array2<Cell>, ghost G0: Grid, s: Pos, e: Pos)
    returns (visited: seq<Pos>, path: seq<Pos>, ghost rk: map<Pos, nat>, ghost prv: map<Pos, Pos>)
    requires Mirror(w, G0, s, [], map[]) && InGrid(G0, s)
    modifies w
    ensures Outcome(w, G0, s, e, visited, path, rk, prv)
  {
    var stack := [s];
    visited, rk, prv := [], map[], map[];
    while |stack| > 0
      invariant SearchInv(w, G0, s, e, visited, rk, prv, stack)
      decreases AllCells(w.Length0, w.Length1) - Elems(visited), |stack|
    {
      var found;
      visited, stack, rk, prv, found, path := Round(w, G0, s, e, visited, stack, rk, prv);
      if found {
        return;
      }
    }
    path := [];
    SearchEnd(w, G0, s, e, visited, rk, prv);
  }

  /** An empty stack: `e` was never reached, and the visited cells are the open start's component. */
  lemma SearchEnd(w: array2<Cell>, G0: Grid, s: Pos, e: Pos, V: seq<Pos>, rk: map<Pos, nat>, prv: map<Pos, Pos>)
    requires SearchInv(w, G0, s, e, V, rk, prv, [])
    ensures Outcome(w, G0, s, e, V, [], rk, prv)
  {
    if s in V {
      forall p | Reachable(G0, s, p) ensures p in V {
        var q :| WalkFrom(G0, s, p, q);
        ClosedSetHoldsWalk(G0, Elems(V), q);
      }
    }
  }

  /**
   * One round of the main loop: pop; skip a visited cell (a wall, or a cell
   * pushed twice); otherwise visit it and either stop at `e` with the
   * backtraced path or push its enterable neighbours.
   */
  method Round(w: array2<Cell>, ghost G0: Grid, s: Pos, e: Pos, V: seq<Pos>, S: seq<Pos>,
               ghost rk: map<Pos, nat>, ghost prv: map<Pos, Pos>)
    returns (V': seq<Pos>, S': seq<Pos>, ghost rk': map<Pos, nat>, ghost prv': map<Pos, Pos>,
             found: bool, path: seq<Pos>)
    requires SearchInv(w, G0, s, e, V, rk, prv, S) && |S| > 0
    modifies w
    ensures found ==> Outcome(w, G0, s, e, V', path, rk', prv')
    ensures !found ==> SearchInv(w, G0, s, e, V', rk', prv', S')
    ensures !found ==> (AllCells(w.Length0, w.Length1) - Elems(V') < AllCells(w.Length0, w.Length1) - Elems(V)
                        || (V' == V && |S'| < |S|))
    ensures S[|S| - 1] in V || !Open(G0, S[|S| - 1]) ==> !found && V' == V && S' == S[..|S| - 1] && prv' == prv
    ensures S[|S| - 1] !in V && Open(G0, S[|S| - 1]) ==> V' == V + [S[|S| - 1]] && (found <==> S[|S| - 1] == e)
    ensures S[|S| - 1] !in V && Open(G0, S[|S| - 1]) && !found ==>
      var ns := Around(G0, V', S[|S| - 1]); S' == S[..|S| - 1] + ns && Relinked(prv, prv', ns, S[|S| - 1])
  {
    var node := S[|S| - 1];
    S' := S[..|S| - 1];
    V', rk', prv', found, path := V, rk, prv, false, [];
    assert Pos(node.x, node.y) == node;
    if w[node.x, node.y].visited {
      Skip(w, G0, s, e, V, rk, prv, S);
    } else {
      V', S', rk', prv', found, path := Step(w, G0, s, e, V, S, rk, prv);
    }
  }

  /** A round whose popped cell is not yet visited: visit it, then stop at `e` or push its neighbours. */
  method Step(w: array2<Cell>, ghost G0: Grid, s: Pos, e: Pos, V: seq<Pos>, S: seq<Pos>,
              ghost rk: map<Pos, nat>, ghost prv: map<Pos, Pos>)
    returns (V': seq<Pos>, S': seq<Pos>, ghost rk': map<Pos, nat>, ghost prv': map<Pos, Pos>,
             found: bool, path: seq<Pos>)
    requires SearchInv(w, G0, s, e, V, rk, prv, S) && |S| > 0
    requires InBounds(w.Length0, w.Length1, S[|S| - 1]) && !w[S[|S| - 1].x, S[|S| - 1].y].visited
    modifies w
    ensures found ==> Outcome(w, G0, s, e, V', path, rk', prv')
    ensures !found ==> SearchInv(w, G0, s, e, V', rk', prv', S')
    ensures !found ==> AllCells(w.Length0, w.Length1) - Elems(V') < AllCells(w.Length0, w.Length1) - Elems(V)
    ensures V' == V + [S[|S| - 1]] && (found <==> S[|S| - 1] == e)
    ensures !found ==>
      var ns := Around(G0, V', S[|S| - 1]); S' == S[..|S| - 1] + ns && Relinked(prv, prv', ns, S[|S| - 1])
  {
    var node := S[|S| - 1];
    S', prv', found, path := S[..|S| - 1], prv, false, [];
    V', rk' := VisitCell(w, G0, s, e, node, V, rk, prv, S);
    if node == e {
      found := true;
      path := Finish(w, G0, s, e, V', rk', prv');
      return;
    }
    S', prv' := Descend(w, G0, s, e, node, V', rk', prv', S');
  }

  /** After a visit that is not `e`: fetch the visited cell's neighbours and push them. */
  method Descend(w: array2<Cell>, ghost G0: Grid, s: Pos, e: Pos, node: Pos, ghost V: seq<Pos>,
                 ghost rk: map<Pos, nat>, ghost prv: map<Pos, Pos>, S: seq<Pos>)
    returns (S': seq<Pos>, ghost prv': map<Pos, Pos>)
    requires Mirror(w, G0, s, V, prv) && VisitedOk(G0, s, V, rk) && Linked(G0, s, V, rk, prv)
    requires StackOk(G0, s, prv, S) && Closed(G0, V, S, {node}) && node in V && s in V && e !in V
    modifies w
    ensures S' == S + Around(G0, V, node) && Relinked(prv, prv', Around(G0, V, node), node)
    ensures SearchInv(w, G0, s, e, V, rk, prv', S')
  {
    var ns := Neighbours(w, node);
    NeighboursOpen(w, G0, s, V, prv, node);
    S', prv' := Expand(w, G0, s, node, V, rk, prv, S, ns);
  }

  /** A popped cell already marked visited is dropped; nothing else changes. */
  lemma Skip(w: array2<Cell>, G0: Grid, s: Pos, e: Pos, V: seq<Pos>, rk: map<Pos, nat>, prv: map<Pos, Pos>,
             S: seq<Pos>)
    requires SearchInv(w, G0, s, e, V, rk, prv, S) && |S| > 0
    requires InBounds(w.Length0, w.Length1, S[|S| - 1]) && w[S[|S| - 1].x, S[|S| - 1].y].visited
    ensures SearchInv(w, G0, s, e, V, rk, prv, S[..|S| - 1])
  {
    var node := S[|S| - 1];
    assert Pos(node.x, node.y) == node;
    assert node in V || !Open(G0, node);
    Drop(G0, s, V, prv, S);
  }

  /** Dropping the top of the stack when it is visited, or a wall, keeps the stack's invariants. */
  lemma Drop(G0: Grid, s: Pos, V: seq<Pos>, prv: map<Pos, Pos>, S: seq<Pos>)
    requires StackOk(G0, s, prv, S) && Closed(G0, V, S, {}) && |S| > 0
    requires S[|S| - 1] in V || !Open(G0, S[|S| - 1])
    ensures StackOk(G0, s, prv, S[..|S| - 1]) && Closed(G0, V, S[..|S| - 1], {})
  {
    var S' := S[..|S| - 1];
    forall i | 0 <= i < |S'| ensures InGrid(G0, S'[i]) && (S'[i] == s || S'[i] in prv) {
      assert S'[i] == S[i];
    }
    forall v, p | v in V && Adjacent(v, p) && Open(G0, p) ensures p in V || p in S' {
      if p !in V {
        var i :| 0 <= i < |S| && S[i] == p;
        if i < |S| - 1 {
          assert S'[i] == p;
        }
      }
    }
  }

  /** Marks the popped cell visited and appends it to the visited list, ranked after every earlier one. */
  method VisitCell(w: array2<Cell>, ghost G0: Grid, s: Pos, e: Pos, node: Pos, V: seq<Pos>,
                   ghost rk: map<Pos, nat>, ghost prv: map<Pos, Pos>, ghost S: seq<Pos>)
    returns (V': seq<Pos>, ghost rk': map<Pos, nat>)
    requires SearchInv(w, G0, s, e, V, rk, prv, S) && |S| > 0 && node == S[|S| - 1]
    requires InBounds(w.Length0, w.Length1, node) && !w[node.x, node.y].visited
    modifies w
    ensures V' == V + [node] && rk' == rk[node := |V|]
    ensures Mirror(w, G0, s, V', prv) && VisitedOk(G0, s, V', rk') && Linked(G0, s, V', rk', prv)
    ensures StackOk(G0, s, prv, S[..|S| - 1]) && Closed(G0, V', S[..|S| - 1], {node}) && s in V'
    ensures AllCells(w.Length0, w.Length1) - Elems(V') < AllCells(w.Length0, w.Length1) - Elems(V)
  {
    assert node == Pos(node.x, node.y);
    assert node !in V && Open(G0, node);
    assert if node == s then V == [] else s in V && node in prv;
    Visit(G0, s, V, rk, prv, node);
    Pop(G0, s, V, prv, S);
    assert node in AllCells(w.Length0, w.Length1);
    MarkVisited(w, G0, s, V, prv, node);
    V' := V + [node];
    rk' := rk[node := |V|];
    assert Elems(V') == Elems(V) + {node};
  }

  /** `grid[node].visited = true`: the working grid follows the visited list. */
  method MarkVisited(w: array2<Cell>, ghost G0: Grid, ghost s: Pos, ghost V: seq<Pos>, ghost prv: map<Pos, Pos>,
                     node: Pos)
    requires Mirror(w, G0, s, V, prv) && 0 <= node.x < w.Length0 && 0 <= node.y < w.Length1
    modifies w
    ensures Mirror(w, G0, s, V + [node], prv)
  {
    w[node.x, node.y] := w[node.x, node.y].(visited := true);
    forall i, j | 0 <= i < w.Length0 && 0 <= j < w.Length1
      ensures w[i, j].visited <==> G0[i][j].state == Wall || Pos(i, j) in V || Pos(i, j) == node
    {
      if Pos(i, j) == node {
        assert i == node.x && j == node.y;
      }
    }
  }

  /** The bookkeeping side of a visit: the new cell is reachable, ranked last, and linked below its rank. */
  lemma Visit(G0: Grid, s: Pos, V: seq<Pos>, rk: map<Pos, nat>, prv: map<Pos, Pos>, node: Pos)
    requires VisitedOk(G0, s, V, rk) && Linked(G0, s, V, rk, prv) && node !in V && Open(G0, node)
    requires if node == s then V == [] else s in V && node in prv
    ensures VisitedOk(G0, s, V + [node], rk[node := |V|]) && Linked(G0, s, V + [node], rk[node := |V|], prv)
  {
    var V', rk' := V + [node], rk[node := |V|];
    if node != s {
      assert Reachable(G0, s, prv[node]);
      ReachExtend(G0, s, prv[node], node);
    } else {
      assert WalkFrom(G0, s, s, [s]);
    }
    forall v | v in V' ensures Open(G0, v) && Reachable(G0, s, v) && v in rk' && rk'[v] < |V'| {
      if v != node {
        assert v in V;
      }
    }
    forall v | v in prv && v in V' ensures prv[v] in rk' && v in rk' && rk'[prv[v]] < rk'[v] {
      assert prv[v] in V;
      if v != node {
        assert v in V;
      }
    }
  }

  /** The stack side of a visit: the popped cell's neighbours are the only ones not yet accounted for. */
  lemma Pop(G0: Grid, s: Pos, V: seq<Pos>, prv: map<Pos, Pos>, S: seq<Pos>)
    requires StackOk(G0, s, prv, S) && Closed(G0, V, S, {}) && |S| > 0
    ensures StackOk(G0, s, prv, S[..|S| - 1]) && Closed(G0, V + [S[|S| - 1]], S[..|S| - 1], {S[|S| - 1]})
  {
    var node, S' := S[|S| - 1], S[..|S| - 1];
    forall i | 0 <= i < |S'| ensures InGrid(G0, S'[i]) && (S'[i] == s || S'[i] in prv) {
      assert S'[i] == S[i];
    }
    forall v, p | v in V + [node] && v != node && Adjacent(v, p) && Open(G0, p) ensures p in V + [node] || p in S' {
      assert v in V;
      if p !in V + [node] {
        var i :| 0 <= i < |S| && S[i] == p;
        assert i < |S| - 1;
        assert S'[i] == p;
      }
    }
  }

  /** Reaching `e`: the backtrace over the visited cells. */
  method Finish(w: array2<Cell>, ghost G0: Grid, s: Pos, e: Pos, ghost V: seq<Pos>, ghost rk: map<Pos, nat>,
                ghost prv: map<Pos, Pos>)
    returns (path: seq<Pos>)
    requires Mirror(w, G0, s, V, prv) && VisitedOk(G0, s, V, rk) && Linked(G0, s, V, rk, prv)
    requires e in V && V[|V| - 1] == e && s in V
    ensures Outcome(w, G0, s, e, V, path, rk, prv)
  {
    MirrorLinks(w, G0, s, V, rk, prv);
    path := TraceBack(w, G0, s, e, Elems(V), rk);
  }

  /** The working copy's links of the visited cells form the forest the backtrace needs. */
  lemma MirrorLinks(w: array2<Cell>, G0: Grid, s: Pos, V: seq<Pos>, rk: map<Pos, nat>, prv: map<Pos, Pos>)
    requires Mirror(w, G0, s, V, prv) && VisitedOk(G0, s, V, rk) && Linked(G0, s, V, rk, prv)
    ensures PrevLinks(w, G0, s, Elems(V), rk)
  {
    forall p | p in Elems(V) ensures InBounds(w.Length0, w.Length1, p) && (w[p.x, p.y].prev.None? <==> p == s) {
      assert Pos(p.x, p.y) == p;
    }
    forall p | p in Elems(V) && w[p.x, p.y].prev.Some?
      ensures var u := w[p.x, p.y].prev.value; u in Elems(V) && rk[u] < rk[p] && Adjacent(u, p) && Open(G0, p)
    {
      assert Pos(p.x, p.y) == p;
    }
  }

  /** The neighbours of a visited cell are its open grid neighbours not yet visited, in `getNeighbours` order. */
  lemma NeighboursOpen(w: array2<Cell>, G0: Grid, s: Pos, V: seq<Pos>, prv: map<Pos, Pos>, node: Pos)
    requires Mirror(w, G0, s, V, prv)
    ensures Neighbours(w, node) == Around(G0, V, node)
  {
    forall q | Adjacent(node, q) ensures Enterable(w, q) <==> Open(G0, q) && q !in V {
      if InBounds(w.Length0, w.Length1, q) {
        assert Pos(q.x, q.y) == q;
      }
    }
    NeighboursAround(w, G0, V, node);
  }

  /**
   * The inner loop of `dfs`: every neighbour `getNeighbours` returns, still
   * unvisited, gets its `prevNode` set to the visited cell and is pushed, in
   * the order up, right, down, left, so the stack ends with those cells in
   * that order.
   */
  method Expand(w: array2<Cell>, ghost G0: Grid, s: Pos, node: Pos, ghost V: seq<Pos>, ghost rk: map<Pos, nat>,
                ghost prv: map<Pos, Pos>, S: seq<Pos>, ns: seq<Pos>)
    returns (S': seq<Pos>, ghost prv': map<Pos, Pos>)
    requires Mirror(w, G0, s, V, prv) && VisitedOk(G0, s, V, rk) && Linked(G0, s, V, rk, prv)
    requires StackOk(G0, s, prv, S) && Closed(G0, V, S, {node}) && node in V && s in V
    requires forall q :: q in ns <==> Adjacent(node, q) && Open(G0, q) && q !in V
    modifies w
    ensures S' == S + ns && Relinked(prv, prv', ns, node)
    ensures Mirror(w, G0, s, V, prv') && Linked(G0, s, V, rk, prv')
    ensures StackOk(G0, s, prv', S') && Closed(G0, V, S', {})
  {
    S', prv' := S, prv;
    for k := 0 to |ns|
      invariant S' == S + ns[..k] && Relinked(prv, prv', ns[..k], node)
      invariant Mirror(w, G0, s, V, prv') && Linked(G0, s, V, rk, prv')
      invariant StackOk(G0, s, prv', S') && Closed(G0, V, S', {node})
    {
      ghost var before := prv';
      S', prv' := Push(w, G0, s, node, V, rk, prv', S, S', ns, k);
      RelinkedStep(prv, before, ns, k, node);
    }
    assert ns[..|ns|] == ns;
    forall v, p | v in V && Adjacent(v, p) && Open(G0, p) ensures p in V || p in S' {
      if v == node && p !in V {
        assert p in ns;
      }
    }
  }

  /** One pass of the inner loop. */
  method Push(w: array2<Cell>, ghost G0: Grid, s: Pos, node: Pos, ghost V: seq<Pos>, ghost rk: map<Pos, nat>,
              ghost prv: map<Pos, Pos>, ghost S0: seq<Pos>, S: seq<Pos>, ns: seq<Pos>, k: nat)
    returns (S': seq<Pos>, ghost prv': map<Pos, Pos>)
    requires Mirror(w, G0, s, V, prv) && VisitedOk(G0, s, V, rk) && Linked(G0, s, V, rk, prv)
    requires StackOk(G0, s, prv, S) && Closed(G0, V, S, {node}) && node in V && s in V
    requires k < |ns| && S == S0 + ns[..k] && Adjacent(node, ns[k]) && Open(G0, ns[k]) && ns[k] !in V
    modifies w
    ensures S' == S0 + ns[..k + 1] && prv' == prv[ns[k] := node]
    ensures Mirror(w, G0, s, V, prv') && Linked(G0, s, V, rk, prv')
    ensures StackOk(G0, s, prv', S') && Closed(G0, V, S', {node})
  {
    var n := ns[k];
    assert Pos(n.x, n.y) == n;
    assert ns[..k + 1] == ns[..k] + [n];
    S', prv' := S, prv;
    if !w[n.x, n.y].visited {
      w[n.x, n.y] := w[n.x, n.y].(prev := Some(node));
      prv' := prv[n := node];
      S' := S + [n];
      forall v | v in V && v != s ensures v in prv' {
        assert v in prv;
      }
    }
  }
}
