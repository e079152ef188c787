/**
 * Breadth-first search (src/algorithms/bfs.ts) on the grid array, in place:
 * the start's cost is set to 0, every dequeued cell is marked visited and
 * appended to the visited list, and every enterable neighbour of a dequeued
 * cell gets its `prevNode` pointed back and is pushed at the tail of the queue,
 * even when it is already queued (only a visited cell is skipped when
 * dequeued).
 *
 * The proof tracks, as ghost state, the level (number of moves from the start)
 * of every queued entry and visited cell, and mirrors the `prevNode` links in a
 * map. A cell queued more than once always has all its entries at one level,
 * because the queue holds levels `L` and `L + 1` only and the grid's
 * chessboard colouring fixes each cell's level parity; so the last pusher's
 * link is as good as the first.
 */
module Bfs {
  import opened GridModel
  import opened Walks
  import opened Neighbourhood

  /**
   * The grid array against the search's bookkeeping: states as given, the
   * start's cost 0 and every other cost as given, `visited` set exactly on the
   * cells of `V`, and `prevNode` as recorded in `prv`.
   */
  ghost predicate Mirror(g: array2<Cell>, G0: Grid, s: Pos, V: seq<Pos>, prv: map<Pos, Pos>)
    reads g
  {
    && IsGrid(G0, g.Length0, g.Length1)
    && forall i, j {:trigger g[i, j]} :: 0 <= i < g.Length0 && 0 <= j < g.Length1 ==>
         && g[i, j].state == G0[i][j].state
         && g[i, j].cost == (if Pos(i, j) == s then Finite(0) else G0[i][j].cost)
         && (g[i, j].visited <==> Pos(i, j) in V)
         && g[i, j].prev == (if Pos(i, j) in prv then Some(prv[Pos(i, j)]) else None)
  }

  /**
   * The visited cells, in visiting order: distinct, the start first, each one
   * reachable and no closer to the start than its level, and each one but the
   * start linked to an adjacent visited cell one level lower.
   */
  ghost predicate VisitedOk(G0: Grid, s: Pos, V: seq<Pos>, lv: map<Pos, nat>, prv: map<Pos, Pos>)
  {
    && NoDup(V)
    && (V != [] ==> V[0] == s)
    && Levelled(G0, s, V, lv)
    && Linked(G0, s, V, lv, prv)
  }

  /** Every visited cell is exactly its level away from the start: some walk has that many moves and none fewer. */
  ghost predicate Levelled(G0: Grid, s: Pos, V: seq<Pos>, lv: map<Pos, nat>)
  {
    forall v :: v in V ==> InGrid(G0, v) && v in lv && WalkOfLength(G0, s, v, lv[v]) && AtLeast(G0, s, v, lv[v])
  }

  /**
   * Every visited cell but the start is open and linked to an adjacent
   * visited cell one level lower. (The linked cell is reached through
   * `prv[v]` only, so that one link does not call up the next.)
   */
  ghost predicate Linked(G0: Grid, s: Pos, V: seq<Pos>, lv: map<Pos, nat>, prv: map<Pos, Pos>)
  {
    && s !in prv
    && (forall v :: v in V && v != s ==> v in prv)
    && (forall v {:trigger prv[v]} :: v in V && v != s && v in prv ==>
          && prv[v] in V && prv[v] in lv && v in lv
          && Open(G0, v) && Adjacent(prv[v], v) && lv[v] == lv[prv[v]] + 1)
  }

  /**
   * The queue `Q` with the levels `QL` of its entries: every entry in the grid
   * and open (the start excepted), reached from the start by a walk of as many
   * moves as its level, and linked, unless visited, to a visited neighbour one
   * level lower.
   */
  ghost predicate QueueOk(G0: Grid, s: Pos, V: seq<Pos>, lv: map<Pos, nat>, prv: map<Pos, Pos>,
                          Q: seq<Pos>, QL: seq<nat>)
  {
    && |Q| == |QL|
    && (forall i :: 0 <= i < |Q| ==>
          InGrid(G0, Q[i]) && (Q[i] != s ==> Open(G0, Q[i])) && WalkOfLength(G0, s, Q[i], QL[i]))
    && (forall i :: 0 <= i < |Q| && Q[i] !in V && Q[i] != s ==>
          && Q[i] in prv && prv[Q[i]] in V && prv[Q[i]] in lv
          && Adjacent(prv[Q[i]], Q[i]) && lv[prv[Q[i]]] + 1 == QL[i])
  }

  /** Queue levels never decrease and lie within `lo` and `lo + 1`. */
  ghost predicate Levels(QL: seq<nat>, lo: int)
  {
    && (forall i, j :: 0 <= i < j < |QL| ==> QL[i] <= QL[j])
    && (forall i :: 0 <= i < |QL| ==> lo <= QL[i] <= lo + 1)
  }

  /** Levels never fall along the visited list: breadth-first order. */
  ghost predicate Ascending(V: seq<Pos>, lv: map<Pos, nat>)
  {
    forall i, j :: 0 <= i < j < |V| && V[i] in lv && V[j] in lv ==> lv[V[i]] <= lv[V[j]]
  }

  /** No visited cell has a level above any queued entry's. */
  ghost predicate Beneath(V: seq<Pos>, lv: map<Pos, nat>, QL: seq<nat>)
  {
    forall v, k :: v in V && v in lv && 0 <= k < |QL| ==> lv[v] <= QL[k]
  }

  /** `p` has an entry in the queue at a level of at most `bound`. */
  ghost predicate Queued(Q: seq<Pos>, QL: seq<nat>, p: Pos, bound: int)
  {
    exists i :: 0 <= i < |Q| && i < |QL| && Q[i] == p && QL[i] <= bound
  }

  /**
   * Every open neighbour of a visited cell outside `Ex` is visited, or queued
   * at most one level above that cell.
   */
  ghost predicate Closed(G0: Grid, V: seq<Pos>, lv: map<Pos, nat>, Q: seq<Pos>, QL: seq<nat>, Ex: set<Pos>)
  {
    forall v, p :: v in V && v in lv && v !in Ex && Adjacent(v, p) && Open(G0, p) ==>
      p in V || Queued(Q, QL, p, lv[v] + 1)
  }

  /**
   * `bfs`. On a grid with no `visited` flag and no `prevNode` set, it visits
   * cells in breadth-first order from `s`: never twice, and never a cell
   * farther from `s` before a nearer one. When it reaches `e`, `e` is the last
   * cell visited and the path is a shortest one; otherwise it has visited
   * exactly the cells reachable from `s` and the path is empty. Only
   * `visited`, `prevNode` and the start's cost change.
   */
  method Bfs(g: array2<Cell>, s: Pos, e: Pos) returns (visited: seq<Pos>, path: seq<Pos>)
    requires InBounds(g.Length0, g.Length1, s) && InBounds(g.Length0, g.Length1, e)
    requires Unvisited(Snapshot(g))
    modifies g
    ensures NoDup(visited) && visited != [] && visited[0] == s
    ensures forall v :: v in visited ==> Reachable(old(Snapshot(g)), s, v)
    ensures forall i, j, a, b ::
      0 <= i < j < |visited| && Distance(old(Snapshot(g)), s, visited[i], a) && Distance(old(Snapshot(g)), s, visited[j], b)
      ==> a <= b
    ensures e in visited <==> Reachable(old(Snapshot(g)), s, e)
    ensures e in visited ==> visited[|visited| - 1] == e && TracesBack(old(Snapshot(g)), s, e, path)
    ensures e in visited && s != e ==> Shortest(old(Snapshot(g)), s, e, path) && FollowsPrev(g, [e] + path + [s])
    ensures e !in visited ==> path == [] && forall p :: p in visited <==> Reachable(old(Snapshot(g)), s, p)
    ensures forall i, j :: 0 <= i < g.Length0 && 0 <= j < g.Length1 ==>
      && g[i, j].state == old(g[i, j].state)
      && g[i, j].cost == (if Pos(i, j) == s then Finite(0) else old(g[i, j].cost))
      && (g[i, j].visited <==> Pos(i, j) in visited)
    ensures g[s.x, s.y].prev == None
    ensures forall v :: v in visited && v != s ==>
      InBounds(g.Length0, g.Length1, v) && g[v.x, v.y].prev.Some?
      && g[v.x, v.y].prev.value in visited && Adjacent(g[v.x, v.y].prev.value, v)
  {
    ghost var G0: Grid := Snapshot(g);
    g[s.x, s.y] := g[s.x, s.y].(cost := Finite(0));
    forall i, j | 0 <= i < g.Length0 && 0 <= j < g.Length1
      ensures g[i, j].cost == (if Pos(i, j) == s then Finite(0) else G0[i][j].cost)
    {
      if Pos(i, j) == s {
        assert i == s.x && j == s.y;
      }
    }
    ghost var lv: map<Pos, nat>, prv: map<Pos, Pos>;
    visited, path, lv, prv := Search(g, G0, s, e);
    Conclude(g, G0, s, visited, lv, prv);
    VisitOrder(G0, s, visited, lv);
  }

  /**
   * What holds before each round of the main loop: the grid mirrors the
   * bookkeeping, the visited list and the queue keep their invariants, and
   * `e` has not been visited yet.
   */
  ghost predicate SearchInv(g: array2<Cell>, G0: Grid, s: Pos, e: Pos, V: seq<Pos>, lv: map<Pos, nat>,
                            prv: map<Pos, Pos>, Q: seq<Pos>, QL: seq<nat>)
    reads g
  {
    && Mirror(g, G0, s, V, prv)
    && VisitedOk(G0, s, V, lv, prv)
    && QueueOk(G0, s, V, lv, prv, Q, QL)
    && (|QL| > 0 ==> Levels(QL, QL[0]))
    && Closed(G0, V, lv, Q, QL, {})
    && Ascending(V, lv) && Beneath(V, lv, QL)
    && (s !in V ==> V == [] && Q == [s] && QL == [0])
    && e !in V
  }

  /**
   * What the main loop leaves behind: the invariants of the visited list, and
   * either `e` visited last with a shortest backtraced path, or `e`
   * unreachable, the path empty and every reachable cell visited.
   */
  ghost predicate Outcome(g: array2<Cell>, G0: Grid, s: Pos, e: Pos, V: seq<Pos>, path: seq<Pos>,
                          lv: map<Pos, nat>, prv: map<Pos, Pos>)
    reads g
  {
    && Mirror(g, G0, s, V, prv) && VisitedOk(G0, s, V, lv, prv) && s in V && Ascending(V, lv)
    && (e in V <==> Reachable(G0, s, e))
    && (e in V ==> V[|V| - 1] == e && TracesBack(G0, s, e, path))
    && (e in V && s != e ==> Shortest(G0, s, e, path) && FollowsPrev(g, [e] + path + [s]))
    && (e !in V ==> path == [] && forall p :: p in V <==> Reachable(G0, s, p))
  }

  /**
   * The main loop of `bfs`, over the snapshot `G0` of the grid as the search
   * found it.
   */
  method Search(g: array2<Cell>, ghost G0: Grid, s: Pos, e: Pos)
    returns (visited: seq<Pos>, path: seq<Pos>, ghost lv: map<Pos, nat>, ghost prv: map<Pos, Pos>)
    requires Mirror(g, G0, s, [], map[]) && InGrid(G0, s)
    modifies g
    ensures Outcome(g, G0, s, e, visited, path, lv, prv)
  {
    var queue := [s];
    ghost var levels: seq<nat> := [0];
    visited, lv, prv := [], map[], map[];
    SearchStart(g, G0, s, e);
    while |queue| > 0
      invariant SearchInv(g, G0, s, e, visited, lv, prv, queue, levels)
      decreases AllCells(g.Length0, g.Length1) - Elems(visited), |queue|
    {
      var found;
      visited, queue, levels, lv, prv, found, path := Round(g, G0, s, e, visited, queue, levels, lv, prv);
      if found {
        return;
      }
    }
    path := [];
    SearchEnd(g, G0, s, e, visited, lv, prv, queue, levels);
  }

  /** Before the first round only the start is queued, at level 0. */
  lemma SearchStart(g: array2<Cell>, G0: Grid, s: Pos, e: Pos)
    requires Mirror(g, G0, s, [], map[]) && InGrid(G0, s)
    ensures SearchInv(g, G0, s, e, [], map[], map[], [s], [0])
  {
    assert WalkFrom(G0, s, s, [s]);
  }

  /** An empty queue leaves `e` unvisited, and the visited cells are exactly those reachable from `s`. */
  lemma SearchEnd(g: array2<Cell>, G0: Grid, s: Pos, e: Pos, V: seq<Pos>, lv: map<Pos, nat>,
                  prv: map<Pos, Pos>, Q: seq<Pos>, QL: seq<nat>)
    requires SearchInv(g, G0, s, e, V, lv, prv, Q, QL) && Q == []
    ensures Outcome(g, G0, s, e, V, [], lv, prv)
  {
    Exhausted(G0, s, V, lv, prv);
  }

  /**
   * One round of the main loop: dequeue; skip a visited cell; otherwise visit
   * it and either stop at `e` with the backtraced path or push its unvisited
   * neighbours.
   */
  method Round(g: array2<Cell>, ghost G0: Grid, s: Pos, e: Pos, V: seq<Pos>, Q: seq<Pos>, ghost QL: seq<nat>,
               ghost lv: map<Pos, nat>, ghost prv: map<Pos, Pos>)
    returns (V': seq<Pos>, Q': seq<Pos>, ghost QL': seq<nat>, ghost lv': map<Pos, nat>, ghost prv': map<Pos, Pos>,
             found: bool, path: seq<Pos>)
    requires SearchInv(g, G0, s, e, V, lv, prv, Q, QL) && |Q| > 0
    modifies g
    ensures found ==> Outcome(g, G0, s, e, V', path, lv', prv')
    ensures !found ==> SearchInv(g, G0, s, e, V', lv', prv', Q', QL')
    ensures !found ==> (AllCells(g.Length0, g.Length1) - Elems(V') < AllCells(g.Length0, g.Length1) - Elems(V)
                        || (V' == V && |Q'| < |Q|))
    ensures Q[0] in V ==> !found && V' == V && Q' == Q[1..] && prv' == prv
    ensures Q[0] !in V ==> V' == V + [Q[0]] && (found <==> Q[0] == e)
    ensures Q[0] !in V && !found ==> Appended(Q[1..], QL[1..], prv, Q[0], QL[0], Around(G0, V', Q[0]), Q', QL', prv')
  {
    var node := Q[0];
    assert Pos(node.x, node.y) == node;
    if g[node.x, node.y].visited {
      Q', QL' := Q[1..], QL[1..];
      V', lv', prv', found, path := V, lv, prv, false, [];
      DropVisited(G0, s, V, lv, prv, Q, QL);
      BeneathDrop(V, lv, QL);
      return;
    }
    V', Q', QL', lv', prv', found, path := Advance(g, G0, s, e, V, Q, QL, lv, prv);
  }

  /**
   * A round whose dequeued cell is not yet visited: visit it, then stop at
   * `e` with the backtraced path or push its unvisited neighbours.
   */
  method Advance(g: array2<Cell>, ghost G0: Grid, s: Pos, e: Pos, V: seq<Pos>, Q: seq<Pos>, ghost QL: seq<nat>,
                 ghost lv: map<Pos, nat>, ghost prv: map<Pos, Pos>)
    returns (V': seq<Pos>, Q': seq<Pos>, ghost QL': seq<nat>, ghost lv': map<Pos, nat>, ghost prv': map<Pos, Pos>,
             found: bool, path: seq<Pos>)
    requires SearchInv(g, G0, s, e, V, lv, prv, Q, QL) && |Q| > 0 && Q[0] !in V
    modifies g
    ensures found ==> Outcome(g, G0, s, e, V', path, lv', prv')
    ensures !found ==> SearchInv(g, G0, s, e, V', lv', prv', Q', QL')
    ensures !found ==> AllCells(g.Length0, g.Length1) - Elems(V') < AllCells(g.Length0, g.Length1) - Elems(V)
    ensures V' == V + [Q[0]] && (found <==> Q[0] == e)
    ensures !found ==> Appended(Q[1..], QL[1..], prv, Q[0], QL[0], Around(G0, V', Q[0]), Q', QL', prv')
  {
    var node := Q[0];
    V', lv' := VisitCell(g, G0, s, node, V, lv, prv, Q, QL);
    OrderVisit(V, lv, QL, node);
    Q', QL', prv', found, path := Q[1..], QL[1..], prv, false, [];
    if node == e {
      found := true;
      path := Arrive(g, G0, s, e, V', lv', prv');
      return;
    }
    Q', QL', prv' := Expand(g, G0, s, node, V', lv', prv', Q', QL', QL[0]);
    OrderPush(V', lv', QL[1..], QL[0], Q[1..], prv, node, Around(G0, V', node), Q', QL', prv');
    if |QL'| > 0 {
      LevelsFront(QL', QL[0]);
    }
  }

  /** Dropping the front entry keeps the visited levels below the queued ones. */
  lemma BeneathDrop(V: seq<Pos>, lv: map<Pos, nat>, QL: seq<nat>)
    requires Beneath(V, lv, QL) && |QL| > 0
    ensures Beneath(V, lv, QL[1..])
  {
  }

  /** Visiting the front entry at its level keeps the visited levels ascending and below the rest of the queue. */
  lemma OrderVisit(V: seq<Pos>, lv: map<Pos, nat>, QL: seq<nat>, node: Pos)
    requires Ascending(V, lv) && Beneath(V, lv, QL) && |QL| > 0 && Levels(QL, QL[0]) && node !in V
    ensures Ascending(V + [node], lv[node := QL[0]]) && Beneath(V + [node], lv[node := QL[0]], QL[1..])
  {
    var V', lv' := V + [node], lv[node := QL[0]];
    forall i, j | 0 <= i < j < |V'| && V'[i] in lv' && V'[j] in lv' ensures lv'[V'[i]] <= lv'[V'[j]] {
      assert V'[i] == V[i] && V[i] != node && V[i] in V;
      if j < |V| {
        assert V'[j] == V[j] && V[j] != node;
      }
    }
  }

  /** Pushing entries one level above the last visited cell keeps the visited levels below the queued ones. */
  lemma OrderPush(V: seq<Pos>, lv: map<Pos, nat>, levels: seq<nat>, L: nat, queue: seq<Pos>, prv: map<Pos, Pos>,
                  node: Pos, ns: seq<Pos>, queue': seq<Pos>, levels': seq<nat>, prv': map<Pos, Pos>)
    requires Ascending(V, lv) && Beneath(V, lv, levels) && |V| > 0 && V[|V| - 1] == node
    requires node in lv && lv[node] == L && |levels| == |queue|
    requires Appended(queue, levels, prv, node, L, ns, queue', levels', prv')
    ensures Beneath(V, lv, levels')
  {
    forall v, k | v in V && v in lv && 0 <= k < |levels'| ensures lv[v] <= levels'[k] {
      var i :| 0 <= i < |V| && V[i] == v;
      if i < |V| - 1 {
        assert lv[V[i]] <= lv[V[|V| - 1]];
      }
    }
  }

  /** The round that visits `e`: the search ends with the backtraced path. */
  method Arrive(g: array2<Cell>, ghost G0: Grid, s: Pos, e: Pos, ghost V: seq<Pos>, ghost lv: map<Pos, nat>,
                ghost prv: map<Pos, Pos>)
    returns (path: seq<Pos>)
    requires Mirror(g, G0, s, V, prv) && VisitedOk(G0, s, V, lv, prv) && s in V
    requires |V| > 0 && V[|V| - 1] == e && Ascending(V, lv)
    ensures Outcome(g, G0, s, e, V, path, lv, prv)
  {
    path := Finish(g, G0, s, e, V, lv, prv);
  }

  /** Levels within `L` and `L + 1` lie within the front level and one above it. */
  lemma LevelsFront(QL: seq<nat>, L: nat)
    requires Levels(QL, L) && |QL| > 0
    ensures Levels(QL, QL[0])
  {
  }

  /**
   * Marks the dequeued cell visited and records it in the visited list, at
   * its queue level; no shorter walk reaches it.
   */
  method VisitCell(g: array2<Cell>, ghost G0: Grid, s: Pos, node: Pos, V: seq<Pos>, ghost lv: map<Pos, nat>,
                   ghost prv: map<Pos, Pos>, ghost Q: seq<Pos>, ghost QL: seq<nat>)
    returns (V': seq<Pos>, ghost lv': map<Pos, nat>)
    requires Mirror(g, G0, s, V, prv) && VisitedOk(G0, s, V, lv, prv)
    requires QueueOk(G0, s, V, lv, prv, Q, QL) && |Q| > 0 && Levels(QL, QL[0])
    requires Closed(G0, V, lv, Q, QL, {}) && node == Q[0] && node !in V
    requires s !in V ==> V == [] && Q == [s] && QL == [0]
    modifies g
    ensures V' == V + [node] && lv' == lv[node := QL[0]]
    ensures Mirror(g, G0, s, V', prv) && VisitedOk(G0, s, V', lv', prv)
    ensures QueueOk(G0, s, V', lv', prv, Q[1..], QL[1..]) && Levels(QL[1..], QL[0])
    ensures Closed(G0, V', lv', Q[1..], QL[1..], {node}) && s in V'
    ensures AllCells(g.Length0, g.Length1) - Elems(V') < AllCells(g.Length0, g.Length1) - Elems(V)
  {
    VisitMinimal(G0, s, V, lv, prv, Q, QL);
    Visit(G0, s, V, lv, prv, Q, QL);
    assert node in AllCells(g.Length0, g.Length1) by { assert node == Pos(node.x, node.y); }
    g[node.x, node.y] := g[node.x, node.y].(visited := true);
    V' := V + [node];
    lv' := lv[node := QL[0]];
    assert Elems(V') == Elems(V) + {node};
    forall i, j | 0 <= i < g.Length0 && 0 <= j < g.Length1 ensures g[i, j].visited <==> Pos(i, j) in V' {
      if Pos(i, j) == node {
        assert i == node.x && j == node.y;
      }
    }
  }

  /** Reaching `e`: the backtrace over the visited cells gives a shortest path. */
  method Finish(g: array2<Cell>, ghost G0: Grid, s: Pos, e: Pos, ghost V: seq<Pos>, ghost lv: map<Pos, nat>,
                ghost prv: map<Pos, Pos>)
    returns (path: seq<Pos>)
    requires Mirror(g, G0, s, V, prv) && VisitedOk(G0, s, V, lv, prv) && e in V
    ensures Reachable(G0, s, e) && TracesBack(G0, s, e, path)
    ensures s != e ==> Shortest(G0, s, e, path) && FollowsPrev(g, [e] + path + [s])
  {
    WalkOfLengthReachable(G0, s, e, lv[e]);
    MirrorLinks(g, G0, s, V, lv, prv);
    path := TraceBack(g, G0, s, e, Elems(V), lv);
    if s != e {
      ChainRank(g, G0, s, Elems(V), lv, [e] + path + [s]);
      AtLeastWeaken(G0, s, e, lv[e], |path| + 1);
    }
  }

  /**
   * The inner loop of `bfs`: every neighbour `getNeighbours` returns for the
   * cell just visited, if still unvisited, gets its `prevNode` set to that
   * cell and is pushed, one level above it.
   */
  method Expand(g: array2<Cell>, ghost G0: Grid, s: Pos, node: Pos, ghost V: seq<Pos>, ghost lv: map<Pos, nat>,
                ghost prv: map<Pos, Pos>, queue: seq<Pos>, ghost levels: seq<nat>, ghost L: nat)
    returns (queue': seq<Pos>, ghost levels': seq<nat>, ghost prv': map<Pos, Pos>)
    requires Mirror(g, G0, s, V, prv) && VisitedOk(G0, s, V, lv, prv)
    requires QueueOk(G0, s, V, lv, prv, queue, levels) && Levels(levels, L)
    requires Closed(G0, V, lv, queue, levels, {node})
    requires node in V && node in lv && lv[node] == L && s in V
    modifies g
    ensures Appended(queue, levels, prv, node, L, Around(G0, V, node), queue', levels', prv')
    ensures Mirror(g, G0, s, V, prv') && VisitedOk(G0, s, V, lv, prv')
    ensures QueueOk(G0, s, V, lv, prv', queue', levels') && Levels(levels', L)
    ensures Closed(G0, V, lv, queue', levels', {})
  {
    var ns := Neighbours(g, node);
    NeighboursOpen(g, G0, s, V, prv, node, ns);
    queue', levels', prv' := Spread(g, G0, s, node, V, lv, prv, queue, levels, L, ns);
    CloseNode(G0, V, lv, queue', levels', node, ns, L);
  }

  /** The `for` loop over the neighbours `ns` of the cell just visited. */
  method Spread(g: array2<Cell>, ghost G0: Grid, s: Pos, node: Pos, ghost V: seq<Pos>, ghost lv: map<Pos, nat>,
                ghost prv: map<Pos, Pos>, queue: seq<Pos>, ghost levels: seq<nat>, ghost L: nat, ns: seq<Pos>)
    returns (queue': seq<Pos>, ghost levels': seq<nat>, ghost prv': map<Pos, Pos>)
    requires Mirror(g, G0, s, V, prv) && VisitedOk(G0, s, V, lv, prv)
    requires QueueOk(G0, s, V, lv, prv, queue, levels) && Levels(levels, L)
    requires Closed(G0, V, lv, queue, levels, {node})
    requires node in V && node in lv && lv[node] == L && s in V
    requires forall q :: q in ns ==> Adjacent(node, q) && Open(G0, q) && q !in V
    modifies g
    ensures Appended(queue, levels, prv, node, L, ns, queue', levels', prv')
    ensures Mirror(g, G0, s, V, prv') && VisitedOk(G0, s, V, lv, prv')
    ensures QueueOk(G0, s, V, lv, prv', queue', levels') && Levels(levels', L)
    ensures Closed(G0, V, lv, queue', levels', {node})
    ensures forall k :: 0 <= k < |ns| ==> Queued(queue', levels', ns[k], L + 1)
  {
    queue', levels', prv' := queue, levels, prv;
    for k := 0 to |ns|
      invariant Appended(queue, levels, prv, node, L, ns[..k], queue', levels', prv')
      invariant Mirror(g, G0, s, V, prv')
      invariant VisitedOk(G0, s, V, lv, prv')
      invariant QueueOk(G0, s, V, lv, prv', queue', levels')
      invariant Levels(levels', L)
      invariant Closed(G0, V, lv, queue', levels', {node})
      invariant forall k' :: 0 <= k' < k ==> Queued(queue', levels', ns[k'], L + 1)
    {
      AppendedStep(queue, levels, prv, node, L, ns, k, queue', levels', prv');
      queue', levels', prv' := Enqueue(g, G0, s, node, V, lv, prv', queue', levels', L, ns, k);
    }
    assert ns[..|ns|] == ns;
  }

  /**
   * The inner loop's effect after the neighbours `ns`: each pushed at the back
   * of the queue, one level above `L`, and linked to `node`.
   */
  ghost predicate Appended(queue: seq<Pos>, levels: seq<nat>, prv: map<Pos, Pos>, node: Pos, L: nat, ns: seq<Pos>,
                           queue': seq<Pos>, levels': seq<nat>, prv': map<Pos, Pos>)
  {
    && queue' == queue + ns && Relinked(prv, prv', ns, node)
    && |levels'| == |queue'| && forall i :: 0 <= i < |levels'| ==> levels'[i] == if i < |levels| then levels[i] else L + 1
  }

  lemma AppendedStep(queue: seq<Pos>, levels: seq<nat>, prv: map<Pos, Pos>, node: Pos, L: nat, ns: seq<Pos>, k: int,
                     queue': seq<Pos>, levels': seq<nat>, prv': map<Pos, Pos>)
    requires 0 <= k < |ns| && |levels| == |queue| && Appended(queue, levels, prv, node, L, ns[..k], queue', levels', prv')
    ensures Appended(queue, levels, prv, node, L, ns[..k + 1], queue' + [ns[k]], levels' + [L + 1], prv'[ns[k] := node])
  {
    assert ns[..k + 1] == ns[..k] + [ns[k]];
    RelinkedStep(prv, prv', ns, k, node);
  }

  /**
   * One pass of the inner loop: an unvisited neighbour gets `node` as its
   * `prevNode` and joins the back of the queue one level above `node`.
   */
  method Enqueue(g: array2<Cell>, ghost G0: Grid, s: Pos, node: Pos, ghost V: seq<Pos>, ghost lv: map<Pos, nat>,
                 ghost prv: map<Pos, Pos>, queue: seq<Pos>, ghost levels: seq<nat>, ghost L: nat,
                 ns: seq<Pos>, k: nat)
    returns (queue': seq<Pos>, ghost levels': seq<nat>, ghost prv': map<Pos, Pos>)
    requires Mirror(g, G0, s, V, prv) && VisitedOk(G0, s, V, lv, prv)
    requires QueueOk(G0, s, V, lv, prv, queue, levels) && Levels(levels, L)
    requires Closed(G0, V, lv, queue, levels, {node})
    requires node in V && node in lv && lv[node] == L && s in V
    requires k < |ns| && Adjacent(node, ns[k]) && Open(G0, ns[k]) && ns[k] !in V
    requires forall k' :: 0 <= k' < k ==> Queued(queue, levels, ns[k'], L + 1)
    modifies g
    ensures Mirror(g, G0, s, V, prv') && VisitedOk(G0, s, V, lv, prv')
    ensures QueueOk(G0, s, V, lv, prv', queue', levels') && Levels(levels', L)
    ensures Closed(G0, V, lv, queue', levels', {node})
    ensures forall k' :: 0 <= k' < k + 1 ==> Queued(queue', levels', ns[k'], L + 1)
    ensures queue' == queue + [ns[k]] && levels' == levels + [L + 1] && prv' == prv[ns[k] := node]
  {
    var n := ns[k];
    assert Pos(n.x, n.y) == n;
    queue', levels', prv' := queue, levels, prv;
    if !g[n.x, n.y].visited {
      Push(G0, s, V, lv, prv, queue, levels, node, n, L);
      g[n.x, n.y] := g[n.x, n.y].(prev := Some(node));
      prv' := prv[n := node];
      queue' := queue + [n];
      levels' := levels + [L + 1];
    }
  }

  /** The neighbours of a visited cell are exactly its open, unvisited grid neighbours. */
  lemma NeighboursOpen(g: array2<Cell>, G0: Grid, s: Pos, V: seq<Pos>, prv: map<Pos, Pos>, node: Pos, ns: seq<Pos>)
    requires Mirror(g, G0, s, V, prv) && ns == Neighbours(g, node)
    ensures forall q :: q in ns <==> Adjacent(node, q) && Open(G0, q) && q !in V
    ensures ns == Around(G0, V, node)
  {
    forall q ensures Enterable(g, q) <==> Open(G0, q) && q !in V {
      if InBounds(g.Length0, g.Length1, q) {
        assert Pos(q.x, q.y) == q;
      }
    }
    NeighboursAround(g, G0, V, node);
  }

  /** Dropping an already visited front entry keeps the queue's invariants. */
  lemma DropVisited(G0: Grid, s: Pos, V: seq<Pos>, lv: map<Pos, nat>, prv: map<Pos, Pos>, Q: seq<Pos>, QL: seq<nat>)
    requires QueueOk(G0, s, V, lv, prv, Q, QL) && |Q| > 0 && Levels(QL, QL[0])
    requires Closed(G0, V, lv, Q, QL, {}) && Q[0] in V
    ensures QueueOk(G0, s, V, lv, prv, Q[1..], QL[1..])
    ensures |QL| > 1 ==> Levels(QL[1..], QL[1])
    ensures Closed(G0, V, lv, Q[1..], QL[1..], {})
  {
    ClosedDrop(G0, V, lv, Q, QL, {});
  }

  /** Removing the front entry leaves every other cell queued as before. */
  lemma ClosedDrop(G0: Grid, V: seq<Pos>, lv: map<Pos, nat>, Q: seq<Pos>, QL: seq<nat>, Ex: set<Pos>)
    requires Closed(G0, V, lv, Q, QL, Ex) && |Q| > 0
    ensures forall v, p :: v in V && v in lv && v !in Ex && Adjacent(v, p) && Open(G0, p) ==>
      p in V || p == Q[0] || Queued(Q[1..], QL[1..], p, lv[v] + 1)
  {
    forall v, p | v in V && v in lv && v !in Ex && Adjacent(v, p) && Open(G0, p) && p !in V && p != Q[0]
      ensures Queued(Q[1..], QL[1..], p, lv[v] + 1)
    {
      var i :| 0 <= i < |Q| && i < |QL| && Q[i] == p && QL[i] <= lv[v] + 1;
      assert Q[1..][i - 1] == p && QL[1..][i - 1] == QL[i];
    }
  }

  /**
   * The first-exit argument: the front entry of the queue, not yet visited, is
   * no closer to the start than its level. A walk to it leaves the visited
   * cells somewhere; the cell where it does so is queued at a level no larger
   * than its index on the walk, and the front level is the smallest.
   */
  lemma VisitMinimal(G0: Grid, s: Pos, V: seq<Pos>, lv: map<Pos, nat>, prv: map<Pos, Pos>, Q: seq<Pos>, QL: seq<nat>)
    requires VisitedOk(G0, s, V, lv, prv) && |Q| == |QL| > 0 && Levels(QL, QL[0])
    requires Closed(G0, V, lv, Q, QL, {}) && Q[0] !in V
    requires s !in V ==> Q == [s] && QL == [0]
    ensures AtLeast(G0, s, Q[0], QL[0])
  {
    forall w | WalkFrom(G0, s, Q[0], w) ensures |w| - 1 >= QL[0] {
      var j := FirstOutside(w, Elems(V));
      if j > 0 {
        var u := w[j - 1];
        WalkPrefix(G0, w, j);
        assert u in V;
        assert |w[..j]| - 1 >= lv[u];
        assert Step(G0, w, j);
        assert w[j] !in V;
        var i :| 0 <= i < |Q| && i < |QL| && Q[i] == w[j] && QL[i] <= lv[u] + 1;
      }
    }
  }

  /** Visiting the front entry keeps the invariants, with that cell's own closure still pending. */
  lemma Visit(G0: Grid, s: Pos, V: seq<Pos>, lv: map<Pos, nat>, prv: map<Pos, Pos>, Q: seq<Pos>, QL: seq<nat>)
    requires VisitedOk(G0, s, V, lv, prv) && QueueOk(G0, s, V, lv, prv, Q, QL)
    requires |Q| > 0 && Levels(QL, QL[0]) && Closed(G0, V, lv, Q, QL, {})
    requires s !in V ==> V == [] && Q == [s] && QL == [0]
    requires Q[0] !in V && AtLeast(G0, s, Q[0], QL[0])
    ensures VisitedOk(G0, s, V + [Q[0]], lv[Q[0] := QL[0]], prv)
    ensures QueueOk(G0, s, V + [Q[0]], lv[Q[0] := QL[0]], prv, Q[1..], QL[1..])
    ensures Levels(QL[1..], QL[0])
    ensures Closed(G0, V + [Q[0]], lv[Q[0] := QL[0]], Q[1..], QL[1..], {Q[0]})
    ensures s in V + [Q[0]]
  {
    var n, L := Q[0], QL[0];
    assert InGrid(G0, n) && WalkOfLength(G0, s, n, L);
    var prev: Option<Pos> := None;
    if n != s {
      assert s in V;
      assert n in prv && prv[n] in V && prv[n] in lv && Adjacent(prv[n], n) && lv[prv[n]] + 1 == L;
      prev := Some(prv[n]);
    }
    VisitList(G0, s, V, lv, prv, n, L, prev);
    VisitQueue(G0, s, V, lv, prv, Q, QL);
    VisitClosed(G0, V, lv, Q, QL);
  }

  /** The visited list grows by the dequeued cell, at its queue level. */
  lemma VisitList(G0: Grid, s: Pos, V: seq<Pos>, lv: map<Pos, nat>, prv: map<Pos, Pos>, n: Pos, L: nat, prev: Option<Pos>)
    requires VisitedOk(G0, s, V, lv, prv) && n !in V && InGrid(G0, n)
    requires WalkOfLength(G0, s, n, L) && AtLeast(G0, s, n, L)
    requires n == s ==> V == [] && prev == None
    requires n != s ==>
      s in V && prev.Some? && n in prv && prv[n] == prev.value && prev.value in V
      && Adjacent(prev.value, n) && Open(G0, n) && lv[prev.value] + 1 == L
    ensures VisitedOk(G0, s, V + [n], lv[n := L], prv)
  {
    var V', lv' := V + [n], lv[n := L];
    assert NoDup(V');
    VisitLevelled(G0, s, V, lv, n, L);
    VisitLinked(G0, s, V, lv, prv, n, L, prev);
  }

  lemma VisitLevelled(G0: Grid, s: Pos, V: seq<Pos>, lv: map<Pos, nat>, n: Pos, L: nat)
    requires Levelled(G0, s, V, lv) && n !in V && InGrid(G0, n)
    requires WalkOfLength(G0, s, n, L) && AtLeast(G0, s, n, L)
    ensures Levelled(G0, s, V + [n], lv[n := L])
  {
    var V', lv' := V + [n], lv[n := L];
    forall v | v in V'
      ensures InGrid(G0, v) && v in lv' && WalkOfLength(G0, s, v, lv'[v]) && AtLeast(G0, s, v, lv'[v])
    {
      if v != n {
        assert v in V && lv'[v] == lv[v];
      }
    }
  }

  lemma VisitLinked(G0: Grid, s: Pos, V: seq<Pos>, lv: map<Pos, nat>, prv: map<Pos, Pos>, n: Pos, L: nat, prev: Option<Pos>)
    requires Linked(G0, s, V, lv, prv) && n !in V
    requires n != s ==>
      prev.Some? && n in prv && prv[n] == prev.value && prev.value in V && prev.value in lv
      && Adjacent(prev.value, n) && Open(G0, n) && lv[prev.value] + 1 == L
    ensures Linked(G0, s, V + [n], lv[n := L], prv)
  {
    var V', lv' := V + [n], lv[n := L];
    forall v | v in V' && v != s ensures v in prv {
      if v != n { assert v in V; }
    }
    forall v | v in V' && v != s && v in prv
      ensures prv[v] in V' && prv[v] in lv' && v in lv' && Open(G0, v) && Adjacent(prv[v], v) && lv'[v] == lv'[prv[v]] + 1
    {
      if v != n {
        assert v in V;
        assert prv[v] in V && prv[v] != n;
      }
    }
  }

  /** The rest of the queue keeps its invariant once the front cell is visited. */
  lemma VisitQueue(G0: Grid, s: Pos, V: seq<Pos>, lv: map<Pos, nat>, prv: map<Pos, Pos>, Q: seq<Pos>, QL: seq<nat>)
    requires QueueOk(G0, s, V, lv, prv, Q, QL) && |Q| > 0 && Q[0] !in V
    ensures QueueOk(G0, s, V + [Q[0]], lv[Q[0] := QL[0]], prv, Q[1..], QL[1..])
  {
    var V', lv' := V + [Q[0]], lv[Q[0] := QL[0]];
    var Q', QL' := Q[1..], QL[1..];
    forall i | 0 <= i < |Q'| && Q'[i] !in V' && Q'[i] != s
      ensures Q'[i] in prv && prv[Q'[i]] in V' && prv[Q'[i]] in lv'
      ensures Adjacent(prv[Q'[i]], Q'[i]) && lv'[prv[Q'[i]]] + 1 == QL'[i]
    {
      assert Q'[i] == Q[i + 1] && QL'[i] == QL[i + 1];
      assert prv[Q'[i]] != Q[0];
    }
  }

  /** The visited cells other than the dequeued one stay closed. */
  lemma VisitClosed(G0: Grid, V: seq<Pos>, lv: map<Pos, nat>, Q: seq<Pos>, QL: seq<nat>)
    requires Closed(G0, V, lv, Q, QL, {}) && |Q| == |QL| > 0 && Q[0] !in V
    ensures Closed(G0, V + [Q[0]], lv[Q[0] := QL[0]], Q[1..], QL[1..], {Q[0]})
  {
    var n := Q[0];
    var V', lv' := V + [n], lv[n := QL[0]];
    ClosedDrop(G0, V, lv, Q, QL, {});
    forall v, p | v in V' && v in lv' && v !in {n} && Adjacent(v, p) && Open(G0, p)
      ensures p in V' || Queued(Q[1..], QL[1..], p, lv'[v] + 1)
    {
      assert v in V && v in lv && lv'[v] == lv[v];
    }
  }

  /** Pushing an enterable neighbour of the cell just visited keeps the invariants. */
  lemma Push(G0: Grid, s: Pos, V: seq<Pos>, lv: map<Pos, nat>, prv: map<Pos, Pos>, Q: seq<Pos>, QL: seq<nat>,
             node: Pos, n: Pos, L: nat)
    requires VisitedOk(G0, s, V, lv, prv) && QueueOk(G0, s, V, lv, prv, Q, QL) && Levels(QL, L)
    requires node in V && node in lv && lv[node] == L && Adjacent(node, n) && Open(G0, n) && n !in V && s in V
    requires Closed(G0, V, lv, Q, QL, {node})
    ensures VisitedOk(G0, s, V, lv, prv[n := node])
    ensures QueueOk(G0, s, V, lv, prv[n := node], Q + [n], QL + [L + 1])
    ensures Levels(QL + [L + 1], L)
    ensures Closed(G0, V, lv, Q + [n], QL + [L + 1], {node})
    ensures Queued(Q + [n], QL + [L + 1], n, L + 1)
    ensures forall q, b :: Queued(Q, QL, q, b) ==> Queued(Q + [n], QL + [L + 1], q, b)
  {
    PushList(G0, s, V, lv, prv, node, n);
    PushQueue(G0, s, V, lv, prv, Q, QL, node, n, L);
    PushQueued(Q, QL, n, L + 1);
    PushClosed(G0, V, lv, Q, QL, node, n, L + 1);
  }

  /** Re-linking a cell that is not visited does not touch the visited list's links. */
  lemma PushList(G0: Grid, s: Pos, V: seq<Pos>, lv: map<Pos, nat>, prv: map<Pos, Pos>, node: Pos, n: Pos)
    requires VisitedOk(G0, s, V, lv, prv) && n !in V && s in V
    ensures VisitedOk(G0, s, V, lv, prv[n := node])
  {
    var prv' := prv[n := node];
    forall v | v in V && v != s && v in prv'
      ensures prv'[v] in V && prv'[v] in lv && v in lv && Open(G0, v) && Adjacent(prv'[v], v) && lv[v] == lv[prv'[v]] + 1
    {
      assert v != n && prv'[v] == prv[v];
    }
  }

  /**
   * The pushed entry is one level above the visited cell, and every older
   * entry of the same cell is at that level too: queued levels span two
   * values, and walks to one cell have lengths of one parity, so the new link
   * serves all of them.
   */
  lemma PushQueue(G0: Grid, s: Pos, V: seq<Pos>, lv: map<Pos, nat>, prv: map<Pos, Pos>, Q: seq<Pos>, QL: seq<nat>,
                  node: Pos, n: Pos, L: nat)
    requires QueueOk(G0, s, V, lv, prv, Q, QL) && Levels(QL, L)
    requires node in lv && lv[node] == L && WalkOfLength(G0, s, node, L)
    requires Adjacent(node, n) && Open(G0, n) && n !in V && node in V
    ensures QueueOk(G0, s, V, lv, prv[n := node], Q + [n], QL + [L + 1])
    ensures Levels(QL + [L + 1], L)
  {
    var prv' := prv[n := node];
    var Q', QL' := Q + [n], QL + [L + 1];
    WalkOfLengthExtend(G0, s, node, L, n);
    forall i | 0 <= i < |Q'| ensures InGrid(G0, Q'[i]) && (Q'[i] != s ==> Open(G0, Q'[i])) && WalkOfLength(G0, s, Q'[i], QL'[i]) {
      if i < |Q| {
        assert Q'[i] == Q[i] && QL'[i] == QL[i];
      }
    }
    forall i | 0 <= i < |Q'| && Q'[i] !in V && Q'[i] != s
      ensures Q'[i] in prv' && prv'[Q'[i]] in V && prv'[Q'[i]] in lv
      ensures Adjacent(prv'[Q'[i]], Q'[i]) && lv[prv'[Q'[i]]] + 1 == QL'[i]
    {
      if i < |Q| {
        assert Q'[i] == Q[i] && QL'[i] == QL[i];
        if Q[i] == n {
          WalkLengthParity(G0, s, n, QL[i], L + 1);
          assert L <= QL[i] <= L + 1;
        }
      }
    }
  }

  /** Appending an entry keeps every entry already queued, and queues the new one. */
  lemma PushQueued(Q: seq<Pos>, QL: seq<nat>, n: Pos, l: nat)
    requires |Q| == |QL|
    ensures Queued(Q + [n], QL + [l], n, l)
    ensures forall q, b :: Queued(Q, QL, q, b) ==> Queued(Q + [n], QL + [l], q, b)
  {
    var Q', QL' := Q + [n], QL + [l];
    forall q, b | Queued(Q, QL, q, b) ensures Queued(Q', QL', q, b) {
      var i :| 0 <= i < |Q| && i < |QL| && Q[i] == q && QL[i] <= b;
      assert Q'[i] == q && QL'[i] == QL[i];
    }
    assert Q'[|Q|] == n && QL'[|Q|] == l;
  }

  lemma PushClosed(G0: Grid, V: seq<Pos>, lv: map<Pos, nat>, Q: seq<Pos>, QL: seq<nat>, node: Pos, n: Pos, l: nat)
    requires Closed(G0, V, lv, Q, QL, {node})
    requires forall q, b :: Queued(Q, QL, q, b) ==> Queued(Q + [n], QL + [l], q, b)
    ensures Closed(G0, V, lv, Q + [n], QL + [l], {node})
  {
  }

  /** After all neighbours are pushed, the visited cell's own closure holds. */
  lemma CloseNode(G0: Grid, V: seq<Pos>, lv: map<Pos, nat>, Q: seq<Pos>, QL: seq<nat>, node: Pos, ns: seq<Pos>, L: nat)
    requires Closed(G0, V, lv, Q, QL, {node}) && node in lv && lv[node] == L
    requires forall q :: q in ns <==> Adjacent(node, q) && Open(G0, q) && q !in V
    requires forall k :: 0 <= k < |ns| ==> Queued(Q, QL, ns[k], L + 1)
    ensures Closed(G0, V, lv, Q, QL, {})
  {
    forall v, p | v in V && v in lv && Adjacent(v, p) && Open(G0, p) ensures p in V || Queued(Q, QL, p, lv[v] + 1) {
      if v == node && p !in V {
        var k :| 0 <= k < |ns| && ns[k] == p;
      }
    }
  }

  /** With the queue empty, the visited cells are closed under moves, so they are all cells reachable from the start. */
  lemma Exhausted(G0: Grid, s: Pos, V: seq<Pos>, lv: map<Pos, nat>, prv: map<Pos, Pos>)
    requires VisitedOk(G0, s, V, lv, prv) && Closed(G0, V, lv, [], [], {}) && s in V
    ensures forall p :: p in V <==> Reachable(G0, s, p)
  {
    forall p | p in V ensures Reachable(G0, s, p) {
      WalkOfLengthReachable(G0, s, p, lv[p]);
    }
    forall p | Reachable(G0, s, p) ensures p in V {
      var w :| WalkFrom(G0, s, p, w);
      forall v, q | v in Elems(V) && Adjacent(v, q) && Open(G0, q) ensures q in Elems(V) {
        assert v in lv;
      }
      ClosedSetHoldsWalk(G0, Elems(V), w);
    }
  }

  /** The grid links of the visited cells are the mirrored ones, so they form the forest the backtrace needs. */
  lemma MirrorLinks(g: array2<Cell>, G0: Grid, s: Pos, V: seq<Pos>, lv: map<Pos, nat>, prv: map<Pos, Pos>)
    requires Mirror(g, G0, s, V, prv) && VisitedOk(G0, s, V, lv, prv)
    ensures PrevLinks(g, G0, s, Elems(V), lv)
  {
    forall p | p in Elems(V) ensures InBounds(g.Length0, g.Length1, p) && (g[p.x, p.y].prev.None? <==> p == s) {
      assert Pos(p.x, p.y) == p;
    }
    forall p | p in Elems(V) && g[p.x, p.y].prev.Some?
      ensures var u := g[p.x, p.y].prev.value; u in Elems(V) && lv[u] < lv[p] && Adjacent(u, p) && Open(G0, p)
    {
      assert Pos(p.x, p.y) == p;
    }
  }

  lemma AtLeastWeaken(G: Grid, a: Pos, b: Pos, k: int, m: int)
    requires AtLeast(G, a, b, k) && m <= k
    ensures AtLeast(G, a, b, m)
  {
  }

  /** Levels ascending along the visited list are distances ascending along it. */
  lemma VisitOrder(G0: Grid, s: Pos, V: seq<Pos>, lv: map<Pos, nat>)
    requires Levelled(G0, s, V, lv) && Ascending(V, lv)
    ensures forall i, j, a, b :: 0 <= i < j < |V| && Distance(G0, s, V[i], a) && Distance(G0, s, V[j], b) ==> a <= b
  {
    forall i, j, a, b | 0 <= i < j < |V| && Distance(G0, s, V[i], a) && Distance(G0, s, V[j], b) ensures a <= b {
      assert V[i] in V && V[j] in V;
      DistanceUnique(G0, s, V[i], a, lv[V[i]]);
      DistanceUnique(G0, s, V[j], b, lv[V[j]]);
    }
  }

  /** What the search promises about the grid array and the visited list, read off the invariants. */
  lemma Conclude(g: array2<Cell>, G0: Grid, s: Pos, V: seq<Pos>, lv: map<Pos, nat>, prv: map<Pos, Pos>)
    requires Mirror(g, G0, s, V, prv) && VisitedOk(G0, s, V, lv, prv) && InBounds(g.Length0, g.Length1, s)
    ensures g[s.x, s.y].prev == None
    ensures forall v :: v in V ==> Reachable(G0, s, v)
    ensures forall v :: v in V && v != s ==>
      InBounds(g.Length0, g.Length1, v) && g[v.x, v.y].prev.Some?
      && g[v.x, v.y].prev.value in V && Adjacent(g[v.x, v.y].prev.value, v)
  {
    assert Pos(s.x, s.y) == s;
    forall v | v in V ensures Reachable(G0, s, v) {
      WalkOfLengthReachable(G0, s, v, lv[v]);
    }
    forall v | v in V && v != s
      ensures InBounds(g.Length0, g.Length1, v) && g[v.x, v.y].prev.Some?
      ensures g[v.x, v.y].prev.value in V && Adjacent(g[v.x, v.y].prev.value, v)
    {
      assert Pos(v.x, v.y) == v;
      assert v in prv && g[v.x, v.y].prev == Some(prv[v]);
    }
  }
}
