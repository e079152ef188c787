/**
 * What Dijkstra (src/algorithms/dijkstra.ts) and A* (src/algorithms/astar.ts)
 * share: a frontier of cells with finite cost, repeatedly settling the one of
 * least key, and relaxing the neighbours of each settled cell by a unit step.
 * Dijkstra's key is the cost; A*'s is the cost plus the Manhattan distance to
 * the end. Both keys are `cost + h` for a consistent `h` (Dijkstra's `h` is 0),
 * and the one argument here shows that a settled cell's cost is its distance.
 *
 * Ghost bookkeeping: `V` lists the settled cells (closed set / visited map) in
 * order, `F` the frontier (open set / unvisited map) in insertion order, `dm`
 * the finite costs and `prv` the `prevNode` links.
 */
module Relaxation {
  import opened GridModel
  import opened Walks
  import opened Neighbourhood

  /** A heuristic that never drops by more than the Manhattan distance travelled. */
  ghost predicate Consistent(h: Pos -> nat)
  {
    forall a, b :: h(a) <= h(b) + Manhattan(a, b)
  }

  /**
   * The grid array against the bookkeeping: states as in `G`, `visited` set
   * exactly on the cells of `V`, finite costs exactly on `dm`, `prevNode` as
   * recorded in `prv`.
   */
  ghost predicate Mirror(g: array2<Cell>, G: Grid, V: seq<Pos>, dm: map<Pos, nat>, prv: map<Pos, Pos>)
    reads g
  {
    && IsGrid(G, g.Length0, g.Length1)
    && forall i, j {:trigger g[i, j]} :: 0 <= i < g.Length0 && 0 <= j < g.Length1 ==>
         && g[i, j].state == G[i][j].state
         && (g[i, j].visited <==> Pos(i, j) in V)
         && g[i, j].cost == (if Pos(i, j) in dm then Finite(dm[Pos(i, j)]) else Infinite)
         && g[i, j].prev == (if Pos(i, j) in prv then Some(prv[Pos(i, j)]) else None)
  }

  /**
   * Settled and frontier cells are distinct and disjoint, they are exactly the
   * cells of finite cost, each such cost is the length of some walk from the
   * start, and the start costs 0 and is settled first.
   */
  ghost predicate Costs(G: Grid, s: Pos, V: seq<Pos>, F: seq<Pos>, dm: map<Pos, nat>)
  {
    && NoDup(V) && NoDup(F)
    && (forall p :: p in F ==> p !in V)
    && (forall p :: p in dm <==> p in V || p in F)
    && (forall p :: p in dm ==> InGrid(G, p) && WalkOfLength(G, s, p, dm[p]))
    && s in dm && dm[s] == 0
    && (V != [] ==> V[0] == s)
  }

  /**
   * The links: the start has none, every other cell of finite cost has one,
   * and a link goes from an open cell to an adjacent cell of `C` whose cost is
   * one less.
   */
  ghost predicate Linked(G: Grid, s: Pos, C: set<Pos>, dm: map<Pos, nat>, prv: map<Pos, Pos>)
  {
    && s !in prv
    && (forall p :: p in dm && p != s ==> p in prv)
    && (forall p {:trigger prv[p]} :: p in prv ==>
          p in dm && prv[p] in C && prv[p] in dm && Adjacent(prv[p], p) && Open(G, p) && dm[p] == dm[prv[p]] + 1)
  }

  /** No walk to a settled cell is shorter than its cost. */
  ghost predicate Settled(G: Grid, s: Pos, V: seq<Pos>, dm: map<Pos, nat>)
  {
    forall v :: v in V ==> v in dm && AtLeast(G, s, v, dm[v])
  }

  /**
   * Every open unsettled neighbour of a settled cell outside `Ex` is on the
   * frontier, at a cost at most one more than the settled cell's.
   */
  ghost predicate Relaxed(G: Grid, V: seq<Pos>, F: seq<Pos>, dm: map<Pos, nat>, Ex: set<Pos>)
  {
    forall v, p :: v in V && v !in Ex && Adjacent(v, p) && Open(G, p) && p !in V ==>
      p in F && p in dm && v in dm && dm[p] <= dm[v] + 1
  }

  /** Before the first round: only the start, at cost 0, on the frontier. */
  lemma Initial(G: Grid, s: Pos)
    requires InGrid(G, s)
    ensures Costs(G, s, [], [s], map[s := 0]) && Linked(G, s, {}, map[s := 0], map[])
    ensures Settled(G, s, [], map[s := 0]) && Relaxed(G, [], [s], map[s := 0], {})
  {
    assert WalkFrom(G, s, s, [s]);
  }

  /**
   * Settling the frontier cell of least key `cost + h` is safe: no walk to it
   * is shorter than its cost. Any walk from the start leaves the settled cells
   * somewhere; the first cell outside is on the frontier at a cost no greater
   * than its index, and its key bounds the chosen cell's key from above.
   */
  lemma Select(G: Grid, s: Pos, V: seq<Pos>, F: seq<Pos>, dm: map<Pos, nat>, h: Pos -> nat, node: Pos)
    requires Costs(G, s, V, F, dm) && Settled(G, s, V, dm) && Relaxed(G, V, F, dm, {})
    requires Consistent(h) && (V == [] ==> F == [s])
    requires node in F && forall q :: q in F ==> dm[node] + h(node) <= dm[q] + h(q)
    ensures AtLeast(G, s, node, dm[node])
  {
    forall w | WalkFrom(G, s, node, w) ensures |w| - 1 >= dm[node] {
      if V != [] {
        var j := Crossing(G, s, V, F, dm, node, w);
        assert h(w[j]) <= h(node) + Manhattan(w[j], node);
      }
    }
  }

  /**
   * A walk from the start to a frontier cell first leaves the settled cells
   * at a frontier cell `w[j]` whose cost is at most `j`, and the rest of the
   * walk is at least as long as the Manhattan distance from there.
   */
  lemma Crossing(G: Grid, s: Pos, V: seq<Pos>, F: seq<Pos>, dm: map<Pos, nat>, node: Pos, w: seq<Pos>)
    returns (j: nat)
    requires Costs(G, s, V, F, dm) && Settled(G, s, V, dm) && Relaxed(G, V, F, dm, {})
    requires V != [] && node in F && WalkFrom(G, s, node, w)
    ensures j < |w| && w[j] in F && w[j] in dm && dm[w[j]] <= j
    ensures Manhattan(w[j], node) <= |w| - 1 - j
  {
    assert s in Elems(V) && node !in Elems(V);
    j := FirstOutside(w, Elems(V));
    WalkPrefix(G, w, j);
    var u := w[j - 1];
    assert u in V && AtLeast(G, s, u, dm[u]);
    assert Step(G, w, j);
    WalkSuffix(G, w, j);
    WalkManhattan(G, w[j..]);
  }

  /** An empty frontier: the settled cells are exactly the cells reachable from the start. */
  lemma Exhausted(G: Grid, s: Pos, V: seq<Pos>, dm: map<Pos, nat>)
    requires Costs(G, s, V, [], dm) && Relaxed(G, V, [], dm, {})
    ensures V != [] && forall p :: p in V <==> Reachable(G, s, p)
  {
    assert s in V;
    forall p ensures p in V <==> Reachable(G, s, p) {
      if p in V {
        assert WalkOfLength(G, s, p, dm[p]);
      }
      if Reachable(G, s, p) {
        var w :| WalkFrom(G, s, p, w);
        ClosedSetHoldsWalk(G, Elems(V), w);
      }
    }
  }

  /** A frontier key: a cost plus a heuristic term, infinite when the cost is. */
  function Plus(c: Cost, n: nat): (k: Cost)
    ensures k.Finite? <==> c.Finite?
    ensures k.Finite? ==> k.n == c.n + n
    ensures n == 0 ==> k == c
  {
    match c
    case Finite(m) => Finite(m + n)
    case Infinite => Infinite
  }

  /** Every frontier cell lies in the grid and has a finite cost, so the minimum scan always finds one. */
  lemma FrontierFinite(g: array2<Cell>, G: Grid, s: Pos, V: seq<Pos>, F: seq<Pos>, dm: map<Pos, nat>,
                       prv: map<Pos, Pos>)
    requires Mirror(g, G, V, dm, prv) && Costs(G, s, V, F, dm)
    ensures forall k :: 0 <= k < |F| ==> 0 <= F[k].x < g.Length0 && 0 <= F[k].y < g.Length1 && g[F[k].x, F[k].y].cost.Finite?
  {
    forall k | 0 <= k < |F| ensures 0 <= F[k].x < g.Length0 && 0 <= F[k].y < g.Length1 && g[F[k].x, F[k].y].cost.Finite? {
      var q := F[k];
      assert q in dm && InGrid(G, q) && Pos(q.x, q.y) == q;
    }
  }

  /** The cell the minimum scan picks has the least key `cost + h` on the frontier. */
  lemma Least(g: array2<Cell>, G: Grid, V: seq<Pos>, F: seq<Pos>, dm: map<Pos, nat>, prv: map<Pos, Pos>,
              h: Pos -> nat, node: Pos)
    requires Mirror(g, G, V, dm, prv) && forall q :: q in F ==> q in dm
    requires forall k :: 0 <= k < |F| ==> 0 <= F[k].x < g.Length0 && 0 <= F[k].y < g.Length1
    requires exists k :: && 0 <= k < |F| && F[k] == node
                         && (forall j :: 0 <= j < |F| ==>
                               !Below(Plus(g[F[j].x, F[j].y].cost, h(F[j])), Plus(g[F[k].x, F[k].y].cost, h(F[k]))))
    ensures node in F && forall q :: q in F ==> dm[node] + h(node) <= dm[q] + h(q)
  {
    var k :| && 0 <= k < |F| && F[k] == node
             && (forall j :: 0 <= j < |F| ==>
                   !Below(Plus(g[F[j].x, F[j].y].cost, h(F[j])), Plus(g[F[k].x, F[k].y].cost, h(F[k]))));
    assert Pos(node.x, node.y) == node;
    forall q | q in F ensures dm[node] + h(node) <= dm[q] + h(q) {
      var j :| 0 <= j < |F| && F[j] == q;
      assert Pos(q.x, q.y) == q;
      assert !Below(Plus(g[F[j].x, F[j].y].cost, h(F[j])), Plus(g[F[k].x, F[k].y].cost, h(F[k])));
    }
  }

  /**
   * The loop ran out of frontier cells: the end was never settled, so it is
   * unreachable, and every reachable cell is settled.
   */
  lemma SearchEnd(g: array2<Cell>, G: Grid, s: Pos, e: Pos, V: seq<Pos>, dm: map<Pos, nat>, prv: map<Pos, Pos>)
    requires Mirror(g, G, V, dm, prv) && Costs(G, s, V, [], dm) && Settled(G, s, V, dm) && Relaxed(G, V, [], dm, {})
    requires e !in V
    ensures Outcome(g, G, s, e, V, [], dm, prv)
  {
    Exhausted(G, s, V, dm);
  }

  /**
   * Lowering a cell's cost to one more than that of `node`, a cell being
   * settled, and adding it to the frontier if it is not already there.
   */
  lemma ImproveCosts(G: Grid, s: Pos, V: seq<Pos>, F: seq<Pos>, dm: map<Pos, nat>, node: Pos, n: Pos)
    requires Costs(G, s, V, F, dm)
    requires node in dm && Adjacent(node, n) && Open(G, n) && n !in V
    requires n !in dm || dm[node] + 1 < dm[n]
    ensures n != s
    ensures Costs(G, s, V, if n in F then F else F + [n], dm[n := dm[node] + 1])
  {
    var F' := if n in F then F else F + [n];
    var dm' := dm[n := dm[node] + 1];
    WalkOfLengthExtend(G, s, node, dm[node], n);
    if n !in F {
      NoDupAppend(F, n);
    }
    forall p | p in dm' ensures InGrid(G, p) && WalkOfLength(G, s, p, dm'[p]) {
      if p != n {
        assert p in dm;
      }
    }
  }

  /** Linking the improved cell `n` to `node`; no link goes to `n`, which is not in `C`. */
  lemma ImproveLinks(G: Grid, s: Pos, C: set<Pos>, dm: map<Pos, nat>, prv: map<Pos, Pos>, node: Pos, n: Pos)
    requires Linked(G, s, C, dm, prv)
    requires node in dm && node in C && Adjacent(node, n) && Open(G, n) && n !in C && n != s
    ensures Linked(G, s, C, dm[n := dm[node] + 1], prv[n := node])
  {
    var dm', prv' := dm[n := dm[node] + 1], prv[n := node];
    forall p | p in prv' ensures LinkOk(G, C, dm', prv', p) {
      if p != n {
        assert LinkOk(G, C, dm, prv, p);
      }
    }
  }

  /** One link of `Linked`. */
  ghost predicate LinkOk(G: Grid, C: set<Pos>, dm: map<Pos, nat>, prv: map<Pos, Pos>, p: Pos)
  {
    p in prv && p in dm && prv[p] in C && prv[p] in dm && Adjacent(prv[p], p) && Open(G, p) && dm[p] == dm[prv[p]] + 1
  }

  /**
   * Moving the chosen cell `node` from the frontier to the settled cells.
   * Its own neighbours are the only ones left to relax.
   */
  lemma Close(G: Grid, s: Pos, V: seq<Pos>, F: seq<Pos>, dm: map<Pos, nat>, node: Pos)
    requires Costs(G, s, V, F, dm) && Settled(G, s, V, dm) && Relaxed(G, V, F, dm, {})
    requires node in F && AtLeast(G, s, node, dm[node]) && (V == [] ==> node == s)
    ensures Costs(G, s, V + [node], Remove(F, node), dm) && Settled(G, s, V + [node], dm)
    ensures Relaxed(G, V + [node], Remove(F, node), dm, {node})
    ensures Elems(V + [node]) == Elems(V) + {node}
  {
    CloseCosts(G, s, V, F, dm, node);
    CloseRelaxed(G, V, F, dm, node);
  }

  /** The cost half of `Close`: the settled list grows by `node`, which leaves the frontier. */
  lemma CloseCosts(G: Grid, s: Pos, V: seq<Pos>, F: seq<Pos>, dm: map<Pos, nat>, node: Pos)
    requires Costs(G, s, V, F, dm) && Settled(G, s, V, dm)
    requires node in F && AtLeast(G, s, node, dm[node]) && (V == [] ==> node == s)
    ensures Costs(G, s, V + [node], Remove(F, node), dm) && Settled(G, s, V + [node], dm)
  {
    var V' := V + [node];
    NoDupAppend(V, node);
    forall v | v in V' ensures v in dm && AtLeast(G, s, v, dm[v]) {
      if v != node {
        assert v in V;
      }
    }
  }

  /** The relaxation half of `Close`: only `node`'s neighbours may be left unrelaxed. */
  lemma CloseRelaxed(G: Grid, V: seq<Pos>, F: seq<Pos>, dm: map<Pos, nat>, node: Pos)
    requires Relaxed(G, V, F, dm, {})
    ensures Relaxed(G, V + [node], Remove(F, node), dm, {node})
    ensures Elems(V + [node]) == Elems(V) + {node}
  {
    var V', F' := V + [node], Remove(F, node);
    forall v, p | v in V' && v != node && Adjacent(v, p) && Open(G, p) && p !in V'
      ensures p in F' && p in dm && v in dm && dm[p] <= dm[v] + 1
    {
      assert v in V;
    }
  }

  /** Once every open unsettled neighbour of `node` is relaxed, nothing is left to relax. */
  lemma CloseNeighbours(G: Grid, V: seq<Pos>, F: seq<Pos>, dm: map<Pos, nat>, node: Pos)
    requires Relaxed(G, V, F, dm, {node}) && node in dm
    requires forall p :: Adjacent(node, p) && Open(G, p) && p !in V ==> p in F && p in dm && dm[p] <= dm[node] + 1
    ensures Relaxed(G, V, F, dm, {})
  {
  }

  /** Relaxation only lowers costs of unsettled cells and only adds to the frontier. */
  lemma RelaxedMono(G: Grid, V: seq<Pos>, F: seq<Pos>, dm: map<Pos, nat>, F': seq<Pos>, dm': map<Pos, nat>,
                    Ex: set<Pos>)
    requires Relaxed(G, V, F, dm, Ex)
    requires forall p :: p in F ==> p in F'
    requires forall p :: p in dm ==> p in dm' && dm'[p] <= dm[p]
    requires forall v :: v in V && v in dm ==> dm'[v] == dm[v]
    ensures Relaxed(G, V, F', dm', Ex)
  {
  }

  /** The links of `D`'s cells, in the grid array, form the forest the backtrace needs. */
  lemma MirrorLinks(g: array2<Cell>, G: Grid, s: Pos, V: seq<Pos>, C: set<Pos>, D: set<Pos>, dm: map<Pos, nat>,
                    prv: map<Pos, Pos>)
    requires Mirror(g, G, V, dm, prv) && Linked(G, s, C, dm, prv) && C <= D
    requires forall p :: p in D ==> p in dm && InGrid(G, p)
    ensures PrevLinks(g, G, s, D, dm)
  {
    forall p | p in D ensures InBounds(g.Length0, g.Length1, p) && (g[p.x, p.y].prev.None? <==> p == s) {
      assert Pos(p.x, p.y) == p;
    }
    forall p | p in D && g[p.x, p.y].prev.Some?
      ensures var u := g[p.x, p.y].prev.value; u in D && dm[u] < dm[p] && Adjacent(u, p) && Open(G, p)
    {
      assert Pos(p.x, p.y) == p;
      assert prv[p] in C;
    }
  }

  /** Along a chain of `prevNode` links ending at the start, costs fall by one per link. */
  lemma {:induction false} ChainCost(g: array2<Cell>, G: Grid, s: Pos, C: set<Pos>, V: seq<Pos>,
                                     dm: map<Pos, nat>, prv: map<Pos, Pos>, chain: seq<Pos>)
    requires Mirror(g, G, V, dm, prv) && Linked(G, s, C, dm, prv) && s in dm && dm[s] == 0
    requires |chain| >= 1 && chain[|chain| - 1] == s && FollowsPrev(g, chain)
    ensures chain[0] in dm && dm[chain[0]] == |chain| - 1
  {
    if |chain| > 1 {
      var p := chain[0];
      assert Pos(p.x, p.y) == p;
      assert g[p.x, p.y].prev == Some(chain[1]);
      assert p in prv && prv[p] == chain[1];
      assert FollowsPrev(g, chain[1..]) by {
        forall i | 0 <= i < |chain[1..]| - 1
          ensures InBounds(g.Length0, g.Length1, chain[1..][i]) && g[chain[1..][i].x, chain[1..][i].y].prev == Some(chain[1..][i + 1])
        {
          assert chain[1..][i] == chain[i + 1] && chain[1..][i + 1] == chain[i + 2];
        }
      }
      ChainCost(g, G, s, C, V, dm, prv, chain[1..]);
    }
  }

  /**
   * What the main loop leaves behind. The visited list starts at `s` and
   * every cell in it has its distance as cost. Either `e` was reached, is
   * recorded last (without being marked visited) and the path is its
   * backtrace through visited cells, as short as any walk; or `e` is
   * unreachable, the path is empty and the visited cells are exactly the
   * reachable ones.
   */
  ghost predicate Outcome(g: array2<Cell>, G: Grid, s: Pos, e: Pos, visited: seq<Pos>, path: seq<Pos>,
                          dm: map<Pos, nat>, prv: map<Pos, Pos>)
    reads g
  {
    && visited != [] && Mirror(g, G, if e in visited then visited[..|visited| - 1] else visited, dm, prv)
    && (e in visited && s != e ==> FollowsPrev(g, [e] + path + [s]))
    && Result(G, s, e, visited, path, dm)
  }

  /** The bookkeeping part of `Outcome`. */
  ghost predicate Result(G: Grid, s: Pos, e: Pos, visited: seq<Pos>, path: seq<Pos>, dm: map<Pos, nat>)
  {
    && visited != [] && NoDup(visited) && visited[0] == s
    && (forall v :: v in visited ==> v in dm && InGrid(G, v) && Distance(G, s, v, dm[v]))
    && (e in visited <==> Reachable(G, s, e))
    && (e in visited ==> visited[|visited| - 1] == e && TracesBack(G, s, e, path))
    && (e in visited && s != e ==> Shortest(G, s, e, path))
    && (forall p :: p in path ==> p in visited)
    && (e !in visited ==> path == [] && forall p :: p in visited <==> Reachable(G, s, p))
  }

  /** Reaching the end: the backtrace along the recorded links, one move shorter than the end's cost. */
  method Finish(g: array2<Cell>, ghost G: Grid, s: Pos, e: Pos, ghost V: seq<Pos>, ghost dm: map<Pos, nat>,
                ghost prv: map<Pos, Pos>)
    returns (path: seq<Pos>)
    requires Mirror(g, G, V, dm, prv) && Linked(G, s, Elems(V), dm, prv) && s in dm && dm[s] == 0
    requires forall p :: p in V || p == e ==> p in dm && InGrid(G, p)
    ensures TracesBack(G, s, e, path)
    ensures s != e ==> FollowsPrev(g, [e] + path + [s]) && dm[e] == |path| + 1
    ensures forall p :: p in path ==> p in V
  {
    MirrorLinks(g, G, s, V, Elems(V), Elems(V) + {e}, dm, prv);
    path := TraceBack(g, G, s, e, Elems(V) + {e}, dm);
    if s != e {
      ChainCost(g, G, s, Elems(V), V, dm, prv, [e] + path + [s]);
      PathInside(G, s, e, path, V);
    }
  }

  /** A backtrace from `e` through `V` and `e` passes through `V` only, since it does not repeat `e`. */
  lemma PathInside(G: Grid, s: Pos, e: Pos, path: seq<Pos>, V: seq<Pos>)
    requires s != e && TracesBack(G, s, e, path) && forall p :: p in path ==> p in Elems(V) + {e}
    ensures forall p :: p in path ==> p in V
  {
    forall p | p in path ensures p in V {
      var i :| 0 <= i < |path| && path[i] == p;
      assert ([e] + path + [s])[i + 1] == p && ([e] + path + [s])[0] == e;
    }
  }

  /** The backtrace from the end, one move shorter than its cost, is as short as any walk. */
  lemma Found(G: Grid, s: Pos, e: Pos, V: seq<Pos>, F: seq<Pos>, dm: map<Pos, nat>, path: seq<Pos>)
    requires Costs(G, s, V, F, dm) && Settled(G, s, V, dm) && e in F && AtLeast(G, s, e, dm[e]) && (V == [] ==> e == s)
    requires TracesBack(G, s, e, path) && (s != e ==> dm[e] == |path| + 1)
    requires forall p :: p in path ==> p in V
    ensures Result(G, s, e, V + [e], path, dm)
  {
    Record(G, s, e, V, F, dm);
    assert Reachable(G, s, e);
  }

  /** Recording the end after the settled cells keeps the list free of repeats, with every cost a distance. */
  lemma Record(G: Grid, s: Pos, e: Pos, V: seq<Pos>, F: seq<Pos>, dm: map<Pos, nat>)
    requires Costs(G, s, V, F, dm) && Settled(G, s, V, dm) && e in F && AtLeast(G, s, e, dm[e]) && (V == [] ==> e == s)
    ensures NoDup(V + [e]) && (V + [e])[0] == s
    ensures forall v :: v in V + [e] ==> v in dm && InGrid(G, v) && Distance(G, s, v, dm[v])
  {
    var W := V + [e];
    NoDupAppend(V, e);
    forall v | v in W ensures v in dm && InGrid(G, v) && Distance(G, s, v, dm[v]) {
      if v != e {
        assert v in V;
      }
    }
  }

  /** Widening the set links may point into keeps them valid. */
  lemma Linked2(G: Grid, s: Pos, C: set<Pos>, D: set<Pos>, dm: map<Pos, nat>, prv: map<Pos, Pos>)
    requires Linked(G, s, C, dm, prv) && C <= D
    ensures Linked(G, s, D, dm, prv)
  {
    forall p | p in prv ensures prv[p] in D {
      assert prv[p] in C;
    }
  }

  /** `getNeighbours` of the chosen cell: its open, unsettled grid neighbours, up, right, down, left. */
  lemma NeighboursOpen(g: array2<Cell>, G: Grid, V: seq<Pos>, dm: map<Pos, nat>, prv: map<Pos, Pos>, node: Pos)
    requires Mirror(g, G, V, dm, prv)
    ensures Neighbours(g, node) == Around(G, V, node)
  {
    forall q | Adjacent(node, q) ensures Enterable(g, q) <==> Open(G, q) && q !in V {
      if InBounds(g.Length0, g.Length1, q) {
        assert Pos(q.x, q.y) == q;
      }
    }
    NeighboursAround(g, G, V, node);
  }

  /**
   * Relaxing the neighbours `ns` of a cell whose cost is `c` lowers `q`'s cost:
   * `q` is one of them and `c + 1` beats the cost it had before (or it had none).
   */
  ghost predicate Improves(dm: map<Pos, nat>, c: nat, ns: seq<Pos>, q: Pos)
  {
    q in ns && (q !in dm || c + 1 < dm[q])
  }

  /**
   * The costs and links after relaxing all of `ns` from `node` at cost `c`,
   * whatever their order: an improved cell costs `c + 1` and links to `node`,
   * every other cell keeps its cost and link.
   */
  ghost predicate Lowered(dm: map<Pos, nat>, prv: map<Pos, Pos>, node: Pos, c: nat, ns: seq<Pos>,
                          dm': map<Pos, nat>, prv': map<Pos, Pos>)
  {
    && (forall q :: q in dm' <==> q in dm || q in ns)
    && (forall q :: q in dm' ==> dm'[q] == if Improves(dm, c, ns, q) then c + 1 else dm[q])
    && (forall q :: q in prv' <==> q in prv || Improves(dm, c, ns, q))
    && (forall q :: q in prv' ==> prv'[q] == if Improves(dm, c, ns, q) then node else prv[q])
  }

  /** Relaxing one more neighbour `n` after the others: it is lowered and linked exactly when that improves it. */
  lemma LoweredStep(dm: map<Pos, nat>, prv: map<Pos, Pos>, node: Pos, c: nat, ns: seq<Pos>,
                    dm1: map<Pos, nat>, prv1: map<Pos, Pos>)
    requires |ns| > 0 && Lowered(dm, prv, node, c, ns[..|ns| - 1], dm1, prv1)
    ensures var n := ns[|ns| - 1];
      var better := n !in dm1 || c + 1 < dm1[n];
      && (better <==> Improves(dm, c, ns, n) && !Improves(dm, c, ns[..|ns| - 1], n))
      && Lowered(dm, prv, node, c, ns, if better then dm1[n := c + 1] else dm1, if better then prv1[n := node] else prv1)
  {
    var P, n := ns[..|ns| - 1], ns[|ns| - 1];
    assert ns == P + [n];
  }

  /** The first `k + 1` neighbours are reached once the `k`-th is, costs only dropping and the frontier only growing. */
  lemma Reached(ns: seq<Pos>, k: int, F: seq<Pos>, dm: map<Pos, nat>, F': seq<Pos>, dm': map<Pos, nat>, c: nat)
    requires 0 <= k < |ns| && forall i :: 0 <= i < k ==> ns[i] in F && ns[i] in dm && dm[ns[i]] <= c
    requires forall p :: p in F ==> p in F'
    requires forall p :: p in dm ==> p in dm' && dm'[p] <= dm[p]
    requires ns[k] in F' && ns[k] in dm' && dm'[ns[k]] <= c
    ensures forall i :: 0 <= i < k + 1 ==> ns[i] in F' && ns[i] in dm' && dm'[ns[i]] <= c
  {
    forall i | 0 <= i < k + 1 ensures ns[i] in F' && ns[i] in dm' && dm'[ns[i]] <= c {
      if i < k {
        assert ns[i] in F;
      }
    }
  }

  /** `grid[n].cost = cost + step; grid[n].prevNode = node`: the array follows the improved bookkeeping. */
  method Lower(g: array2<Cell>, ghost G: Grid, ghost V: seq<Pos>, ghost dm: map<Pos, nat>, ghost prv: map<Pos, Pos>,
               n: Pos, node: Pos)
    requires Mirror(g, G, V, dm, prv) && node in dm && n !in V
    requires 0 <= n.x < g.Length0 && 0 <= n.y < g.Length1
    requires 0 <= node.x < g.Length0 && 0 <= node.y < g.Length1 && node != n
    modifies g
    ensures Mirror(g, G, V, dm[n := dm[node] + 1], prv[n := node])
  {
    assert Pos(node.x, node.y) == node;
    var c := g[node.x, node.y].cost.n + 1;
    g[n.x, n.y] := g[n.x, n.y].(cost := Finite(c));
    g[n.x, n.y] := g[n.x, n.y].(prev := Some(node));
    forall i, j | 0 <= i < g.Length0 && 0 <= j < g.Length1
      ensures g[i, j].cost == (if Pos(i, j) in dm[n := dm[node] + 1] then Finite(dm[n := dm[node] + 1][Pos(i, j)]) else Infinite)
      ensures g[i, j].prev == (if Pos(i, j) in prv[n := node] then Some(prv[n := node][Pos(i, j)]) else None)
    {
      if Pos(i, j) == n {
        assert i == n.x && j == n.y;
      }
    }
  }

  /** The keys `cost + h` never decrease along the settled list. */
  ghost predicate Ascending(V: seq<Pos>, dm: map<Pos, nat>, h: Pos -> nat)
  {
    forall i, j :: 0 <= i < j < |V| && V[i] in dm && V[j] in dm ==> dm[V[i]] + h(V[i]) <= dm[V[j]] + h(V[j])
  }

  /** The settled keys ascend, and no frontier key is below a settled one. */
  ghost predicate Ordered(V: seq<Pos>, F: seq<Pos>, dm: map<Pos, nat>, h: Pos -> nat)
  {
    && Ascending(V, dm, h)
    && forall v, q :: v in V && v in dm && q in F && q in dm ==> dm[v] + h(v) <= dm[q] + h(q)
  }

  /** `node`'s key is least on the frontier `F`. */
  ghost predicate KeyLeast(F: seq<Pos>, dm: map<Pos, nat>, h: Pos -> nat, node: Pos)
  {
    node in dm && forall q :: q in F && q in dm ==> dm[node] + h(node) <= dm[q] + h(q)
  }

  /**
   * Settling the frontier cell of least key keeps the keys in order, and
   * leaves it the settled cell of greatest key.
   */
  lemma OrderSettle(V: seq<Pos>, F: seq<Pos>, dm: map<Pos, nat>, h: Pos -> nat, node: Pos)
    requires Ordered(V, F, dm, h) && KeyLeast(F, dm, h, node) && node in F && node !in V
    ensures Ordered(V + [node], Remove(F, node), dm, h) && KeyLeast(Remove(F, node), dm, h, node)
    ensures forall v :: v in V + [node] && v in dm ==> dm[v] + h(v) <= dm[node] + h(node)
  {
    var V' := V + [node];
    forall i, j | 0 <= i < j < |V'| && V'[i] in dm && V'[j] in dm
      ensures dm[V'[i]] + h(V'[i]) <= dm[V'[j]] + h(V'[j])
    {
      assert V'[i] == V[i] && V[i] in V;
      if j < |V| {
        assert V'[j] == V[j];
      }
    }
  }

  /**
   * Relaxing a neighbour `n` of the cell `node` of least key keeps the keys in
   * order when `h` is consistent: a lowered key `dm[node] + 1 + h(n)` is at
   * least `node`'s, which bounds every settled key. The frontier may gain `n`
   * and nothing else.
   */
  lemma OrderRelax(V: seq<Pos>, F: seq<Pos>, dm: map<Pos, nat>, h: Pos -> nat, node: Pos, n: Pos, better: bool,
                   F': seq<Pos>)
    requires Ordered(V, F, dm, h) && KeyLeast(F, dm, h, node) && Consistent(h) && Adjacent(node, n) && n !in V
    requires forall v :: v in V && v in dm ==> dm[v] + h(v) <= dm[node] + h(node)
    requires better <==> n !in dm || dm[node] + 1 < dm[n]
    requires n in dm ==> n in F
    requires forall q :: q in F' ==> q in F || q == n
    ensures var dm' := if better then dm[n := dm[node] + 1] else dm;
      Ordered(V, F', dm', h) && KeyLeast(F', dm', h, node)
      && forall v :: v in V && v in dm' ==> dm'[v] + h(v) <= dm'[node] + h(node)
  {
    assert h(node) <= h(n) + Manhattan(node, n);
  }

  /** Once settled costs are distances, ascending keys say that distance plus `h` never drops along the list. */
  lemma KeyOrder(G: Grid, s: Pos, V: seq<Pos>, dm: map<Pos, nat>, h: Pos -> nat)
    requires Ascending(V, dm, h) && forall v :: v in V ==> v in dm && Distance(G, s, v, dm[v])
    ensures forall i, j, a: nat, b: nat ::
      0 <= i < j < |V| && Distance(G, s, V[i], a) && Distance(G, s, V[j], b) ==> a + h(V[i]) <= b + h(V[j])
  {
    forall i, j, a: nat, b: nat | 0 <= i < j < |V| && Distance(G, s, V[i], a) && Distance(G, s, V[j], b)
      ensures a + h(V[i]) <= b + h(V[j])
    {
      assert V[i] in V && V[j] in V;
      DistanceUnique(G, s, V[i], a, dm[V[i]]);
      DistanceUnique(G, s, V[j], b, dm[V[j]]);
    }
  }

  /** The comparison a relaxation makes on the array is the comparison of the bookkeeping costs. */
  lemma Improvement(g: array2<Cell>, G: Grid, V: seq<Pos>, dm: map<Pos, nat>, prv: map<Pos, Pos>, node: Pos, n: Pos)
    requires Mirror(g, G, V, dm, prv) && node in dm
    requires 0 <= n.x < g.Length0 && 0 <= n.y < g.Length1 && 0 <= node.x < g.Length0 && 0 <= node.y < g.Length1
    ensures g[node.x, node.y].cost == Finite(dm[node])
    ensures Below(Finite(dm[node] + 1), g[n.x, n.y].cost) <==> n !in dm || dm[node] + 1 < dm[n]
  {
    assert Pos(node.x, node.y) == node && Pos(n.x, n.y) == n;
  }

  /** `grid[node].visited = true`: the array follows the settled cells. */
  method MarkVisited(g: array2<Cell>, ghost G: Grid, ghost V: seq<Pos>, ghost dm: map<Pos, nat>,
                     ghost prv: map<Pos, Pos>, node: Pos)
    requires Mirror(g, G, V, dm, prv) && 0 <= node.x < g.Length0 && 0 <= node.y < g.Length1
    modifies g
    ensures Mirror(g, G, V + [node], dm, prv)
  {
    g[node.x, node.y] := g[node.x, node.y].(visited := true);
    forall i, j | 0 <= i < g.Length0 && 0 <= j < g.Length1
      ensures g[i, j].visited <==> Pos(i, j) in V || Pos(i, j) == node
    {
      if Pos(i, j) == node {
        assert i == node.x && j == node.y;
      }
    }
  }

  /** From the main loop's outcome to what `dijkstra` promises its caller. */
  lemma Conclude(g: array2<Cell>, G: Grid, s: Pos, e: Pos, visited: seq<Pos>, path: seq<Pos>,
                 dm: map<Pos, nat>, prv: map<Pos, Pos>)
    requires Outcome(g, G, s, e, visited, path, dm, prv)
    ensures forall v :: v in visited ==>
      InBounds(g.Length0, g.Length1, v) && g[v.x, v.y].cost.Finite? && Distance(G, s, v, g[v.x, v.y].cost.n)
    ensures forall i, j :: 0 <= i < g.Length0 && 0 <= j < g.Length1 ==>
      g[i, j].state == G[i][j].state && (g[i, j].visited <==> Pos(i, j) in visited && Pos(i, j) != e)
  {
    var Vf := if e in visited then visited[..|visited| - 1] else visited;
    forall v | v in visited ensures InBounds(g.Length0, g.Length1, v) && g[v.x, v.y].cost == Finite(dm[v]) {
      assert Pos(v.x, v.y) == v;
    }
    if e in visited {
      DropLast(visited, e);
    }
  }
}
