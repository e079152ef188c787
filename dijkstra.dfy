/**
 * Dijkstra's search (src/algorithms/dijkstra.ts), in place on the caller's
 * grid. The start is marked `start` with cost 0 and the end marked `end`; the
 * frontier (`unvisitedNodes`) is scanned linearly for the first cell of least
 * finite cost; the search stops when that cell's state is `end`. Otherwise every
 * enterable neighbour whose cost exceeds the chosen cell's cost plus the step
 * length is lowered and linked back, every such neighbour joins the frontier
 * once, and the chosen cell is marked visited, recorded and dropped from the
 * frontier.
 *
 * The caller hands over a grid reset by `resetPath` in src/App.tsx: nothing
 * visited or linked, every cost infinite, and no `end` cell other than the
 * end (the start's cell is re-marked anyway).
 */
module Dijkstra {
  import opened GridModel
  import opened Walks
  import opened Neighbourhood
  import opened Relaxation

  /**
   * `euclideanDistance` on two orthogonal neighbours: the square root of
   * dx² + dy², which is exactly 1 there.
   */
  function EuclideanDistance(p: Pos, q: Pos): (r: nat)
    requires Adjacent(p, q)
    ensures r * r == (p.x - q.x) * (p.x - q.x) + (p.y - q.y) * (p.y - q.y)
  {
    assert (p.x - q.x == 0 && Abs(p.y - q.y) == 1) || (p.y - q.y == 0 && Abs(p.x - q.x) == 1);
    1
  }

  /** Dijkstra's key has no heuristic term. */
  function NoHeuristic(p: Pos): nat
  {
    0
  }

  /** Only `e` carries the `end` state. */
  ghost predicate EndOnly(G: Grid, e: Pos)
  {
    forall i, j :: 0 <= i < |G| && 0 <= j < |G[i]| ==> (G[i][j].state == End <==> Pos(i, j) == e)
  }

  /**
   * `minCostNode`: the first frontier cell, in insertion order, whose cost is
   * strictly below every earlier one and finite; none when every cost is
   * infinite (or the frontier is empty).
   */
  method MinCostNode(g: array2<Cell>, F: seq<Pos>) returns (m: Option<Pos>)
    requires forall k :: 0 <= k < |F| ==> 0 <= F[k].x < g.Length0 && 0 <= F[k].y < g.Length1
    ensures m.None? <==> forall k :: 0 <= k < |F| ==> g[F[k].x, F[k].y].cost == Infinite
    ensures m.Some? ==>
      exists k :: && 0 <= k < |F| && F[k] == m.value && g[F[k].x, F[k].y].cost.Finite?
                  && (forall j :: 0 <= j < k ==> Below(g[F[k].x, F[k].y].cost, g[F[j].x, F[j].y].cost))
                  && (forall j :: 0 <= j < |F| ==> !Below(g[F[j].x, F[j].y].cost, g[F[k].x, F[k].y].cost))
  {
    m := None;
    var minValue := Infinite;
    ghost var at := 0;
    for i := 0 to |F|
      invariant m.None? <==> minValue == Infinite
      invariant m.None? ==> forall k :: 0 <= k < i ==> g[F[k].x, F[k].y].cost == Infinite
      invariant m.Some? ==> at < i && F[at] == m.value && g[F[at].x, F[at].y].cost == minValue
      invariant m.Some? ==> forall j :: 0 <= j < at ==> Below(minValue, g[F[j].x, F[j].y].cost)
      invariant forall j :: 0 <= j < i ==> !Below(g[F[j].x, F[j].y].cost, minValue)
    {
      var c := g[F[i].x, F[i].y].cost;
      if Below(c, minValue) {
        m := Some(F[i]);
        minValue := c;
        at := i;
      }
    }
  }

  /** What holds before each round of the main loop. */
  ghost predicate SearchInv(g: array2<Cell>, G: Grid, s: Pos, e: Pos, V: seq<Pos>, F: seq<Pos>,
                            dm: map<Pos, nat>, prv: map<Pos, Pos>)
    reads g
  {
    Mirror(g, G, V, dm, prv) && Searching(G, s, e, V, F, dm, prv)
  }

  /** The bookkeeping part of `SearchInv`. */
  ghost predicate Searching(G: Grid, s: Pos, e: Pos, V: seq<Pos>, F: seq<Pos>, dm: map<Pos, nat>, prv: map<Pos, Pos>)
  {
    && Costs(G, s, V, F, dm) && Linked(G, s, Elems(V), dm, prv)
    && Settled(G, s, V, dm) && Relaxed(G, V, F, dm, {})
    && (V == [] ==> F == [s])
    && InGrid(G, e) && EndOnly(G, e) && e !in V
    && Ordered(V, F, dm, NoHeuristic)
  }

  /**
   * `dijkstra`. On the grid with the start and end marked, the visited list
   * starts at the start and gives every visited cell its distance as cost;
   * `e` is visited exactly when it is reachable, and then it is last and the
   * path is a shortest backtrace; otherwise the path is empty and the visited
   * cells are exactly the reachable ones. Visited flags are set on the
   * visited cells but `e`.
   */
  method Dijkstra(g: array2<Cell>, s: Pos, e: Pos) returns (visited: seq<Pos>, path: seq<Pos>)
    requires InBounds(g.Length0, g.Length1, s) && InBounds(g.Length0, g.Length1, e)
    requires Clean(Snapshot(g))
    requires forall i, j :: 0 <= i < g.Length0 && 0 <= j < g.Length1 && g[i, j].state == End ==>
      Pos(i, j) == s || Pos(i, j) == e
    modifies g
    ensures NoDup(visited) && visited != [] && visited[0] == s
    ensures forall i, j, a, b ::
      && 0 <= i < j < |visited|
      && Distance(Marked(old(Snapshot(g)), s, e), s, visited[i], a)
      && Distance(Marked(old(Snapshot(g)), s, e), s, visited[j], b)
      ==> a <= b
    ensures e in visited <==> Reachable(Marked(old(Snapshot(g)), s, e), s, e)
    ensures e in visited ==> visited[|visited| - 1] == e && TracesBack(Marked(old(Snapshot(g)), s, e), s, e, path)
    ensures e in visited && s != e ==>
      Shortest(Marked(old(Snapshot(g)), s, e), s, e, path) && FollowsPrev(g, [e] + path + [s])
    ensures forall p :: p in path ==> p in visited
    ensures e !in visited ==>
      path == [] && forall p :: p in visited <==> Reachable(Marked(old(Snapshot(g)), s, e), s, p)
    ensures forall v :: v in visited ==>
      InBounds(g.Length0, g.Length1, v) && g[v.x, v.y].cost.Finite?
      && Distance(Marked(old(Snapshot(g)), s, e), s, v, g[v.x, v.y].cost.n)
    ensures forall i, j :: 0 <= i < g.Length0 && 0 <= j < g.Length1 ==>
      g[i, j].state == Marked(old(Snapshot(g)), s, e)[i][j].state
      && (g[i, j].visited <==> Pos(i, j) in visited && Pos(i, j) != e)
  {
    ghost var G: Grid := Marked(Snapshot(g), s, e);
    Prepare(g, s, e);
    ghost var dm: map<Pos, nat>, prv: map<Pos, Pos>;
    visited, path, dm, prv := Search(g, G, s, e);
    Conclude(g, G, s, e, visited, path, dm, prv);
    KeyOrder(G, s, visited, dm, NoHeuristic);
  }

  /** The three assignments before the main loop. */
  method Prepare(g: array2<Cell>, s: Pos, e: Pos)
    requires InBounds(g.Length0, g.Length1, s) && InBounds(g.Length0, g.Length1, e)
    requires Clean(Snapshot(g))
    requires forall i, j :: 0 <= i < g.Length0 && 0 <= j < g.Length1 && g[i, j].state == End ==>
      Pos(i, j) == s || Pos(i, j) == e
    modifies g
    ensures Mirror(g, Marked(old(Snapshot(g)), s, e), [], map[s := 0], map[])
    ensures EndOnly(Marked(old(Snapshot(g)), s, e), e)
  {
    ghost var G: Grid := Marked(Snapshot(g), s, e);
    g[s.x, s.y] := g[s.x, s.y].(state := Start);
    g[s.x, s.y] := g[s.x, s.y].(cost := Finite(0));
    g[e.x, e.y] := g[e.x, e.y].(state := End);
    forall i, j | 0 <= i < g.Length0 && 0 <= j < g.Length1
      ensures g[i, j].state == G[i][j].state && !g[i, j].visited && g[i, j].prev == None
      ensures g[i, j].cost == (if Pos(i, j) == s then Finite(0) else Infinite)
    {
      if Pos(i, j) == s {
        assert i == s.x && j == s.y;
      }
      if Pos(i, j) == e {
        assert i == e.x && j == e.y;
      }
    }
  }

  /** The main loop of `dijkstra`, on the marked grid `G`. */
  method Search(g: array2<Cell>, ghost G: Grid, s: Pos, e: Pos)
    returns (visited: seq<Pos>, path: seq<Pos>, ghost dm: map<Pos, nat>, ghost prv: map<Pos, Pos>)
    requires Mirror(g, G, [], map[s := 0], map[]) && InGrid(G, s) && InGrid(G, e) && EndOnly(G, e)
    modifies g
    ensures Outcome(g, G, s, e, visited, path, dm, prv) && Ascending(visited, dm, NoHeuristic)
  {
    var F := [s];
    visited, dm, prv := [], map[s := 0], map[];
    Initial(G, s);
    while |F| > 0
      invariant SearchInv(g, G, s, e, visited, F, dm, prv)
      decreases AllCells(g.Length0, g.Length1) - Elems(visited)
    {
      FrontierFinite(g, G, s, visited, F, dm, prv);
      assert F[0] in F;
      var m := MinCostNode(g, F);
      if m.None? {
        break;
      }
      Least(g, G, visited, F, dm, prv, NoHeuristic, m.value);
      var found;
      visited, F, dm, prv, found, path := Round(g, G, s, e, visited, F, dm, prv, m.value);
      if found {
        return;
      }
    }
    path := [];
    assert F == [];
    SearchEnd(g, G, s, e, visited, dm, prv);
  }

  /**
   * One round: the chosen cell is the end, or it is settled and its
   * neighbours relaxed. The chosen cell has the least cost on the frontier.
   */
  method Round(g: array2<Cell>, ghost G: Grid, s: Pos, e: Pos, V: seq<Pos>, F: seq<Pos>,
               ghost dm: map<Pos, nat>, ghost prv: map<Pos, Pos>, node: Pos)
    returns (V': seq<Pos>, F': seq<Pos>, ghost dm': map<Pos, nat>, ghost prv': map<Pos, Pos>,
             found: bool, path: seq<Pos>)
    requires SearchInv(g, G, s, e, V, F, dm, prv) && node in F && forall q :: q in F ==> dm[node] <= dm[q]
    modifies g
    ensures found ==> Outcome(g, G, s, e, V', path, dm', prv') && Ascending(V', dm', NoHeuristic)
    ensures !found ==> SearchInv(g, G, s, e, V', F', dm', prv')
    ensures !found ==> AllCells(g.Length0, g.Length1) - Elems(V') < AllCells(g.Length0, g.Length1) - Elems(V)
    ensures V' == V + [node] && (found <==> node == e)
    ensures !found ==> var ns := Around(G, V, node); var r := RelaxFirst(F, dm, prv, node, dm[node], ns, |ns|);
      F' == Remove(r.0, node) && dm' == r.1 && prv' == r.2
  {
    Choose(g, G, s, e, V, F, dm, prv, node);
    V', F', dm', prv', found, path := V, F, dm, prv, false, [];
    if g[node.x, node.y].state == End {
      found := true;
      V' := V + [node];
      OrderSettle(V, F, dm, NoHeuristic, node);
      path := Finish(g, G, s, e, V, dm, prv);
      Found(G, s, e, V, F, dm, path);
      assert (V + [e])[..|V|] == V;
    } else {
      V', F', dm', prv' := Step(g, G, s, e, V, F, dm, prv, node);
    }
  }

  /** The chosen cell's cost is least on the frontier, so no walk to it is shorter. */
  lemma Choose(g: array2<Cell>, G: Grid, s: Pos, e: Pos, V: seq<Pos>, F: seq<Pos>, dm: map<Pos, nat>,
               prv: map<Pos, Pos>, node: Pos)
    requires SearchInv(g, G, s, e, V, F, dm, prv) && node in F && forall q :: q in F ==> dm[node] <= dm[q]
    ensures AtLeast(G, s, node, dm[node]) && (V == [] ==> node == s)
    ensures 0 <= node.x < g.Length0 && 0 <= node.y < g.Length1 && (g[node.x, node.y].state == End <==> node == e)
  {
    assert InGrid(G, node) && Pos(node.x, node.y) == node;
    assert forall q :: q in F ==> dm[node] + NoHeuristic(node) <= dm[q] + NoHeuristic(q);
    Select(G, s, V, F, dm, NoHeuristic, node);
  }

  /** Relax the chosen cell's neighbours, then settle it. */
  method Step(g: array2<Cell>, ghost G: Grid, s: Pos, e: Pos, V: seq<Pos>, F: seq<Pos>,
              ghost dm: map<Pos, nat>, ghost prv: map<Pos, Pos>, node: Pos)
    returns (V': seq<Pos>, F': seq<Pos>, ghost dm': map<Pos, nat>, ghost prv': map<Pos, Pos>)
    requires SearchInv(g, G, s, e, V, F, dm, prv) && node in F && AtLeast(G, s, node, dm[node])
    requires (V == [] ==> node == s) && node != e && KeyLeast(F, dm, NoHeuristic, node)
    modifies g
    ensures SearchInv(g, G, s, e, V', F', dm', prv')
    ensures AllCells(g.Length0, g.Length1) - Elems(V') < AllCells(g.Length0, g.Length1) - Elems(V)
    ensures V' == V + [node]
    ensures var ns := Around(G, V, node); var r := RelaxFirst(F, dm, prv, node, dm[node], ns, |ns|);
      F' == Remove(r.0, node) && dm' == r.1 && prv' == r.2
  {
    assert InGrid(G, node) && Pos(node.x, node.y) == node;
    var ns := Neighbours(g, node);
    NeighboursOpen(g, G, V, dm, prv, node);
    Linked2(G, s, Elems(V), Elems(V) + {node}, dm, prv);
    F', dm', prv' := Expand(g, G, s, V, F, dm, prv, node, ns);
    V', F' := Settle(g, G, s, e, V, F', dm', prv', node, ns);
  }

  /** What holds while the chosen cell's neighbours are relaxed, the first `k` of them done. */
  ghost predicate ExpandInv(g: array2<Cell>, G: Grid, s: Pos, V: seq<Pos>, F: seq<Pos>, dm: map<Pos, nat>,
                            prv: map<Pos, Pos>, node: Pos, ns: seq<Pos>, k: int)
    reads g
  {
    Mirror(g, G, V, dm, prv) && Relaxing(G, s, V, F, dm, prv, node, ns, k)
  }

  /** The bookkeeping part of `ExpandInv`: the first `k` neighbours are on the frontier at most one step dearer. */
  ghost predicate Relaxing(G: Grid, s: Pos, V: seq<Pos>, F: seq<Pos>, dm: map<Pos, nat>, prv: map<Pos, Pos>,
                           node: Pos, ns: seq<Pos>, k: int)
  {
    && Costs(G, s, V, F, dm) && Linked(G, s, Elems(V) + {node}, dm, prv)
    && Settled(G, s, V, dm) && Relaxed(G, V, F, dm, {})
    && node in F && node !in V && 0 <= k <= |ns|
    && forall i :: 0 <= i < k ==> ns[i] in F && ns[i] in dm && dm[ns[i]] <= dm[node] + 1
  }

  /** The inner `for` loop of `dijkstra` over the chosen cell's neighbours. */
  method Expand(g: array2<Cell>, ghost G: Grid, s: Pos, ghost V: seq<Pos>, F: seq<Pos>, ghost dm: map<Pos, nat>,
                ghost prv: map<Pos, Pos>, node: Pos, ns: seq<Pos>)
    returns (F': seq<Pos>, ghost dm': map<Pos, nat>, ghost prv': map<Pos, Pos>)
    requires ExpandInv(g, G, s, V, F, dm, prv, node, ns, 0)
    requires forall q :: q in ns <==> Adjacent(node, q) && Open(G, q) && q !in V
    requires Ordered(V, F, dm, NoHeuristic) && KeyLeast(F, dm, NoHeuristic, node)
    modifies g
    ensures ExpandInv(g, G, s, V, F', dm', prv', node, ns, |ns|) && dm'[node] == dm[node]
    ensures (F', dm', prv') == RelaxFirst(F, dm, prv, node, dm[node], ns, |ns|)
    ensures Ordered(V, F', dm', NoHeuristic) && KeyLeast(F', dm', NoHeuristic, node)
  {
    F', dm', prv' := F, dm, prv;
    for k := 0 to |ns|
      invariant ExpandInv(g, G, s, V, F', dm', prv', node, ns, k) && dm'[node] == dm[node]
      invariant (F', dm', prv') == RelaxFirst(F, dm, prv, node, dm[node], ns, k)
      invariant Ordered(V, F', dm', NoHeuristic) && KeyLeast(F', dm', NoHeuristic, node)
    {
      ghost var F0, dm0 := F', dm';
      F', dm', prv' := Relax(g, G, s, V, F', dm', prv', node, ns, k, F, dm, prv);
      OrderRelax(V, F0, dm0, NoHeuristic, node, ns[k], ns[k] !in dm0 || dm0[node] + 1 < dm0[ns[k]], F');
    }
  }

  /**
   * The inner loop of `dijkstra` as a value: the first `k` neighbours `ns`
   * relaxed in turn from `node` at cost `c`. Each one joins the frontier
   * unless it is there already, and is lowered to `c + 1` and linked to
   * `node` when that beats its cost so far.
   */
  ghost function RelaxFirst(F: seq<Pos>, dm: map<Pos, nat>, prv: map<Pos, Pos>, node: Pos, c: nat, ns: seq<Pos>, k: nat)
    : (seq<Pos>, map<Pos, nat>, map<Pos, Pos>)
    requires k <= |ns|
    decreases k
  {
    if k == 0 then (F, dm, prv)
    else
      var r := RelaxFirst(F, dm, prv, node, c, ns, k - 1);
      var n := ns[k - 1];
      var better := n !in r.1 || c + 1 < r.1[n];
      (if n in r.0 then r.0 else r.0 + [n],
       if better then r.1[n := c + 1] else r.1,
       if better then r.2[n := node] else r.2)
  }

  /**
   * Whatever the order of the neighbours, relaxing them puts every one of
   * them on the frontier and lowers the costs and links as `Lowered` says.
   */
  lemma {:induction false} RelaxFirstLowered(F: seq<Pos>, dm: map<Pos, nat>, prv: map<Pos, Pos>, node: Pos, c: nat,
                                             ns: seq<Pos>, k: nat)
    requires k <= |ns|
    ensures var r := RelaxFirst(F, dm, prv, node, c, ns, k);
      && (forall q :: q in r.0 <==> q in F || q in ns[..k])
      && Lowered(dm, prv, node, c, ns[..k], r.1, r.2)
  {
    if k > 0 {
      RelaxFirstLowered(F, dm, prv, node, c, ns, k - 1);
      var r := RelaxFirst(F, dm, prv, node, c, ns, k - 1);
      assert ns[..k][..k - 1] == ns[..k - 1] && ns[..k] == ns[..k - 1] + [ns[k - 1]];
      LoweredStep(dm, prv, node, c, ns[..k], r.1, r.2);
    }
  }

  /**
   * One neighbour: when its cost is above the chosen cell's cost plus the
   * step, lower it and link it back; then add it to the frontier unless it is
   * there already.
   */
  method Relax(g: array2<Cell>, ghost G: Grid, s: Pos, ghost V: seq<Pos>, F: seq<Pos>, ghost dm: map<Pos, nat>,
               ghost prv: map<Pos, Pos>, node: Pos, ns: seq<Pos>, k: int,
               ghost F0: seq<Pos>, ghost dm0: map<Pos, nat>, ghost prv0: map<Pos, Pos>)
    returns (F': seq<Pos>, ghost dm': map<Pos, nat>, ghost prv': map<Pos, Pos>)
    requires ExpandInv(g, G, s, V, F, dm, prv, node, ns, k) && k < |ns|
    requires forall q :: q in ns <==> Adjacent(node, q) && Open(G, q) && q !in V
    requires node in dm0 && dm[node] == dm0[node] && (F, dm, prv) == RelaxFirst(F0, dm0, prv0, node, dm0[node], ns, k)
    modifies g
    ensures ExpandInv(g, G, s, V, F', dm', prv', node, ns, k + 1) && dm'[node] == dm[node]
    ensures var better := ns[k] !in dm || dm[node] + 1 < dm[ns[k]];
      && dm' == (if better then dm[ns[k] := dm[node] + 1] else dm)
      && prv' == (if better then prv[ns[k] := node] else prv)
    ensures F' == if ns[k] in F then F else F + [ns[k]]
    ensures (F', dm', prv') == RelaxFirst(F0, dm0, prv0, node, dm0[node], ns, k + 1)
  {
    var n := ns[k];
    assert n in ns && Pos(n.x, n.y) == n && InGrid(G, node) && Pos(node.x, node.y) == node;
    Improvement(g, G, V, dm, prv, node, n);
    var newCost := EuclideanDistance(node, n);
    var current := g[node.x, node.y].cost.n;
    var better := Below(Finite(current + newCost), g[n.x, n.y].cost);
    assert newCost == 1 && current == dm[node];
    RelaxOne(G, s, V, F, dm, prv, node, ns, k, better);
    F', dm', prv' := F, dm, prv;
    if better {
      Lower(g, G, V, dm, prv, n, node);
      dm' := dm[n := dm[node] + 1];
      prv' := prv[n := node];
    }
    if n !in F' {
      F' := F' + [n];
    }
  }

  /** The bookkeeping of one relaxation: `better` says whether the neighbour's cost drops. */
  lemma RelaxOne(G: Grid, s: Pos, V: seq<Pos>, F: seq<Pos>, dm: map<Pos, nat>, prv: map<Pos, Pos>,
                 node: Pos, ns: seq<Pos>, k: int, better: bool)
    requires Relaxing(G, s, V, F, dm, prv, node, ns, k) && k < |ns|
    requires forall q :: q in ns <==> Adjacent(node, q) && Open(G, q) && q !in V
    requires better <==> ns[k] !in dm || dm[node] + 1 < dm[ns[k]]
    ensures Relaxing(G, s, V, if ns[k] in F then F else F + [ns[k]],
                     if better then dm[ns[k] := dm[node] + 1] else dm,
                     if better then prv[ns[k] := node] else prv, node, ns, k + 1)
  {
    var n := ns[k];
    assert n in ns;
    if better {
      RelaxBetter(G, s, V, F, dm, prv, node, ns, k);
    } else {
      assert n in F;
      Reached(ns, k, F, dm, F, dm, dm[node] + 1);
    }
  }

  /** `RelaxOne` when the neighbour's cost drops. */
  lemma RelaxBetter(G: Grid, s: Pos, V: seq<Pos>, F: seq<Pos>, dm: map<Pos, nat>, prv: map<Pos, Pos>,
                    node: Pos, ns: seq<Pos>, k: int)
    requires Relaxing(G, s, V, F, dm, prv, node, ns, k) && k < |ns|
    requires ns[k] in ns && Adjacent(node, ns[k]) && Open(G, ns[k]) && ns[k] !in V
    requires ns[k] !in dm || dm[node] + 1 < dm[ns[k]]
    ensures Relaxing(G, s, V, if ns[k] in F then F else F + [ns[k]], dm[ns[k] := dm[node] + 1],
                     prv[ns[k] := node], node, ns, k + 1)
  {
    var n := ns[k];
    var F', dm' := if n in F then F else F + [n], dm[n := dm[node] + 1];
    ImproveCosts(G, s, V, F, dm, node, n);
    ImproveLinks(G, s, Elems(V) + {node}, dm, prv, node, n);
    RelaxedMono(G, V, F, dm, F', dm', {});
    Reached(ns, k, F, dm, F', dm', dm[node] + 1);
    assert Settled(G, s, V, dm') by {
      forall v | v in V ensures v in dm' && AtLeast(G, s, v, dm'[v]) {
        assert v in dm && v != n;
      }
    }
  }

  /** Mark the chosen cell visited, record it and drop it from the frontier. */
  method Settle(g: array2<Cell>, ghost G: Grid, s: Pos, e: Pos, V: seq<Pos>, F: seq<Pos>, ghost dm: map<Pos, nat>,
                ghost prv: map<Pos, Pos>, node: Pos, ghost ns: seq<Pos>)
    returns (V': seq<Pos>, F': seq<Pos>)
    requires ExpandInv(g, G, s, V, F, dm, prv, node, ns, |ns|) && AtLeast(G, s, node, dm[node])
    requires forall q :: q in ns <==> Adjacent(node, q) && Open(G, q) && q !in V
    requires (V == [] ==> node == s) && node != e && e !in V && InGrid(G, e) && EndOnly(G, e)
    requires Ordered(V, F, dm, NoHeuristic) && KeyLeast(F, dm, NoHeuristic, node)
    modifies g
    ensures V' == V + [node] && F' == Remove(F, node)
    ensures SearchInv(g, G, s, e, V', F', dm, prv)
    ensures AllCells(g.Length0, g.Length1) - Elems(V') < AllCells(g.Length0, g.Length1) - Elems(V)
  {
    assert InGrid(G, node) && Pos(node.x, node.y) == node;
    SettleOne(G, s, e, V, F, dm, prv, node, ns);
    MarkVisited(g, G, V, dm, prv, node);
    V' := V + [node];
    F' := Remove(F, node);
    assert node in AllCells(g.Length0, g.Length1);
  }

  /** The bookkeeping of settling the chosen cell once all its neighbours are relaxed. */
  lemma SettleOne(G: Grid, s: Pos, e: Pos, V: seq<Pos>, F: seq<Pos>, dm: map<Pos, nat>, prv: map<Pos, Pos>,
                  node: Pos, ns: seq<Pos>)
    requires Relaxing(G, s, V, F, dm, prv, node, ns, |ns|) && AtLeast(G, s, node, dm[node])
    requires forall q :: q in ns <==> Adjacent(node, q) && Open(G, q) && q !in V
    requires (V == [] ==> node == s) && node != e && e !in V && InGrid(G, e) && EndOnly(G, e)
    requires Ordered(V, F, dm, NoHeuristic) && KeyLeast(F, dm, NoHeuristic, node)
    ensures Searching(G, s, e, V + [node], Remove(F, node), dm, prv)
    ensures Elems(V + [node]) == Elems(V) + {node}
  {
    OrderSettle(V, F, dm, NoHeuristic, node);
    Close(G, s, V, F, dm, node);
    var V', F' := V + [node], Remove(F, node);
    forall p | Adjacent(node, p) && Open(G, p) && p !in V' ensures p in F' && p in dm && dm[p] <= dm[node] + 1 {
      assert p in ns;
    }
    CloseNeighbours(G, V', F', dm, node);
  }

}
