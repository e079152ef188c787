/**
 * A* search (src/algorithms/astar.ts), in place on the caller's grid. Only
 * the start's cost is set (to 0) before the loop; no state is marked. The
 * open set is scanned linearly for the first cell of least `f = cost + h`,
 * where `h` is the Manhattan distance to the end; the search stops when that
 * cell is the end's position. Otherwise the cell moves from the open set to
 * the closed set and is marked visited, and every enterable neighbour whose
 * cost exceeds the cell's cost plus one is lowered, linked back and, unless it
 * is there already, added to the open set.
 *
 * The caller hands over a grid reset by `resetPath` in src/App.tsx: nothing
 * visited or linked and every cost infinite.
 */
module AStar {
  import opened GridModel
  import opened Walks
  import opened Neighbourhood
  import opened Relaxation

  /** `heuristic`: the Manhattan distance to the end, zero exactly at the end. */
  function Heuristic(p: Pos, e: Pos): (r: nat)
    ensures r == 0 <==> p == e
  {
    Manhattan(p, e)
  }

  /** `heuristic` towards `e`, as the key term `h` of the shared frontier invariants. */
  function Towards(e: Pos): Pos -> nat
  {
    (p: Pos) => Heuristic(p, e)
  }

  /** The heuristic never drops by more than the distance travelled, so A* settles cells at their distance. */
  lemma HeuristicConsistent(e: Pos)
    ensures Consistent(Towards(e))
  {
    forall a: Pos, b: Pos ensures Heuristic(a, e) <= Heuristic(b, e) + Manhattan(a, b) {
      assert Abs(a.x - e.x) <= Abs(b.x - e.x) + Abs(a.x - b.x);
      assert Abs(a.y - e.y) <= Abs(b.y - e.y) + Abs(a.y - b.y);
    }
  }

  /** `getF`: the cost plus the heuristic, infinite when the cost is. */
  function FScore(c: Cost, p: Pos, e: Pos): (f: Cost)
    ensures f.Finite? <==> c.Finite?
    ensures f.Finite? ==> f.n >= c.n && f.n - c.n == Manhattan(p, e)
  {
    Plus(c, Heuristic(p, e))
  }

  /**
   * `minFNode`: the first open cell, in insertion order, whose `f` is
   * strictly below every earlier one and finite; none when every `f` is
   * infinite (or the open set is empty).
   */
  method MinFNode(g: array2<Cell>, F: seq<Pos>, e: Pos) returns (m: Option<Pos>)
    requires forall k :: 0 <= k < |F| ==> 0 <= F[k].x < g.Length0 && 0 <= F[k].y < g.Length1
    ensures m.None? <==> forall k :: 0 <= k < |F| ==> g[F[k].x, F[k].y].cost == Infinite
    ensures m.Some? ==>
      exists k :: && 0 <= k < |F| && F[k] == m.value && g[F[k].x, F[k].y].cost.Finite?
                  && (forall j :: 0 <= j < k ==>
                        Below(FScore(g[F[k].x, F[k].y].cost, F[k], e), FScore(g[F[j].x, F[j].y].cost, F[j], e)))
                  && (forall j :: 0 <= j < |F| ==>
                        !Below(FScore(g[F[j].x, F[j].y].cost, F[j], e), FScore(g[F[k].x, F[k].y].cost, F[k], e)))
  {
    m := None;
    var minF := Infinite;
    ghost var at := 0;
    for i := 0 to |F|
      invariant m.None? <==> minF == Infinite
      invariant m.None? ==> forall k :: 0 <= k < i ==> g[F[k].x, F[k].y].cost == Infinite
      invariant m.Some? ==> at < i && F[at] == m.value && FScore(g[F[at].x, F[at].y].cost, F[at], e) == minF
      invariant m.Some? ==> forall j :: 0 <= j < at ==> Below(minF, FScore(g[F[j].x, F[j].y].cost, F[j], e))
      invariant forall j :: 0 <= j < i ==> !Below(FScore(g[F[j].x, F[j].y].cost, F[j], e), minF)
    {
      var f := FScore(g[F[i].x, F[i].y].cost, F[i], e);
      if Below(f, minF) {
        m := Some(F[i]);
        minF := f;
        at := i;
      }
    }
  }

  /** What holds before each round of the main loop. */
  ghost predicate SearchInv(g: array2<Cell>, G: Grid, s: Pos, e: Pos, V: seq<Pos>, F: seq<Pos>,
                            dm: map<Pos, nat>, prv: map<Pos, Pos>)
    reads g
  {
    Mirror(g, G, V, dm, prv) && Searching(G, s, e, V, F, dm, prv)
  }

  /** The bookkeeping part of `SearchInv`: `V` is the closed set, `F` the open set. */
  ghost predicate Searching(G: Grid, s: Pos, e: Pos, V: seq<Pos>, F: seq<Pos>, dm: map<Pos, nat>, prv: map<Pos, Pos>)
  {
    && Costs(G, s, V, F, dm) && Linked(G, s, Elems(V), dm, prv)
    && Settled(G, s, V, dm) && Relaxed(G, V, F, dm, {})
    && (V == [] ==> F == [s])
    && InGrid(G, e) && e !in V
    && Ordered(V, F, dm, Towards(e))
  }

  /**
   * `aStar`. The closed set starts at the start and gives every closed cell
   * its distance as cost; `e` is closed exactly when it is reachable, and then
   * it is last and the path is a shortest backtrace; otherwise the path is
   * empty and the closed cells are exactly the reachable ones. Visited flags
   * are set on the closed cells but `e`; no state changes.
   */
  method AStar(g: array2<Cell>, s: Pos, e: Pos) returns (closed: seq<Pos>, path: seq<Pos>)
    requires InBounds(g.Length0, g.Length1, s) && InBounds(g.Length0, g.Length1, e)
    requires Clean(Snapshot(g))
    modifies g
    ensures NoDup(closed) && closed != [] && closed[0] == s
    ensures forall i, j, a: nat, b: nat ::
      && 0 <= i < j < |closed|
      && Distance(old(Snapshot(g)), s, closed[i], a) && Distance(old(Snapshot(g)), s, closed[j], b)
      ==> a + Heuristic(closed[i], e) <= b + Heuristic(closed[j], e)
    ensures e in closed <==> Reachable(old(Snapshot(g)), s, e)
    ensures e in closed ==> closed[|closed| - 1] == e && TracesBack(old(Snapshot(g)), s, e, path)
    ensures e in closed && s != e ==>
      Shortest(old(Snapshot(g)), s, e, path) && FollowsPrev(g, [e] + path + [s])
    ensures forall p :: p in path ==> p in closed
    ensures e !in closed ==>
      path == [] && forall p :: p in closed <==> Reachable(old(Snapshot(g)), s, p)
    ensures forall v :: v in closed ==>
      InBounds(g.Length0, g.Length1, v) && g[v.x, v.y].cost.Finite?
      && Distance(old(Snapshot(g)), s, v, g[v.x, v.y].cost.n)
    ensures forall i, j :: 0 <= i < g.Length0 && 0 <= j < g.Length1 ==>
      g[i, j].state == old(g[i, j].state)
      && (g[i, j].visited <==> Pos(i, j) in closed && Pos(i, j) != e)
  {
    ghost var G: Grid := Snapshot(g);
    Prepare(g, s);
    ghost var dm: map<Pos, nat>, prv: map<Pos, Pos>;
    closed, path, dm, prv := Search(g, G, s, e);
    Conclude(g, G, s, e, closed, path, dm, prv);
    KeyOrder(G, s, closed, dm, Towards(e));
  }

  /** `grid[start].cost = 0`. */
  method Prepare(g: array2<Cell>, s: Pos)
    requires InBounds(g.Length0, g.Length1, s) && Clean(Snapshot(g))
    modifies g
    ensures Mirror(g, old(Snapshot(g)), [], map[s := 0], map[])
  {
    ghost var G: Grid := Snapshot(g);
    g[s.x, s.y] := g[s.x, s.y].(cost := Finite(0));
    forall i, j | 0 <= i < g.Length0 && 0 <= j < g.Length1
      ensures g[i, j].state == G[i][j].state && !g[i, j].visited && g[i, j].prev == None
      ensures g[i, j].cost == (if Pos(i, j) == s then Finite(0) else Infinite)
    {
      if Pos(i, j) == s {
        assert i == s.x && j == s.y;
      }
    }
  }

  /** The main loop of `aStar`. */
  method Search(g: array2<Cell>, ghost G: Grid, s: Pos, e: Pos)
    returns (closed: seq<Pos>, path: seq<Pos>, ghost dm: map<Pos, nat>, ghost prv: map<Pos, Pos>)
    requires Mirror(g, G, [], map[s := 0], map[]) && InGrid(G, s) && InGrid(G, e)
    modifies g
    ensures Outcome(g, G, s, e, closed, path, dm, prv) && Ascending(closed, dm, Towards(e))
  {
    var F := [s];
    closed, dm, prv := [], map[s := 0], map[];
    Initial(G, s);
    while |F| > 0
      invariant SearchInv(g, G, s, e, closed, F, dm, prv)
      decreases AllCells(g.Length0, g.Length1) - Elems(closed)
    {
      FrontierFinite(g, G, s, closed, F, dm, prv);
      assert F[0] in F;
      var m := MinFNode(g, F, e);
      if m.None? {
        break;
      }
      Picked(g, G, s, e, closed, F, dm, prv, m.value);
      var found;
      closed, F, dm, prv, found, path := Round(g, G, s, e, closed, F, dm, prv, m.value);
      if found {
        return;
      }
    }
    path := [];
    assert F == [];
    SearchEnd(g, G, s, e, closed, dm, prv);
  }

  /** `minFNode`'s pick is a least key of the frontier with `h` the Manhattan distance to `e`. */
  lemma Picked(g: array2<Cell>, G: Grid, s: Pos, e: Pos, V: seq<Pos>, F: seq<Pos>, dm: map<Pos, nat>,
               prv: map<Pos, Pos>, node: Pos)
    requires SearchInv(g, G, s, e, V, F, dm, prv)
    requires forall k :: 0 <= k < |F| ==> 0 <= F[k].x < g.Length0 && 0 <= F[k].y < g.Length1
    requires exists k :: && 0 <= k < |F| && F[k] == node
                         && (forall j :: 0 <= j < |F| ==>
                               !Below(FScore(g[F[j].x, F[j].y].cost, F[j], e), FScore(g[F[k].x, F[k].y].cost, F[k], e)))
    ensures node in F && forall q :: q in F ==> dm[node] + Heuristic(node, e) <= dm[q] + Heuristic(q, e)
  {
    Least(g, G, V, F, dm, prv, Towards(e), node);
  }

  /**
   * One round: the chosen cell is the end, or it is closed and its
   * neighbours relaxed. The chosen cell has the least `cost + h` on the open set.
   */
  method Round(g: array2<Cell>, ghost G: Grid, s: Pos, e: Pos, V: seq<Pos>, F: seq<Pos>,
               ghost dm: map<Pos, nat>, ghost prv: map<Pos, Pos>, node: Pos)
    returns (V': seq<Pos>, F': seq<Pos>, ghost dm': map<Pos, nat>, ghost prv': map<Pos, Pos>,
             found: bool, path: seq<Pos>)
    requires SearchInv(g, G, s, e, V, F, dm, prv) && node in F
    requires forall q :: q in F ==> dm[node] + Heuristic(node, e) <= dm[q] + Heuristic(q, e)
    modifies g
    ensures found ==> Outcome(g, G, s, e, V', path, dm', prv') && Ascending(V', dm', Towards(e))
    ensures !found ==> SearchInv(g, G, s, e, V', F', dm', prv')
    ensures !found ==> AllCells(g.Length0, g.Length1) - Elems(V') < AllCells(g.Length0, g.Length1) - Elems(V)
    ensures V' == V + [node] && (found <==> node == e)
    ensures !found ==> var ns := Around(G, V', node); var r := RelaxFirst(Remove(F, node), dm, prv, node, dm[node], ns, |ns|);
      F' == r.0 && dm' == r.1 && prv' == r.2
  {
    Choose(G, s, e, V, F, dm, prv, node);
    V', F', dm', prv', found, path := V, F, dm, prv, false, [];
    if node == e {
      found := true;
      V' := V + [node];
      OrderSettle(V, F, dm, Towards(e), node);
      path := Finish(g, G, s, e, V, dm, prv);
      Found(G, s, e, V, F, dm, path);
      assert (V + [e])[..|V|] == V;
    } else {
      V', F', dm', prv' := Step(g, G, s, e, V, F, dm, prv, node);
    }
  }

  /** The chosen cell's `cost + h` is least on the open set and `h` is consistent, so no walk to it is shorter. */
  lemma Choose(G: Grid, s: Pos, e: Pos, V: seq<Pos>, F: seq<Pos>, dm: map<Pos, nat>, prv: map<Pos, Pos>, node: Pos)
    requires Searching(G, s, e, V, F, dm, prv) && node in F
    requires forall q :: q in F ==> dm[node] + Heuristic(node, e) <= dm[q] + Heuristic(q, e)
    ensures AtLeast(G, s, node, dm[node]) && (V == [] ==> node == s)
  {
    var h := Towards(e);
    HeuristicConsistent(e);
    assert forall q :: q in F ==> dm[node] + h(node) <= dm[q] + h(q);
    Select(G, s, V, F, dm, h, node);
  }

  /** Close the chosen cell, then relax its neighbours. */
  method Step(g: array2<Cell>, ghost G: Grid, s: Pos, e: Pos, V: seq<Pos>, F: seq<Pos>,
              ghost dm: map<Pos, nat>, ghost prv: map<Pos, Pos>, node: Pos)
    returns (V': seq<Pos>, F': seq<Pos>, ghost dm': map<Pos, nat>, ghost prv': map<Pos, Pos>)
    requires SearchInv(g, G, s, e, V, F, dm, prv) && node in F && AtLeast(G, s, node, dm[node])
    requires (V == [] ==> node == s) && node != e && KeyLeast(F, dm, Towards(e), node)
    modifies g
    ensures SearchInv(g, G, s, e, V', F', dm', prv')
    ensures AllCells(g.Length0, g.Length1) - Elems(V') < AllCells(g.Length0, g.Length1) - Elems(V)
    ensures V' == V + [node]
    ensures var ns := Around(G, V', node); var r := RelaxFirst(Remove(F, node), dm, prv, node, dm[node], ns, |ns|);
      F' == r.0 && dm' == r.1 && prv' == r.2
  {
    assert InGrid(G, node) && Pos(node.x, node.y) == node;
    assert node in AllCells(g.Length0, g.Length1);
    CloseOne(G, s, e, V, F, dm, prv, node);
    OrderSettle(V, F, dm, Towards(e), node);
    HeuristicConsistent(e);
    F' := Remove(F, node);
    V' := V + [node];
    MarkVisited(g, G, V, dm, prv, node);
    var ns := Neighbours(g, node);
    NeighboursOpen(g, G, V', dm, prv, node);
    F', dm', prv' := Expand(g, G, s, e, V', F', dm, prv, node, ns);
    OpenAll(G, s, e, V', F', dm', prv', node, ns);
  }

  /** The bookkeeping of closing the chosen cell before its neighbours are relaxed. */
  lemma CloseOne(G: Grid, s: Pos, e: Pos, V: seq<Pos>, F: seq<Pos>, dm: map<Pos, nat>, prv: map<Pos, Pos>, node: Pos)
    requires Searching(G, s, e, V, F, dm, prv) && node in F && AtLeast(G, s, node, dm[node])
    requires (V == [] ==> node == s) && node != e
    ensures Relaxing(G, s, V + [node], Remove(F, node), dm, prv, node, [], 0)
    ensures Elems(V + [node]) == Elems(V) + {node} && e !in V + [node]
  {
    Close(G, s, V, F, dm, node);
    Linked2(G, s, Elems(V), Elems(V) + {node}, dm, prv);
  }

  /** Once every neighbour is relaxed, the closed cell leaves nothing to relax. */
  lemma OpenAll(G: Grid, s: Pos, e: Pos, V: seq<Pos>, F: seq<Pos>, dm: map<Pos, nat>, prv: map<Pos, Pos>,
                node: Pos, ns: seq<Pos>)
    requires Relaxing(G, s, V, F, dm, prv, node, ns, |ns|)
    requires forall q :: q in ns <==> Adjacent(node, q) && Open(G, q) && q !in V
    requires V != [] && InGrid(G, e) && e !in V && Ordered(V, F, dm, Towards(e))
    ensures Searching(G, s, e, V, F, dm, prv)
  {
    forall p | Adjacent(node, p) && Open(G, p) && p !in V ensures p in F && p in dm && dm[p] <= dm[node] + 1 {
      assert p in ns;
    }
    CloseNeighbours(G, V, F, dm, node);
  }

  /** What holds while the closed cell's neighbours are relaxed, the first `k` of them done. */
  ghost predicate ExpandInv(g: array2<Cell>, G: Grid, s: Pos, V: seq<Pos>, F: seq<Pos>, dm: map<Pos, nat>,
                            prv: map<Pos, Pos>, node: Pos, ns: seq<Pos>, k: int)
    reads g
  {
    Mirror(g, G, V, dm, prv) && Relaxing(G, s, V, F, dm, prv, node, ns, k)
  }

  /**
   * The bookkeeping part of `ExpandInv`: `node` is already closed, and the
   * first `k` neighbours are open at most one step dearer.
   */
  ghost predicate Relaxing(G: Grid, s: Pos, V: seq<Pos>, F: seq<Pos>, dm: map<Pos, nat>, prv: map<Pos, Pos>,
                           node: Pos, ns: seq<Pos>, k: int)
  {
    && Costs(G, s, V, F, dm) && Linked(G, s, Elems(V), dm, prv)
    && Settled(G, s, V, dm) && Relaxed(G, V, F, dm, {node})
    && node in V && 0 <= k <= |ns|
    && forall i :: 0 <= i < k ==> ns[i] in F && ns[i] in dm && dm[ns[i]] <= dm[node] + 1
  }

  /** The inner `for` loop of `aStar` over the closed cell's neighbours. */
  method Expand(g: array2<Cell>, ghost G: Grid, s: Pos, ghost e: Pos, ghost V: seq<Pos>, F: seq<Pos>,
                ghost dm: map<Pos, nat>, ghost prv: map<Pos, Pos>, node: Pos, ns: seq<Pos>)
    returns (F': seq<Pos>, ghost dm': map<Pos, nat>, ghost prv': map<Pos, Pos>)
    requires ExpandInv(g, G, s, V, F, dm, prv, node, ns, 0)
    requires forall q :: q in ns <==> Adjacent(node, q) && Open(G, q) && q !in V
    requires Ordered(V, F, dm, Towards(e)) && KeyLeast(F, dm, Towards(e), node) && Consistent(Towards(e))
    requires forall v :: v in V && v in dm ==> dm[v] + Heuristic(v, e) <= dm[node] + Heuristic(node, e)
    modifies g
    ensures ExpandInv(g, G, s, V, F', dm', prv', node, ns, |ns|) && Ordered(V, F', dm', Towards(e))
    ensures (F', dm', prv') == RelaxFirst(F, dm, prv, node, dm[node], ns, |ns|)
  {
    F', dm', prv' := F, dm, prv;
    for k := 0 to |ns|
      invariant ExpandInv(g, G, s, V, F', dm', prv', node, ns, k) && dm'[node] == dm[node]
      invariant (F', dm', prv') == RelaxFirst(F, dm, prv, node, dm[node], ns, k)
      invariant Ordered(V, F', dm', Towards(e)) && KeyLeast(F', dm', Towards(e), node)
      invariant forall v :: v in V && v in dm' ==> dm'[v] + Heuristic(v, e) <= dm'[node] + Heuristic(node, e)
    {
      ghost var F0, dm0, prv0 := F', dm', prv';
      F', dm', prv' := Relax(g, G, s, V, F', dm', prv', node, ns, k);
      assert (F', dm', prv') == RelaxFirst(F, dm, prv, node, dm[node], ns, k + 1);
      OrderRelax(V, F0, dm0, Towards(e), node, ns[k], ns[k] !in dm0 || dm0[node] + 1 < dm0[ns[k]], F');
    }
  }

  /**
   * The inner loop of `aStar` as a value: the first `k` neighbours `ns`
   * relaxed in turn from `node` at cost `c`. Each one whose cost `c + 1`
   * beats is lowered, linked to `node` and added to the open set unless it is
   * there already; the others are left alone.
   */
  ghost function RelaxFirst(F: seq<Pos>, dm: map<Pos, nat>, prv: map<Pos, Pos>, node: Pos, c: nat, ns: seq<Pos>, k: nat)
    : (seq<Pos>, map<Pos, nat>, map<Pos, Pos>)
    requires k <= |ns|
    decreases k
  {
    if k == 0 then (F, dm, prv) else RelaxNext(RelaxFirst(F, dm, prv, node, c, ns, k - 1), node, c, ns[k - 1])
  }

  /**
   * One relaxation of neighbour `n` from `node` at cost `c`: when `c + 1`
   * beats its cost, it is lowered, linked to `node` and opened unless open.
   */
  ghost function RelaxNext(r: (seq<Pos>, map<Pos, nat>, map<Pos, Pos>), node: Pos, c: nat, n: Pos)
    : (seq<Pos>, map<Pos, nat>, map<Pos, Pos>)
  {
    var better := n !in r.1 || c + 1 < r.1[n];
    (if better && n !in r.0 then r.0 + [n] else r.0,
     if better then r.1[n := c + 1] else r.1,
     if better then r.2[n := node] else r.2)
  }

  /**
   * Whatever the order of the neighbours, relaxing them opens exactly the
   * cells whose cost drops and lowers the costs and links as `Lowered` says.
   */
  lemma {:induction false} RelaxFirstLowered(F: seq<Pos>, dm: map<Pos, nat>, prv: map<Pos, Pos>, node: Pos, c: nat,
                                             ns: seq<Pos>, k: nat)
    requires k <= |ns|
    ensures var r := RelaxFirst(F, dm, prv, node, c, ns, k);
      && (forall q :: q in r.0 <==> q in F || Improves(dm, c, ns[..k], q))
      && Lowered(dm, prv, node, c, ns[..k], r.1, r.2)
  {
    if k > 0 {
      RelaxFirstLowered(F, dm, prv, node, c, ns, k - 1);
      var r := RelaxFirst(F, dm, prv, node, c, ns, k - 1);
      assert ns[..k][..k - 1] == ns[..k - 1] && ns[..k] == ns[..k - 1] + [ns[k - 1]];
      LoweredStep(dm, prv, node, c, ns[..k], r.1, r.2);
    }
  }

  /**
   * One neighbour: when the closed cell's cost plus one is below its cost,
   * lower it, link it back and add it to the open set unless it is there.
   */
  method Relax(g: array2<Cell>, ghost G: Grid, s: Pos, ghost V: seq<Pos>, F: seq<Pos>, ghost dm: map<Pos, nat>,
               ghost prv: map<Pos, Pos>, node: Pos, ns: seq<Pos>, k: int)
    returns (F': seq<Pos>, ghost dm': map<Pos, nat>, ghost prv': map<Pos, Pos>)
    requires ExpandInv(g, G, s, V, F, dm, prv, node, ns, k) && k < |ns|
    requires forall q :: q in ns <==> Adjacent(node, q) && Open(G, q) && q !in V
    modifies g
    ensures ExpandInv(g, G, s, V, F', dm', prv', node, ns, k + 1)
    ensures var better := ns[k] !in dm || dm[node] + 1 < dm[ns[k]];
      && dm' == (if better then dm[ns[k] := dm[node] + 1] else dm)
      && prv' == (if better then prv[ns[k] := node] else prv)
      && F' == (if better && ns[k] !in F then F + [ns[k]] else F)
    ensures dm'[node] == dm[node] && (F', dm', prv') == RelaxNext((F, dm, prv), node, dm[node], ns[k])
  {
    var n := ns[k];
    assert n in ns && Pos(n.x, n.y) == n && InGrid(G, node) && Pos(node.x, node.y) == node;
    Improvement(g, G, V, dm, prv, node, n);
    var tentativeG := g[node.x, node.y].cost.n + 1;
    var better := Below(Finite(tentativeG), g[n.x, n.y].cost);
    RelaxOne(G, s, V, F, dm, prv, node, ns, k, better);
    F', dm', prv' := F, dm, prv;
    if better {
      Lower(g, G, V, dm, prv, n, node);
      dm' := dm[n := dm[node] + 1];
      prv' := prv[n := node];
      if n !in F' {
        F' := F' + [n];
      }
    }
  }

  /**
   * The bookkeeping of one relaxation: `better` says whether the neighbour's
   * cost drops. A neighbour whose cost does not drop is open already.
   */
  lemma RelaxOne(G: Grid, s: Pos, V: seq<Pos>, F: seq<Pos>, dm: map<Pos, nat>, prv: map<Pos, Pos>,
                 node: Pos, ns: seq<Pos>, k: int, better: bool)
    requires Relaxing(G, s, V, F, dm, prv, node, ns, k) && k < |ns|
    requires forall q :: q in ns <==> Adjacent(node, q) && Open(G, q) && q !in V
    requires better <==> ns[k] !in dm || dm[node] + 1 < dm[ns[k]]
    ensures !better ==> ns[k] in F
    ensures Relaxing(G, s, V, if ns[k] in F then F else F + [ns[k]],
                     if better then dm[ns[k] := dm[node] + 1] else dm,
                     if better then prv[ns[k] := node] else prv, node, ns, k + 1)
  {
    var n := ns[k];
    assert n in ns;
    if better {
      RelaxBetter(G, s, V, F, dm, prv, node, ns, k);
    } else {
      assert n in F;
      Reached(ns, k, F, dm, F, dm, dm[node] + 1);
    }
  }

  /** `RelaxOne` when the neighbour's cost drops. */
  lemma RelaxBetter(G: Grid, s: Pos, V: seq<Pos>, F: seq<Pos>, dm: map<Pos, nat>, prv: map<Pos, Pos>,
                    node: Pos, ns: seq<Pos>, k: int)
    requires Relaxing(G, s, V, F, dm, prv, node, ns, k) && k < |ns|
    requires ns[k] in ns && Adjacent(node, ns[k]) && Open(G, ns[k]) && ns[k] !in V
    requires ns[k] !in dm || dm[node] + 1 < dm[ns[k]]
    ensures Relaxing(G, s, V, if ns[k] in F then F else F + [ns[k]], dm[ns[k] := dm[node] + 1],
                     prv[ns[k] := node], node, ns, k + 1)
  {
    var n := ns[k];
    var F', dm' := if n in F then F else F + [n], dm[n := dm[node] + 1];
    ImproveCosts(G, s, V, F, dm, node, n);
    ImproveLinks(G, s, Elems(V), dm, prv, node, n);
    RelaxedMono(G, V, F, dm, F', dm', {node});
    Reached(ns, k, F, dm, F', dm', dm[node] + 1);
    assert Settled(G, s, V, dm') by {
      forall v | v in V ensures v in dm' && AtLeast(G, s, v, dm'[v]) {
        assert v in dm && v != n;
      }
    }
  }
}
