/**
 * What the four searches share: the neighbour rule (`getNeighbours`, written
 * out four times in the source, identically) and the backtrace that turns the
 * `prevNode` links into the returned path.
 */
module Neighbourhood {
  import opened GridModel
  import opened Walks

  /** The candidate cells in the order the source lists them: up, right, down, left. */
  function Candidates(p: Pos): seq<Pos>
  {
    [Pos(p.x - 1, p.y), Pos(p.x, p.y + 1), Pos(p.x + 1, p.y), Pos(p.x, p.y - 1)]
  }

  /** The position of `q` in that order (0 up, 1 right, 2 down, 3 left). */
  function Direction(p: Pos, q: Pos): int
  {
    if q == Pos(p.x - 1, p.y) then 0
    else if q == Pos(p.x, p.y + 1) then 1
    else if q == Pos(p.x + 1, p.y) then 2
    else 3
  }

  lemma CandidatesAreAdjacent(p: Pos, q: Pos)
    ensures q in Candidates(p) <==> Adjacent(p, q)
  {
  }

  /** A cell the neighbour rule lets through: in bounds, not a wall, not visited. */
  predicate Enterable(g: array2<Cell>, q: Pos)
    reads g
  {
    InBounds(g.Length0, g.Length1, q) && g[q.x, q.y].state != Wall && !g[q.x, q.y].visited
  }

  /** The cells of `cs` that are enterable, in their order in `cs`. */
  function Keep(g: array2<Cell>, p: Pos, cs: seq<Pos>): (r: seq<Pos>)
    reads g
    requires forall i, j :: 0 <= i < j < |cs| ==> Direction(p, cs[i]) < Direction(p, cs[j])
    ensures forall q :: q in r <==> q in cs && Enterable(g, q)
    ensures forall i, j :: 0 <= i < j < |r| ==> Direction(p, r[i]) < Direction(p, r[j])
  {
    if cs == [] then []
    else
      var rest := Keep(g, p, cs[1..]);
      assert forall q :: q in rest ==> Direction(p, cs[0]) < Direction(p, q) by {
        forall q | q in rest ensures Direction(p, cs[0]) < Direction(p, q) {
          var k :| 0 <= k < |cs[1..]| && cs[1..][k] == q;
          assert cs[k + 1] == q;
        }
      }
      if Enterable(g, cs[0]) then [cs[0]] + rest else rest
  }

  /**
   * `getNeighbours`: the candidates of `p` that are in bounds, not walls and
   * not visited, in the order up, right, down, left.
   */
  function Neighbours(g: array2<Cell>, p: Pos): (ns: seq<Pos>)
    reads g
    ensures forall q :: q in ns <==> Adjacent(p, q) && Enterable(g, q)
    ensures forall i, j :: 0 <= i < j < |ns| ==> Direction(p, ns[i]) < Direction(p, ns[j])
    ensures NoDup(ns)
  {
    Keep(g, p, Candidates(p))
  }

  /**
   * `getNeighbours` read on a grid value: the candidates of `p` that are open
   * in `G` and not in `V`, in the order up, right, down, left.
   */
  function Around(G: Grid, V: seq<Pos>, p: Pos): (ns: seq<Pos>)
    ensures forall q :: q in ns <==> Adjacent(p, q) && Open(G, q) && q !in V
  {
    Sift(G, V, Candidates(p))
  }

  /** The cells of `cs` that are open in `G` and not in `V`, in their order in `cs`. */
  function Sift(G: Grid, V: seq<Pos>, cs: seq<Pos>): (r: seq<Pos>)
    ensures forall q :: q in r <==> q in cs && Open(G, q) && q !in V
  {
    if cs == [] then []
    else (if Open(G, cs[0]) && cs[0] !in V then [cs[0]] else []) + Sift(G, V, cs[1..])
  }

  /** On an array whose enterable cells are the open cells outside `V`, `getNeighbours` is `Around`. */
  lemma NeighboursAround(g: array2<Cell>, G: Grid, V: seq<Pos>, p: Pos)
    requires forall q :: Adjacent(p, q) ==> (Enterable(g, q) <==> Open(G, q) && q !in V)
    ensures Neighbours(g, p) == Around(G, V, p)
  {
    KeepSift(g, G, V, p, Candidates(p));
  }

  lemma {:induction false} KeepSift(g: array2<Cell>, G: Grid, V: seq<Pos>, p: Pos, cs: seq<Pos>)
    requires forall i, j :: 0 <= i < j < |cs| ==> Direction(p, cs[i]) < Direction(p, cs[j])
    requires forall q :: q in cs ==> (Enterable(g, q) <==> Open(G, q) && q !in V)
    ensures Keep(g, p, cs) == Sift(G, V, cs)
  {
    if cs != [] {
      KeepSift(g, G, V, p, cs[1..]);
    }
  }

  /**
   * `prv'` is `prv` with every cell of `ns` linked to `node`: the links the
   * inner loop of a search writes, the last write winning.
   */
  ghost predicate Relinked(prv: map<Pos, Pos>, prv': map<Pos, Pos>, ns: seq<Pos>, node: Pos)
  {
    && (forall q :: q in prv' <==> q in prv || q in ns)
    && (forall q :: q in prv' ==> prv'[q] == if q in ns then node else prv[q])
  }

  /** One more write of the inner loop extends the relinked prefix by one cell. */
  lemma RelinkedStep(prv: map<Pos, Pos>, prv': map<Pos, Pos>, ns: seq<Pos>, k: int, node: Pos)
    requires 0 <= k < |ns| && Relinked(prv, prv', ns[..k], node)
    ensures Relinked(prv, prv'[ns[k] := node], ns[..k + 1], node)
  {
    assert ns[..k + 1] == ns[..k] + [ns[k]];
  }

  /**
   * The `prevNode` links of the cells in `D` form a forest rooted at `s`:
   * only `s` lacks a link, and every link goes to an adjacent cell of `D` of
   * smaller rank, from a cell open in `G`.
   */
  ghost predicate PrevLinks(g: array2<Cell>, G: Grid, s: Pos, D: set<Pos>, rank: map<Pos, nat>)
    reads g
  {
    && (forall p :: p in D ==> InBounds(g.Length0, g.Length1, p) && p in rank)
    && (forall p {:trigger p in D} :: p in D ==> (g[p.x, p.y].prev.None? <==> p == s))
    && (forall p {:trigger p in D} :: p in D && g[p.x, p.y].prev.Some? ==>
          var u := g[p.x, p.y].prev.value;
          u in D && rank[u] < rank[p] && Adjacent(u, p) && Open(G, p))
  }

  /** Each cell of `chain` but the last has `prevNode` naming the next one. */
  ghost predicate FollowsPrev(g: array2<Cell>, chain: seq<Pos>)
    reads g
  {
    forall i :: 0 <= i < |chain| - 1 ==>
      InBounds(g.Length0, g.Length1, chain[i]) && g[chain[i].x, chain[i].y].prev == Some(chain[i + 1])
  }

  /**
   * The backtrace and the `path.shift()` after it: from `e`, push the current
   * cell and move to its `prevNode` until a cell without one (the start); then
   * drop the first pushed cell, which is `e` itself.
   */
  method TraceBack(g: array2<Cell>, ghost G: Grid, s: Pos, e: Pos, ghost D: set<Pos>, ghost rank: map<Pos, nat>)
    returns (path: seq<Pos>)
    requires PrevLinks(g, G, s, D, rank) && e in D
    ensures TracesBack(G, s, e, path)
    ensures s != e ==> FollowsPrev(g, [e] + path + [s])
    ensures forall p :: p in path ==> p in D
  {
    var trail: seq<Pos> := [];
    var cur := e;
    while g[cur.x, cur.y].prev.Some?
      invariant cur in D
      invariant trail != [] ==> trail[0] == e
      invariant trail == [] ==> cur == e
      invariant FollowsPrev(g, trail + [cur])
      invariant NoDup(trail)
      invariant forall p :: p in trail ==> p in D && g[p.x, p.y].prev.Some? && rank[cur] < rank[p]
      decreases rank[cur]
    {
      var next := g[cur.x, cur.y].prev.value;
      FollowsPrevExtend(g, trail, cur, next);
      trail := trail + [cur];
      cur := next;
    }
    assert cur == s;
    var chain := trail + [s];
    assert NoDup(chain);
    path := if |trail| == 0 then [] else trail[1..];
    if s != e {
      assert trail != [];
      assert chain == [e] + path + [s];
      forall i | 0 <= i < |chain| - 1 ensures Open(G, chain[i]) && Adjacent(chain[i], chain[i + 1]) {
        assert chain[i] in trail;
      }
    }
  }

  lemma FollowsPrevExtend(g: array2<Cell>, trail: seq<Pos>, cur: Pos, next: Pos)
    requires FollowsPrev(g, trail + [cur])
    requires InBounds(g.Length0, g.Length1, cur) && g[cur.x, cur.y].prev == Some(next)
    ensures FollowsPrev(g, trail + [cur] + [next])
  {
    var c := trail + [cur];
    var c' := c + [next];
    forall i | 0 <= i < |c'| - 1
      ensures InBounds(g.Length0, g.Length1, c'[i]) && g[c'[i].x, c'[i].y].prev == Some(c'[i + 1])
    {
      if i < |c| - 1 {
        assert c'[i] == c[i] && c'[i + 1] == c[i + 1];
      }
    }
  }
  /** Along a chain that follows the links, the rank drops by at least one per step. */
  lemma {:induction false} ChainRank(g: array2<Cell>, G: Grid, s: Pos, D: set<Pos>, rank: map<Pos, nat>, chain: seq<Pos>)
    requires PrevLinks(g, G, s, D, rank) && FollowsPrev(g, chain) && |chain| >= 1
    requires forall p :: p in chain ==> p in D
    ensures rank[chain[0]] >= rank[chain[|chain| - 1]] + |chain| - 1
  {
    if |chain| > 1 {
      var rest := chain[1..];
      assert FollowsPrev(g, rest) by {
        forall i | 0 <= i < |rest| - 1
          ensures InBounds(g.Length0, g.Length1, rest[i]) && g[rest[i].x, rest[i].y].prev == Some(rest[i + 1])
        {
          assert rest[i] == chain[i + 1] && rest[i + 1] == chain[i + 2];
        }
      }
      ChainRank(g, G, s, D, rank, rest);
      assert chain[0] in D && g[chain[0].x, chain[0].y].prev == Some(chain[1]);
    }
  }
}
