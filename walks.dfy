/**
 * The graph the four searches run on: cells are nodes, and a move goes to one
 * of the four orthogonal neighbours that is inside the grid and is not a wall
 * (the neighbour rule of src/algorithms/bfs.ts and its three copies).
 * Walks, reachability, distances and the reconstructed-path shape are defined
 * here once, on grid values.
 */
module Walks {
  import opened GridModel

  function Abs(n: int): nat
  {
    if n < 0 then -n else n
  }

  /** Manhattan distance, the A* heuristic of src/algorithms/astar.ts. */
  function Manhattan(p: Pos, q: Pos): nat
  {
    Abs(p.x - q.x) + Abs(p.y - q.y)
  }

  /** 4-adjacency: the two cells share a side. */
  predicate Adjacent(p: Pos, q: Pos)
  {
    Manhattan(p, q) == 1
  }

  /** A cell a move may enter: inside the grid and not a wall. */
  predicate Open(G: Grid, p: Pos)
  {
    InGrid(G, p) && G[p.x][p.y].state != Wall
  }

  /**
   * A walk: every cell after the first is open and adjacent to the one before.
   * The first cell is where the search starts and is not constrained.
   */
  predicate IsWalk(G: Grid, w: seq<Pos>)
  {
    |w| >= 1 && forall i :: 1 <= i < |w| ==> Step(G, w, i)
  }

  /** The move into `w[i]` is legal. */
  predicate Step(G: Grid, w: seq<Pos>, i: int)
  {
    1 <= i < |w| && Open(G, w[i]) && Adjacent(w[i - 1], w[i])
  }

  predicate WalkFrom(G: Grid, a: Pos, b: Pos, w: seq<Pos>)
  {
    IsWalk(G, w) && w[0] == a && w[|w| - 1] == b
  }

  ghost predicate Reachable(G: Grid, a: Pos, b: Pos)
  {
    exists w :: WalkFrom(G, a, b, w)
  }

  /** Every walk from `a` to `b` takes at least `k` moves. */
  ghost predicate AtLeast(G: Grid, a: Pos, b: Pos, k: int)
  {
    forall w {:trigger WalkFrom(G, a, b, w)} :: WalkFrom(G, a, b, w) ==> |w| - 1 >= k
  }

  /** There is a walk from `a` to `b` of exactly `k` moves. */
  ghost predicate WalkOfLength(G: Grid, a: Pos, b: Pos, k: int)
  {
    exists w {:trigger WalkFrom(G, a, b, w)} :: WalkFrom(G, a, b, w) && |w| == k + 1
  }

  /** `d` is the length of a shortest walk from `s` to `p`. */
  ghost predicate Distance(G: Grid, s: Pos, p: Pos, d: nat)
  {
    WalkOfLength(G, s, p, d) && AtLeast(G, s, p, d)
  }

  /** A cell has at most one distance from `s`. */
  lemma DistanceUnique(G: Grid, s: Pos, p: Pos, d: nat, d': nat)
    requires Distance(G, s, p, d) && Distance(G, s, p, d')
    ensures d == d'
  {
    var w :| WalkFrom(G, s, p, w) && |w| == d + 1;
    var w' :| WalkFrom(G, s, p, w') && |w'| == d' + 1;
  }

  /** The colour of a cell on the chessboard colouring of the grid. */
  function Parity(p: Pos): (r: int)
    ensures r == 0 || r == 1
  {
    (p.x + p.y) % 2
  }

  /** A move changes the colour. */
  lemma AdjacentParity(p: Pos, q: Pos)
    requires Adjacent(p, q)
    ensures Parity(q) == (Parity(p) + 1) % 2
  {
    assert q.x + q.y == p.x + p.y + 1 || q.x + q.y == p.x + p.y - 1;
  }

  /** The grid graph is bipartite: a walk's length has the parity of its end points' colours. */
  lemma {:induction false} WalkParity(G: Grid, w: seq<Pos>)
    requires IsWalk(G, w)
    ensures (|w| - 1 + Parity(w[0])) % 2 == Parity(w[|w| - 1])
  {
    if |w| > 1 {
      WalkPrefix(G, w, |w| - 1);
      WalkParity(G, w[..|w| - 1]);
      assert Step(G, w, |w| - 1);
      AdjacentParity(w[|w| - 2], w[|w| - 1]);
    }
  }

  /** Two walks between the same cells have lengths of equal parity. */
  lemma WalkLengthParity(G: Grid, a: Pos, b: Pos, k: int, m: int)
    requires WalkOfLength(G, a, b, k) && WalkOfLength(G, a, b, m)
    ensures (k - m) % 2 == 0
  {
    var w1 :| WalkFrom(G, a, b, w1) && |w1| == k + 1;
    var w2 :| WalkFrom(G, a, b, w2) && |w2| == m + 1;
    WalkParity(G, w1);
    WalkParity(G, w2);
  }

  lemma WalkOfLengthExtend(G: Grid, a: Pos, b: Pos, k: int, c: Pos)
    requires WalkOfLength(G, a, b, k) && Open(G, c) && Adjacent(b, c)
    ensures WalkOfLength(G, a, c, k + 1)
  {
    var w :| WalkFrom(G, a, b, w) && |w| == k + 1;
    WalkExtend(G, a, b, w, c);
  }

  lemma WalkOfLengthReachable(G: Grid, a: Pos, b: Pos, k: int)
    requires WalkOfLength(G, a, b, k)
    ensures Reachable(G, a, b)
  {
  }

  /** A walk is at least as long as the Manhattan distance between its ends. */
  lemma {:induction false} WalkManhattan(G: Grid, w: seq<Pos>)
    requires IsWalk(G, w)
    ensures Manhattan(w[0], w[|w| - 1]) <= |w| - 1
  {
    if |w| > 1 {
      var u := w[..|w| - 1];
      assert IsWalk(G, u) by {
        forall i | 1 <= i < |u| ensures Step(G, u, i) {
          assert u[i] == w[i] && u[i - 1] == w[i - 1];
          assert Step(G, w, i);
        }
      }
      WalkManhattan(G, u);
      assert Step(G, w, |w| - 1);
    }
  }

  lemma WalkPrefix(G: Grid, w: seq<Pos>, n: int)
    requires IsWalk(G, w) && 1 <= n <= |w|
    ensures IsWalk(G, w[..n]) && WalkFrom(G, w[0], w[n - 1], w[..n])
  {
    var u := w[..n];
    forall i | 1 <= i < |u| ensures Step(G, u, i) {
      assert u[i] == w[i] && u[i - 1] == w[i - 1];
      assert Step(G, w, i);
    }
  }

  lemma WalkSuffix(G: Grid, w: seq<Pos>, n: int)
    requires IsWalk(G, w) && 0 <= n < |w|
    ensures WalkFrom(G, w[n], w[|w| - 1], w[n..])
  {
    var u := w[n..];
    forall i | 1 <= i < |u| ensures Step(G, u, i) {
      assert u[i] == w[n + i] && u[i - 1] == w[n + i - 1];
      assert Step(G, w, n + i);
    }
  }

  lemma WalkExtend(G: Grid, a: Pos, b: Pos, w: seq<Pos>, c: Pos)
    requires WalkFrom(G, a, b, w) && Open(G, c) && Adjacent(b, c)
    ensures WalkFrom(G, a, c, w + [c])
  {
    var u := w + [c];
    forall i | 1 <= i < |u| ensures Step(G, u, i) {
      if i < |w| {
        assert u[i] == w[i] && u[i - 1] == w[i - 1];
        assert Step(G, w, i);
      }
    }
  }

  lemma ReachExtend(G: Grid, a: Pos, b: Pos, c: Pos)
    requires Reachable(G, a, b) && Open(G, c) && Adjacent(b, c)
    ensures Reachable(G, a, c)
  {
    var w :| WalkFrom(G, a, b, w);
    WalkExtend(G, a, b, w, c);
  }

  lemma WalkConcat(G: Grid, a: Pos, b: Pos, c: Pos, w1: seq<Pos>, w2: seq<Pos>)
    requires WalkFrom(G, a, b, w1) && WalkFrom(G, b, c, w2)
    ensures WalkFrom(G, a, c, w1 + w2[1..])
  {
    var u := w1 + w2[1..];
    forall i | 1 <= i < |u| ensures Step(G, u, i) {
      if i < |w1| {
        assert u[i] == w1[i] && u[i - 1] == w1[i - 1];
        assert Step(G, w1, i);
      } else if i == |w1| {
        assert u[i] == w2[1] && u[i - 1] == w1[|w1| - 1] == w2[0];
        assert Step(G, w2, 1);
      } else {
        assert u[i] == w2[i - |w1| + 1] && u[i - 1] == w2[i - |w1|];
        assert Step(G, w2, i - |w1| + 1);
      }
    }
  }

  lemma ReachTrans(G: Grid, a: Pos, b: Pos, c: Pos)
    requires Reachable(G, a, b) && Reachable(G, b, c)
    ensures Reachable(G, a, c)
  {
    var w1 :| WalkFrom(G, a, b, w1);
    var w2 :| WalkFrom(G, b, c, w2);
    WalkConcat(G, a, b, c, w1, w2);
  }

  function Reverse(s: seq<Pos>): (r: seq<Pos>)
    ensures |r| == |s|
    ensures forall i :: 0 <= i < |s| ==> r[i] == s[|s| - 1 - i]
  {
    if s == [] then [] else Reverse(s[1..]) + [s[0]]
  }

  /** A walk whose first cell is also open can be walked backwards. */
  lemma ReverseWalk(G: Grid, a: Pos, b: Pos, w: seq<Pos>)
    requires WalkFrom(G, a, b, w) && Open(G, a)
    ensures WalkFrom(G, b, a, Reverse(w))
  {
    var r := Reverse(w);
    forall i | 1 <= i < |r| ensures Step(G, r, i) {
      var k := |w| - 1 - i;
      assert r[i] == w[k] && r[i - 1] == w[k + 1];
      assert Step(G, w, k + 1);
      if k > 0 { assert Step(G, w, k); }
      assert Adjacent(w[k], w[k + 1]);
    }
  }

  lemma ReachSymmetric(G: Grid, a: Pos, b: Pos)
    requires Reachable(G, a, b) && Open(G, a)
    ensures Reachable(G, b, a)
  {
    var w :| WalkFrom(G, a, b, w);
    ReverseWalk(G, a, b, w);
  }

  /** If every cell is at least as open in `H` as in `G`, walks of `G` are walks of `H`. */
  lemma WalkMono(G: Grid, H: Grid, w: seq<Pos>)
    requires forall p :: Open(G, p) ==> Open(H, p)
    requires IsWalk(G, w)
    ensures IsWalk(H, w)
  {
    forall i | 1 <= i < |w| ensures Step(H, w, i) {
      assert Step(G, w, i);
    }
  }

  lemma ReachMono(G: Grid, H: Grid, a: Pos, b: Pos)
    requires forall p :: Open(G, p) ==> Open(H, p)
    requires Reachable(G, a, b)
    ensures Reachable(H, a, b)
  {
    var w :| WalkFrom(G, a, b, w);
    WalkMono(G, H, w);
    assert WalkFrom(H, a, b, w);
  }

  /** A set of cells that contains `w[0]` and every open neighbour of its members contains the whole walk. */
  lemma {:induction false} ClosedSetHoldsWalk(G: Grid, S: set<Pos>, w: seq<Pos>)
    requires IsWalk(G, w) && w[0] in S
    requires forall v, p :: v in S && Adjacent(v, p) && Open(G, p) ==> p in S
    ensures w[|w| - 1] in S
  {
    if |w| > 1 {
      WalkPrefix(G, w, |w| - 1);
      ClosedSetHoldsWalk(G, S, w[..|w| - 1]);
      assert w[|w| - 2] in S && Step(G, w, |w| - 1);
    }
  }

  /** The first cell of a walk that lies outside `S`, when its last cell does. */
  lemma FirstOutside(w: seq<Pos>, S: set<Pos>) returns (j: nat)
    requires |w| >= 1 && w[|w| - 1] !in S
    ensures j < |w| && w[j] !in S
    ensures forall i :: 0 <= i < j ==> w[i] in S
  {
    j := 0;
    while w[j] in S
      invariant j < |w|
      invariant forall i :: 0 <= i < j ==> w[i] in S
      decreases |w| - j
    {
      j := j + 1;
    }
  }

  /**
   * What every search returns as its path: the cells strictly between the end
   * and the start, listed from the end side, so that end, path, start is a
   * chain of distinct open cells, each adjacent to the next. When start and
   * end coincide the path is empty.
   */
  predicate TracesBack(G: Grid, s: Pos, e: Pos, path: seq<Pos>)
  {
    if s == e then path == []
    else
      var chain := [e] + path + [s];
      && NoDup(chain)
      && forall i :: 0 <= i < |chain| - 1 ==> Open(G, chain[i]) && Adjacent(chain[i], chain[i + 1])
  }

  /** No walk from `s` to `e` is shorter than the one through `path`. */
  ghost predicate Shortest(G: Grid, s: Pos, e: Pos, path: seq<Pos>)
  {
    AtLeast(G, s, e, |path| + 1)
  }

  /** A traced-back path, read from the start, is a walk from start to end through `path`. */
  lemma TracesBackWalk(G: Grid, s: Pos, e: Pos, path: seq<Pos>)
    requires TracesBack(G, s, e, path) && s != e
    ensures WalkFrom(G, s, e, Reverse([e] + path + [s]))
    ensures Reachable(G, s, e)
  {
    var chain := [e] + path + [s];
    var r := Reverse(chain);
    forall i | 1 <= i < |r| ensures Step(G, r, i) {
      var k := |chain| - 1 - i;
      assert r[i] == chain[k] && r[i - 1] == chain[k + 1];
      assert Adjacent(chain[k], chain[k + 1]);
    }
    assert WalkFrom(G, s, e, r);
  }
}
