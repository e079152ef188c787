/**
 * The grid and cell data model shared by the searches, the maze generator and
 * the application helpers (`GridCell` and `Position` in src/types.ts).
 *
 * A cell's position is its index in the grid: the source stores it a second
 * time in the cell (`x`, `y` and the key `${x}x${y}`), and the Keys module
 * shows that the key determines the position, so the model keeps only the index.
 */
module GridModel {

  datatype Option<T> = None | Some(value: T)

  /** The `state` field of a cell. */
  datatype CellState = Empty | Wall | Start | End | Visited | Path

  /** The `cost` field: `Infinity` or a finite number of unit steps. */
  datatype Cost = Infinite | Finite(n: nat)

  /** A grid position: `x` is the row index, `y` the column index. */
  datatype Pos = Pos(x: int, y: int)

  datatype Cell = Cell(state: CellState, visited: bool, prev: Option<Pos>, cost: Cost)

  /** The cell every fresh grid is made of: empty, unvisited, no predecessor, infinite cost. */
  const BlankCell: Cell := Cell(Empty, false, None, Infinite)

  /** JavaScript's `<` on two costs, where `Infinity < Infinity` is false. */
  predicate Below(a: Cost, b: Cost)
  {
    match (a, b)
    case (Finite(m), Finite(n)) => m < n
    case (Finite(_), Infinite) => true
    case (Infinite, _) => false
  }

  /** A grid as a value (`GridCell[][]`): `rows` rows of `cols` cells each. */
  type Grid = seq<seq<Cell>>

  predicate IsGrid(G: Grid, rows: nat, cols: nat)
  {
    |G| == rows && forall r :: 0 <= r < rows ==> |G[r]| == cols
  }

  /** No cell carries bookkeeping from an earlier run: none is visited or has a `prevNode`. */
  predicate Unvisited(G: Grid)
  {
    forall i, j :: 0 <= i < |G| && 0 <= j < |G[i]| ==> !G[i][j].visited && G[i][j].prev == None
  }

  /** `Unvisited`, and every cost is `Infinity`: the state `resetPath` leaves a grid in. */
  predicate Clean(G: Grid)
  {
    Unvisited(G) && forall i, j :: 0 <= i < |G| && 0 <= j < |G[i]| ==> G[i][j].cost == Infinite
  }

  predicate InBounds(rows: int, cols: int, p: Pos)
  {
    0 <= p.x < rows && 0 <= p.y < cols
  }

  predicate InGrid(G: Grid, p: Pos)
  {
    0 <= p.x < |G| && 0 <= p.y < |G[p.x]|
  }

  /** The contents of a grid array as a value. */
  ghost function Snapshot(g: array2<Cell>): (G: Grid)
    reads g
    ensures IsGrid(G, g.Length0, g.Length1)
    ensures forall i, j :: 0 <= i < g.Length0 && 0 <= j < g.Length1 ==> G[i][j] == g[i, j]
  {
    seq(g.Length0, i requires 0 <= i < g.Length0 reads g =>
      seq(g.Length1, j requires 0 <= j < g.Length1 reads g => g[i, j]))
  }

  /** Every position of a `rows` by `cols` grid. */
  ghost function AllCells(rows: int, cols: int): set<Pos>
  {
    set i, j | 0 <= i < rows && 0 <= j < cols :: Pos(i, j)
  }

  /** The elements of a sequence as a set. */
  ghost function Elems(s: seq<Pos>): set<Pos>
  {
    set p | p in s
  }

  predicate NoDup(s: seq<Pos>)
  {
    forall i, j :: 0 <= i < j < |s| ==> s[i] != s[j]
  }

  /** Appending a new element keeps a list free of repeats. */
  lemma NoDupAppend(s: seq<Pos>, x: Pos)
    requires NoDup(s) && x !in s
    ensures NoDup(s + [x])
  {
    var t := s + [x];
    forall i, j | 0 <= i < j < |t| ensures t[i] != t[j] {
      if j == |s| {
        assert t[i] == s[i];
      }
    }
  }

  /** Dropping the last element of a list free of repeats removes exactly that element. */
  lemma DropLast(s: seq<Pos>, x: Pos)
    requires NoDup(s) && s != [] && s[|s| - 1] == x
    ensures forall p :: p in s[..|s| - 1] <==> p in s && p != x
  {
    forall p ensures p in s[..|s| - 1] <==> p in s && p != x {
      if p in s && p != x {
        var k :| 0 <= k < |s| && s[k] == p;
        assert s[..|s| - 1][k] == p;
      }
    }
  }

  /**
   * `delete map[key]` on an insertion-ordered key list: the list without `k`,
   * the other keys keeping their order.
   */
  function Remove(s: seq<Pos>, k: Pos): (r: seq<Pos>)
    ensures forall q :: q in r <==> q in s && q != k
    ensures |r| <= |s|
    ensures NoDup(s) ==> NoDup(r)
    ensures k !in s ==> r == s
    ensures NoDup(s) && k in s ==> exists i :: 0 <= i < |s| && s[i] == k && r == s[..i] + s[i + 1..]
  {
    if s == [] then []
    else
      var rest := Remove(s[1..], k);
      if s[0] == k then DropHead(s, k, rest); rest
      else KeepHead(s, k, rest); [s[0]] + rest
  }

  /** What `Remove` promises of the tail's removal `rest`, as the two steps below use it. */
  ghost predicate TailRemoved(s: seq<Pos>, k: Pos, rest: seq<Pos>)
    requires s != []
  {
    && (forall q :: q in rest <==> q in s[1..] && q != k)
    && |rest| <= |s| - 1
    && (NoDup(s[1..]) ==> NoDup(rest))
    && (k !in s[1..] ==> rest == s[1..])
    && (NoDup(s[1..]) && k in s[1..] ==>
          exists i :: 0 <= i < |s[1..]| && s[1..][i] == k && rest == s[1..][..i] + s[1..][i + 1..])
  }

  /** The head is `k`: removing `k` from the tail removes it from the whole list. */
  lemma DropHead(s: seq<Pos>, k: Pos, rest: seq<Pos>)
    requires s != [] && s[0] == k && TailRemoved(s, k, rest)
    ensures forall q :: q in rest <==> q in s && q != k
    ensures NoDup(s) ==> NoDup(rest)
    ensures NoDup(s) ==> exists i :: 0 <= i < |s| && s[i] == k && rest == s[..i] + s[i + 1..]
  {
    assert s == [s[0]] + s[1..];
    if NoDup(s) {
      NoDupTail(s);
      assert s[..0] + s[1..] == s[1..];
    }
  }

  /** The head is not `k`: it stays in front of the tail with `k` removed. */
  lemma KeepHead(s: seq<Pos>, k: Pos, rest: seq<Pos>)
    requires s != [] && s[0] != k && TailRemoved(s, k, rest)
    ensures forall q :: q in [s[0]] + rest <==> q in s && q != k
    ensures NoDup(s) ==> NoDup([s[0]] + rest)
    ensures k !in s ==> [s[0]] + rest == s
    ensures NoDup(s) && k in s ==> exists i :: 0 <= i < |s| && s[i] == k && [s[0]] + rest == s[..i] + s[i + 1..]
  {
    assert s == [s[0]] + s[1..];
    if NoDup(s) {
      NoDupTail(s);
      NoDupCons(s[0], rest);
      if k in s {
        var i :| 0 <= i < |s[1..]| && s[1..][i] == k && rest == s[1..][..i] + s[1..][i + 1..];
        assert s[i + 1] == k;
        ConsDropped(s, i);
      }
    }
  }

  /** The tail of a list free of repeats is free of them, and misses the head. */
  lemma NoDupTail(s: seq<Pos>)
    requires s != [] && NoDup(s)
    ensures NoDup(s[1..]) && s[0] !in s[1..]
  {
    forall i | 0 <= i < |s[1..]| ensures s[1..][i] != s[0] { assert s[1..][i] == s[i + 1]; }
    forall i, j | 0 <= i < j < |s[1..]| ensures s[1..][i] != s[1..][j] {
      assert s[1..][i] == s[i + 1] && s[1..][j] == s[j + 1];
    }
  }

  /** A new element in front of a list free of repeats keeps it free of them. */
  lemma NoDupCons(x: Pos, t: seq<Pos>)
    requires NoDup(t) && x !in t
    ensures NoDup([x] + t)
  {
    forall i, j | 0 <= i < j < |[x] + t| ensures ([x] + t)[i] != ([x] + t)[j] {
      if i > 0 {
        assert ([x] + t)[i] == t[i - 1];
      }
      assert ([x] + t)[j] == t[j - 1];
    }
  }

  /** Putting the head back in front of the tail with its `i`-th element dropped. */
  lemma ConsDropped(s: seq<Pos>, i: int)
    requires 0 <= i < |s| - 1
    ensures [s[0]] + (s[1..][..i] + s[1..][i + 1..]) == s[..i + 1] + s[i + 2..]
  {
    assert s[1..][..i] == s[1..i + 1] && s[1..][i + 1..] == s[i + 2..];
    assert [s[0]] + s[1..i + 1] == s[..i + 1];
  }

  /** The grid with the cell at `p` given the state `st`, every other cell unchanged. */
  function SetState(G: Grid, p: Pos, st: CellState): (H: Grid)
    requires InGrid(G, p)
    ensures |H| == |G| && forall i :: 0 <= i < |G| ==> |H[i]| == |G[i]|
    ensures forall i, j :: 0 <= i < |G| && 0 <= j < |G[i]| ==>
      H[i][j] == if Pos(i, j) == p then G[i][j].(state := st) else G[i][j]
  {
    G[p.x := G[p.x][p.y := G[p.x][p.y].(state := st)]]
  }

  /**
   * The start and then the end stamped on a grid, as both `createGrid` and
   * `dijkstra` do: the end wins where the two coincide, and every cell keeps
   * all its other fields.
   */
  function Marked(G: Grid, s: Pos, e: Pos): (M: Grid)
    requires InGrid(G, s) && InGrid(G, e)
    ensures |M| == |G| && forall i :: 0 <= i < |G| ==> |M[i]| == |G[i]|
    ensures M[e.x][e.y].state == End && (s != e ==> M[s.x][s.y].state == Start)
    ensures forall i, j :: 0 <= i < |G| && 0 <= j < |G[i]| ==>
      M[i][j] == if Pos(i, j) == e then G[i][j].(state := End)
                 else if Pos(i, j) == s then G[i][j].(state := Start)
                 else G[i][j]
  {
    SetState(SetState(G, s, Start), e, End)
  }
}
