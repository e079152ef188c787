/**
 * The string keys of the source. A cell's `key` and every `prevNode` link is
 * the text `${x}x${y}` (src/App.tsx, `makeEmptyGrid`; src/algorithms/dijkstra.ts
 * and astar.ts for the maps), and the searches turn a link back into a
 * position with `split("x").map(Number)`. The batch updates of the reducer key
 * cells by `${x},${y}` instead.
 *
 * The rest of the model stores positions rather than these strings. This
 * module justifies that: for coordinates that are not negative, splitting a
 * key at its separator and reading the two numbers gives the position back,
 * so two cells never share a key.
 */
module Keys {
  import opened GridModel

  predicate IsDigit(c: char)
  {
    '0' <= c <= '9'
  }

  predicate AllDigits(s: string)
  {
    forall i :: 0 <= i < |s| ==> IsDigit(s[i])
  }

  /** The digit character for `d`. */
  function DigitChar(d: nat): (c: char)
    requires d < 10
    ensures IsDigit(c) && c as int - '0' as int == d
  {
    (d + '0' as int) as char
  }

  /** JavaScript's decimal rendering of a non-negative integer in a template string: no leading zeros. */
  function Digits(n: nat): (s: string)
    ensures |s| >= 1 && AllDigits(s)
    ensures |s| > 1 ==> s[0] != '0'
    decreases n
  {
    if n < 10 then [DigitChar(n)] else Digits(n / 10) + [DigitChar(n % 10)]
  }

  /** `Number(s)` on a string of decimal digits. */
  function Value(s: string): nat
    requires AllDigits(s)
  {
    if s == [] then 0 else Value(s[..|s| - 1]) * 10 + (s[|s| - 1] as int - '0' as int)
  }

  /** Reading the digits back gives the number. */
  lemma {:induction false} ValueOfDigits(n: nat)
    ensures Value(Digits(n)) == n
    decreases n
  {
    if n >= 10 {
      var s := Digits(n);
      assert s[..|s| - 1] == Digits(n / 10);
      ValueOfDigits(n / 10);
    }
  }

  /** `s.split(sep)`: the pieces between the separators, as many as the separators plus one. */
  function Split(s: string, sep: char): (parts: seq<string>)
    ensures |parts| >= 1
    ensures forall k :: 0 <= k < |parts| ==> sep !in parts[k]
  {
    if s == [] then [""]
    else
      var rest := Split(s[1..], sep);
      if s[0] == sep then [""] + rest else [[s[0]] + rest[0]] + rest[1..]
  }

  /** `parts.join(sep)`. */
  function Join(parts: seq<string>, sep: char): string
    requires |parts| >= 1
  {
    if |parts| == 1 then parts[0] else parts[0] + [sep] + Join(parts[1..], sep)
  }

  /** Splitting and joining again gives the string back. */
  lemma {:induction false} JoinSplit(s: string, sep: char)
    ensures Join(Split(s, sep), sep) == s
    decreases |s|
  {
    if s != [] {
      var rest := Split(s[1..], sep);
      JoinSplit(s[1..], sep);
      if s[0] == sep {
        assert Split(s, sep) == [""] + rest;
        assert Join([""] + rest, sep) == [sep] + Join(rest, sep);
      } else {
        var parts := [[s[0]] + rest[0]] + rest[1..];
        if |rest| == 1 {
          assert Join(parts, sep) == [s[0]] + rest[0];
        } else {
          assert Join(parts, sep) == [s[0]] + rest[0] + [sep] + Join(rest[1..], sep);
        }
      }
    }
  }

  /** A piece free of the separator, followed by the separator and more, splits off as the first piece. */
  lemma {:induction false} SplitAt(a: string, sep: char, b: string)
    requires sep !in a
    ensures Split(a + [sep] + b, sep) == [a] + Split(b, sep)
    decreases |a|
  {
    if a == [] {
      assert a + [sep] + b == [sep] + b;
      assert ([sep] + b)[1..] == b;
    } else {
      assert (a + [sep] + b)[1..] == a[1..] + [sep] + b;
      SplitAt(a[1..], sep, b);
      assert [a[0]] + a[1..] == a;
    }
  }

  /** A string free of the separator is a single piece. */
  lemma {:induction false} SplitNone(a: string, sep: char)
    requires sep !in a
    ensures Split(a, sep) == [a]
    decreases |a|
  {
    if a != [] {
      SplitNone(a[1..], sep);
      assert [a[0]] + a[1..] == a;
    }
  }

  /** The key of a position with separator `sep`: `${x}x${y}` for cells, `${x},${y}` for batch updates. */
  function KeyWith(p: Pos, sep: char): string
    requires p.x >= 0 && p.y >= 0
  {
    Digits(p.x) + [sep] + Digits(p.y)
  }

  function CellKey(p: Pos): string
    requires p.x >= 0 && p.y >= 0
  {
    KeyWith(p, 'x')
  }

  function BatchKey(p: Pos): string
    requires p.x >= 0 && p.y >= 0
  {
    KeyWith(p, ',')
  }

  /**
   * `const [x, y] = key.split(sep).map(Number)`: the first two pieces read as
   * numbers, further pieces ignored as destructuring does. Only pieces made of
   * decimal digits are read; anything else is `None` (see the README for the
   * strings `Number` would also accept).
   */
  function ParseKey(k: string, sep: char): (r: Option<Pos>)
    ensures r.Some? ==> r.value.x >= 0 && r.value.y >= 0
  {
    var parts := Split(k, sep);
    if |parts| >= 2 && AllDigits(parts[0]) && AllDigits(parts[1])
    then Some(Pos(Value(parts[0]), Value(parts[1])))
    else None
  }

  /** Parsing a key gives back its position, for either separator. */
  lemma ParseKeyWith(p: Pos, sep: char)
    requires p.x >= 0 && p.y >= 0 && !IsDigit(sep)
    ensures ParseKey(KeyWith(p, sep), sep) == Some(p)
  {
    var a, b := Digits(p.x), Digits(p.y);
    assert sep !in a && sep !in b;
    SplitAt(a, sep, b);
    SplitNone(b, sep);
    ValueOfDigits(p.x);
    ValueOfDigits(p.y);
  }

  /** The searches' `split("x").map(Number)` inverts the cell key. */
  lemma ParseCellKey(p: Pos)
    requires p.x >= 0 && p.y >= 0
    ensures ParseKey(CellKey(p), 'x') == Some(p)
  {
    ParseKeyWith(p, 'x');
  }

  /** Two cells of a grid never share a cell key. */
  lemma CellKeyInjective(p: Pos, q: Pos)
    requires p.x >= 0 && p.y >= 0 && q.x >= 0 && q.y >= 0
    ensures CellKey(p) == CellKey(q) <==> p == q
  {
    ParseCellKey(p);
    ParseCellKey(q);
  }

  /** Two cells of a grid never share a batch key. */
  lemma BatchKeyInjective(p: Pos, q: Pos)
    requires p.x >= 0 && p.y >= 0 && q.x >= 0 && q.y >= 0
    ensures BatchKey(p) == BatchKey(q) <==> p == q
  {
    ParseKeyWith(p, ',');
    ParseKeyWith(q, ',');
  }
}
