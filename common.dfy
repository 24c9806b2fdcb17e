/**
 * Puzzle primitives of the N-tile solver (Common.py): states, tile keys, the
 * goal test, the blank's moves, the children of a state and the walk along
 * parent links that rebuilds a root-to-node path of the search tree.
 */
module Common {

  datatype Option<T> = None | Some(value: T)

  /** A board, row by row; the value 0 is the blank. */
  type Grid = seq<seq<int>>

  /** The identity of a board in the search tree: its cells in row-major order. */
  type Key = seq<int>

  /** A puzzle state `[blank_row, blank_col, grid]`. */
  datatype State = State(row: int, col: int, grid: Grid)

  /** A record of the search tree: depth, parent board (None at the root), and the f-score IDA* stores. */
  datatype Node = Node(depth: int, parent: Option<Grid>, fScore: Option<int>)

  /** The search "tree": a dictionary from keys to records. */
  type Tree = map<Key, Node>

  /** The two ways building a state fails: a zero side length (a `range` step of 0) and no blank tile. */
  datatype SetupError = ZeroSide | NoBlank

  datatype Result<T> = Ok(value: T) | Err(error: SetupError)

  predicate IsRect(g: Grid, n: nat)
  {
    forall r :: 0 <= r < |g| ==> |g[r]| == n
  }

  predicate IsSquare(g: Grid, n: nat)
  {
    |g| == n && IsRect(g, n)
  }

  predicate InBounds(i: int, j: int, n: nat)
  {
    0 <= i < n && 0 <= j < n
  }

  /** A state whose board is n by n and whose recorded blank position lies on it. */
  predicate WellFormed(s: State, n: nat)
  {
    IsSquare(s.grid, n) && InBounds(s.row, s.col, n)
  }

  /** A well-formed state whose recorded blank position holds the blank. */
  predicate ValidState(s: State, n: nat)
  {
    WellFormed(s, n) && s.grid[s.row][s.col] == 0
  }

  // ---------------------------------------------------------------------------
  // Keys (convert_tiles_to_string)
  // ---------------------------------------------------------------------------

  /** The row-major concatenation of the cells of a board. */
  function KeyOf(g: Grid): Key
  {
    if g == [] then [] else g[0] + KeyOf(g[1..])
  }

  lemma {:induction false} KeyAppend(g: Grid, row: seq<int>)
    ensures KeyOf(g + [row]) == KeyOf(g) + row
  {
    if g == [] {
      assert [] + [row] == [row];
    } else {
      assert (g + [row])[1..] == g[1..] + [row];
      KeyAppend(g[1..], row);
    }
  }

  lemma {:induction false} KeyLength(g: Grid, n: nat)
    requires IsRect(g, n)
    ensures |KeyOf(g)| == |g| * n
  {
    if g != [] {
      KeyLength(g[1..], n);
      assert |g| * n == n + |g[1..]| * n;
    }
  }

  /** Row-major layout: cell (r, c) of an n-wide board sits at index r * n + c of its key. */
  lemma {:induction false} KeyAt(g: Grid, n: nat, r: int, c: int)
    requires IsRect(g, n) && 0 <= r < |g| && 0 <= c < n
    ensures |KeyOf(g)| == |g| * n
    ensures r * n + c < |KeyOf(g)| && KeyOf(g)[r * n + c] == g[r][c]
  {
    KeyLength(g, n);
    assert KeyOf(g) == g[0] + KeyOf(g[1..]);
    if r > 0 {
      KeyAt(g[1..], n, r - 1, c);
      var k := (r - 1) * n + c;
      assert r * n + c == n + k;
      assert KeyOf(g)[n + k] == KeyOf(g[1..])[k];
    }
  }

  /** Two boards of the same shape with the same key are the same board. */
  lemma {:induction false} KeyInjective(a: Grid, b: Grid, n: nat)
    requires IsRect(a, n) && IsRect(b, n) && |a| == |b|
    requires KeyOf(a) == KeyOf(b)
    ensures a == b
  {
    if a != [] {
      assert KeyOf(a)[..n] == a[0] && KeyOf(a)[n..] == KeyOf(a[1..]);
      assert KeyOf(b)[..n] == b[0] && KeyOf(b)[n..] == KeyOf(b[1..]);
      KeyInjective(a[1..], b[1..], n);
      assert a == [a[0]] + a[1..] && b == [b[0]] + b[1..];
    }
  }

  /** A value occurs in the key exactly when some row holds it. */
  lemma {:induction false} KeyHolds(g: Grid, x: int)
    ensures x in KeyOf(g) <==> exists r :: 0 <= r < |g| && x in g[r]
  {
    if g != [] {
      KeyHolds(g[1..], x);
      if x in KeyOf(g[1..]) {
        var r :| 0 <= r < |g[1..]| && x in g[1..][r];
        assert x in g[r + 1];
      }
      forall r | 0 <= r < |g| && x in g[r]
        ensures x in KeyOf(g)
      {
        if r > 0 {
          assert x in g[1..][r - 1];
        }
      }
    }
  }

  lemma {:induction false} KeySplit(g: Grid, r: int)
    requires 0 <= r < |g|
    ensures KeyOf(g) == KeyOf(g[..r]) + g[r] + KeyOf(g[r + 1..])
  {
    if r > 0 {
      KeySplit(g[1..], r - 1);
      assert g[1..][..r - 1] == g[1..r];
      assert g[1..][r - 1 + 1..] == g[r + 1..];
      assert g[..r][1..] == g[1..r];
      assert g[..r] != [];
    } else {
      assert g[..0] == [];
    }
  }

  lemma MultisetUpdate(s: seq<int>, k: int, v: int)
    requires 0 <= k < |s|
    ensures multiset(s[k := v]) == multiset(s) - multiset{s[k]} + multiset{v}
  {
    assert s == s[..k] + [s[k]] + s[k + 1..];
    assert s[k := v] == s[..k] + [v] + s[k + 1..];
  }

  /** Overwriting one cell overwrites exactly one entry of the key. */
  lemma KeyUpdate(g: Grid, r: int, c: int, v: int)
    requires 0 <= r < |g| && 0 <= c < |g[r]|
    ensures multiset(KeyOf(g[r := g[r][c := v]])) == multiset(KeyOf(g)) - multiset{g[r][c]} + multiset{v}
  {
    var h := g[r := g[r][c := v]];
    KeySplit(g, r);
    KeySplit(h, r);
    assert h[..r] == g[..r] && h[r + 1..] == g[r + 1..];
    var A, B, C := KeyOf(g[..r]), g[r], KeyOf(g[r + 1..]);
    MultisetUpdate(B, c, v);
    assert multiset(KeyOf(h)) == multiset(A) + multiset(B[c := v]) + multiset(C);
    assert multiset(KeyOf(g)) == multiset(A) + multiset(B) + multiset(C);
    ReplaceMiddle(multiset(A), multiset(B), multiset(B[c := v]), multiset(C), B[c], v);
  }

  lemma ReplaceMiddle(a: multiset<int>, b: multiset<int>, b': multiset<int>, c: multiset<int>, x: int, v: int)
    requires x in b && b' == b - multiset{x} + multiset{v}
    ensures a + b' + c == a + b + c - multiset{x} + multiset{v}
  {
  }

  // ---------------------------------------------------------------------------
  // As-written key: decimal renderings joined without a separator
  // ---------------------------------------------------------------------------

  function DigitChar(d: int): char
    requires 0 <= d < 10
  {
    ('0' as int + d) as char
  }

  /** Python's `str` of a non-negative integer. */
  function Decimal(x: nat): string
    decreases x
  {
    if x < 10 then [DigitChar(x)] else Decimal(x / 10) + [DigitChar(x % 10)]
  }

  /** Python's `str` of an integer. */
  function Str(x: int): string
  {
    if x < 0 then "-" + Decimal(-x) else Decimal(x)
  }

  function RowString(row: seq<int>): string
  {
    if row == [] then "" else Str(row[0]) + RowString(row[1..])
  }

  /** `''.join(str(x) for row in tiles for x in row)`, as the source computes the dictionary key. */
  function StringKey(g: Grid): string
  {
    if g == [] then "" else RowString(g[0]) + StringKey(g[1..])
  }

  /** Every tile of the board is a single decimal digit, as on boards of side 3 or less. */
  predicate SingleDigits(g: Grid)
  {
    forall r, x :: 0 <= r < |g| && x in g[r] ==> 0 <= x < 10
  }

  predicate AllDigits(s: seq<int>)
  {
    forall i :: 0 <= i < |s| ==> 0 <= s[i] < 10
  }

  /** One digit character per entry. */
  function Digits(s: seq<int>): (d: string)
    requires AllDigits(s)
    ensures |d| == |s|
  {
    if s == [] then "" else [DigitChar(s[0])] + Digits(s[1..])
  }

  lemma {:induction false} DigitsAppend(a: seq<int>, b: seq<int>)
    requires AllDigits(a + b)
    ensures AllDigits(a) && AllDigits(b)
    ensures Digits(a + b) == Digits(a) + Digits(b)
  {
    assert forall i :: 0 <= i < |a| ==> a[i] == (a + b)[i];
    assert forall i :: 0 <= i < |b| ==> b[i] == (a + b)[|a| + i];
    if a == [] {
      assert a + b == b;
    } else {
      assert (a + b)[1..] == a[1..] + b;
      DigitsAppend(a[1..], b);
    }
  }

  /** Different digit sequences render differently. */
  lemma {:induction false} DigitsInjective(a: seq<int>, b: seq<int>)
    requires AllDigits(a) && AllDigits(b) && Digits(a) == Digits(b)
    ensures a == b
  {
    if a != [] {
      assert Digits(a)[0] == DigitChar(a[0]) && Digits(b)[0] == DigitChar(b[0]);
      assert Digits(a)[1..] == Digits(a[1..]) && Digits(b)[1..] == Digits(b[1..]);
      DigitsInjective(a[1..], b[1..]);
      assert a == [a[0]] + a[1..] && b == [b[0]] + b[1..];
    }
  }

  lemma {:induction false} RowStringDigits(row: seq<int>)
    requires AllDigits(row)
    ensures RowString(row) == Digits(row)
  {
    if row != [] {
      RowStringDigits(row[1..]);
    }
  }

  /** On boards of single-digit tiles the source's key is the digit rendering of the row-major key. */
  lemma {:induction false} StringKeyDigits(g: Grid)
    requires SingleDigits(g)
    ensures AllDigits(KeyOf(g))
    ensures StringKey(g) == Digits(KeyOf(g))
  {
    forall i | 0 <= i < |KeyOf(g)|
      ensures 0 <= KeyOf(g)[i] < 10
    {
      KeyHolds(g, KeyOf(g)[i]);
    }
    if g != [] {
      forall r, x | 0 <= r < |g[1..]| && x in g[1..][r]
        ensures 0 <= x < 10
      {
        assert x in g[r + 1];
      }
      StringKeyDigits(g[1..]);
      assert AllDigits(g[0]) by {
        forall i | 0 <= i < |g[0]|
          ensures 0 <= g[0][i] < 10
        {
          assert g[0][i] in g[0];
        }
      }
      RowStringDigits(g[0]);
      DigitsAppend(g[0], KeyOf(g[1..]));
    }
  }

  /**
   * On boards of one shape whose tiles are single digits (every board of side 3 or
   * less), the source's key does identify the board.
   */
  lemma StringKeyInjectiveOnDigits(a: Grid, b: Grid, n: nat)
    requires IsRect(a, n) && IsRect(b, n) && |a| == |b|
    requires SingleDigits(a) && SingleDigits(b) && StringKey(a) == StringKey(b)
    ensures a == b
  {
    StringKeyDigits(a);
    StringKeyDigits(b);
    DigitsInjective(KeyOf(a), KeyOf(b));
    KeyInjective(a, b, n);
  }

  lemma DecimalSmall()
    ensures Str(0) == "0" && Str(1) == "1" && Str(10) == "10" && Str(11) == "11"
  {
    assert Decimal(10) == Decimal(1) + [DigitChar(0)];
    assert Decimal(11) == Decimal(1) + [DigitChar(1)];
  }

  lemma RowStringCons(x: int, r: seq<int>)
    ensures RowString([x] + r) == Str(x) + RowString(r)
  {
    assert ([x] + r)[1..] == r;
  }

  /** The rows [1, 10, 11, 0] and [11, 0, 1, 10] both render as "110110". */
  lemma RotatedRows()
    ensures RowString([1, 10, 11, 0]) == "110110" && RowString([11, 0, 1, 10]) == "110110"
  {
    DecimalSmall();
    RowStringCons(0, []);
    RowStringCons(10, [0]);
    RowStringCons(11, [10, 0]);
    assert [1, 10, 11, 0] == [1] + [10, 11, 0] && [10, 11, 0] == [10] + [11, 0] && [11, 0] == [11] + [0];
    RowStringCons(11, [0]);
    RowStringCons(10, [11, 0]);
    RowStringCons(1, [10, 11, 0]);
    RowStringCons(10, []);
    RowStringCons(1, [10]);
    RowStringCons(0, [1, 10]);
    assert [11, 0, 1, 10] == [11] + [0, 1, 10] && [0, 1, 10] == [0] + [1, 10] && [1, 10] == [1] + [10];
    RowStringCons(11, [0, 1, 10]);
  }

  lemma StringKeyCons(a: seq<int>, t: Grid)
    ensures StringKey([a] + t) == RowString(a) + StringKey(t)
  {
    assert ([a] + t)[1..] == t;
  }

  /**
   * For any remaining rows, a first row [1, 10, 11, 0] and a first row [11, 0, 1, 10]
   * give the same string key.
   */
  lemma RotatedRowsKey(t: Grid)
    ensures StringKey([[1, 10, 11, 0]] + t) == StringKey([[11, 0, 1, 10]] + t)
  {
    RotatedRows();
    StringKeyCons([1, 10, 11, 0], t);
    StringKeyCons([11, 0, 1, 10], t);
  }

  /**
   * Two different 15-puzzle boards (each a permutation of 0..15) share one string key.
   * The second is the first with its top row rotated by two cells, an even permutation
   * with the blank kept in the top row, so each can be reached from the other by
   * sliding moves and one search can record both.
   */
  lemma StringKeyCollision()
    ensures var t := [[2, 3, 4, 5], [6, 7, 8, 9], [12, 13, 14, 15]];
            var a, b := [[1, 10, 11, 0]] + t, [[11, 0, 1, 10]] + t;
            IsSquare(a, 4) && IsSquare(b, 4) && a != b && StringKey(a) == StringKey(b)
  {
    var t := [[2, 3, 4, 5], [6, 7, 8, 9], [12, 13, 14, 15]];
    RotatedRowsKey(t);
    assert ([[1, 10, 11, 0]] + t)[0][0] == 1;
  }

  // ---------------------------------------------------------------------------
  // find_tile_position and generate_state
  // ---------------------------------------------------------------------------

  /** Python's `list.index`: the first position of x, or |s| when x is absent. */
  function IndexOf<T(==)>(s: seq<T>, x: T): (k: nat)
    ensures k <= |s|
    ensures k < |s| <==> x in s
    ensures k < |s| ==> s[k] == x
    ensures forall m :: 0 <= m < k ==> s[m] != x
  {
    if s == [] then 0 else if s[0] == x then 0 else 1 + IndexOf(s[1..], x)
  }

  /** The index of the first row holding x, or |g| when no row does. */
  function FirstRowWith(g: Grid, x: int): (r: nat)
    ensures r <= |g|
    ensures r < |g| ==> x in g[r]
    ensures forall m :: 0 <= m < r ==> x !in g[m]
  {
    if g == [] then 0 else if x in g[0] then 0 else 1 + FirstRowWith(g[1..], x)
  }

  /**
   * The row of the first row holding x, located again with `tiles.index(row)`, and
   * x's first column in it; None where the source raises IndexError (x absent).
   */
  function FindTilePosition(g: Grid, x: int): (pos: Option<(int, int)>)
    ensures pos.None? <==> forall r :: 0 <= r < |g| ==> x !in g[r]
    ensures pos.Some? ==>
              var (r, c) := pos.value;
              && 0 <= r < |g| && 0 <= c < |g[r]| && g[r][c] == x
              && (forall m :: 0 <= m < r ==> x !in g[m])
              && (forall m :: 0 <= m < c ==> g[r][m] != x)
  {
    var first := FirstRowWith(g, x);
    if first == |g| then None
    else
      var row := g[first];
      Some((IndexOf(g, row), IndexOf(row, x)))
  }

  /** No value occurs in two cells. */
  ghost predicate Distinct(g: Grid)
  {
    forall a, b, c, d ::
      0 <= a < |g| && 0 <= b < |g[a]| && 0 <= c < |g| && 0 <= d < |g[c]| && g[a][b] == g[c][d]
      ==> a == c && b == d
  }

  /** On a board without repeated values, every cell is found where it is. */
  lemma FindTileOnDistinct(g: Grid, r: int, c: int)
    requires Distinct(g) && 0 <= r < |g| && 0 <= c < |g[r]|
    ensures FindTilePosition(g, g[r][c]) == Some((r, c))
  {
    assert g[r][c] in g[r];
  }

  lemma {:induction false} MulMono(a: nat, b: nat, n: nat)
    requires a <= b
    ensures a * n <= b * n
  {
    if n > 0 {
      MulMono(a, b, n - 1);
      assert a * n == a * (n - 1) + a;
      assert b * n == b * (n - 1) + b;
    }
  }

  /** While fewer than n*n cells are cut, another whole row of n cells remains. */
  lemma RowsLeft(r: nat, n: nat)
    requires r * n < n * n
    ensures r < n && r * n + n == (r + 1) * n && (r + 1) * n <= n * n
  {
    if r >= n {
      MulMono(n, r, n);
    }
    MulMono(r + 1, n, n);
  }

  lemma MulStrict(a: nat, b: nat, n: nat)
    requires a < b && n > 0
    ensures a * n < b * n
  {
    MulMono(a + 1, b, n);
    assert (a + 1) * n == a * n + n;
  }

  /** Once n*n cells are cut into rows of n, there are n rows. */
  lemma RowsDone(r: nat, n: nat)
    requires n > 0 && r * n == n * n
    ensures r == n
  {
    if r != n {
      var lo, hi := if r < n then r else n, if r < n then n else r;
      MulStrict(lo, hi, n);
    }
  }

  /**
   * generate_state(tiles, shuffle=False): cuts the tile list row-major into n rows of
   * length n and locates the blank.
   */
  method GenerateState(tiles: seq<int>, n: nat) returns (res: Result<State>)
    requires |tiles| == n * n
    ensures n == 0 ==> res == Err(ZeroSide)
    ensures n > 0 && 0 !in tiles ==> res == Err(NoBlank)
    ensures n > 0 && 0 in tiles ==>
              && res.Ok?
              && ValidState(res.value, n)
              && KeyOf(res.value.grid) == tiles
              && forall r, c :: 0 <= r < n && 0 <= c < n && (r < res.value.row || (r == res.value.row && c < res.value.col))
                                ==> res.value.grid[r][c] != 0
  {
    if n == 0 {
      return Err(ZeroSide);
    }
    var rows: Grid := [];
    var i := 0;
    while i < |tiles|
      invariant 0 <= i <= |tiles| && i == |rows| * n && |rows| <= n
      invariant IsRect(rows, n)
      invariant KeyOf(rows) == tiles[..i]
      decreases |tiles| - i
    {
      RowsLeft(|rows|, n);
      KeyAppend(rows, tiles[i..i + n]);
      assert tiles[..i] + tiles[i..i + n] == tiles[..i + n];
      rows := rows + [tiles[i..i + n]];
      i := i + n;
    }
    assert tiles[..i] == tiles;
    RowsDone(|rows|, n);
    KeyHolds(rows, 0);
    var pos := FindTilePosition(rows, 0);
    if pos.None? {
      return Err(NoBlank);
    }
    res := Ok(State(pos.value.0, pos.value.1, rows));
  }

  // ---------------------------------------------------------------------------
  // check_state
  // ---------------------------------------------------------------------------

  /** The goal test: boards equal, blank coordinates not consulted. */
  predicate CheckState(s: State, goal: State): (b: bool)
    ensures b ==> |s.grid| == |goal.grid| && KeyOf(s.grid) == KeyOf(goal.grid)
  {
    s.grid == goal.grid
  }

  /** For boards of one side length, the goal test agrees with key equality, whatever the blank coordinates. */
  lemma CheckStateByKey(s: State, goal: State, n: nat)
    requires IsSquare(s.grid, n) && IsSquare(goal.grid, n)
    ensures CheckState(s, goal) <==> KeyOf(s.grid) == KeyOf(goal.grid)
  {
    if KeyOf(s.grid) == KeyOf(goal.grid) {
      KeyInjective(s.grid, goal.grid, n);
    }
  }

  // ---------------------------------------------------------------------------
  // move_blank and move
  // ---------------------------------------------------------------------------

  /** Rank of a neighbour of (i, j) in the enumeration order down, up, right, left. */
  function Direction(i: int, j: int, p: (int, int)): int
  {
    if p == (i + 1, j) then 0 else if p == (i - 1, j) then 1 else if p == (i, j + 1) then 2 else 3
  }

  predicate Adjacent(i: int, j: int, p: (int, int))
  {
    ((p.0 - i == 1 || i - p.0 == 1) && p.1 == j) || (p.0 == i && (p.1 - j == 1 || j - p.1 == 1))
  }

  /** The blank's destinations from (i, j) on an n by n board: down, up, right, left, those on the board. */
  function MoveBlank(i: int, j: int, n: nat): (ps: seq<(int, int)>)
    ensures |ps| <= 4
    ensures forall t :: 0 <= t < |ps| ==> Adjacent(i, j, ps[t])
    ensures InBounds(i, j, n) ==> forall t :: 0 <= t < |ps| ==> InBounds(ps[t].0, ps[t].1, n)
    ensures forall t, u :: 0 <= t < u < |ps| ==> Direction(i, j, ps[t]) < Direction(i, j, ps[u])
  {
    (if i + 1 < n then [(i + 1, j)] else [])
    + (if i - 1 >= 0 then [(i - 1, j)] else [])
    + (if j + 1 < n then [(i, j + 1)] else [])
    + (if j - 1 >= 0 then [(i, j - 1)] else [])
  }

  /** From a square on the board, the moves are exactly the adjacent squares on the board. */
  lemma MoveBlankExactly(i: int, j: int, n: nat, p: (int, int))
    requires InBounds(i, j, n)
    ensures p in MoveBlank(i, j, n) <==> InBounds(p.0, p.1, n) && Adjacent(i, j, p)
  {
  }

  function Border(i: int, n: nat): int
  {
    if i == 0 || i == n - 1 then 1 else 0
  }

  /** Two moves from a corner, three from an edge, four from the interior. */
  lemma MoveBlankCount(i: int, j: int, n: nat)
    requires InBounds(i, j, n) && n >= 2
    ensures |MoveBlank(i, j, n)| == 4 - Border(i, n) - Border(j, n)
  {
  }

  /** The board with cells (i, j) and (i1, j1) exchanged. */
  function Swapped(g: Grid, i: int, j: int, i1: int, j1: int): (h: Grid)
    requires 0 <= i < |g| && 0 <= j < |g[i]| && 0 <= i1 < |g| && 0 <= j1 < |g[i1]|
    ensures |h| == |g| && forall r :: 0 <= r < |g| ==> |h[r]| == |g[r]|
    ensures forall r, c :: 0 <= r < |g| && 0 <= c < |g[r]| ==>
              h[r][c] == (if r == i && c == j then g[i1][j1] else if r == i1 && c == j1 then g[i][j] else g[r][c])
  {
    var g1 := g[i := g[i][j := g[i1][j1]]];
    g1[i1 := g1[i1][j1 := g[i][j]]]
  }

  /** Swapping the same two cells again restores the board. */
  lemma SwapTwice(g: Grid, i: int, j: int, i1: int, j1: int)
    requires 0 <= i < |g| && 0 <= j < |g[i]| && 0 <= i1 < |g| && 0 <= j1 < |g[i1]|
    ensures Swapped(Swapped(g, i, j, i1, j1), i, j, i1, j1) == g
  {
    var h := Swapped(Swapped(g, i, j, i1, j1), i, j, i1, j1);
    forall r | 0 <= r < |g|
      ensures h[r] == g[r]
    {
      assert |h[r]| == |g[r]|;
    }
  }

  /** A swap only rearranges the tiles. */
  lemma SwapPermutes(g: Grid, i: int, j: int, i1: int, j1: int)
    requires 0 <= i < |g| && 0 <= j < |g[i]| && 0 <= i1 < |g| && 0 <= j1 < |g[i1]|
    ensures multiset(KeyOf(Swapped(g, i, j, i1, j1))) == multiset(KeyOf(g))
  {
    var a, b := g[i][j], g[i1][j1];
    var g1 := g[i := g[i][j := b]];
    KeyUpdate(g, i, j, b);
    assert g1[i1][j1] == b;
    KeyUpdate(g1, i1, j1, a);
    assert Swapped(g, i, j, i1, j1) == g1[i1 := g1[i1][j1 := a]];
    KeyAt1(g, i, j);
    ExchangeBack(multiset(KeyOf(g)), a, b);
  }

  lemma ExchangeBack(m: multiset<int>, a: int, b: int)
    requires a in m
    ensures m - multiset{a} + multiset{b} - multiset{b} + multiset{a} == m
  {
  }

  lemma KeyAt1(g: Grid, i: int, j: int)
    requires 0 <= i < |g| && 0 <= j < |g[i]|
    ensures g[i][j] in KeyOf(g)
  {
    KeyHolds(g, g[i][j]);
    assert g[i][j] in g[i];
  }

  /** The child reached by moving the blank of s to p. */
  function Child(s: State, p: (int, int)): State
    requires WellFormed(s, |s.grid|) && InBounds(p.0, p.1, |s.grid|)
  {
    State(p.0, p.1, Swapped(s.grid, s.row, s.col, p.0, p.1))
  }

  /** One legal move: b is a with its blank exchanged for an on-board neighbour. */
  ghost predicate IsMove(a: Grid, b: Grid, n: nat)
  {
    exists i, j, i1, j1 ::
      && IsSquare(a, n) && InBounds(i, j, n) && InBounds(i1, j1, n)
      && a[i][j] == 0 && (i1, j1) in MoveBlank(i, j, n)
      && b == Swapped(a, i, j, i1, j1)
  }

  /** Every child of a valid state is a valid state, one legal move away, with the same tiles. */
  lemma ChildIsMove(s: State, n: nat, p: (int, int))
    requires ValidState(s, n) && p in MoveBlank(s.row, s.col, n)
    ensures WellFormed(s, |s.grid|) && InBounds(p.0, p.1, |s.grid|)
    ensures ValidState(Child(s, p), n)
    ensures IsMove(s.grid, Child(s, p).grid, n)
    ensures multiset(KeyOf(Child(s, p).grid)) == multiset(KeyOf(s.grid))
  {
    SwapPermutes(s.grid, s.row, s.col, p.0, p.1);
    assert Child(s, p).grid == Swapped(s.grid, s.row, s.col, p.0, p.1);
  }

  /** The children of s, one per destination of the blank, in the order of MoveBlank. */
  function Children(s: State): (cs: seq<State>)
    requires WellFormed(s, |s.grid|)
    ensures |cs| == |MoveBlank(s.row, s.col, |s.grid|)|
    ensures forall t :: 0 <= t < |cs| ==>
              var p := MoveBlank(s.row, s.col, |s.grid|)[t];
              InBounds(p.0, p.1, |s.grid|) && cs[t] == Child(s, p)
  {
    var ps := MoveBlank(s.row, s.col, |s.grid|);
    seq(|ps|, t requires 0 <= t < |ps| => Child(s, ps[t]))
  }

  /**
   * move(state): for each destination of the blank, swap it in a working copy, hand
   * out the child, and swap back.
   */
  method Move(s: State) returns (children: seq<State>)
    requires WellFormed(s, |s.grid|)
    ensures children == Children(s)
  {
    var i, j, grid := s.row, s.col, s.grid;
    var n := |grid|;
    var dests := MoveBlank(i, j, n);
    children := [];
    var t := 0;
    while t < |dests|
      invariant 0 <= t <= |dests| && |children| == t
      invariant grid == s.grid
      invariant forall u :: 0 <= u < t ==> children[u] == Child(s, dests[u])
    {
      var (i1, j1) := dests[t];
      grid := Swapped(grid, i, j, i1, j1);
      children := children + [State(i1, j1, grid)];
      SwapTwice(s.grid, i, j, i1, j1);
      grid := Swapped(grid, i, j, i1, j1);
      t := t + 1;
    }
  }

  // ---------------------------------------------------------------------------
  // get_path
  // ---------------------------------------------------------------------------

  /**
   * p is a root-to-node path recorded in the tree: every board has a record, the
   * first one's parent is None, each other's parent is the board before it.
   */
  ghost predicate IsPath(tree: Tree, p: seq<Grid>)
  {
    && |p| > 0
    && (forall i :: 0 <= i < |p| ==> KeyOf(p[i]) in tree && p[i] != [])
    && tree[KeyOf(p[0])].parent == None
    && forall i :: 0 < i < |p| ==> tree[KeyOf(p[i])].parent == Some(p[i - 1])
  }

  /** On a recorded path, only the first board has no parent. */
  lemma RootIffSingle(tree: Tree, p: seq<Grid>)
    requires IsPath(tree, p)
    ensures tree[KeyOf(p[|p| - 1])].parent.None? <==> |p| == 1
  {
    if |p| > 1 {
      assert tree[KeyOf(p[|p| - 1])].parent == Some(p[|p| - 2]);
    }
  }

  /** A board has at most one recorded root path. */
  lemma {:induction false} PathUnique(tree: Tree, p: seq<Grid>, q: seq<Grid>)
    requires IsPath(tree, p) && IsPath(tree, q) && p[|p| - 1] == q[|q| - 1]
    ensures p == q
  {
    var last := p[|p| - 1];
    RootIffSingle(tree, p);
    RootIffSingle(tree, q);
    if |p| > 1 {
      var p', q' := p[..|p| - 1], q[..|q| - 1];
      assert IsPath(tree, p') && IsPath(tree, q');
      PathUnique(tree, p', q');
      assert p == p' + [p[|p| - 1]] && q == q' + [q[|q| - 1]];
    }
  }

  /**
   * get_path(tiles, tree): prepend the board, look up its parent, until the parent
   * is None (or an empty board). Given that the board has a recorded root path,
   * the walk returns that path.
   */
  method GetPath(tiles: Grid, tree: Tree) returns (path: seq<Grid>)
    requires exists p :: IsPath(tree, p) && p[|p| - 1] == tiles
    ensures IsPath(tree, path) && path[|path| - 1] == tiles
    ensures forall p :: IsPath(tree, p) && p[|p| - 1] == tiles ==> p == path
  {
    ghost var p :| IsPath(tree, p) && p[|p| - 1] == tiles;
    path := [];
    var cur: Option<Grid> := Some(tiles);
    ghost var k := |p|;
    while cur.Some? && cur.value != []
      invariant 0 <= k <= |p|
      invariant path == p[k..]
      invariant k > 0 ==> cur == Some(p[k - 1])
      invariant k == 0 ==> cur == None
      decreases k
    {
      path := [cur.value] + path;
      cur := tree[KeyOf(cur.value)].parent;
      k := k - 1;
    }
    assert path == p;
    forall q | IsPath(tree, q) && q[|q| - 1] == tiles
      ensures q == path
    {
      PathUnique(tree, q, p);
    }
  }
}
