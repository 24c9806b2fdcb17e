/**
 * The IDA* engine (IDAstar.py): the Manhattan-distance heuristic and the
 * threshold-deepening depth-first search that uses it.
 */
module IDAstar {
  import opened Common
  import opened SearchTree

  // ---------------------------------------------------------------------------
  // manhattan_distance
  // ---------------------------------------------------------------------------

  function Abs(x: int): nat
  {
    if x < 0 then -x else x
  }

  /** Every nonzero tile of g also occurs on the goal board, so find_tile_position finds it. */
  predicate Covers(goal: Grid, g: Grid)
  {
    forall x :: x in KeyOf(g) && x != 0 ==> x in KeyOf(goal)
  }

  lemma CoversCell(goal: Grid, g: Grid, i: int, j: int)
    requires Covers(goal, g) && 0 <= i < |g| && 0 <= j < |g[i]|
    ensures g[i][j] == 0 || FindTilePosition(goal, g[i][j]).Some?
  {
    KeyHolds(g, g[i][j]);
    assert g[i][j] in g[i];
    KeyHolds(goal, g[i][j]);
  }

  /** The distance of the tile in cell (i, j) from the place find_tile_position gives it on the goal board. */
  function CellCost(goal: Grid, tile: int, i: int, j: int): nat
    requires tile == 0 || FindTilePosition(goal, tile).Some?
  {
    if tile == 0 then 0
    else
      var (r, c) := FindTilePosition(goal, tile).value;
      Abs(r - i) + Abs(c - j)
  }

  /** The costs of the first m cells of row i. */
  function RowCost(goal: Grid, g: Grid, i: int, m: int): nat
    requires Covers(goal, g) && 0 <= i < |g| && 0 <= m <= |g[i]|
  {
    if m == 0 then 0
    else
      CoversCell(goal, g, i, m - 1);
      RowCost(goal, g, i, m - 1) + CellCost(goal, g[i][m - 1], i, m - 1)
  }

  /** The costs of all cells of the first m rows. */
  function GridCost(goal: Grid, g: Grid, m: int): nat
    requires Covers(goal, g) && 0 <= m <= |g|
  {
    if m == 0 then 0 else GridCost(goal, g, m - 1) + RowCost(goal, g, m - 1, |g[m - 1]|)
  }


  /** manhattan_distance(tiles, goal_tiles): row by row, cell by cell, add each nonzero tile's distance. */
  method ManhattanDistance(tiles: Grid, goal: Grid) returns (h: int)
    requires Covers(goal, tiles)
    ensures h == Manhattan(tiles, goal)
  {
    h := 0;
    var i := 0;
    while i < |tiles|
      invariant 0 <= i <= |tiles| && h == GridCost(goal, tiles, i)
    {
      var j := 0;
      while j < |tiles[i]|
        invariant 0 <= j <= |tiles[i]|
        invariant h == GridCost(goal, tiles, i) + RowCost(goal, tiles, i, j)
      {
        var tile := tiles[i][j];
        if tile != 0 {
          CoversCell(goal, tiles, i, j);
          var (row, col) := FindTilePosition(goal, tile).value;
          h := h + Abs(row - i) + Abs(col - j);
        }
        j := j + 1;
      }
      i := i + 1;
    }
  }

  /** A nonzero tile in cell (i, j) that find_tile_position places at (i, j) on the goal board. */
  predicate InPlace(goal: Grid, g: Grid, i: int, j: int)
    requires 0 <= i < |g| && 0 <= j < |g[i]|
  {
    g[i][j] == 0 || FindTilePosition(goal, g[i][j]) == Some((i, j))
  }

  lemma {:induction false} RowCostZero(goal: Grid, g: Grid, i: int, m: int)
    requires Covers(goal, g) && 0 <= i < |g| && 0 <= m <= |g[i]|
    ensures RowCost(goal, g, i, m) == 0 <==> forall j :: 0 <= j < m ==> InPlace(goal, g, i, j)
  {
    if m > 0 {
      RowCostZero(goal, g, i, m - 1);
      CoversCell(goal, g, i, m - 1);
      assert CellCost(goal, g[i][m - 1], i, m - 1) == 0 <==> InPlace(goal, g, i, m - 1);
    }
  }

  lemma {:induction false} GridCostZero(goal: Grid, g: Grid, m: int)
    requires Covers(goal, g) && 0 <= m <= |g|
    ensures GridCost(goal, g, m) == 0 <==>
              forall i, j :: 0 <= i < m && 0 <= j < |g[i]| ==> InPlace(goal, g, i, j)
  {
    if m > 0 {
      GridCostZero(goal, g, m - 1);
      RowCostZero(goal, g, m - 1, |g[m - 1]|);
    }
  }

  /**
   * The Manhattan distance of board g from the goal board: the sum of the costs of its
   * nonzero tiles. It is zero exactly when every nonzero tile stands where the goal
   * board has it.
   */
  function Manhattan(g: Grid, goal: Grid): (h: nat)
    requires Covers(goal, g)
    ensures h == 0 <==> forall i, j :: 0 <= i < |g| && 0 <= j < |g[i]| ==> InPlace(goal, g, i, j)
  {
    GridCostZero(goal, g, |g|);
    GridCost(goal, g, |g|)
  }

  /** On a goal board without repeated tiles, the goal board itself is at distance 0. */
  lemma ManhattanAtGoal(goal: Grid)
    requires Distinct(goal)
    ensures Covers(goal, goal) && Manhattan(goal, goal) == 0
  {
    forall i, j | 0 <= i < |goal| && 0 <= j < |goal[i]|
      ensures InPlace(goal, goal, i, j)
    {
      FindTileOnDistinct(goal, i, j);
    }
  }

  /** Two boards with the same tiles: if the first's tiles are on the goal board, so are the second's. */
  lemma CoversTiles(goal: Grid, a: Grid, b: Grid)
    requires Covers(goal, b) && multiset(KeyOf(a)) == multiset(KeyOf(b))
    ensures Covers(goal, a)
  {
    forall x | x in KeyOf(a) && x != 0
      ensures x in KeyOf(goal)
    {
      assert x in multiset(KeyOf(a));
      assert x in multiset(KeyOf(b));
    }
  }

  // ---------------------------------------------------------------------------
  // solve_puzzle
  // ---------------------------------------------------------------------------

  /** A record whose stored f-score is its depth plus the Manhattan distance of the last board of p. */
  ghost predicate Scored(node: Node, p: seq<Grid>, goal: Grid)
  {
    |p| > 0 && Covers(goal, p[|p| - 1]) && node.fScore.Some? && node.fScore.value == node.depth + Manhattan(p[|p| - 1], goal)
  }

  /**
   * The IDA* tree: root paths as SearchTree.TreeInv states them; every recorded board holds
   * the start board's tiles; the start board has depth 0 and every other board a depth
   * between 1 and `lowest` (lowest_depth); every f-score is depth plus heuristic.
   */
  ghost predicate Inv(tree: Tree, paths: map<Key, seq<Grid>>, root: Grid, goal: Grid, n: nat, lowest: int)
  {
    && TreeInv(tree, paths, root, n)
    && Covers(goal, root)
    && 0 <= lowest
    && tree[KeyOf(root)].depth == 0
    && SameTiles(tree, root)
    && DepthsBelow(tree, root, lowest)
    && AllScored(tree, paths, goal)
  }

  ghost predicate AllScored(tree: Tree, paths: map<Key, seq<Grid>>, goal: Grid)
  {
    forall k :: k in tree ==> k in paths && Scored(tree[k], paths[k], goal)
  }

  lemma ScoredSameLast(node: Node, p: seq<Grid>, q: seq<Grid>, goal: Grid)
    requires Scored(node, p, goal) && |q| > 0 && q[|q| - 1] == p[|p| - 1]
    ensures Scored(node, q, goal)
  {
  }

  lemma ScoredRecord(tree: Tree, paths: map<Key, seq<Grid>>, paths': map<Key, seq<Grid>>, root: Grid, goal: Grid,
                     n: nat, child: Grid, node: Node)
    requires TreeInv(tree, paths, root, n) && AllScored(tree, paths, goal)
    requires TreeInv(tree[KeyOf(child) := node], paths', root, n)
    requires Scored(node, paths'[KeyOf(child)], goal)
    ensures AllScored(tree[KeyOf(child) := node], paths', goal)
  {
    var t := tree[KeyOf(child) := node];
    forall k | k in t
      ensures k in paths' && Scored(t[k], paths'[k], goal)
    {
      if k != KeyOf(child) {
        LastByKey(tree, paths, t, paths', root, n, k);
        ScoredSameLast(tree[k], paths[k], paths'[k], goal);
      }
    }
  }

  /** Recording a child one level below a recorded board, scored by depth plus heuristic, keeps Inv. */
  lemma InvRecord(tree: Tree, paths: map<Key, seq<Grid>>, paths': map<Key, seq<Grid>>, root: Grid, goal: Grid,
                  n: nat, lowest: int, child: Grid, node: Node)
    requires Inv(tree, paths, root, goal, n, lowest)
    requires TreeInv(tree[KeyOf(child) := node], paths', root, n)
    requires Scored(node, paths'[KeyOf(child)], goal)
    requires KeyOf(child) != KeyOf(root) && multiset(KeyOf(child)) == multiset(KeyOf(root))
    requires 1 <= node.depth <= lowest
    ensures Inv(tree[KeyOf(child) := node], paths', root, goal, n, lowest)
  {
    var t := tree[KeyOf(child) := node];
    ScoredRecord(tree, paths, paths', root, goal, n, child, node);
    TilesRecord(tree, root, child, node);
    DepthsRecord(tree, root, lowest, child, node);
    assert t[KeyOf(root)] == tree[KeyOf(root)];
  }

  lemma Pick(s: set<int>) returns (y: int)
    requires s != {}
    ensures y in s
  {
    if forall z :: z !in s {
      assert false;
    }
    y :| y in s;
  }

  /** A nonempty finite set of integers has a least element: what `min` returns. */
  lemma {:induction false} MinExists(s: set<int>) returns (least: int)
    requires s != {}
    ensures least in s && forall x :: x in s ==> least <= x
  {
    var y := Pick(s);
    if s - {y} == {} {
      least := y;
      forall x | x in s
        ensures least <= x
      {
        assert x !in s - {y};
      }
    } else {
      var m := MinExists(s - {y});
      least := y;
      if m < y {
        least := m;
      }
      forall x | x in s
        ensures least <= x
      {
        if x != y {
          assert x in s - {y};
        }
      }
    }
  }

  /** The number of children move() hands out for the given states, one after the other. */
  function Fanout(xs: seq<State>, n: nat): nat
  {
    if xs == [] then 0 else Fanout(xs[..|xs| - 1], n) + |MoveBlank(xs[|xs| - 1].row, xs[|xs| - 1].col, n)|
  }

  lemma InvRaise(tree: Tree, paths: map<Key, seq<Grid>>, root: Grid, goal: Grid, n: nat, lowest: int, lowest': int)
    requires Inv(tree, paths, root, goal, n, lowest) && lowest <= lowest'
    ensures Inv(tree, paths, root, goal, n, lowest')
  {
    assert DepthsBelow(tree, root, lowest');
  }

  /** Every f-score kept for a later threshold that was not kept before exceeds the threshold. */
  ghost predicate KeptAbove(visited: set<int>, visited': set<int>, threshold: int)
  {
    visited <= visited' && forall f :: f in visited' ==> f in visited || f > threshold
  }

  lemma KeptAboveSame(visited: set<int>, threshold: int)
    ensures KeptAbove(visited, visited, threshold)
  {
  }

  lemma KeptAboveAdd(visited: set<int>, f: int, threshold: int)
    requires f > threshold
    ensures KeptAbove(visited, visited + {f}, threshold)
  {
  }

  /**
   * Recording a child that is not on its parent's path, one level below the parent,
   * with the f-score depth plus heuristic, keeps Inv and the parent's path.
   */
  lemma RecordScoredChild(tree: Tree, paths: map<Key, seq<Grid>>, root: Grid, goal: Grid, n: nat, lowest: int,
                          cur: State, path: seq<Grid>, next: State, node: Node) returns (paths': map<Key, seq<Grid>>)
    requires Inv(tree, paths, root, goal, n, lowest) && PathOf(tree, paths, cur, path) && ChildOf(cur, next, n)
    requires next.grid !in path && node.parent == Some(cur.grid) && 1 <= node.depth <= lowest
    requires Covers(goal, next.grid) && node.fScore.Some? && node.fScore.value == node.depth + Manhattan(next.grid, goal)
    ensures Inv(tree[KeyOf(next.grid) := node], paths', root, goal, n, lowest)
    ensures PathOf(tree[KeyOf(next.grid) := node], paths', cur, path)
    ensures KeyOf(next.grid) != KeyOf(cur.grid)
  {
    var child := next.grid;
    paths' := RecordChild(tree, paths, root, n, path, child, node);
    assert path[|path| - 1] == cur.grid;
    assert (path + [child])[|path + [child]| - 1] == child;
    assert multiset(KeyOf(child)) == multiset(KeyOf(root)) by {
      assert multiset(KeyOf(cur.grid)) == multiset(KeyOf(root));
    }
    InvRecord(tree, paths, paths', root, goal, n, lowest, child, node);
  }

  /**
   * The record IDA* writes for a child of cur: one level below cur's recorded depth,
   * cur's board as parent, and that depth plus the child's heuristic as f-score.
   */
  function ChildRecord(tree: Tree, cur: State, next: State, goal: Grid): (r: Node)
    requires KeyOf(cur.grid) in tree && Covers(goal, next.grid)
    ensures r.parent.Some? && KeyOf(r.parent.value) == KeyOf(cur.grid)
    ensures r.depth == tree[KeyOf(r.parent.value)].depth + 1
    ensures r.fScore.Some? && r.fScore.value >= r.depth
    ensures r.fScore.value == r.depth <==>
              forall i, j :: 0 <= i < |next.grid| && 0 <= j < |next.grid[i]| ==> InPlace(goal, next.grid, i, j)
  {
    var depth := tree[KeyOf(cur.grid)].depth + 1;
    Node(depth, Some(cur.grid), Some(depth + Manhattan(next.grid, goal)))
  }

  /**
   * The scoring step for a child off the path: f = g + h with h from manhattan_distance;
   * push the child when f is within the threshold, otherwise keep f for the next threshold.
   */
  method Score(cur: State, next: State, goal: Grid, threshold: int, tree: Tree, stack: seq<State>, visited: set<int>)
    returns (node: Node, stack': seq<State>, visited': set<int>)
    requires KeyOf(cur.grid) in tree && Covers(goal, next.grid)
    ensures node == ChildRecord(tree, cur, next, goal)
    ensures node.fScore.value <= threshold ==> stack' == stack + [next] && visited' == visited
    ensures node.fScore.value > threshold ==> stack' == stack && visited' == visited + {node.fScore.value}
    ensures KeptAbove(visited, visited', threshold)
  {
    var nextDepth := tree[KeyOf(cur.grid)].depth + 1;
    var h := ManhattanDistance(next.grid, goal);
    var f := nextDepth + h;
    stack', visited' := stack, visited;
    if f <= threshold {
      stack' := stack + [next];
      KeptAboveSame(visited, threshold);
    } else {
      visited' := visited + {f};
      KeptAboveAdd(visited, f, threshold);
    }
    node := Node(nextDepth, Some(cur.grid), Some(f));
  }

  /**
   * One child inside the loop over move(): when its board is not on the current path,
   * raise lowest_depth to its depth if needed, push it when its f-score is within the
   * threshold or else keep the f-score for a later threshold, and record it under the
   * current board with that depth and f-score.
   */
  method ConsiderChild(cur: State, next: State, path: seq<Grid>, goal: Grid, n: nat, threshold: int, root: Grid,
                       tree: Tree, ghost paths: map<Key, seq<Grid>>, stack: seq<State>, visited: set<int>, lowest: int)
    returns (tree': Tree, ghost paths': map<Key, seq<Grid>>, stack': seq<State>, visited': set<int>, lowest': int)
    requires Inv(tree, paths, root, goal, n, lowest) && PathOf(tree, paths, cur, path) && ChildOf(cur, next, n)
    ensures Inv(tree', paths', root, goal, n, lowest') && PathOf(tree', paths', cur, path)
    ensures tree.Keys <= tree'.Keys && lowest <= lowest'
    ensures stack' == stack || (stack' == stack + [next] && KeyOf(next.grid) in tree')
    ensures KeptAbove(visited, visited', threshold)
    ensures next.grid in path ==> tree' == tree && stack' == stack && visited' == visited && lowest' == lowest
    ensures next.grid !in path ==>
              && Covers(goal, next.grid) && KeyOf(next.grid) != KeyOf(cur.grid)
              && tree' == tree[KeyOf(next.grid) := ChildRecord(tree, cur, next, goal)]
              && lowest' == (if ChildRecord(tree, cur, next, goal).depth > lowest then ChildRecord(tree, cur, next, goal).depth else lowest)
              && (ChildRecord(tree, cur, next, goal).fScore.value <= threshold ==> stack' == stack + [next] && visited' == visited)
              && (ChildRecord(tree, cur, next, goal).fScore.value > threshold ==>
                    stack' == stack && visited' == visited + {ChildRecord(tree, cur, next, goal).fScore.value})
  {
    tree', paths', stack', visited', lowest' := tree, paths, stack, visited, lowest;
    if next.grid !in path {
      var nextDepth := tree[KeyOf(cur.grid)].depth + 1;
      if nextDepth > lowest' {
        lowest' := nextDepth;
      }
      InvRaise(tree, paths, root, goal, n, lowest, lowest');
      CoversTiles(goal, next.grid, root);
      var node;
      node, stack', visited' := Score(cur, next, goal, threshold, tree, stack, visited);
      tree' := tree[KeyOf(next.grid) := node];
      paths' := RecordScoredChild(tree, paths, root, goal, n, lowest', cur, path, next, node);
    } else {
      KeptAboveSame(visited, threshold);
    }
  }

  /** Every state of xs has its nonzero tiles on the goal board. */
  predicate AllCovered(xs: seq<State>, goal: Grid)
  {
    forall x :: x in xs ==> Covers(goal, x.grid)
  }

  /** A recorded board with the start board's tiles, on a goal board covering them, has children covered too. */
  lemma ChildrenCovered(cur: State, n: nat, root: Grid, goal: Grid)
    requires ValidState(cur, n) && Covers(goal, root) && multiset(KeyOf(cur.grid)) == multiset(KeyOf(root))
    ensures AllCovered(Children(cur), goal)
  {
    var xs := Children(cur);
    forall x | x in xs
      ensures Covers(goal, x.grid)
    {
      var t :| 0 <= t < |xs| && xs[t] == x;
      ChildIsMove(cur, n, MoveBlank(cur.row, cur.col, n)[t]);
      CoversTiles(goal, x.grid, root);
    }
  }

  /** The f-score IDA* gives the child x of cur. */
  function FScore(tree: Tree, cur: State, x: State, goal: Grid): int
    requires KeyOf(cur.grid) in tree && Covers(goal, x.grid)
  {
    ChildRecord(tree, cur, x, goal).fScore.value
  }

  /** The f-scores IDA* gives the children xs of cur, in order. */
  function FScores(tree: Tree, cur: State, xs: seq<State>, goal: Grid): (fs: seq<int>)
    requires AllCovered(xs, goal) && KeyOf(cur.grid) in tree
    ensures |fs| == |xs| && forall i :: 0 <= i < |xs| ==> fs[i] == FScore(tree, cur, xs[i], goal)
  {
    seq(|xs|, i requires 0 <= i < |xs| => FScore(tree, cur, xs[i], goal))
  }

  /** The first t children off path whose f-score in fs is within the threshold, in order: the states a pop pushes. */
  function Admitted(xs: seq<State>, fs: seq<int>, t: int, path: seq<Grid>, threshold: int): seq<State>
    requires 0 <= t <= |xs| == |fs|
  {
    if t == 0 then []
    else
      Admitted(xs, fs, t - 1, path, threshold)
      + (if xs[t - 1].grid !in path && fs[t - 1] <= threshold then [xs[t - 1]] else [])
  }

  /** The f-scores above the threshold of the first t children off path: the scores a pop keeps. */
  function Over(xs: seq<State>, fs: seq<int>, t: int, path: seq<Grid>, threshold: int): set<int>
    requires 0 <= t <= |xs| == |fs|
  {
    if t == 0 then {}
    else
      Over(xs, fs, t - 1, path, threshold)
      + (if xs[t - 1].grid !in path && fs[t - 1] > threshold then {fs[t - 1]} else {})
  }

  /** The records IDA* writes for the children xs of cur, in order. */
  function ChildRecords(tree: Tree, cur: State, xs: seq<State>, goal: Grid): (rs: seq<Node>)
    requires AllCovered(xs, goal) && KeyOf(cur.grid) in tree
    ensures |rs| == |xs| && forall i :: 0 <= i < |xs| ==> rs[i] == ChildRecord(tree, cur, xs[i], goal)
  {
    seq(|xs|, i requires 0 <= i < |xs| => ChildRecord(tree, cur, xs[i], goal))
  }

  /** tree after writing, for each of the first t children off path in order, its record from rs. */
  function Records(xs: seq<State>, rs: seq<Node>, t: int, path: seq<Grid>, tree: Tree): Tree
    requires 0 <= t <= |xs| == |rs|
  {
    if t == 0 then tree
    else
      var prev := Records(xs, rs, t - 1, path, tree);
      if xs[t - 1].grid in path then prev else prev[KeyOf(xs[t - 1].grid) := rs[t - 1]]
  }

  /** What a pop pushes: exactly the children off the path whose f-score is within the threshold. */
  lemma {:induction false} AdmittedAt(xs: seq<State>, fs: seq<int>, t: int, path: seq<Grid>, threshold: int, x: State)
    requires 0 <= t <= |xs| == |fs|
    ensures x in Admitted(xs, fs, t, path, threshold) <==>
              exists i :: 0 <= i < t && xs[i] == x && x.grid !in path && fs[i] <= threshold
  {
    if t > 0 {
      AdmittedAt(xs, fs, t - 1, path, threshold, x);
      if x == xs[t - 1] && x.grid !in path && fs[t - 1] <= threshold {
        assert 0 <= t - 1 < t && xs[t - 1] == x;
      }
      if exists i :: 0 <= i < t && xs[i] == x && x.grid !in path && fs[i] <= threshold {
        var i :| 0 <= i < t && xs[i] == x && x.grid !in path && fs[i] <= threshold;
        if i < t - 1 {
          assert exists i :: 0 <= i < t - 1 && xs[i] == x && x.grid !in path && fs[i] <= threshold;
        }
      }
    }
  }

  /** Some child off the path among the first t has f-score f. */
  ghost predicate Scores(xs: seq<State>, fs: seq<int>, t: int, path: seq<Grid>, f: int)
    requires 0 <= t <= |xs| == |fs|
  {
    exists i :: 0 <= i < t && xs[i].grid !in path && fs[i] == f
  }

  /** What a pop keeps: exactly the f-scores above the threshold of children off the path. */
  lemma {:induction false} OverAt(xs: seq<State>, fs: seq<int>, t: int, path: seq<Grid>, threshold: int, f: int)
    requires 0 <= t <= |xs| == |fs|
    ensures f in Over(xs, fs, t, path, threshold) <==> f > threshold && Scores(xs, fs, t, path, f)
  {
    if t > 0 {
      OverAt(xs, fs, t - 1, path, threshold, f);
      if Scores(xs, fs, t - 1, path, f) {
        var i :| 0 <= i < t - 1 && xs[i].grid !in path && fs[i] == f;
        assert 0 <= i < t && xs[i].grid !in path && fs[i] == f;
      }
      if xs[t - 1].grid !in path && fs[t - 1] == f {
        assert Scores(xs, fs, t, path, f);
      }
      if Scores(xs, fs, t, path, f) {
        var i :| 0 <= i < t && xs[i].grid !in path && fs[i] == f;
        if i < t - 1 {
          assert Scores(xs, fs, t - 1, path, f);
        }
      }
    }
  }

  /** Some child off the path among the first t has a board with key k. */
  ghost predicate WritesKey(xs: seq<State>, t: int, path: seq<Grid>, k: Key)
    requires 0 <= t <= |xs|
  {
    exists i :: 0 <= i < t && xs[i].grid !in path && KeyOf(xs[i].grid) == k
  }

  /**
   * Looking a key up after the writes: it is present exactly when it was before or a
   * child off the path has it; a key no such child has keeps its old record; otherwise
   * its record is the one written for such a child.
   */
  lemma {:induction false} RecordsAt(xs: seq<State>, rs: seq<Node>, t: int, path: seq<Grid>, tree: Tree, k: Key)
    requires 0 <= t <= |xs| == |rs|
    ensures k in Records(xs, rs, t, path, tree) <==> k in tree || WritesKey(xs, t, path, k)
    ensures !WritesKey(xs, t, path, k) && k in tree ==> Records(xs, rs, t, path, tree)[k] == tree[k]
    ensures WritesKey(xs, t, path, k) ==>
              exists i :: 0 <= i < t && xs[i].grid !in path && KeyOf(xs[i].grid) == k
                && Records(xs, rs, t, path, tree)[k] == rs[i]
  {
    if t > 0 {
      RecordsAt(xs, rs, t - 1, path, tree, k);
      var r := Records(xs, rs, t, path, tree);
      if xs[t - 1].grid !in path && KeyOf(xs[t - 1].grid) == k {
        assert WritesKey(xs, t, path, k);
        assert r[k] == rs[t - 1];
      } else {
        if WritesKey(xs, t, path, k) {
          var i :| 0 <= i < t && xs[i].grid !in path && KeyOf(xs[i].grid) == k;
          assert i < t - 1;
          assert WritesKey(xs, t - 1, path, k);
        }
        if WritesKey(xs, t - 1, path, k) {
          var i :| 0 <= i < t - 1 && xs[i].grid !in path && KeyOf(xs[i].grid) == k
                   && Records(xs, rs, t - 1, path, tree)[k] == rs[i];
          assert WritesKey(xs, t, path, k);
          assert r[k] == rs[i];
        }
      }
    }
  }

  /**
   * After t children: the stack is the old one followed by the admitted children, the
   * tree holds their records, the kept f-scores gained those above the threshold,
   * lowest_depth is raised to the children's level if any was off the path, and cur's
   * own record is unchanged.
   */
  ghost predicate Scanned(xs: seq<State>, fs: seq<int>, rs: seq<Node>, t: int, path: seq<Grid>, cur: State, goal: Grid, threshold: int,
                          tree0: Tree, stack0: seq<State>, visited0: set<int>, lowest0: int,
                          tree: Tree, stack: seq<State>, visited: set<int>, lowest: int)
  {
    && 0 <= t <= |xs| == |fs| == |rs| && AllCovered(xs, goal)
    && KeyOf(cur.grid) in tree0 && KeyOf(cur.grid) in tree && tree[KeyOf(cur.grid)] == tree0[KeyOf(cur.grid)]
    && stack == stack0 + Admitted(xs, fs, t, path, threshold)
    && tree == Records(xs, rs, t, path, tree0)
    && visited == visited0 + Over(xs, fs, t, path, threshold)
    && lowest == Deeper(lowest0, Keep(xs, t, path), tree0[KeyOf(cur.grid)].depth + 1)
  }

  lemma ScannedNone(xs: seq<State>, path: seq<Grid>, cur: State, goal: Grid, threshold: int,
                    tree0: Tree, stack0: seq<State>, visited0: set<int>, lowest0: int)
    requires AllCovered(xs, goal) && KeyOf(cur.grid) in tree0
    ensures Scanned(xs, FScores(tree0, cur, xs, goal), ChildRecords(tree0, cur, xs, goal), 0, path, cur, goal, threshold,
                    tree0, stack0, visited0, lowest0, tree0, stack0, visited0, lowest0)
  {
    assert stack0 + [] == stack0;
  }

  /** A child on the path changes nothing. */
  lemma ScannedSkip(xs: seq<State>, fs: seq<int>, rs: seq<Node>, t: int, path: seq<Grid>, cur: State, goal: Grid, threshold: int,
                    tree0: Tree, stack0: seq<State>, visited0: set<int>, lowest0: int,
                    tree: Tree, stack: seq<State>, visited: set<int>, lowest: int)
    requires Scanned(xs, fs, rs, t, path, cur, goal, threshold, tree0, stack0, visited0, lowest0, tree, stack, visited, lowest)
    requires t < |xs| && xs[t].grid in path
    ensures Scanned(xs, fs, rs, t + 1, path, cur, goal, threshold, tree0, stack0, visited0, lowest0, tree, stack, visited, lowest)
  {
    var fs := fs;
    assert Keep(xs, t + 1, path) == Keep(xs, t, path) + [];
    assert Admitted(xs, fs, t + 1, path, threshold) == Admitted(xs, fs, t, path, threshold) + [];
  }

  /** A child off the path is recorded, and pushed or its f-score kept. */
  lemma ScannedTake(xs: seq<State>, fs: seq<int>, rs: seq<Node>, t: int, path: seq<Grid>, cur: State, goal: Grid, threshold: int,
                    tree0: Tree, stack0: seq<State>, visited0: set<int>, lowest0: int,
                    tree: Tree, stack: seq<State>, visited: set<int>, lowest: int,
                    tree': Tree, stack': seq<State>, visited': set<int>, lowest': int)
    requires Scanned(xs, fs, rs, t, path, cur, goal, threshold, tree0, stack0, visited0, lowest0, tree, stack, visited, lowest)
    requires t < |xs| && xs[t].grid !in path && KeyOf(xs[t].grid) != KeyOf(cur.grid)
    requires rs[t] == ChildRecord(tree, cur, xs[t], goal) && fs[t] == rs[t].fScore.value
    requires tree' == tree[KeyOf(xs[t].grid) := rs[t]]
    requires lowest' == (if rs[t].depth > lowest then rs[t].depth else lowest)
    requires fs[t] <= threshold ==> stack' == stack + [xs[t]] && visited' == visited
    requires fs[t] > threshold ==> stack' == stack && visited' == visited + {fs[t]}
    ensures Scanned(xs, fs, rs, t + 1, path, cur, goal, threshold, tree0, stack0, visited0, lowest0, tree', stack', visited', lowest')
  {
    var x := xs[t];
    var pushed := Admitted(xs, fs, t, path, threshold);
    assert Keep(xs, t + 1, path) == Keep(xs, t, path) + [x];
    assert tree'[KeyOf(cur.grid)] == tree0[KeyOf(cur.grid)];
    if fs[t] <= threshold {
      assert Admitted(xs, fs, t + 1, path, threshold) == pushed + [x];
      assert stack' == stack0 + (pushed + [x]);
    } else {
      assert Admitted(xs, fs, t + 1, path, threshold) == pushed + [];
    }
  }

  /** Considering child t extends the pushes, the writes and the kept scores by exactly its own. */
  lemma ScannedStep(xs: seq<State>, fs: seq<int>, rs: seq<Node>, t: int, path: seq<Grid>, cur: State, goal: Grid, threshold: int,
                    tree0: Tree, stack0: seq<State>, visited0: set<int>, lowest0: int,
                    tree: Tree, stack: seq<State>, visited: set<int>, lowest: int,
                    tree': Tree, stack': seq<State>, visited': set<int>, lowest': int)
    requires Scanned(xs, fs, rs, t, path, cur, goal, threshold, tree0, stack0, visited0, lowest0, tree, stack, visited, lowest)
    requires t < |xs|
    requires xs[t].grid in path ==> tree' == tree && stack' == stack && visited' == visited && lowest' == lowest
    requires xs[t].grid !in path ==>
               && KeyOf(xs[t].grid) != KeyOf(cur.grid)
               && rs[t] == ChildRecord(tree, cur, xs[t], goal) && fs[t] == rs[t].fScore.value
               && tree' == tree[KeyOf(xs[t].grid) := rs[t]]
               && lowest' == (if rs[t].depth > lowest then rs[t].depth else lowest)
               && (fs[t] <= threshold ==> stack' == stack + [xs[t]] && visited' == visited)
               && (fs[t] > threshold ==> stack' == stack && visited' == visited + {fs[t]})
    ensures Scanned(xs, fs, rs, t + 1, path, cur, goal, threshold, tree0, stack0, visited0, lowest0, tree', stack', visited', lowest')
  {
    if xs[t].grid in path {
      ScannedSkip(xs, fs, rs, t, path, cur, goal, threshold, tree0, stack0, visited0, lowest0, tree, stack, visited, lowest);
    } else {
      ScannedTake(xs, fs, rs, t, path, cur, goal, threshold, tree0, stack0, visited0, lowest0,
                  tree, stack, visited, lowest, tree', stack', visited', lowest');
    }
  }

  lemma ScannedAll(xs: seq<State>, fs: seq<int>, rs: seq<Node>, path: seq<Grid>, cur: State, goal: Grid, threshold: int,
                   tree0: Tree, stack0: seq<State>, visited0: set<int>, lowest0: int,
                   tree: Tree, stack: seq<State>, visited: set<int>, lowest: int)
    requires Scanned(xs, fs, rs, |xs|, path, cur, goal, threshold, tree0, stack0, visited0, lowest0, tree, stack, visited, lowest)
    ensures stack == stack0 + Admitted(xs, fs, |xs|, path, threshold)
    ensures tree == Records(xs, rs, |xs|, path, tree0)
    ensures visited == visited0 + Over(xs, fs, |xs|, path, threshold)
    ensures lowest == Deeper(lowest0, Keep(xs, |xs|, path), tree0[KeyOf(cur.grid)].depth + 1)
  {
  }

  /** The tree keeps Inv, path is cur's recorded root path, and the stack is recorded. */
  ghost predicate Ready(tree: Tree, paths: map<Key, seq<Grid>>, root: Grid, goal: Grid, n: nat, lowest: int,
                        cur: State, path: seq<Grid>, stack: seq<State>)
  {
    Inv(tree, paths, root, goal, n, lowest) && PathOf(tree, paths, cur, path) && StackOk(stack, tree, n)
  }

  /** The record and f-score of child t depend on the tree only through cur's own record. */
  lemma ScoreAt(xs: seq<State>, fs: seq<int>, rs: seq<Node>, t: int, tree0: Tree, tree: Tree, cur: State, goal: Grid)
    requires AllCovered(xs, goal) && KeyOf(cur.grid) in tree0 && 0 <= t < |xs|
    requires fs == FScores(tree0, cur, xs, goal) && rs == ChildRecords(tree0, cur, xs, goal)
    requires KeyOf(cur.grid) in tree && tree[KeyOf(cur.grid)] == tree0[KeyOf(cur.grid)]
    ensures rs[t] == ChildRecord(tree, cur, xs[t], goal) && fs[t] == rs[t].fScore.value
  {
  }

  /** One turn of the loop over move(): count the child for destination t and consider it. */
  method Visit(cur: State, xs: seq<State>, t: int, path: seq<Grid>, goal: Grid, n: nat, threshold: int, root: Grid,
               ghost fs: seq<int>, ghost rs: seq<Node>, ghost tree0: Tree, ghost stack0: seq<State>, ghost visited0: set<int>,
               ghost lowest0: int, tree: Tree, ghost paths: map<Key, seq<Grid>>, stack: seq<State>, visited: set<int>, nodes: int, lowest: int)
    returns (tree': Tree, ghost paths': map<Key, seq<Grid>>, stack': seq<State>, visited': set<int>, nodes': int,
             lowest': int)
    requires Ready(tree, paths, root, goal, n, lowest, cur, path, stack)
    requires ValidState(cur, n) && xs == Children(cur) && 0 <= t < |xs|
    requires AllCovered(xs, goal) && KeyOf(cur.grid) in tree0
    requires fs == FScores(tree0, cur, xs, goal) && rs == ChildRecords(tree0, cur, xs, goal)
    requires Scanned(xs, fs, rs, t, path, cur, goal, threshold, tree0, stack0, visited0, lowest0, tree, stack, visited, lowest)
    ensures Ready(tree', paths', root, goal, n, lowest', cur, path, stack')
    ensures tree.Keys <= tree'.Keys && lowest <= lowest' && nodes' == nodes + 1
    ensures KeptAbove(visited, visited', threshold)
    ensures Scanned(xs, fs, rs, t + 1, path, cur, goal, threshold, tree0, stack0, visited0, lowest0, tree', stack', visited', lowest')
  {
    var next := xs[t];
    ScoreAt(xs, fs, rs, t, tree0, tree, cur, goal);
    ChildIsMove(cur, n, MoveBlank(cur.row, cur.col, n)[t]);
    nodes' := nodes + 1;
    tree', paths', stack', visited', lowest' :=
      ConsiderChild(cur, next, path, goal, n, threshold, root, tree, paths, stack, visited, lowest);
    StackStep(stack, tree, stack', tree', next, n);
    ScannedStep(xs, fs, rs, t, path, cur, goal, threshold, tree0, stack0, visited0, lowest0,
                tree, stack, visited, lowest, tree', stack', visited', lowest');
  }

  /**
   * Expanding cur: the stack grows by the admitted children in move() order, the
   * children off cur's root path are recorded under cur, the f-scores above the
   * threshold are kept, lowest_depth rises to the children's level if any child was off
   * the path, and `nodes` counts every child.
   */
  ghost predicate Expansion(goal: Grid, threshold: int, cur: State,
                            stack: seq<State>, tree: Tree, paths: map<Key, seq<Grid>>, visited: set<int>, nodes: int,
                            lowest: int, stack': seq<State>, tree': Tree, visited': set<int>, nodes': int, lowest': int)
  {
    && WellFormed(cur, |cur.grid|) && KeyOf(cur.grid) in tree && KeyOf(cur.grid) in paths
    && AllCovered(Children(cur), goal)
    && var xs, path := Children(cur), paths[KeyOf(cur.grid)];
       && stack' == stack + Admitted(xs, FScores(tree, cur, xs, goal), |xs|, path, threshold)
       && tree' == Records(xs, ChildRecords(tree, cur, xs, goal), |xs|, path, tree)
       && visited' == visited + Over(xs, FScores(tree, cur, xs, goal), |xs|, path, threshold)
       && lowest' == Deeper(lowest, Keep(xs, |xs|, path), tree[KeyOf(cur.grid)].depth + 1)
       && nodes' == nodes + |xs|
  }

  /**
   * The body of the inner loop after a non-goal pop: rebuild the current board's path,
   * then for every child count a node and consider the child. The stack grows by the
   * admitted children in move() order, each child off the path is recorded, and the
   * f-scores above the threshold are kept.
   */
  method Expand(cur: State, goal: Grid, n: nat, threshold: int, root: Grid,
                tree: Tree, ghost paths: map<Key, seq<Grid>>, stack: seq<State>, visited: set<int>,
                nodes: int, lowest: int)
    returns (tree': Tree, ghost paths': map<Key, seq<Grid>>, stack': seq<State>, visited': set<int>,
             nodes': int, lowest': int)
    requires Inv(tree, paths, root, goal, n, lowest) && StackOk(stack, tree, n)
    requires ValidState(cur, n) && KeyOf(cur.grid) in tree
    ensures Inv(tree', paths', root, goal, n, lowest') && StackOk(stack', tree', n)
    ensures tree.Keys <= tree'.Keys && lowest <= lowest'
    ensures KeptAbove(visited, visited', threshold) && nodes' == nodes + |MoveBlank(cur.row, cur.col, n)|
    ensures Expansion(goal, threshold, cur, stack, tree, paths, visited, nodes, lowest, stack', tree', visited', nodes', lowest')
  {
    PathEndsAt(tree, paths, root, n, cur.grid);
    var path := GetPath(cur.grid, tree);
    assert path == paths[KeyOf(cur.grid)];
    var children := Move(cur);
    ChildrenCovered(cur, n, root, goal);
    tree', paths', stack', visited', nodes', lowest' := tree, paths, stack, visited, nodes, lowest;
    ghost var fs, rs := FScores(tree, cur, children, goal), ChildRecords(tree, cur, children, goal);
    ScannedNone(children, path, cur, goal, threshold, tree, stack, visited, lowest);
    KeptAboveSame(visited, threshold);
    var t := 0;
    while t < |children|
      invariant 0 <= t <= |children| && nodes' == nodes + t
      invariant Ready(tree', paths', root, goal, n, lowest', cur, path, stack')
      invariant tree.Keys <= tree'.Keys && lowest <= lowest'
      invariant KeptAbove(visited, visited', threshold)
      invariant Scanned(children, fs, rs, t, path, cur, goal, threshold, tree, stack, visited, lowest, tree', stack', visited', lowest')
    {
      tree', paths', stack', visited', nodes', lowest' :=
        Visit(cur, children, t, path, goal, n, threshold, root, fs, rs, tree, stack, visited, lowest,
              tree', paths', stack', visited', nodes', lowest');
      t := t + 1;
    }
    ScannedAll(children, fs, rs, path, cur, goal, threshold, tree, stack, visited, lowest, tree', stack', visited', lowest');
  }

  // ---------------------------------------------------------------------------
  // Thresholds
  // ---------------------------------------------------------------------------

  /** Each threshold is larger than the one before. */
  predicate Increasing(ts: seq<int>)
  {
    forall a, b :: 0 <= a < b < |ts| ==> ts[a] < ts[b]
  }

  lemma IncreasingAppend(ts: seq<int>, t: int)
    requires Increasing(ts) && (|ts| > 0 ==> ts[|ts| - 1] < t)
    ensures Increasing(ts + [t])
  {
    var us := ts + [t];
    forall a, b | 0 <= a < b < |us|
      ensures us[a] < us[b]
    {
      if b == |ts| {
        assert us[a] == ts[a] <= ts[|ts| - 1];
      }
    }
  }

  /** Every f-score kept for a later threshold exceeds t. */
  predicate AllAbove(visited: set<int>, t: int)
  {
    forall f :: f in visited ==> f > t
  }

  /** Removing the least kept f-score leaves only larger ones. */
  lemma RemoveLeast(visited: set<int>, t: int)
    requires t in visited && forall f :: f in visited ==> t <= f
    ensures AllAbove(visited - {t}, t)
  {
  }

  /** Over one pass of the inner loop, the kept f-scores all stay above the threshold. */
  lemma StillAbove(visited: set<int>, visited': set<int>, t: int)
    requires AllAbove(visited, t) && KeptAbove(visited, visited', t)
    ensures AllAbove(visited', t)
  {
  }

  /**
   * The thresholds so far and the kept f-scores: the thresholds increase, the first
   * one is h0, and every kept f-score exceeds the latest threshold; before the first
   * threshold is taken, h0 is the only kept f-score.
   */
  ghost predicate Thresholds(ts: seq<int>, h0: int, visited: set<int>)
  {
    && Increasing(ts)
    && (|ts| == 0 ==> visited == {h0})
    && (|ts| > 0 ==> ts[0] == h0 && AllAbove(visited, ts[|ts| - 1]))
  }

  /**
   * Taking the least kept f-score t as the next threshold: once a pass has left only
   * f-scores above t, the thresholds with t appended keep their properties.
   */
  lemma NextThreshold(ts: seq<int>, h0: int, visited: set<int>, t: int, visited': set<int>)
    requires Thresholds(ts, h0, visited)
    requires t in visited && forall f :: f in visited ==> t <= f
    requires AllAbove(visited', t)
    ensures Thresholds(ts + [t], h0, visited')
  {
    IncreasingAppend(ts, t);
    var us := ts + [t];
    assert us[|us| - 1] == t;
    if |ts| > 0 {
      assert us[0] == ts[0];
    } else {
      assert t in {h0};
    }
  }

  /** The goal popped from the stack: its record gives the number of moves. */
  lemma FoundGoal(tree: Tree, paths: map<Key, seq<Grid>>, start: Grid, goal: Grid, n: nat, lowest: int)
    requires Inv(tree, paths, start, goal, n, lowest) && IsSquare(goal, n) && KeyOf(goal) in tree
    ensures Found(tree, paths, start, goal, n, tree[KeyOf(goal)].depth)
  {
    PathEndsAt(tree, paths, start, n, goal);
    SameKey(start, goal, n);
  }

  /** `nodes` is the number of children move() gave the expanded states, none of which was the goal. */
  ghost predicate Counted(expanded: seq<State>, tree: Tree, goal: Grid, n: nat, nodes: int)
  {
    && nodes == Fanout(expanded, n)
    && forall i :: 0 <= i < |expanded| ==>
         ValidState(expanded[i], n) && expanded[i].grid != goal && KeyOf(expanded[i].grid) in tree
  }

  lemma CountedStep(expanded: seq<State>, tree: Tree, tree': Tree, goal: Grid, n: nat, nodes: int, cur: State)
    requires Counted(expanded, tree, goal, n, nodes) && tree.Keys <= tree'.Keys
    requires ValidState(cur, n) && cur.grid != goal && KeyOf(cur.grid) in tree'
    ensures Counted(expanded + [cur], tree', goal, n, nodes + |MoveBlank(cur.row, cur.col, n)|)
  {
    var xs := expanded + [cur];
    assert xs[..|xs| - 1] == expanded;
    forall i | 0 <= i < |xs|
      ensures ValidState(xs[i], n) && xs[i].grid != goal && KeyOf(xs[i].grid) in tree'
    {
      if i < |expanded| {
        assert xs[i] == expanded[i];
      }
    }
  }

  /** The initial tree: the start board alone, at depth 0, scored by its heuristic. */
  lemma InitialInv(start: Grid, goal: Grid, n: nat, h0: int) returns (paths: map<Key, seq<Grid>>)
    requires n > 0 && IsSquare(start, n) && Covers(goal, start) && h0 == Manhattan(start, goal)
    ensures Inv(map[KeyOf(start) := Node(0, None, Some(h0))], paths, start, goal, n, 0)
  {
    var tree := map[KeyOf(start) := Node(0, None, Some(h0))];
    paths := map[KeyOf(start) := [start]];
    var p := [start];
    assert IsPath(tree, p);
    assert GoodPath(tree, p, start, n);
  }

  // ---------------------------------------------------------------------------
  // Runs: the states solve_puzzle goes through
  // ---------------------------------------------------------------------------

  /**
   * How a turn of the inner loop ends: it expanded a state and the pass goes on; the
   * stack ran empty; the goal was popped; or no pops were left.
   */
  datatype PassEnd = Continue | StackEmptied | GoalPopped(depth: int) | FuelOut

  /** What solve_puzzle holds between pops, with the ghost root paths of the tree and the states expanded so far. */
  datatype Config = Config(stack: seq<State>, tree: Tree, paths: map<Key, seq<Grid>>, visited: set<int>, nodes: int,
                           lowest: int, expanded: seq<State>, threshold: int)

  /**
   * A pop of a state other than the goal: the top leaves the stack and is expanded
   * (Expansion) under the current threshold, and joins the expanded states.
   */
  ghost predicate Expanded(goal: Grid, c: Config, c': Config)
  {
    && c.stack != [] && c.stack[|c.stack| - 1].grid != goal
    && Expansion(goal, c.threshold, c.stack[|c.stack| - 1], c.stack[..|c.stack| - 1], c.tree, c.paths, c.visited,
                 c.nodes, c.lowest, c'.stack, c'.tree, c'.visited, c'.nodes, c'.lowest)
    && c'.expanded == c.expanded + [c.stack[|c.stack| - 1]]
    && c'.threshold == c.threshold
  }

  /**
   * The start of a round of the outer loop: the last pass emptied its stack and
   * lowest_depth is at most max_level; the least kept f-score becomes the threshold and
   * leaves the set, and the stack holds the start state alone.
   */
  ghost predicate NewRound(start: State, maxLevel: int, c: Config, c': Config)
  {
    && c.stack == [] && c.lowest <= maxLevel
    && c'.threshold in c.visited && (forall f :: f in c.visited ==> c'.threshold <= f)
    && c' == Config([start], c.tree, c.paths, c.visited - {c'.threshold}, c.nodes, c.lowest, c.expanded, c'.threshold)
  }

  ghost predicate Advance(start: State, goal: Grid, maxLevel: int, c: Config, c': Config)
  {
    Expanded(goal, c, c') || NewRound(start, maxLevel, c, c')
  }

  /** A run: each configuration follows from the one before by a pop or a new round, and keeps Inv. */
  ghost predicate Run(start: State, goal: Grid, n: nat, maxLevel: int, trace: seq<Config>)
    decreases |trace|
  {
    && |trace| > 0
    && Inv(trace[|trace| - 1].tree, trace[|trace| - 1].paths, start.grid, goal, n, trace[|trace| - 1].lowest)
    && (|trace| > 1 ==>
          && Run(start, goal, n, maxLevel, trace[..|trace| - 1])
          && Advance(start, goal, maxLevel, trace[|trace| - 2], trace[|trace| - 1]))
  }

  lemma RunExtend(start: State, goal: Grid, n: nat, maxLevel: int, trace: seq<Config>, c: Config)
    requires Run(start, goal, n, maxLevel, trace) && Advance(start, goal, maxLevel, trace[|trace| - 1], c)
    requires Inv(c.tree, c.paths, start.grid, goal, n, c.lowest)
    ensures Run(start, goal, n, maxLevel, trace + [c])
  {
    var t := trace + [c];
    assert t[..|t| - 1] == trace;
  }

  /**
   * The stack a turn leaves behind, given the last configuration's stack `last`: after
   * a goal pop it is `last` without its top, which was the goal; otherwise it is `last`,
   * empty when the stack ran empty and not empty when the fuel ran out.
   */
  ghost predicate Halted(goal: Grid, last: seq<State>, stack: seq<State>, end: PassEnd)
  {
    && (end.GoalPopped? ==> last != [] && last[|last| - 1].grid == goal && stack == last[..|last| - 1])
    && (!end.GoalPopped? ==> stack == last)
    && (end.StackEmptied? ==> stack == [])
    && (end.FuelOut? ==> stack != [])
  }

  /** The initial configuration: no stack yet, the start board alone in the tree, h0 the only kept f-score. */
  ghost predicate Initial(start: State, h0: int, c: Config)
  {
    c == Config([], map[KeyOf(start.grid) := Node(0, None, Some(h0))], c.paths, {h0}, 0, 0, [], h0)
  }

  /**
   * c is where the run in trace has got to: the run starts from the initial
   * configuration, and its last configuration is c apart from the stack, which the
   * last turn left as Halted says.
   */
  ghost predicate Traced(start: State, goal: Grid, n: nat, h0: int, maxLevel: int, c: Config, end: PassEnd,
                         trace: seq<Config>)
  {
    && Run(start, goal, n, maxLevel, trace)
    && Initial(start, h0, trace[0])
    && var last := trace[|trace| - 1];
       && last == Config(last.stack, c.tree, c.paths, c.visited, c.nodes, c.lowest, c.expanded, c.threshold)
       && Halted(goal, last.stack, c.stack, end)
  }

  /** One turn of a pass extends the trace by the new configuration when it expanded a state, and by nothing otherwise. */
  lemma TracedStep(start: State, goal: Grid, n: nat, h0: int, maxLevel: int, trace: seq<Config>,
                   c: Config, c': Config, end: PassEnd) returns (trace': seq<Config>)
    requires Traced(start, goal, n, h0, maxLevel, c, Continue, trace)
    requires end.Continue? ==> Expanded(goal, c, c') && Inv(c'.tree, c'.paths, start.grid, goal, n, c'.lowest)
    requires !end.Continue? ==>
               && c'.tree == c.tree && c'.paths == c.paths && c'.visited == c.visited && c'.nodes == c.nodes
               && c'.lowest == c.lowest && c'.expanded == c.expanded && c'.threshold == c.threshold
               && Halted(goal, c.stack, c'.stack, end)
    ensures Traced(start, goal, n, h0, maxLevel, c', end, trace') && trace <= trace'
  {
    assert trace[|trace| - 1] == c;
    if end.Continue? {
      RunExtend(start, goal, n, maxLevel, trace, c');
      trace' := trace + [c'];
    } else {
      trace' := trace;
    }
  }

  // ---------------------------------------------------------------------------
  // The search loop
  // ---------------------------------------------------------------------------

  /**
   * Pop the top state; if it is the goal, report its recorded depth; otherwise
   * expand it under the threshold.
   */
  method Pop(goal: Grid, n: nat, threshold: int, root: Grid, stack: seq<State>,
             tree: Tree, ghost paths: map<Key, seq<Grid>>, visited: set<int>, nodes: int, lowest: int,
             ghost expanded: seq<State>)
    returns (end: PassEnd, stack': seq<State>, tree': Tree, ghost paths': map<Key, seq<Grid>>,
             visited': set<int>, nodes': int, lowest': int, ghost expanded': seq<State>)
    requires Inv(tree, paths, root, goal, n, lowest) && StackOk(stack, tree, n) && |stack| > 0 && IsSquare(goal, n)
    requires Counted(expanded, tree, goal, n, nodes) && AllAbove(visited, threshold)
    ensures Inv(tree', paths', root, goal, n, lowest') && StackOk(stack', tree', n) && lowest <= lowest'
    ensures Counted(expanded', tree', goal, n, nodes') && AllAbove(visited', threshold) && visited <= visited'
    ensures end.GoalPopped? || end.Continue?
    ensures end.GoalPopped? <==> stack[|stack| - 1].grid == goal
    ensures end.GoalPopped? ==>
              && stack' == stack[..|stack| - 1] && tree' == tree && paths' == paths && visited' == visited
              && nodes' == nodes && lowest' == lowest && expanded' == expanded
              && Found(tree', paths', root, goal, n, end.depth)
    ensures end.Continue? ==>
              Expanded(goal, Config(stack, tree, paths, visited, nodes, lowest, expanded, threshold),
                       Config(stack', tree', paths', visited', nodes', lowest', expanded', threshold))
  {
    StackPop(stack, tree, n);
    var cur := stack[|stack| - 1];
    stack' := stack[..|stack| - 1];
    if cur.grid == goal {
      FoundGoal(tree, paths, root, goal, n, lowest);
      end := GoalPopped(tree[KeyOf(cur.grid)].depth);
      tree', paths', visited', nodes', lowest', expanded' := tree, paths, visited, nodes, lowest, expanded;
    } else {
      end := Continue;
      tree', paths', stack', visited', nodes', lowest' :=
        Expand(cur, goal, n, threshold, root, tree, paths, stack', visited, nodes, lowest);
      StillAbove(visited, visited', threshold);
      CountedStep(expanded, tree, tree', goal, n, nodes, cur);
      expanded' := expanded + [cur];
    }
  }

  /**
   * What holds between turns of a pass: the tree's invariant, the node count, the kept
   * f-scores above the threshold and including those at the start of the pass
   * (visited0), the fuel left within the pass's bound, and the trace of the run so far.
   */
  ghost predicate Passing(start: State, goal: Grid, n: nat, h0: int, maxLevel: int, fuel: nat, visited0: set<int>,
                          c: Config, end: PassEnd, fuelLeft: nat, trace: seq<Config>)
  {
    && Inv(c.tree, c.paths, start.grid, goal, n, c.lowest) && StackOk(c.stack, c.tree, n)
    && Counted(c.expanded, c.tree, goal, n, c.nodes) && AllAbove(c.visited, c.threshold) && visited0 <= c.visited
    && (end.GoalPopped? ==> Found(c.tree, c.paths, start.grid, goal, n, end.depth))
    && fuelLeft <= fuel && (end.FuelOut? ==> fuelLeft == 0)
    && Traced(start, goal, n, h0, maxLevel, c, end, trace)
  }

  /**
   * The pops spent between two points of a pass, fuel then fuelLeft pops remaining:
   * each pop that did not take the goal off added one state to the expanded ones.
   */
  ghost predicate Spent(expanded: seq<State>, fuel: nat, expanded': seq<State>, fuelLeft: nat, end: PassEnd)
  {
    expanded <= expanded' && |expanded'| + (if end.GoalPopped? then 1 else 0) == |expanded| + (fuel - fuelLeft)
  }

  lemma SpentStep(expanded: seq<State>, fuel: nat, e1: seq<State>, f1: nat, e2: seq<State>, f2: nat, end: PassEnd)
    requires Spent(expanded, fuel, e1, f1, Continue) && Spent(e1, f1, e2, f2, end)
    ensures Spent(expanded, fuel, e2, f2, end)
  {
    assert e1 == e2[..|e1|];
  }

  /**
   * One turn of the inner loop of solve_puzzle, with one pop left to spend or none:
   * with none, the pass ends for lack of fuel; otherwise pop. A pop of a state other
   * than the goal extends the trace by the new configuration.
   */
  method PassStep(goal: Grid, n: nat, threshold: int, start: State, stack: seq<State>, fuelLeft: nat,
                  tree: Tree, ghost paths: map<Key, seq<Grid>>, visited: set<int>, nodes: int, lowest: int,
                  ghost expanded: seq<State>, ghost h0: int, ghost maxLevel: int, ghost fuel: nat,
                  ghost visited0: set<int>, ghost trace: seq<Config>)
    returns (end: PassEnd, stack': seq<State>, fuelLeft': nat, tree': Tree, ghost paths': map<Key, seq<Grid>>,
             visited': set<int>, nodes': int, lowest': int, ghost expanded': seq<State>, ghost trace': seq<Config>)
    requires |stack| > 0 && IsSquare(goal, n)
    requires Passing(start, goal, n, h0, maxLevel, fuel, visited0,
                     Config(stack, tree, paths, visited, nodes, lowest, expanded, threshold), Continue, fuelLeft, trace)
    ensures Passing(start, goal, n, h0, maxLevel, fuel, visited0,
                    Config(stack', tree', paths', visited', nodes', lowest', expanded', threshold), end, fuelLeft', trace')
    ensures !end.StackEmptied? && lowest <= lowest' && trace <= trace'
    ensures Spent(expanded, fuelLeft, expanded', fuelLeft', end)
    ensures fuelLeft == 0 ==>
              && end.FuelOut? && fuelLeft' == 0 && stack' == stack && tree' == tree && paths' == paths
              && visited' == visited && nodes' == nodes && lowest' == lowest && expanded' == expanded
    ensures fuelLeft > 0 ==> fuelLeft' == fuelLeft - 1 && (end.GoalPopped? <==> stack[|stack| - 1].grid == goal)
    ensures fuelLeft > 0 && end.GoalPopped? ==>
              && stack' == stack[..|stack| - 1] && tree' == tree && paths' == paths && visited' == visited
              && nodes' == nodes && lowest' == lowest && expanded' == expanded
    ensures fuelLeft > 0 && !end.GoalPopped? ==>
              && end.Continue?
              && Expanded(goal, Config(stack, tree, paths, visited, nodes, lowest, expanded, threshold),
                          Config(stack', tree', paths', visited', nodes', lowest', expanded', threshold))
  {
    ghost var before := Config(stack, tree, paths, visited, nodes, lowest, expanded, threshold);
    if fuelLeft == 0 {
      end := FuelOut;
      stack', fuelLeft', tree', paths', visited', nodes', lowest', expanded' :=
        stack, fuelLeft, tree, paths, visited, nodes, lowest, expanded;
      assert Halted(goal, stack, stack', end);
    } else {
      fuelLeft' := fuelLeft - 1;
      end, stack', tree', paths', visited', nodes', lowest', expanded' :=
        Pop(goal, n, threshold, start.grid, stack, tree, paths, visited, nodes, lowest, expanded);
      if end.GoalPopped? {
        assert Halted(goal, stack, stack', end);
      }
    }
    trace' := TracedStep(start, goal, n, h0, maxLevel, trace, before,
                         Config(stack', tree', paths', visited', nodes', lowest', expanded', threshold), end);
  }

  /**
   * The rest of a pass: pop until the stack is empty, the goal comes off, or the
   * fuel runs out.
   */
  method Drain(goal: Grid, n: nat, threshold: int, start: State, stack: seq<State>, fuelLeft: nat,
               tree: Tree, ghost paths: map<Key, seq<Grid>>, visited: set<int>, nodes: int, lowest: int,
               ghost expanded: seq<State>, ghost h0: int, ghost maxLevel: int, ghost fuel: nat,
               ghost visited0: set<int>, ghost trace: seq<Config>)
    returns (end: PassEnd, stack': seq<State>, fuelLeft': nat, tree': Tree, ghost paths': map<Key, seq<Grid>>,
             visited': set<int>, nodes': int, lowest': int, ghost expanded': seq<State>, ghost trace': seq<Config>)
    requires IsSquare(goal, n)
    requires Passing(start, goal, n, h0, maxLevel, fuel, visited0,
                     Config(stack, tree, paths, visited, nodes, lowest, expanded, threshold), Continue, fuelLeft, trace)
    ensures Passing(start, goal, n, h0, maxLevel, fuel, visited0,
                    Config(stack', tree', paths', visited', nodes', lowest', expanded', threshold), end, fuelLeft', trace')
    ensures !end.Continue? && lowest <= lowest' && trace <= trace'
    ensures Spent(expanded, fuelLeft, expanded', fuelLeft', end)
  {
    end := Continue;
    stack', fuelLeft', tree', paths', visited', nodes', lowest', expanded', trace' :=
      stack, fuelLeft, tree, paths, visited, nodes, lowest, expanded, trace;
    while stack' != [] && end.Continue?
      invariant Passing(start, goal, n, h0, maxLevel, fuel, visited0,
                        Config(stack', tree', paths', visited', nodes', lowest', expanded', threshold), end, fuelLeft', trace')
      invariant lowest <= lowest' && trace <= trace' && !end.StackEmptied?
      invariant Spent(expanded, fuelLeft, expanded', fuelLeft', end)
      decreases fuelLeft', if end.Continue? then 1 else 0
    {
      ghost var expanded1, fuelLeft1 := expanded', fuelLeft';
      end, stack', fuelLeft', tree', paths', visited', nodes', lowest', expanded', trace' :=
        PassStep(goal, n, threshold, start, stack', fuelLeft', tree', paths', visited', nodes', lowest', expanded',
                 h0, maxLevel, fuel, visited0, trace');
      SpentStep(expanded, fuelLeft, expanded1, fuelLeft1, expanded', fuelLeft', end);
    }
    if end.Continue? {
      end := StackEmptied;
    }
  }

  /**
   * One pass of the inner loop of solve_puzzle: start from a stack holding the start
   * state and pop until it is empty or the goal comes off (the first turn is written
   * out before the loop). `fuel` bounds the number of pops; `fuelLeft` is what
   * remains of it. The ghost `rest` is the stack the pass leaves behind.
   */
  method Pass(start: State, goal: State, n: nat, threshold: int, fuel: nat,
              tree: Tree, ghost paths: map<Key, seq<Grid>>, visited: set<int>, nodes: int, lowest: int,
              ghost expanded: seq<State>, ghost h0: int, ghost maxLevel: int, ghost trace: seq<Config>)
    returns (end: PassEnd, fuelLeft: nat, tree': Tree, ghost paths': map<Key, seq<Grid>>, visited': set<int>,
             nodes': int, lowest': int, ghost expanded': seq<State>, ghost rest: seq<State>, ghost trace': seq<Config>)
    requires ValidState(start, n) && IsSquare(goal.grid, n)
    requires Passing(start, goal.grid, n, h0, maxLevel, fuel, visited,
                     Config([start], tree, paths, visited, nodes, lowest, expanded, threshold), Continue, fuel, trace)
    ensures Passing(start, goal.grid, n, h0, maxLevel, fuel, visited,
                    Config(rest, tree', paths', visited', nodes', lowest', expanded', threshold), end, fuelLeft, trace')
    ensures !end.Continue? && lowest <= lowest' && trace <= trace'
    ensures end.FuelOut? || fuelLeft < fuel
    ensures Spent(expanded, fuel, expanded', fuelLeft, end)
    ensures start.grid == goal.grid ==>
              nodes' == nodes && lowest' == lowest && (if fuel == 0 then end.FuelOut? else end.GoalPopped?)
  {
    var stack;
    end, stack, fuelLeft, tree', paths', visited', nodes', lowest', expanded', trace' :=
      PassStep(goal.grid, n, threshold, start, [start], fuel, tree, paths, visited, nodes, lowest, expanded,
               h0, maxLevel, fuel, visited, trace);
    if end.Continue? {
      ghost var expanded1, fuelLeft1 := expanded', fuelLeft;
      end, stack, fuelLeft, tree', paths', visited', nodes', lowest', expanded', trace' :=
        Drain(goal.grid, n, threshold, start, stack, fuelLeft, tree', paths', visited', nodes', lowest', expanded',
              h0, maxLevel, fuel, visited, trace');
      SpentStep(expanded, fuel, expanded1, fuelLeft1, expanded', fuelLeft, end);
    }
    rest := stack;
  }

  /**
   * What holds between turns of the outer loop of solve_puzzle: the record tree's
   * invariant, the node count, the thresholds taken so far with the current one last,
   * how much fuel was spent on pops, and the trace of the run so far.
   */
  ghost predicate Progress(start: State, goal: State, n: nat, h0: int, maxLevel: int, fuel: nat,
                           c: Config, thresholds: seq<int>, end: PassEnd, fuelLeft: nat, noThreshold: bool,
                           trace: seq<Config>)
  {
    && Inv(c.tree, c.paths, start.grid, goal.grid, n, c.lowest) && fuelLeft <= fuel
    && Counted(c.expanded, c.tree, goal.grid, n, c.nodes)
    && Thresholds(thresholds, h0, c.visited)
    && (|thresholds| == 0 ==> end.StackEmptied? && !noThreshold && c.lowest == 0 && fuelLeft == fuel && c.threshold == h0)
    && (|thresholds| > 0 ==> maxLevel >= 0 && c.threshold == thresholds[|thresholds| - 1])
    && (end.GoalPopped? ==> Found(c.tree, c.paths, start.grid, goal.grid, n, end.depth))
    && (start.grid == goal.grid ==> c.nodes == 0 && c.lowest == 0 && !noThreshold && (end.FuelOut? ==> fuel == 0))
    && (start.grid == goal.grid && end.StackEmptied? ==> |thresholds| == 0)
    && |c.expanded| + (if end.GoalPopped? then 1 else 0) == fuel - fuelLeft && (end.FuelOut? ==> fuelLeft == 0)
    && (noThreshold ==> c.visited == {} && c.lowest <= maxLevel)
    && !end.Continue?
    && Traced(start, goal.grid, n, h0, maxLevel, c, end, trace)
  }

  /** Opening a round extends the trace by the configuration holding the new threshold and the start state. */
  lemma OpenRound(start: State, goal: Grid, n: nat, h0: int, maxLevel: int, trace: seq<Config>,
                  c: Config, threshold: int) returns (trace': seq<Config>)
    requires Traced(start, goal, n, h0, maxLevel, c, StackEmptied, trace) && c.lowest <= maxLevel
    requires threshold in c.visited && forall f :: f in c.visited ==> threshold <= f
    ensures trace' == trace + [Config([start], c.tree, c.paths, c.visited - {threshold}, c.nodes, c.lowest,
                                      c.expanded, threshold)]
    ensures Traced(start, goal, n, h0, maxLevel, trace'[|trace|], Continue, trace')
  {
    var c' := Config([start], c.tree, c.paths, c.visited - {threshold}, c.nodes, c.lowest, c.expanded, threshold);
    assert NewRound(start, maxLevel, trace[|trace| - 1], c');
    RunExtend(start, goal, n, maxLevel, trace, c');
    trace' := trace + [c'];
  }

  /** A trace that continues trace + [c] continues trace, with c right after it. */
  lemma ContinuesWith(trace: seq<Config>, c: Config, trace': seq<Config>)
    requires trace + [c] <= trace'
    ensures |trace'| > |trace| && trace <= trace' && trace'[|trace|] == c
  {
    var t1 := trace + [c];
    assert trace'[..|t1|] == t1;
    assert t1[|trace|] == c;
    assert trace'[..|trace|] == t1[..|trace|] == trace;
  }

  /** The stack of a new pass, the start state alone, is recorded. */
  lemma StartStack(start: State, tree: Tree, n: nat)
    requires ValidState(start, n) && KeyOf(start.grid) in tree
    ensures StackOk([start], tree, n)
  {
  }

  /** A pass run under the least kept f-score, from a configuration between rounds, ends in one again. */
  lemma ProgressAfterPass(start: State, goal: State, n: nat, h0: int, maxLevel: int, fuel: nat, c0: Config,
                          thresholds: seq<int>, fuelLeft: nat, trace: seq<Config>,
                          c: Config, end: PassEnd, fuelLeft': nat, trace': seq<Config>)
    requires Progress(start, goal, n, h0, maxLevel, fuel, c0, thresholds, StackEmptied, fuelLeft, false, trace)
    requires c0.lowest <= maxLevel && c.threshold in c0.visited
    requires Passing(start, goal.grid, n, h0, maxLevel, fuelLeft, c0.visited - {c.threshold}, c, end, fuelLeft', trace')
    requires !end.Continue? && Spent(c0.expanded, fuelLeft, c.expanded, fuelLeft', end)
    requires Thresholds(thresholds + [c.threshold], h0, c.visited)
    requires start.grid == goal.grid ==>
               c.nodes == c0.nodes && c.lowest == c0.lowest && (if fuelLeft == 0 then end.FuelOut? else end.GoalPopped?)
    ensures Progress(start, goal, n, h0, maxLevel, fuel, c, thresholds + [c.threshold], end, fuelLeft', false, trace')
  {
    var ts := thresholds + [c.threshold];
    assert ts[|ts| - 1] == c.threshold;
  }

  /**
   * One turn of the outer loop of solve_puzzle: take the least kept f-score as the
   * threshold, remove it from the set, and run a pass from the start state.
   */
  method Round(start: State, goal: State, n: nat, h0: int, ghost maxLevel: int, ghost fuel: nat, fuelLeft: nat,
               tree: Tree, ghost paths: map<Key, seq<Grid>>, visited: set<int>, nodes: int, lowest: int,
               ghost expanded: seq<State>, ghost thresholds: seq<int>, ghost previous: int, ghost trace: seq<Config>)
    returns (end: PassEnd, threshold: int, fuelLeft': nat, tree': Tree, ghost paths': map<Key, seq<Grid>>,
             visited': set<int>, nodes': int, lowest': int, ghost expanded': seq<State>, ghost thresholds': seq<int>,
             ghost rest: seq<State>, ghost trace': seq<Config>)
    requires ValidState(start, n) && IsSquare(goal.grid, n) && visited != {} && lowest <= maxLevel
    requires Progress(start, goal, n, h0, maxLevel, fuel, Config([], tree, paths, visited, nodes, lowest, expanded, previous),
                      thresholds, StackEmptied, fuelLeft, false, trace)
    ensures Progress(start, goal, n, h0, maxLevel, fuel,
                     Config(rest, tree', paths', visited', nodes', lowest', expanded', threshold),
                     thresholds', end, fuelLeft', false, trace')
    ensures threshold in visited && forall f :: f in visited ==> threshold <= f
    ensures thresholds' == thresholds + [threshold] && lowest <= lowest'
    ensures |trace'| > |trace| && trace <= trace'
    ensures trace'[|trace|] == Config([start], tree, paths, visited - {threshold}, nodes, lowest, expanded, threshold)
    ensures KeptAbove(visited - {threshold}, visited', threshold)
    ensures fuelLeft' <= fuelLeft && (end.FuelOut? || fuelLeft' < fuelLeft)
  {
    var least := MinExists(visited);
    threshold :| threshold in visited && forall f :: f in visited ==> threshold <= f;
    RemoveLeast(visited, threshold);
    visited' := visited - {threshold};
    ghost var c := Config([], tree, paths, visited, nodes, lowest, expanded, previous);
    StartStack(start, tree, n);
    ghost var trace1 := OpenRound(start, goal.grid, n, h0, maxLevel, trace, c, threshold);
    end, fuelLeft', tree', paths', visited', nodes', lowest', expanded', rest, trace' :=
      Pass(start, goal, n, threshold, fuelLeft, tree, paths, visited', nodes, lowest, expanded, h0, maxLevel, trace1);
    ContinuesWith(trace, trace1[|trace|], trace');
    NextThreshold(thresholds, h0, visited, threshold, visited');
    thresholds' := thresholds + [threshold];
    ProgressAfterPass(start, goal, n, h0, maxLevel, fuel, c, thresholds, fuelLeft, trace,
                      Config(rest, tree', paths', visited', nodes', lowest', expanded', threshold), end, fuelLeft', trace');
  }

  /**
   * The outer loop of solve_puzzle: run rounds while the last pass emptied its stack,
   * a kept f-score remains and lowest_depth is at most max_level.
   */
  method Search(start: State, goal: State, n: nat, h0: int, maxLevel: int, fuel: nat,
                tree: Tree, ghost paths: map<Key, seq<Grid>>, visited: set<int>, nodes: int, lowest: int,
                ghost expanded: seq<State>, ghost trace: seq<Config>)
    returns (end: PassEnd, fuelLeft: nat, tree': Tree, ghost paths': map<Key, seq<Grid>>, visited': set<int>,
             nodes': int, lowest': int, ghost expanded': seq<State>, ghost thresholds: seq<int>, noThreshold: bool,
             threshold: int, ghost rest: seq<State>, ghost trace': seq<Config>)
    requires ValidState(start, n) && IsSquare(goal.grid, n)
    requires Progress(start, goal, n, h0, maxLevel, fuel, Config([], tree, paths, visited, nodes, lowest, expanded, h0),
                      [], StackEmptied, fuel, false, trace)
    ensures Progress(start, goal, n, h0, maxLevel, fuel,
                     Config(rest, tree', paths', visited', nodes', lowest', expanded', threshold),
                     thresholds, end, fuelLeft, noThreshold, trace')
    ensures end.StackEmptied? && !noThreshold ==> lowest' > maxLevel
  {
    end, noThreshold, fuelLeft, threshold, rest := StackEmptied, false, fuel, h0, [];
    tree', paths', visited', nodes', lowest', expanded', thresholds, trace' :=
      tree, paths, visited, nodes, lowest, expanded, [], trace;
    while end.StackEmptied? && !noThreshold && lowest' <= maxLevel
      invariant Progress(start, goal, n, h0, maxLevel, fuel,
                         Config(rest, tree', paths', visited', nodes', lowest', expanded', threshold),
                         thresholds, end, fuelLeft, noThreshold, trace')
      decreases fuelLeft + (if end.StackEmptied? && !noThreshold then 1 else 0)
    {
      if visited' == {} {
        noThreshold := true;
      } else {
        end, threshold, fuelLeft, tree', paths', visited', nodes', lowest', expanded', thresholds, rest, trace' :=
          Round(start, goal, n, h0, maxLevel, fuel, fuelLeft, tree', paths', visited', nodes', lowest', expanded',
                thresholds, threshold, trace');
      }
    }
  }

  /**
   * How a run ends: the goal was popped; the deepest recorded depth passed max_level;
   * no f-score was left to become the next threshold (`min` of an empty set raises
   * ValueError); or the bound on the number of pops ran out.
   */
  datatype Status = Solved | BudgetExhausted | NoThreshold | OutOfFuel

  /**
   * How the last configuration of a run ends it, with `rest` the stack left behind: the
   * goal is on top and is popped, within the fuel; the stack is empty and lowest_depth
   * is past max_level; the stack is empty, lowest_depth is within max_level and no
   * f-score is kept; or the stack is not empty and every pop the fuel allows was spent.
   */
  ghost predicate Stops(goal: Grid, maxLevel: int, fuel: nat, last: Config, rest: seq<State>, status: Status)
  {
    && (status == Solved ==>
          && last.stack != [] && last.stack[|last.stack| - 1].grid == goal && rest == last.stack[..|last.stack| - 1]
          && |last.expanded| < fuel)
    && (status == BudgetExhausted ==> last.stack == [] && rest == [] && last.lowest > maxLevel)
    && (status == NoThreshold ==> last.stack == [] && rest == [] && last.lowest <= maxLevel && last.visited == {})
    && (status == OutOfFuel ==> last.stack != [] && rest == last.stack && |last.expanded| == fuel)
  }

  /**
   * solve_puzzle with the A* heuristic: the first threshold is the start board's
   * heuristic; while lowest_depth is at most max_level, take the least kept f-score as
   * the threshold and run a pass from the start state. A popped goal ends the search
   * with its recorded depth as the number of moves. The record tree persists across
   * passes. `fuel` bounds the number of pops. The ghost `trace` is the run, from the
   * initial configuration to the last, and `rest` the stack left behind.
   */
  method SolvePuzzle(start: State, goal: State, n: nat, maxLevel: int, fuel: nat)
    returns (solution: int, moves: int, nodes: int, status: Status, tree: Tree, lowest: int,
             ghost paths: map<Key, seq<Grid>>, ghost thresholds: seq<int>, ghost expanded: seq<State>,
             ghost kept: set<int>, ghost trace: seq<Config>, ghost rest: seq<State>)
    requires n > 0 && ValidState(start, n) && IsSquare(goal.grid, n)
    requires Covers(goal.grid, start.grid)
    ensures solution == (if status == Solved then 1 else 0)
    ensures status != Solved ==> moves == 0
    ensures status == Solved ==> Found(tree, paths, start.grid, goal.grid, n, moves)
    ensures status == BudgetExhausted ==> lowest > maxLevel
    ensures Inv(tree, paths, start.grid, goal.grid, n, lowest)
    ensures Counted(expanded, tree, goal.grid, n, nodes)
    ensures Increasing(thresholds)
    ensures |thresholds| > 0 <==> maxLevel >= 0
    ensures |thresholds| > 0 ==> thresholds[0] == Manhattan(start.grid, goal.grid)
    ensures |thresholds| > 0 ==> AllAbove(kept, thresholds[|thresholds| - 1])
    ensures status == OutOfFuel ==> |expanded| == fuel
    ensures status == NoThreshold ==> lowest <= maxLevel && kept == {}
    ensures maxLevel < 0 ==> status == BudgetExhausted && nodes == 0
    ensures start.grid == goal.grid && maxLevel >= 0 && fuel > 0 ==> status == Solved && moves == 0 && nodes == 0
    ensures Run(start, goal.grid, n, maxLevel, trace)
    ensures Initial(start, Manhattan(start.grid, goal.grid), trace[0])
    ensures trace[|trace| - 1] == Config(trace[|trace| - 1].stack, tree, paths, kept, nodes, lowest, expanded,
                                         trace[|trace| - 1].threshold)
    ensures |thresholds| > 0 ==> trace[|trace| - 1].threshold == thresholds[|thresholds| - 1]
    ensures Stops(goal.grid, maxLevel, fuel, trace[|trace| - 1], rest, status)
  {
    var root := start.grid;
    nodes, lowest := 0, 0;
    var h0 := ManhattanDistance(root, goal.grid);
    tree := map[KeyOf(root) := Node(0, None, Some(h0))];
    paths := InitialInv(root, goal.grid, n, h0);
    var visited: set<int> := {h0};
    expanded := [];
    trace := [Config([], tree, paths, visited, nodes, lowest, expanded, h0)];
    var end, noThreshold, fuelLeft, threshold;
    end, fuelLeft, tree, paths, visited, nodes, lowest, expanded, thresholds, noThreshold, threshold, rest, trace :=
      Search(start, goal, n, h0, maxLevel, fuel, tree, paths, visited, nodes, lowest, expanded, trace);
    kept := visited;
    if end.GoalPopped? {
      solution, moves, status := 1, end.depth, Solved;
    } else if end.FuelOut? {
      solution, moves, status := 0, 0, OutOfFuel;
    } else {
      solution, moves := 0, 0;
      status := if noThreshold then NoThreshold else BudgetExhausted;
    }
  }
}
