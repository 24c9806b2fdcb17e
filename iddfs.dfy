/**
 * solve_puzzle of IDDFS.py: one depth-first search from the start state over an
 * explicit stack. Before each pop it stops once lowest_depth (the deepest depth
 * recorded so far) exceeds max_level. A popped goal ends the search. Any other
 * popped state is expanded: every child whose board is not on the popped board's
 * root path is counted, pushed, and recorded one level below the popped board.
 */
module IDDFS {
  import opened Common
  import opened SearchTree

  /**
   * How a run ends: the goal was popped; lowest_depth passed max_level before a pop;
   * the stack ran empty; or the bound on the number of pops ran out. Continue is what
   * one turn of the loop reports when the loop goes on; a finished run never does.
   */
  datatype Status = Solved | BudgetExhausted | StackEmpty | OutOfFuel | Continue

  /**
   * The IDDFS tree: root paths as SearchTree.TreeInv states them; every recorded board
   * holds the start board's tiles; the start board has depth 0 and every other board a
   * depth between 1 and `lowest` (lowest_depth).
   */
  ghost predicate Inv(tree: Tree, paths: map<Key, seq<Grid>>, root: Grid, n: nat, lowest: int)
  {
    && TreeInv(tree, paths, root, n)
    && 0 <= lowest
    && tree[KeyOf(root)].depth == 0
    && SameTiles(tree, root)
    && DepthsBelow(tree, root, lowest)
  }

  lemma InvRaise(tree: Tree, paths: map<Key, seq<Grid>>, root: Grid, n: nat, lowest: int, lowest': int)
    requires Inv(tree, paths, root, n, lowest) && lowest <= lowest'
    ensures Inv(tree, paths, root, n, lowest')
  {
    assert DepthsBelow(tree, root, lowest');
  }

  /** The initial tree: the start board alone, at depth 0, with no parent. */
  lemma InitialInv(start: Grid, n: nat) returns (paths: map<Key, seq<Grid>>)
    requires n > 0 && IsSquare(start, n)
    ensures Inv(map[KeyOf(start) := Node(0, None, None)], paths, start, n, 0)
  {
    var tree := map[KeyOf(start) := Node(0, None, None)];
    paths := map[KeyOf(start) := [start]];
    var p := [start];
    assert IsPath(tree, p);
    assert GoodPath(tree, p, start, n);
  }

  /** Recording a child that is not on its parent's path, one level below the parent, keeps Inv and the parent's path. */
  lemma RecordPlainChild(tree: Tree, paths: map<Key, seq<Grid>>, root: Grid, n: nat, lowest: int,
                         cur: State, path: seq<Grid>, next: State, node: Node) returns (paths': map<Key, seq<Grid>>)
    requires Inv(tree, paths, root, n, lowest) && PathOf(tree, paths, cur, path) && ChildOf(cur, next, n)
    requires next.grid !in path && node.parent == Some(cur.grid) && 1 <= node.depth <= lowest
    ensures Inv(tree[KeyOf(next.grid) := node], paths', root, n, lowest)
    ensures PathOf(tree[KeyOf(next.grid) := node], paths', cur, path)
    ensures KeyOf(next.grid) != KeyOf(cur.grid)
  {
    var child := next.grid;
    var t := tree[KeyOf(child) := node];
    paths' := RecordChild(tree, paths, root, n, path, child, node);
    assert path[|path| - 1] == cur.grid;
    assert (path + [child])[|path + [child]| - 1] == child;
    assert multiset(KeyOf(child)) == multiset(KeyOf(root)) by {
      assert multiset(KeyOf(cur.grid)) == multiset(KeyOf(root));
    }
    TilesRecord(tree, root, child, node);
    DepthsRecord(tree, root, lowest, child, node);
    assert t[KeyOf(root)] == tree[KeyOf(root)];
  }

  /** Considering the state at index t extends the kept states by it exactly when its board is off the path. */
  lemma KeepPush(xs: seq<State>, path: seq<Grid>, t: int, base: seq<State>, before: seq<State>, after: seq<State>)
    requires 0 <= t < |xs| && before == base + Keep(xs, t, path)
    requires xs[t].grid in path ==> after == before
    requires xs[t].grid !in path ==> after == before + [xs[t]]
    ensures after == base + Keep(xs, t + 1, path)
  {
  }

  /** The record IDDFS writes for a child of cur: one level below cur's recorded depth, with cur's board as parent. */
  function ChildRecord(tree: Tree, cur: State): (r: Node)
    requires KeyOf(cur.grid) in tree
    ensures r.parent.Some? && KeyOf(r.parent.value) == KeyOf(cur.grid)
    ensures r.depth == tree[KeyOf(r.parent.value)].depth + 1 && r.fScore.None?
  {
    Node(tree[KeyOf(cur.grid)].depth + 1, Some(cur.grid), None)
  }

  /**
   * One child inside the loop over move(): when its board is not on the current path,
   * count it, push it, raise lowest_depth to its depth if needed, and record it one
   * level below the current board. A child on the path changes nothing.
   */
  method ConsiderChild(cur: State, next: State, path: seq<Grid>, n: nat, root: Grid,
                       tree: Tree, ghost paths: map<Key, seq<Grid>>, stack: seq<State>, nodes: int, lowest: int)
    returns (tree': Tree, ghost paths': map<Key, seq<Grid>>, stack': seq<State>, nodes': int, lowest': int)
    requires Inv(tree, paths, root, n, lowest) && PathOf(tree, paths, cur, path) && ChildOf(cur, next, n)
    ensures Inv(tree', paths', root, n, lowest') && PathOf(tree', paths', cur, path)
    ensures tree.Keys <= tree'.Keys && lowest <= lowest'
    ensures next.grid in path ==> tree' == tree && stack' == stack && nodes' == nodes && lowest' == lowest
    ensures next.grid !in path ==>
              && stack' == stack + [next] && nodes' == nodes + 1
              && tree' == tree[KeyOf(next.grid) := ChildRecord(tree, cur)]
              && lowest' == (if ChildRecord(tree, cur).depth > lowest then ChildRecord(tree, cur).depth else lowest)
              && KeyOf(next.grid) != KeyOf(cur.grid)
  {
    tree', paths', stack', nodes', lowest' := tree, paths, stack, nodes, lowest;
    if next.grid !in path {
      nodes' := nodes + 1;
      stack' := stack + [next];
      var node := ChildRecord(tree, cur);
      if node.depth > lowest' {
        lowest' := node.depth;
      }
      InvRaise(tree, paths, root, n, lowest, lowest');
      tree' := tree[KeyOf(next.grid) := node];
      paths' := RecordPlainChild(tree, paths, root, n, lowest', cur, path, next, node);
    }
  }

  /** Some state of cs has a board with key k. */
  predicate Writes(cs: seq<State>, k: Key)
  {
    exists i :: 0 <= i < |cs| && KeyOf(cs[i].grid) == k
  }

  /** tree after writing `node` under the board of every state of cs, in order. */
  function Recorded(tree: Tree, cs: seq<State>, node: Node): Tree
  {
    if cs == [] then tree else Recorded(tree, cs[..|cs| - 1], node)[KeyOf(cs[|cs| - 1].grid) := node]
  }

  /**
   * Looking a key up after the writes: the key is present exactly when it was before
   * or some state of cs has it, and then its record is `node` if some state of cs has
   * it and the old record otherwise.
   */
  lemma {:induction false} RecordedAt(tree: Tree, cs: seq<State>, node: Node, k: Key)
    ensures k in Recorded(tree, cs, node) <==> k in tree || Writes(cs, k)
    ensures k in Recorded(tree, cs, node) ==> Recorded(tree, cs, node)[k] == if Writes(cs, k) then node else tree[k]
  {
    if cs != [] {
      var init := cs[..|cs| - 1];
      RecordedAt(tree, init, node, k);
      if Writes(init, k) {
        var i :| 0 <= i < |init| && KeyOf(init[i].grid) == k;
        assert cs[i] == init[i];
      }
      if Writes(cs, k) && KeyOf(cs[|cs| - 1].grid) != k {
        var i :| 0 <= i < |cs| && KeyOf(cs[i].grid) == k;
        assert init[i] == cs[i];
      }
    }
  }

  /**
   * After t children: the tree is the old tree with each pushed child recorded one
   * level below cur, cur's own record is unchanged, and lowest_depth is raised to
   * that level if anything was pushed.
   */
  ghost predicate Written(children: seq<State>, t: int, path: seq<Grid>, cur: State,
                          tree0: Tree, lowest0: int, tree: Tree, lowest: int)
    requires 0 <= t <= |children|
  {
    && KeyOf(cur.grid) in tree0 && KeyOf(cur.grid) in tree && tree[KeyOf(cur.grid)] == tree0[KeyOf(cur.grid)]
    && tree == Recorded(tree0, Keep(children, t, path), ChildRecord(tree0, cur))
    && lowest == Deeper(lowest0, Keep(children, t, path), ChildRecord(tree0, cur).depth)
  }

  lemma WrittenNone(children: seq<State>, path: seq<Grid>, cur: State, tree0: Tree, lowest0: int)
    requires KeyOf(cur.grid) in tree0
    ensures Written(children, 0, path, cur, tree0, lowest0, tree0, lowest0)
  {
  }

  /** Considering child t extends the writes by its record exactly when its board is off the path. */
  lemma WrittenStep(children: seq<State>, t: int, path: seq<Grid>, cur: State, tree0: Tree, lowest0: int,
                    tree: Tree, lowest: int, tree': Tree, lowest': int)
    requires 0 <= t < |children| && Written(children, t, path, cur, tree0, lowest0, tree, lowest)
    requires children[t].grid in path ==> tree' == tree && lowest' == lowest
    requires children[t].grid !in path ==>
               && KeyOf(children[t].grid) != KeyOf(cur.grid)
               && tree' == tree[KeyOf(children[t].grid) := ChildRecord(tree0, cur)]
               && lowest' == (if ChildRecord(tree0, cur).depth > lowest then ChildRecord(tree0, cur).depth else lowest)
    ensures Written(children, t + 1, path, cur, tree0, lowest0, tree', lowest')
  {
    var kept := Keep(children, t, path);
    if children[t].grid !in path {
      var kept' := kept + [children[t]];
      assert Keep(children, t + 1, path) == kept';
      assert kept'[..|kept'| - 1] == kept;
      assert Recorded(tree0, kept', ChildRecord(tree0, cur))
          == Recorded(tree0, kept, ChildRecord(tree0, cur))[KeyOf(children[t].grid) := ChildRecord(tree0, cur)];
    } else {
      assert Keep(children, t + 1, path) == kept + [] == kept;
    }
  }

  /** The tree keeps Inv, path is cur's recorded root path, and the stack is recorded. */
  ghost predicate Ready(tree: Tree, paths: map<Key, seq<Grid>>, root: Grid, n: nat, lowest: int,
                        cur: State, path: seq<Grid>, stack: seq<State>)
  {
    Inv(tree, paths, root, n, lowest) && PathOf(tree, paths, cur, path) && StackOk(stack, tree, n)
  }

  /** After t children, the stack is base followed by those of them off the path, and nodes counts them. */
  ghost predicate Pushed(children: seq<State>, t: int, path: seq<Grid>,
                         base: seq<State>, nodes0: int, stack: seq<State>, nodes: int)
  {
    0 <= t <= |children| && stack == base + Keep(children, t, path) && |stack| == |base| + (nodes - nodes0)
  }

  lemma PushedNone(children: seq<State>, path: seq<Grid>, base: seq<State>, nodes0: int)
    ensures Pushed(children, 0, path, base, nodes0, base, nodes0)
  {
    assert base + [] == base;
  }

  /**
   * One turn of the loop over move(): consider the child for destination t. The
   * pushed states so far stay exactly the children off the path among the first
   * t + 1 destinations.
   */
  method Visit(cur: State, children: seq<State>, t: int, path: seq<Grid>, n: nat, root: Grid,
               ghost base: seq<State>, ghost nodes0: int, ghost tree0: Tree, ghost lowest0: int,
               tree: Tree, ghost paths: map<Key, seq<Grid>>, stack: seq<State>, nodes: int, lowest: int)
    returns (tree': Tree, ghost paths': map<Key, seq<Grid>>, stack': seq<State>, nodes': int, lowest': int)
    requires Ready(tree, paths, root, n, lowest, cur, path, stack)
    requires ValidState(cur, n) && children == Children(cur) && 0 <= t < |children|
    requires Pushed(children, t, path, base, nodes0, stack, nodes)
    requires Written(children, t, path, cur, tree0, lowest0, tree, lowest)
    ensures Ready(tree', paths', root, n, lowest', cur, path, stack')
    ensures tree.Keys <= tree'.Keys && lowest <= lowest'
    ensures Pushed(children, t + 1, path, base, nodes0, stack', nodes')
    ensures Written(children, t + 1, path, cur, tree0, lowest0, tree', lowest')
  {
    var next := children[t];
    ChildIsMove(cur, n, MoveBlank(cur.row, cur.col, n)[t]);
    tree', paths', stack', nodes', lowest' := ConsiderChild(cur, next, path, n, root, tree, paths, stack, nodes, lowest);
    StackStep(stack, tree, stack', tree', next, n);
    KeepPush(children, path, t, base, stack, stack');
    assert ChildRecord(tree, cur) == ChildRecord(tree0, cur);
    WrittenStep(children, t, path, cur, tree0, lowest0, tree, lowest, tree', lowest');
  }

  /**
   * The body of the loop after a non-goal pop: rebuild the current board's path, then
   * consider every child. The stack grows by exactly the children off that path, in
   * move() order, and `nodes` by their number.
   */
  method Expand(cur: State, n: nat, root: Grid, tree: Tree, ghost paths: map<Key, seq<Grid>>,
                stack: seq<State>, nodes: int, lowest: int)
    returns (tree': Tree, ghost paths': map<Key, seq<Grid>>, stack': seq<State>, nodes': int, lowest': int)
    requires Inv(tree, paths, root, n, lowest) && StackOk(stack, tree, n)
    requires ValidState(cur, n) && KeyOf(cur.grid) in tree
    ensures Inv(tree', paths', root, n, lowest') && StackOk(stack', tree', n)
    ensures tree.Keys <= tree'.Keys && lowest <= lowest'
    ensures var pushed := Keep(Children(cur), |Children(cur)|, paths[KeyOf(cur.grid)]);
            && stack' == stack + pushed && nodes' == nodes + |pushed|
            && tree' == Recorded(tree, pushed, ChildRecord(tree, cur))
            && lowest' == Deeper(lowest, pushed, ChildRecord(tree, cur).depth)
  {
    PathEndsAt(tree, paths, root, n, cur.grid);
    var path := GetPath(cur.grid, tree);
    assert path == paths[KeyOf(cur.grid)];
    var children := Move(cur);
    tree', paths', stack', nodes', lowest' := tree, paths, stack, nodes, lowest;
    PushedNone(children, path, stack, nodes);
    WrittenNone(children, path, cur, tree, lowest);
    var t := 0;
    while t < |children|
      invariant 0 <= t <= |children|
      invariant Ready(tree', paths', root, n, lowest', cur, path, stack')
      invariant tree.Keys <= tree'.Keys && lowest <= lowest'
      invariant Pushed(children, t, path, stack, nodes, stack', nodes')
      invariant Written(children, t, path, cur, tree, lowest, tree', lowest')
    {
      tree', paths', stack', nodes', lowest' :=
        Visit(cur, children, t, path, n, root, stack, nodes, tree, lowest, tree', paths', stack', nodes', lowest');
      t := t + 1;
    }
  }

  /** `moves` is the number of expanded states, each of them valid, not the goal, and recorded. */
  ghost predicate Tally(expanded: seq<State>, tree: Tree, goal: Grid, n: nat, moves: int)
  {
    && moves == |expanded|
    && forall i :: 0 <= i < |expanded| ==>
         ValidState(expanded[i], n) && expanded[i].grid != goal && KeyOf(expanded[i].grid) in tree
  }

  lemma TallyStep(expanded: seq<State>, tree: Tree, tree': Tree, goal: Grid, n: nat, moves: int, cur: State)
    requires Tally(expanded, tree, goal, n, moves) && tree.Keys <= tree'.Keys
    requires ValidState(cur, n) && cur.grid != goal && KeyOf(cur.grid) in tree'
    ensures Tally(expanded + [cur], tree', goal, n, moves + 1)
  {
    var xs := expanded + [cur];
    forall i | 0 <= i < |xs|
      ensures ValidState(xs[i], n) && xs[i].grid != goal && KeyOf(xs[i].grid) in tree'
    {
      if i < |expanded| {
        assert xs[i] == expanded[i];
      }
    }
  }

  /** The goal popped from the stack: it has a good recorded root path, and depth 0 only when it is the start board. */
  lemma FoundGoal(tree: Tree, paths: map<Key, seq<Grid>>, start: Grid, goal: Grid, n: nat, lowest: int)
    requires Inv(tree, paths, start, n, lowest) && IsSquare(goal, n) && KeyOf(goal) in tree
    ensures Found(tree, paths, start, goal, n, tree[KeyOf(goal)].depth)
  {
    PathEndsAt(tree, paths, start, n, goal);
    SameKey(start, goal, n);
  }

  /** What the loop of solve_puzzle holds between turns, with the ghost root paths of the tree. */
  datatype Config = Config(stack: seq<State>, tree: Tree, paths: map<Key, seq<Grid>>, lowest: int, moves: int, nodes: int)

  /**
   * A pop of a state other than the goal: the stack loses its top and gains the top's
   * children off its root path, in move() order; each of them is recorded one level
   * below the top; lowest_depth rises to that level if anything was pushed; `moves`
   * counts the pop and `nodes` the pushed children.
   */
  ghost predicate Expands(goal: Grid, c: Config, c': Config)
  {
    && c.stack != []
    && var cur := c.stack[|c.stack| - 1];
       && cur.grid != goal && WellFormed(cur, |cur.grid|)
       && KeyOf(cur.grid) in c.tree && KeyOf(cur.grid) in c.paths
       && var pushed := Keep(Children(cur), |Children(cur)|, c.paths[KeyOf(cur.grid)]);
          && c'.stack == c.stack[..|c.stack| - 1] + pushed
          && c'.tree == Recorded(c.tree, pushed, ChildRecord(c.tree, cur))
          && c'.lowest == Deeper(c.lowest, pushed, ChildRecord(c.tree, cur).depth)
          && c'.moves == c.moves + 1 && c'.nodes == c.nodes + |pushed|
  }

  /**
   * One pop: if the popped state is the goal, report it with nothing else changed;
   * otherwise count a move and expand it. The stack loses its top and gains the
   * children off the top's root path.
   */
  method Pop(goal: State, n: nat, root: Grid, stack: seq<State>, tree: Tree, ghost paths: map<Key, seq<Grid>>,
             moves: int, nodes: int, lowest: int, ghost expanded: seq<State>)
    returns (found: bool, stack': seq<State>, tree': Tree, ghost paths': map<Key, seq<Grid>>,
             moves': int, nodes': int, lowest': int, ghost expanded': seq<State>)
    requires Inv(tree, paths, root, n, lowest) && StackOk(stack, tree, n) && |stack| > 0 && IsSquare(goal.grid, n)
    requires Tally(expanded, tree, goal.grid, n, moves)
    ensures Inv(tree', paths', root, n, lowest') && StackOk(stack', tree', n) && lowest <= lowest'
    ensures Tally(expanded', tree', goal.grid, n, moves')
    ensures found <==> stack[|stack| - 1].grid == goal.grid
    ensures found ==> && stack' == stack[..|stack| - 1] && tree' == tree && paths' == paths
                      && moves' == moves && nodes' == nodes && lowest' == lowest && expanded' == expanded
                      && KeyOf(goal.grid) in tree' && Found(tree', paths', root, goal.grid, n, tree'[KeyOf(goal.grid)].depth)
    ensures !found ==> && nodes <= nodes' <= nodes + 4 && expanded' == expanded + [stack[|stack| - 1]]
                       && Expands(goal.grid, Config(stack, tree, paths, lowest, moves, nodes),
                                             Config(stack', tree', paths', lowest', moves', nodes'))
  {
    StackPop(stack, tree, n);
    var cur := stack[|stack| - 1];
    stack' := stack[..|stack| - 1];
    if CheckState(cur, goal) {
      found := true;
      FoundGoal(tree, paths, root, goal.grid, n, lowest);
      tree', paths', moves', nodes', lowest', expanded' := tree, paths, moves, nodes, lowest, expanded;
    } else {
      found := false;
      moves' := moves + 1;
      tree', paths', stack', nodes', lowest' := Expand(cur, n, root, tree, paths, stack', nodes, lowest);
      KeepExactly(Children(cur), |Children(cur)|, paths[KeyOf(cur.grid)]);
      TallyStep(expanded, tree, tree', goal.grid, n, moves, cur);
      expanded' := expanded + [cur];
    }
  }

  /**
   * What each way of ending says: a solved run has reached the goal along a good recorded
   * root path; the cutoff fires only once lowest_depth exceeds max_level; a solved run and
   * a run out of fuel had not passed it.
   */
  ghost predicate Outcome(tree: Tree, paths: map<Key, seq<Grid>>, start: Grid, goal: Grid, n: nat,
                          maxLevel: int, lowest: int, status: Status)
  {
    && (status == Solved ==> KeyOf(goal) in tree && Found(tree, paths, start, goal, n, tree[KeyOf(goal)].depth))
    && (status == BudgetExhausted ==> lowest > maxLevel)
    && (status == Solved || status == OutOfFuel ==> lowest <= maxLevel)
  }

  /** One turn of the loop that goes on: lowest_depth is within max_level and the pop expands. */
  ghost predicate Advance(goal: Grid, maxLevel: int, c: Config, c': Config)
  {
    c.lowest <= maxLevel && Expands(goal, c, c')
  }

  /**
   * A run so far: its last configuration keeps Inv and, unless it is the first, follows
   * by Advance from the one before, which ends a run itself.
   */
  ghost predicate Run(root: Grid, n: nat, goal: Grid, maxLevel: int, trace: seq<Config>)
    decreases |trace|
  {
    && |trace| > 0
    && Inv(trace[|trace| - 1].tree, trace[|trace| - 1].paths, root, n, trace[|trace| - 1].lowest)
    && (|trace| > 1 ==>
          && Run(root, n, goal, maxLevel, trace[..|trace| - 1])
          && Advance(goal, maxLevel, trace[|trace| - 2], trace[|trace| - 1]))
  }

  lemma RunExtend(root: Grid, n: nat, goal: Grid, maxLevel: int, trace: seq<Config>, c: Config)
    requires Run(root, n, goal, maxLevel, trace) && Advance(goal, maxLevel, trace[|trace| - 1], c)
    requires Inv(c.tree, c.paths, root, n, c.lowest)
    ensures Run(root, n, goal, maxLevel, trace + [c])
  {
    var t := trace + [c];
    assert t[..|t| - 1] == trace;
  }

  /**
   * How the last configuration of a run ends it, with `rest` the stack left behind:
   * a goal on top is popped and solves the puzzle; lowest_depth above max_level stops
   * the loop before a pop; an empty stack ends the loop; spent fuel stops it before a
   * pop with lowest_depth still within max_level.
   */
  ghost predicate Stops(goal: Grid, maxLevel: int, last: Config, rest: seq<State>, status: Status)
  {
    && (status == Solved ==>
          && last.stack != [] && last.lowest <= maxLevel
          && last.stack[|last.stack| - 1].grid == goal && rest == last.stack[..|last.stack| - 1])
    && (status == BudgetExhausted ==> last.stack != [] && last.lowest > maxLevel && rest == last.stack)
    && (status == StackEmpty ==> last.stack == [] && rest == [])
    && (status == OutOfFuel ==> last.stack != [] && last.lowest <= maxLevel && rest == last.stack)
    && status != Continue
  }

  /**
   * One turn of the loop of solve_puzzle: stop once lowest_depth exceeds max_level;
   * otherwise spend one pop, if any is left, and stop when the goal comes off. A turn
   * that pops anything else is one Advance step and reports Continue.
   */
  method Turn(goal: State, n: nat, start: State, maxLevel: int, ghost fuel: nat, stack: seq<State>, fuelLeft: nat,
              tree: Tree, ghost paths: map<Key, seq<Grid>>, moves: int, nodes: int, lowest: int,
              ghost expanded: seq<State>)
    returns (status: Status, stack': seq<State>, fuelLeft': nat, tree': Tree, ghost paths': map<Key, seq<Grid>>,
             moves': int, nodes': int, lowest': int, ghost expanded': seq<State>)
    requires |stack| > 0 && IsSquare(goal.grid, n)
    requires Counted(start, goal.grid, n, maxLevel, fuel, stack, fuelLeft, tree, paths, moves, nodes, lowest, expanded, Continue)
    ensures Counted(start, goal.grid, n, maxLevel, fuel, stack', fuelLeft', tree', paths', moves', nodes', lowest', expanded', status)
    ensures |stack'| + moves' + (if status == Solved then 1 else 0) == |stack| + moves + (nodes' - nodes)
    ensures nodes <= nodes' <= nodes + 4 * (moves' - moves)
    ensures fuelLeft - fuelLeft' == (moves' - moves) + (if status == Solved then 1 else 0)
    ensures status != Continue ==>
              tree' == tree && paths' == paths && moves' == moves && nodes' == nodes && lowest' == lowest
    ensures lowest > maxLevel ==> status == BudgetExhausted && stack' == stack && fuelLeft' == fuelLeft
    ensures lowest <= maxLevel && fuelLeft == 0 ==> status == OutOfFuel && stack' == stack && fuelLeft' == 0
    ensures lowest <= maxLevel && fuelLeft > 0 ==>
              && fuelLeft' == fuelLeft - 1
              && (status == Solved <==> stack[|stack| - 1].grid == goal.grid)
              && (status == Solved ==> stack' == stack[..|stack| - 1])
              && (status != Solved ==>
                    && status == Continue && expanded' == expanded + [stack[|stack| - 1]]
                    && Advance(goal.grid, maxLevel, Config(stack, tree, paths, lowest, moves, nodes),
                                                    Config(stack', tree', paths', lowest', moves', nodes')))
    ensures status != Continue ==> Stops(goal.grid, maxLevel, Config(stack, tree, paths, lowest, moves, nodes), stack', status)
  {
    status := Continue;
    stack', fuelLeft', tree', paths', moves', nodes', lowest', expanded' :=
      stack, fuelLeft, tree, paths, moves, nodes, lowest, expanded;
    ghost var c := Config(stack, tree, paths, lowest, moves, nodes);
    if lowest > maxLevel {
      status := BudgetExhausted;
      assert Stops(goal.grid, maxLevel, c, stack', status);
    } else if fuelLeft == 0 {
      status := OutOfFuel;
      assert Stops(goal.grid, maxLevel, c, stack', status);
    } else {
      fuelLeft' := fuelLeft - 1;
      var found;
      found, stack', tree', paths', moves', nodes', lowest', expanded' :=
        Pop(goal, n, start.grid, stack, tree, paths, moves, nodes, lowest, expanded);
      if found {
        status := Solved;
        assert Stops(goal.grid, maxLevel, c, stack', status);
      }
    }
  }

  /**
   * What holds between turns of the loop of solve_puzzle, the run's trace aside: the
   * tree keeps Inv and the stack is recorded; `moves` counts the expanded states and,
   * with the stack, the pushed children; the spent fuel is the number of pops. A start
   * board equal to the goal board, with a pop to spend, is solved by the first pop.
   */
  ghost predicate Counted(start: State, goal: Grid, n: nat, maxLevel: int, fuel: nat,
                          stack: seq<State>, fuelLeft: nat, tree: Tree, paths: map<Key, seq<Grid>>,
                          moves: int, nodes: int, lowest: int, expanded: seq<State>, status: Status)
  {
    && Inv(tree, paths, start.grid, n, lowest) && StackOk(stack, tree, n)
    && Tally(expanded, tree, goal, n, moves)
    && Outcome(tree, paths, start.grid, goal, n, maxLevel, lowest, status)
    && |stack| + moves + (if status == Solved then 1 else 0) == nodes + 1
    && nodes <= 4 * moves
    && (maxLevel < 0 ==> moves == 0 && nodes == 0 && (status != Continue ==> status == BudgetExhausted))
    && moves + (if status == Solved then 1 else 0) == fuel - fuelLeft && (status == OutOfFuel ==> fuelLeft == 0)
    && (start.grid == goal && maxLevel >= 0 && fuel > 0 ==>
          && moves == 0 && nodes == 0 && lowest == 0 && (status != Continue ==> status == Solved)
          && (status == Continue ==> stack == [start] && fuelLeft == fuel))
  }

  /**
   * The run's trace between turns: it starts from the start state alone and ends at the
   * current configuration; a stopped loop says how that configuration ended it.
   */
  ghost predicate Traced(start: State, goal: Grid, n: nat, maxLevel: int, stack: seq<State>, tree: Tree,
                         paths: map<Key, seq<Grid>>, moves: int, nodes: int, lowest: int, status: Status,
                         trace: seq<Config>)
  {
    && Run(start.grid, n, goal, maxLevel, trace)
    && trace[0] == Config([start], map[KeyOf(start.grid) := Node(0, None, None)], trace[0].paths, 0, 0, 0)
    && trace[|trace| - 1] == Config(trace[|trace| - 1].stack, tree, paths, lowest, moves, nodes)
    && (status == Continue ==> trace[|trace| - 1].stack == stack)
    && (status != Continue ==> Stops(goal, maxLevel, trace[|trace| - 1], stack, status))
  }

  /** A turn extends the trace by its Advance step when the loop goes on, and ends it otherwise. */
  lemma TracedStep(start: State, goal: Grid, n: nat, maxLevel: int, trace: seq<Config>,
                   c: Config, c': Config, status: Status) returns (trace': seq<Config>)
    requires Traced(start, goal, n, maxLevel, c.stack, c.tree, c.paths, c.moves, c.nodes, c.lowest, Continue, trace)
    requires status == Continue ==> Advance(goal, maxLevel, c, c') && Inv(c'.tree, c'.paths, start.grid, n, c'.lowest)
    requires status != Continue ==>
               && c'.tree == c.tree && c'.paths == c.paths && c'.lowest == c.lowest
               && c'.moves == c.moves && c'.nodes == c.nodes && Stops(goal, maxLevel, c, c'.stack, status)
    ensures Traced(start, goal, n, maxLevel, c'.stack, c'.tree, c'.paths, c'.moves, c'.nodes, c'.lowest, status, trace')
  {
    assert trace[|trace| - 1] == c;
    if status == Continue {
      RunExtend(start.grid, n, goal, maxLevel, trace, c');
      trace' := trace + [c'];
    } else {
      trace' := trace;
    }
  }

  /** The loop of solve_puzzle, from the state after the start state is pushed until it stops. */
  method Search(start: State, goal: State, n: nat, maxLevel: int, fuel: nat,
                stack: seq<State>, fuelLeft: nat, tree: Tree, ghost paths: map<Key, seq<Grid>>,
                moves: int, nodes: int, lowest: int, ghost expanded: seq<State>, status: Status,
                ghost trace: seq<Config>)
    returns (stack': seq<State>, fuelLeft': nat, tree': Tree, ghost paths': map<Key, seq<Grid>>,
             moves': int, nodes': int, lowest': int, ghost expanded': seq<State>, status': Status,
             ghost trace': seq<Config>)
    requires IsSquare(goal.grid, n)
    requires Counted(start, goal.grid, n, maxLevel, fuel, stack, fuelLeft, tree, paths, moves, nodes, lowest, expanded, status)
    requires Traced(start, goal.grid, n, maxLevel, stack, tree, paths, moves, nodes, lowest, status, trace)
    ensures Counted(start, goal.grid, n, maxLevel, fuel, stack', fuelLeft', tree', paths', moves', nodes', lowest', expanded', status')
    ensures Traced(start, goal.grid, n, maxLevel, stack', tree', paths', moves', nodes', lowest', status', trace')
    ensures stack' == [] || status' != Continue
  {
    stack', fuelLeft', tree', paths', moves', nodes', lowest', expanded', status', trace' :=
      stack, fuelLeft, tree, paths, moves, nodes, lowest, expanded, status, trace;
    while stack' != [] && status' == Continue
      invariant Counted(start, goal.grid, n, maxLevel, fuel, stack', fuelLeft', tree', paths', moves', nodes', lowest', expanded', status')
      invariant Traced(start, goal.grid, n, maxLevel, stack', tree', paths', moves', nodes', lowest', status', trace')
      decreases fuelLeft' + (if status' == Continue then 1 else 0)
    {
      ghost var before := Config(stack', tree', paths', lowest', moves', nodes');
      status', stack', fuelLeft', tree', paths', moves', nodes', lowest', expanded' :=
        Turn(goal, n, start, maxLevel, fuel, stack', fuelLeft', tree', paths', moves', nodes', lowest', expanded');
      trace' := TracedStep(start, goal.grid, n, maxLevel, trace', before,
                           Config(stack', tree', paths', lowest', moves', nodes'), status');
    }
  }

  /**
   * solve_puzzle: push the start state; while the stack is not empty, stop once
   * lowest_depth exceeds max_level, otherwise pop. A popped goal solves the puzzle.
   * `moves` counts the expanded states and `nodes` the pushed children. `fuel`
   * bounds the number of pops. The ghost `trace` lists the configuration before each
   * turn that went on, starting from the start state alone; the outputs are its last
   * configuration, and `rest` is the stack the run leaves.
   */
  method SolvePuzzle(start: State, goal: State, n: nat, maxLevel: int, fuel: nat)
    returns (solution: int, moves: int, nodes: int, status: Status, tree: Tree, lowest: int,
             ghost paths: map<Key, seq<Grid>>, ghost expanded: seq<State>,
             ghost trace: seq<Config>, ghost rest: seq<State>)
    requires n > 0 && ValidState(start, n) && IsSquare(goal.grid, n)
    ensures solution == (if status == Solved then 1 else 0)
    ensures Outcome(tree, paths, start.grid, goal.grid, n, maxLevel, lowest, status)
    ensures Inv(tree, paths, start.grid, n, lowest)
    ensures Tally(expanded, tree, goal.grid, n, moves)
    ensures nodes <= 4 * moves && moves <= nodes + 1
    ensures status == StackEmpty ==> moves == nodes + 1
    ensures status == OutOfFuel ==> moves == fuel
    ensures status == Solved ==> moves < fuel
    ensures maxLevel < 0 ==> status == BudgetExhausted && moves == 0 && nodes == 0
    ensures start.grid == goal.grid && maxLevel >= 0 && fuel > 0 ==> status == Solved && moves == 0 && nodes == 0
    ensures Run(start.grid, n, goal.grid, maxLevel, trace)
    ensures trace[0] == Config([start], map[KeyOf(start.grid) := Node(0, None, None)], trace[0].paths, 0, 0, 0)
    ensures trace[|trace| - 1] == Config(trace[|trace| - 1].stack, tree, paths, lowest, moves, nodes)
    ensures Stops(goal.grid, maxLevel, trace[|trace| - 1], rest, status)
  {
    var root := start.grid;
    tree := map[KeyOf(root) := Node(0, None, None)];
    paths := InitialInv(root, n);
    var stack := [start];
    moves, nodes, lowest := 0, 0, 0;
    expanded := [];
    trace := [Config(stack, tree, paths, lowest, moves, nodes)];
    status := Continue;
    var fuelLeft: nat := fuel;
    assert StackOk(stack, tree, n);
    stack, fuelLeft, tree, paths, moves, nodes, lowest, expanded, status, trace :=
      Search(start, goal, n, maxLevel, fuel, stack, fuel, tree, paths, moves, nodes, lowest, expanded, status, trace);
    if status == Continue {
      status := StackEmpty;
    }
    rest := stack;
    solution := if status == Solved then 1 else 0;
  }
}
