/**
 * The search tree both engines keep: a dictionary from board keys to records whose
 * parent links lead back to the start board. Both engines write a child's record
 * only after checking that the child's board is not on the current root-to-node
 * path (IDAstar.py:91-109, IDDFS.py:60-70). This module proves that this write
 * keeps every recorded board's parent chain ending at the start board. It also
 * keeps every chain free of repeated boards and made of legal moves. That is what
 * lets get_path terminate.
 */
module SearchTree {
  import opened Common

  ghost predicate NoDup(p: seq<Grid>)
  {
    forall a, b :: 0 <= a < b < |p| ==> p[a] != p[b]
  }

  ghost predicate AllSquare(p: seq<Grid>, n: nat)
  {
    forall i :: 0 <= i < |p| ==> IsSquare(p[i], n)
  }

  /** The board at index i of p is one legal move from the board before it. */
  ghost predicate Step(p: seq<Grid>, i: int, n: nat)
    requires 0 < i < |p|
  {
    IsMove(p[i - 1], p[i], n)
  }

  /** Consecutive boards are one legal move apart. */
  ghost predicate Moves(p: seq<Grid>, n: nat)
  {
    forall i {:trigger Step(p, i, n)} :: 0 < i < |p| ==> Step(p, i, n)
  }

  /** A recorded root path that starts at `root`, never repeats a board, and is made of legal moves on n by n boards. */
  ghost predicate GoodPath(tree: Tree, p: seq<Grid>, root: Grid, n: nat)
  {
    IsPath(tree, p) && p[0] == root && NoDup(p) && AllSquare(p, n) && Moves(p, n)
  }

  /**
   * `paths` names, for every key of the tree, the root path the parent links give it:
   * a good path from the start board ending at a board with that key.
   */
  ghost predicate TreeInv(tree: Tree, paths: map<Key, seq<Grid>>, root: Grid, n: nat)
  {
    && n > 0
    && IsSquare(root, n)
    && KeyOf(root) in tree && tree[KeyOf(root)].parent == None
    && paths.Keys == tree.Keys
    && AllGood(tree, paths, root, n)
  }

  /** Every key of the tree has a good recorded path ending at a board with that key. */
  ghost predicate AllGood(tree: Tree, paths: map<Key, seq<Grid>>, root: Grid, n: nat)
    requires paths.Keys == tree.Keys
  {
    forall k {:trigger paths[k]} :: k in tree ==> GoodPath(tree, paths[k], root, n) && KeyOf(paths[k][|paths[k]| - 1]) == k
  }

  lemma SameKey(a: Grid, b: Grid, n: nat)
    requires IsSquare(a, n) && IsSquare(b, n)
    ensures KeyOf(a) == KeyOf(b) ==> a == b
  {
    if KeyOf(a) == KeyOf(b) {
      KeyInjective(a, b, n);
    }
  }

  /** A board that is not on a path of same-sized boards shares no key with any of them. */
  lemma NotOnPathKeys(p: seq<Grid>, g: Grid, n: nat)
    requires AllSquare(p, n) && IsSquare(g, n) && g !in p
    ensures forall i :: 0 <= i < |p| ==> KeyOf(p[i]) != KeyOf(g)
  {
    forall i | 0 <= i < |p|
      ensures KeyOf(p[i]) != KeyOf(g)
    {
      SameKey(p[i], g, n);
    }
  }

  /** A square board recorded in the tree is the last board of its recorded path. */
  lemma PathEndsAt(tree: Tree, paths: map<Key, seq<Grid>>, root: Grid, n: nat, g: Grid)
    requires TreeInv(tree, paths, root, n) && IsSquare(g, n) && KeyOf(g) in tree
    ensures GoodPath(tree, paths[KeyOf(g)], root, n)
    ensures paths[KeyOf(g)][|paths[KeyOf(g)]| - 1] == g
  {
    var p := paths[KeyOf(g)];
    SameKey(p[|p| - 1], g, n);
  }

  /** Two trees with good root paths give a key present in both the same last board. */
  lemma LastByKey(t1: Tree, p1: map<Key, seq<Grid>>, t2: Tree, p2: map<Key, seq<Grid>>, root: Grid, n: nat, k: Key)
    requires TreeInv(t1, p1, root, n) && TreeInv(t2, p2, root, n) && k in t1 && k in t2
    ensures |p1[k]| > 0 && |p2[k]| > 0 && p1[k][|p1[k]| - 1] == p2[k][|p2[k]| - 1]
  {
    var a, b := p1[k], p2[k];
    assert GoodPath(t1, a, root, n) && KeyOf(a[|a| - 1]) == k;
    assert GoodPath(t2, b, root, n) && KeyOf(b[|b| - 1]) == k;
    SameKey(a[|a| - 1], b[|b| - 1], n);
  }

  /** Two recorded paths that share a board agree up to it. */
  lemma SharedBoard(tree: Tree, pc: seq<Grid>, p: seq<Grid>, a: int, b: int)
    requires IsPath(tree, pc) && IsPath(tree, p)
    requires 0 <= a < |pc| && 0 <= b < |p|
    ensures pc[a] == p[b] ==> a == b && forall m :: 0 <= m <= a ==> pc[m] == p[m]
  {
    if pc[a] == p[b] {
      assert IsPath(tree, pc[..a + 1]);
      assert IsPath(tree, p[..b + 1]);
      PathUnique(tree, pc[..a + 1], p[..b + 1]);
      forall m | 0 <= m <= a
        ensures pc[m] == p[m]
      {
        assert pc[m] == pc[..a + 1][m];
        assert p[m] == p[..b + 1][m];
      }
    }
  }

  lemma SpliceNoDup(pc: seq<Grid>, child: Grid, s: seq<Grid>)
    requires NoDup(pc) && NoDup(s) && child !in pc && child !in s
    requires forall a, b :: 0 <= a < |pc| && 0 <= b < |s| ==> pc[a] != s[b]
    ensures NoDup(pc + [child] + s)
  {
    var q := pc + [child] + s;
    var m := |pc|;
    forall a, b | 0 <= a < b < |q|
      ensures q[a] != q[b]
    {
      if b < m {
        assert q[a] == pc[a] && q[b] == pc[b];
      } else if b == m {
        assert q[b] == child && q[a] == pc[a];
      } else if a < m {
        assert q[a] == pc[a] && q[b] == s[b - m - 1];
      } else if a == m {
        assert q[a] == child && q[b] == s[b - m - 1];
      } else {
        assert q[a] == s[a - m - 1] && q[b] == s[b - m - 1];
      }
    }
  }

  lemma SpliceSquare(pc: seq<Grid>, child: Grid, s: seq<Grid>, n: nat)
    requires AllSquare(pc, n) && IsSquare(child, n) && AllSquare(s, n)
    ensures AllSquare(pc + [child] + s, n)
  {
    var q := pc + [child] + s;
    var m := |pc|;
    forall i | 0 <= i < |q|
      ensures IsSquare(q[i], n)
    {
      if i < m {
        assert q[i] == pc[i];
      } else if i > m {
        assert q[i] == s[i - m - 1];
      }
    }
  }

  /** Every board of s has a record, the first one's parent is prev, each other's parent is the board before it. */
  ghost predicate Linked(tree: Tree, s: seq<Grid>, prev: Grid)
  {
    && (forall i :: 0 <= i < |s| ==> KeyOf(s[i]) in tree && s[i] != [])
    && (|s| > 0 ==> tree[KeyOf(s[0])].parent == Some(prev))
    && forall i :: 0 < i < |s| ==> tree[KeyOf(s[i])].parent == Some(s[i - 1])
  }

  /** A recorded path followed by boards linked to its last board is a recorded path. */
  lemma PathConcat(tree: Tree, x: seq<Grid>, s: seq<Grid>)
    requires IsPath(tree, x) && Linked(tree, s, x[|x| - 1])
    ensures IsPath(tree, x + s)
  {
    var q := x + s;
    var m := |x|;
    forall i | 0 <= i < |q|
      ensures KeyOf(q[i]) in tree && q[i] != []
    {
      if i < m {
        assert q[i] == x[i];
      } else {
        assert q[i] == s[i - m];
      }
    }
    forall i | 0 < i < |q|
      ensures tree[KeyOf(q[i])].parent == Some(q[i - 1])
    {
      if i < m {
        assert q[i] == x[i] && q[i - 1] == x[i - 1];
      } else if i == m {
        assert q[i] == s[0] && q[i - 1] == x[m - 1];
      } else {
        assert q[i] == s[i - m] && q[i - 1] == s[i - m - 1];
      }
    }
    assert q[0] == x[0];
  }

  /** Overwriting a record whose key is not on a path keeps the path recorded. */
  lemma PathFrame(tree: Tree, x: seq<Grid>, k: Key, node: Node)
    requires IsPath(tree, x) && forall i :: 0 <= i < |x| ==> KeyOf(x[i]) != k
    ensures IsPath(tree[k := node], x)
  {
  }

  /** Overwriting a record whose key is not among linked boards keeps them linked. */
  lemma LinkedFrame(tree: Tree, s: seq<Grid>, prev: Grid, k: Key, node: Node)
    requires Linked(tree, s, prev) && forall i :: 0 <= i < |s| ==> KeyOf(s[i]) != k
    ensures Linked(tree[k := node], s, prev)
  {
  }

  /** Two move sequences joined by one legal move form a move sequence. */
  lemma MovesConcat(x: seq<Grid>, s: seq<Grid>, n: nat)
    requires Moves(x, n) && Moves(s, n)
    requires |x| > 0 && |s| > 0 ==> IsMove(x[|x| - 1], s[0], n)
    ensures Moves(x + s, n)
  {
    var q := x + s;
    var m := |x|;
    forall i | 0 < i < |q|
      ensures Step(q, i, n)
    {
      if i < m {
        assert Step(x, i, n);
        assert q[i] == x[i] && q[i - 1] == x[i - 1];
      } else if i == m {
        assert q[i] == s[0] && q[i - 1] == x[m - 1];
      } else {
        assert Step(s, i - m, n);
        assert q[i] == s[i - m] && q[i - 1] == s[i - m - 1];
      }
    }
  }

  /** The recorded part of splicing: `pc + [child] + s` is recorded once the child's record points at the end of `pc`. */
  lemma SpliceLinks(tree: Tree, pc: seq<Grid>, child: Grid, s: seq<Grid>, node: Node)
    requires IsPath(tree, pc) && child != []
    requires node.parent == Some(pc[|pc| - 1])
    requires forall i :: 0 <= i < |pc| ==> KeyOf(pc[i]) != KeyOf(child)
    requires Linked(tree, s, child) && forall i :: 0 <= i < |s| ==> KeyOf(s[i]) != KeyOf(child)
    ensures IsPath(tree[KeyOf(child) := node], pc + [child] + s)
  {
    var t := tree[KeyOf(child) := node];
    PathFrame(tree, pc, KeyOf(child), node);
    assert Linked(t, [child], pc[|pc| - 1]);
    PathConcat(t, pc, [child]);
    LinkedFrame(tree, s, child, KeyOf(child), node);
    var x := pc + [child];
    assert x[|x| - 1] == child;
    PathConcat(t, x, s);
  }

  /** The path `pc + [child] + s` is good once the child's record points at the end of `pc`. */
  lemma Splice(tree: Tree, root: Grid, n: nat, pc: seq<Grid>, child: Grid, s: seq<Grid>, node: Node)
    requires GoodPath(tree, pc, root, n) && n > 0
    requires IsSquare(child, n) && child !in pc && IsMove(pc[|pc| - 1], child, n)
    requires node.parent == Some(pc[|pc| - 1])
    requires forall i :: 0 <= i < |pc| ==> KeyOf(pc[i]) != KeyOf(child)
    requires Linked(tree, s, child) && forall i :: 0 <= i < |s| ==> KeyOf(s[i]) != KeyOf(child)
    requires AllSquare(s, n) && Moves(s, n) && (|s| > 0 ==> IsMove(child, s[0], n))
    requires NoDup(s) && child !in s
    requires forall a, b :: 0 <= a < |pc| && 0 <= b < |s| ==> pc[a] != s[b]
    ensures GoodPath(tree[KeyOf(child) := node], pc + [child] + s, root, n)
  {
    assert child != [] by {
      assert |child| == n;
    }
    SpliceLinks(tree, pc, child, s, node);
    MovesConcat(pc, [child], n);
    var x := pc + [child];
    assert x[|x| - 1] == child;
    MovesConcat(x, s, n);
    SpliceSquare(pc, child, s, n);
    SpliceNoDup(pc, child, s);
    assert (pc + [child] + s)[0] == pc[0];
  }

  /** The recorded path of a board after `child` is recorded under the parent path `pc`. */
  ghost function Reroute(p: seq<Grid>, child: Grid, pc: seq<Grid>): seq<Grid>
  {
    if child in p then pc + [child] + p[IndexOf(p, child) + 1..] else p
  }

  /** The boards after index j of a recorded path are linked to the board at j. */
  lemma SuffixLinked(tree: Tree, p: seq<Grid>, j: int)
    requires IsPath(tree, p) && 0 <= j < |p| - 1
    ensures Linked(tree, p[j + 1..], p[j])
  {
    var s := p[j + 1..];
    forall i | 0 <= i < |s|
      ensures KeyOf(s[i]) in tree && s[i] != []
    {
      assert s[i] == p[j + 1 + i];
    }
    forall i | 0 < i < |s|
      ensures tree[KeyOf(s[i])].parent == Some(s[i - 1])
    {
      assert s[i] == p[j + 1 + i] && s[i - 1] == p[j + i];
    }
    assert s[0] == p[j + 1];
  }

  /** The boards after index j of a move sequence form a move sequence one move from the board at j. */
  lemma SuffixMoves(p: seq<Grid>, j: int, n: nat)
    requires Moves(p, n) && 0 <= j < |p| - 1
    ensures Moves(p[j + 1..], n) && IsMove(p[j], p[j + 1], n)
  {
    var s := p[j + 1..];
    forall i | 0 < i < |s|
      ensures Step(s, i, n)
    {
      assert Step(p, j + 1 + i, n);
      assert s[i] == p[j + 1 + i] && s[i - 1] == p[j + i];
    }
    assert Step(p, j + 1, n);
  }

  /** The boards after the child on a good path, with the facts splicing them needs. */
  lemma SuffixAfter(tree: Tree, root: Grid, n: nat, p: seq<Grid>, pc: seq<Grid>, child: Grid, j: int)
    requires GoodPath(tree, p, root, n) && IsPath(tree, pc) && child !in pc && IsSquare(child, n)
    requires 0 <= j < |p| - 1 && p[j] == child
    ensures var s := p[j + 1..];
            && Linked(tree, s, child) && (forall i :: 0 <= i < |s| ==> KeyOf(s[i]) != KeyOf(child))
            && AllSquare(s, n) && Moves(s, n) && NoDup(s) && child !in s && IsMove(child, s[0], n)
            && (forall a, b :: 0 <= a < |pc| && 0 <= b < |s| ==> pc[a] != s[b])
  {
    var s := p[j + 1..];
    forall b | 0 <= b < |s|
      ensures s[b] != child && IsSquare(s[b], n)
    {
      assert s[b] == p[j + 1 + b];
    }
    NotOnPathKeys(s, child, n);
    forall a, b | 0 <= a < |pc| && 0 <= b < |s|
      ensures pc[a] != s[b]
    {
      SharedBoard(tree, pc, p, a, j + 1 + b);
    }
    forall a, b | 0 <= a < b < |s|
      ensures s[a] != s[b]
    {
      assert s[a] == p[j + 1 + a] && s[b] == p[j + 1 + b];
    }
    SuffixLinked(tree, p, j);
    SuffixMoves(p, j, n);
    assert s[0] == p[j + 1];
  }

  /** A path through the child is rerouted through the child's new record. */
  lemma RerouteThrough(tree: Tree, root: Grid, n: nat, p: seq<Grid>, pc: seq<Grid>, child: Grid, node: Node, j: int)
    requires n > 0 && GoodPath(tree, p, root, n) && GoodPath(tree, pc, root, n)
    requires IsSquare(child, n) && child !in pc && IsMove(pc[|pc| - 1], child, n)
    requires node.parent == Some(pc[|pc| - 1])
    requires 0 <= j < |p| - 1 && p[j] == child
    ensures GoodPath(tree[KeyOf(child) := node], pc + [child] + p[j + 1..], root, n)
  {
    NotOnPathKeys(pc, child, n);
    SuffixAfter(tree, root, n, p, pc, child, j);
    Splice(tree, root, n, pc, child, p[j + 1..], node);
  }

  /** One key's path stays good when `child` is recorded under `pc`. */
  lemma RerouteKeepsPath(tree: Tree, root: Grid, n: nat, p: seq<Grid>, pc: seq<Grid>, child: Grid, node: Node)
    requires n > 0 && GoodPath(tree, p, root, n) && GoodPath(tree, pc, root, n)
    requires IsSquare(child, n) && child !in pc && IsMove(pc[|pc| - 1], child, n)
    requires node.parent == Some(pc[|pc| - 1])
    requires KeyOf(p[|p| - 1]) != KeyOf(child)
    ensures GoodPath(tree[KeyOf(child) := node], Reroute(p, child, pc), root, n)
    ensures var q := Reroute(p, child, pc); q[|q| - 1] == p[|p| - 1]
  {
    if child !in p {
      NotOnPathKeys(p, child, n);
      PathFrame(tree, p, KeyOf(child), node);
    } else {
      var j := IndexOf(p, child);
      assert j < |p| - 1;
      RerouteThrough(tree, root, n, p, pc, child, node, j);
      var q := pc + [child] + p[j + 1..];
      assert q[|q| - 1] == p[|p| - 1];
    }
  }

  /** The recorded path of key k once `child` is recorded under `pc`. */
  ghost function NewPath(paths: map<Key, seq<Grid>>, pc: seq<Grid>, child: Grid, k: Key): seq<Grid>
    requires k in paths || k == KeyOf(child)
  {
    if k == KeyOf(child) then pc + [child] else Reroute(paths[k], child, pc)
  }

  /**
   * The situation in which both engines write a child's record: the tree keeps its
   * invariant, pc is the recorded path of the parent, the child's board is one move
   * from the parent and not on pc, and the new record points at the parent.
   */
  ghost predicate Recordable(tree: Tree, paths: map<Key, seq<Grid>>, root: Grid, n: nat,
                             pc: seq<Grid>, child: Grid, node: Node)
  {
    && TreeInv(tree, paths, root, n)
    && |pc| > 0 && KeyOf(pc[|pc| - 1]) in tree && paths[KeyOf(pc[|pc| - 1])] == pc
    && IsSquare(child, n) && child !in pc && IsMove(pc[|pc| - 1], child, n)
    && node.parent == Some(pc[|pc| - 1])
  }

  lemma NewPathGood(tree: Tree, paths: map<Key, seq<Grid>>, root: Grid, n: nat,
                    pc: seq<Grid>, child: Grid, node: Node, k: Key)
    requires Recordable(tree, paths, root, n, pc, child, node)
    requires k in tree || k == KeyOf(child)
    ensures var q := NewPath(paths, pc, child, k);
            GoodPath(tree[KeyOf(child) := node], q, root, n) && KeyOf(q[|q| - 1]) == k
  {
    assert GoodPath(tree, pc, root, n);
    if k == KeyOf(child) {
      NotOnPathKeys(pc, child, n);
      Splice(tree, root, n, pc, child, [], node);
      assert pc + [child] + [] == pc + [child];
    } else {
      assert GoodPath(tree, paths[k], root, n) && KeyOf(paths[k][|paths[k]| - 1]) == k;
      RerouteKeepsPath(tree, root, n, paths[k], pc, child, node);
    }
  }

  /** The recorded paths once `child` is recorded under `pc`, for every key of `keys`. */
  ghost function NewPaths(paths: map<Key, seq<Grid>>, pc: seq<Grid>, child: Grid, keys: set<Key>): map<Key, seq<Grid>>
    requires forall k :: k in keys ==> k in paths || k == KeyOf(child)
  {
    map k | k in keys :: NewPath(paths, pc, child, k)
  }

  lemma NewPathsGood(tree: Tree, paths: map<Key, seq<Grid>>, root: Grid, n: nat,
                     pc: seq<Grid>, child: Grid, node: Node)
    requires Recordable(tree, paths, root, n, pc, child, node)
    ensures var t := tree[KeyOf(child) := node];
            var paths' := NewPaths(paths, pc, child, t.Keys);
            paths'.Keys == t.Keys && AllGood(t, paths', root, n)
  {
    var t := tree[KeyOf(child) := node];
    var paths' := NewPaths(paths, pc, child, t.Keys);
    forall k | k in t
      ensures GoodPath(t, paths'[k], root, n) && KeyOf(paths'[k][|paths'[k]| - 1]) == k
    {
      NewPathGood(tree, paths, root, n, pc, child, node, k);
    }
  }

  lemma NewPathsInv(tree: Tree, paths: map<Key, seq<Grid>>, root: Grid, n: nat,
                    pc: seq<Grid>, child: Grid, node: Node)
    requires Recordable(tree, paths, root, n, pc, child, node)
    requires KeyOf(child) != KeyOf(root)
    ensures var t := tree[KeyOf(child) := node];
            TreeInv(t, NewPaths(paths, pc, child, t.Keys), root, n)
  {
    NewPathsGood(tree, paths, root, n, pc, child, node);
    var t := tree[KeyOf(child) := node];
    assert t[KeyOf(root)] == tree[KeyOf(root)];
  }

  lemma NewPathsKeep(tree: Tree, paths: map<Key, seq<Grid>>, root: Grid, n: nat,
                     pc: seq<Grid>, child: Grid, node: Node)
    requires TreeInv(tree, paths, root, n) && IsSquare(child, n)
    ensures var t := tree[KeyOf(child) := node];
            forall k :: k in tree && child !in paths[k] ==> NewPaths(paths, pc, child, t.Keys)[k] == paths[k]
  {
    var t := tree[KeyOf(child) := node];
    var paths' := NewPaths(paths, pc, child, t.Keys);
    var k0 := KeyOf(child);
    if k0 in tree {
      PathEndsAt(tree, paths, root, n, child);
      assert child in paths[k0];
    }
    forall k | k in tree && child !in paths[k]
      ensures paths'[k] == paths[k]
    {
      assert k != k0;
      assert Reroute(paths[k], child, pc) == paths[k];
    }
  }

  lemma ChildKeyFresh(tree: Tree, paths: map<Key, seq<Grid>>, root: Grid, n: nat,
                      pc: seq<Grid>, child: Grid)
    requires TreeInv(tree, paths, root, n)
    requires |pc| > 0 && KeyOf(pc[|pc| - 1]) in tree && paths[KeyOf(pc[|pc| - 1])] == pc
    requires IsSquare(child, n) && child !in pc
    ensures forall g :: g in pc ==> KeyOf(g) != KeyOf(child)
    ensures KeyOf(child) != KeyOf(root)
  {
    assert GoodPath(tree, pc, root, n);
    NotOnPathKeys(pc, child, n);
    assert pc[0] == root;
    forall g | g in pc
      ensures KeyOf(g) != KeyOf(child)
    {
      var i :| 0 <= i < |pc| && pc[i] == g;
    }
  }

  /**
   * Recording `child`, whose board is not on the path `pc` of its parent, with a
   * record that points at the parent: every recorded key keeps a good root path
   * (the paths that went through the child's old record now go through its new
   * one), the child's path is `pc` followed by the child, paths that did not
   * contain the child are unchanged, and the start board's record is not touched.
   */
  lemma RecordChild(tree: Tree, paths: map<Key, seq<Grid>>, root: Grid, n: nat,
                    pc: seq<Grid>, child: Grid, node: Node) returns (paths': map<Key, seq<Grid>>)
    requires TreeInv(tree, paths, root, n)
    requires |pc| > 0 && KeyOf(pc[|pc| - 1]) in tree && paths[KeyOf(pc[|pc| - 1])] == pc
    requires IsSquare(child, n) && child !in pc && IsMove(pc[|pc| - 1], child, n)
    requires node.parent == Some(pc[|pc| - 1])
    ensures TreeInv(tree[KeyOf(child) := node], paths', root, n)
    ensures paths'[KeyOf(child)] == pc + [child]
    ensures forall k :: k in tree && child !in paths[k] ==> paths'[k] == paths[k]
    ensures forall g :: g in pc ==> KeyOf(g) != KeyOf(child)
    ensures KeyOf(child) != KeyOf(root)
  {
    var t := tree[KeyOf(child) := node];
    ChildKeyFresh(tree, paths, root, n, pc, child);
    paths' := NewPaths(paths, pc, child, t.Keys);
    NewPathsInv(tree, paths, root, n, pc, child, node);
    NewPathsKeep(tree, paths, root, n, pc, child, node);
    assert paths'[KeyOf(child)] == NewPath(paths, pc, child, KeyOf(child));
  }

  /** Every state on the stack is valid and has a record in the tree. */
  ghost predicate StackOk(stack: seq<State>, tree: Tree, n: nat)
  {
    forall i :: 0 <= i < |stack| ==> ValidState(stack[i], n) && KeyOf(stack[i].grid) in tree
  }

  /** Growing the tree and pushing a recorded valid state keeps the stack recorded. */
  lemma StackStep(stack: seq<State>, tree: Tree, stack': seq<State>, tree': Tree, next: State, n: nat)
    requires StackOk(stack, tree, n) && tree.Keys <= tree'.Keys
    requires stack' == stack || (stack' == stack + [next] && ValidState(next, n) && KeyOf(next.grid) in tree')
    ensures StackOk(stack', tree', n)
  {
    forall i | 0 <= i < |stack'|
      ensures ValidState(stack'[i], n) && KeyOf(stack'[i].grid) in tree'
    {
      if i < |stack| {
        assert stack'[i] == stack[i];
      }
    }
  }

  /** Popping the top of a recorded stack leaves a recorded stack and a recorded valid state. */
  lemma StackPop(stack: seq<State>, tree: Tree, n: nat)
    requires StackOk(stack, tree, n) && |stack| > 0
    ensures StackOk(stack[..|stack| - 1], tree, n)
    ensures ValidState(stack[|stack| - 1], n) && KeyOf(stack[|stack| - 1].grid) in tree
  {
    var rest := stack[..|stack| - 1];
    forall i | 0 <= i < |rest|
      ensures ValidState(rest[i], n) && KeyOf(rest[i].grid) in tree
    {
      assert rest[i] == stack[i];
    }
  }

  // ---------------------------------------------------------------------------
  // Facts about records that both engines keep
  // ---------------------------------------------------------------------------

  /** Every recorded board holds the start board's tiles. */
  ghost predicate SameTiles(tree: Tree, root: Grid)
  {
    forall k :: k in tree ==> multiset(k) == multiset(KeyOf(root))
  }

  /** The start board's record aside, every recorded depth lies between 1 and `lowest` (lowest_depth). */
  ghost predicate DepthsBelow(tree: Tree, root: Grid, lowest: int)
  {
    forall k :: k in tree && k != KeyOf(root) ==> 1 <= tree[k].depth <= lowest
  }

  lemma TilesRecord(tree: Tree, root: Grid, child: Grid, node: Node)
    requires SameTiles(tree, root) && multiset(KeyOf(child)) == multiset(KeyOf(root))
    ensures SameTiles(tree[KeyOf(child) := node], root)
  {
  }

  lemma DepthsRecord(tree: Tree, root: Grid, lowest: int, child: Grid, node: Node)
    requires DepthsBelow(tree, root, lowest) && 1 <= node.depth <= lowest
    ensures DepthsBelow(tree[KeyOf(child) := node], root, lowest)
  {
  }

  /** path is the recorded root path of the board of cur. */
  ghost predicate PathOf(tree: Tree, paths: map<Key, seq<Grid>>, cur: State, path: seq<Grid>)
  {
    |path| > 0 && path[|path| - 1] == cur.grid && KeyOf(cur.grid) in tree && KeyOf(cur.grid) in paths
    && paths[KeyOf(cur.grid)] == path
  }

  /** next is a valid state one legal move from cur, with the same tiles. */
  ghost predicate ChildOf(cur: State, next: State, n: nat)
  {
    ValidState(next, n) && IsMove(cur.grid, next.grid, n) && multiset(KeyOf(next.grid)) == multiset(KeyOf(cur.grid))
  }

  /**
   * The goal's record: its recorded root path is a good path from the start board to
   * the goal board, `moves` is its recorded depth, and that depth is 0 exactly when
   * the start board is the goal board.
   */
  ghost predicate Found(tree: Tree, paths: map<Key, seq<Grid>>, start: Grid, goal: Grid, n: nat, moves: int)
  {
    && KeyOf(goal) in tree && KeyOf(goal) in paths
    && moves == tree[KeyOf(goal)].depth
    && GoodPath(tree, paths[KeyOf(goal)], start, n)
    && paths[KeyOf(goal)][|paths[KeyOf(goal)]| - 1] == goal
    && (moves == 0 <==> start == goal)
  }

  // ---------------------------------------------------------------------------
  // The children a pop visits: those whose boards are off the current root path
  // ---------------------------------------------------------------------------

  /** The first k states of xs whose boards are not on path, in order. */
  function Keep(xs: seq<State>, k: int, path: seq<Grid>): seq<State>
    requires 0 <= k <= |xs|
  {
    if k == 0 then []
    else Keep(xs, k - 1, path) + (if xs[k - 1].grid in path then [] else [xs[k - 1]])
  }

  /**
   * Keep is exactly the filter: it holds at most k states, and a state is in it
   * exactly when it is among the first k of xs and its board is off the path.
   */
  lemma {:induction false} KeepExactly(xs: seq<State>, k: int, path: seq<Grid>)
    requires 0 <= k <= |xs|
    ensures |Keep(xs, k, path)| <= k
    ensures forall c :: c in Keep(xs, k, path) <==> c in xs[..k] && c.grid !in path
  {
    if k > 0 {
      KeepExactly(xs, k - 1, path);
      assert xs[..k] == xs[..k - 1] + [xs[k - 1]];
    }
  }

  /** lowest_depth after the writes: raised to `depth` if anything was written and it is deeper. */
  function Deeper(lowest: int, cs: seq<State>, depth: int): int
  {
    if cs != [] && depth > lowest then depth else lowest
  }
}
