/// The pointer walks that both versions of the tree perform over the cells of a linked tree.
module Walks {
  import opened Outcomes
  import opened Cells
  import opened Trees
  import opened Descent
  import opened Updates
  import opened Breadth
  import opened Links

  /**
   * Walks down from `root`, going left while the cell's key is greater than
   * `value` and right while it is smaller, remembering the last cell visited;
   * then hangs a fresh leaf holding `value` on that cell's left link if its
   * key is greater and on its right link otherwise. `leaf` names the new cell.
   */
  method InsertLeaf(root: Node, value: int, ghost t: Tree) returns (ghost leaf: Node)
    requires Linked(t) && Root(t) == root && IsBST(t) && value !in Values(t)
    modifies Nodes(t)
    ensures fresh(leaf) && Linked(Insert(t, value, leaf))
    ensures forall n :: n in Nodes(t) && old(allocated(n)) && n != ParentOf(t, value) ==> unchanged(n)
    ensures ParentOf(t, value).value == old(ParentOf(t, value).value)
    ensures ParentOf(t, value).value > value ==>
      && old(ParentOf(t, value).left) == null
      && ParentOf(t, value).left == leaf
      && ParentOf(t, value).right == old(ParentOf(t, value).right)
    ensures ParentOf(t, value).value <= value ==>
      && old(ParentOf(t, value).right) == null
      && ParentOf(t, value).right == leaf
      && ParentOf(t, value).left == old(ParentOf(t, value).left)
  {
    var node: Node? := root;
    var parentNode := root;
    ghost var sub := t;
    while node != null
      modifies {}
      invariant node == Root(sub) && Linked(sub) && value !in Values(sub)
      invariant sub.Branch? ==> ParentOf(t, value) == ParentOf(sub, value)
      invariant sub.Empty? ==> parentNode == ParentOf(t, value)
      decreases sub
    {
      parentNode := node;
      if node.value > value {
        node := node.left;
        sub := sub.left;
      } else if node.value < value {
        node := node.right;
        sub := sub.right;
      }
    }
    ParentIn(t, value);
    ParentSlotEmpty(t, value);
    LinkedDistinct(t);
    NodesExisted(t);
    var newNode := new Node(value);
    if parentNode.value > value {
      parentNode.left := newNode;
    } else {
      parentNode.right := newNode;
    }
    leaf := newNode;
    InsertLinked(t, value, Branch(Empty, leaf, value, Empty));
  }

  /**
   * Counts the links followed from `root` to the cell holding `value`, with
   * the same left/right choice as the insertion walk; `KeyNotFound` when the
   * walk falls off the tree.
   */
  method DepthTo(root: Node, value: int, ghost t: Tree) returns (r: Outcome<nat>)
    requires Linked(t) && Root(t) == root
    ensures r == DepthOf(t, value)
    ensures IsBST(t) ==> (r.KeyNotFound? <==> value !in Values(t))
    ensures IsBST(t) && r.Ok? ==> value in Level(t, r.value)
  {
    if IsBST(t) {
      DepthFound(t, value);
    }
    var node: Node? := root;
    var height := 0;
    ghost var sub := t;
    while node != null && node.value != value
      invariant node == Root(sub) && Linked(sub)
      invariant DepthOf(t, value) == Deeper(DepthOf(sub, value), height)
      decreases sub
    {
      if node.value > value {
        node := node.left;
        sub := sub.left;
      } else if node.value < value {
        node := node.right;
        sub := sub.right;
      }
      height := height + 1;
    }
    if node == null {
      return KeyNotFound;
    }
    if IsBST(t) {
      DepthIsLevel(t, value, height);
    }
    return Ok(height);
  }

  /** Walks down as `DepthTo` does and returns the cell holding `value` itself. */
  method Locate(root: Node, value: int, ghost t: Tree) returns (r: Outcome<Node>)
    requires Linked(t) && Root(t) == root
    ensures r.KeyNotFound? <==> Find(t, value).Empty?
    ensures r.Ok? ==> r.value == Find(t, value).node && r.value.value == value
    ensures r.Ok? ==> r.value in Nodes(t) && Linked(Find(t, value))
    ensures IsBST(t) ==> (r.KeyNotFound? <==> value !in Values(t))
  {
    if IsBST(t) {
      FindFound(t, value);
    }
    FindIsSubtree(t, value);
    var node: Node? := root;
    ghost var sub := t;
    while node != null && node.value != value
      invariant node == Root(sub) && Linked(sub)
      invariant Find(t, value) == Find(sub, value)
      decreases sub
    {
      if node.value > value {
        node := node.left;
        sub := sub.left;
      } else if node.value < value {
        node := node.right;
        sub := sub.right;
      }
    }
    if node == null {
      return KeyNotFound;
    }
    return Ok(node);
  }

  /** Follows right links from `root` to the end and returns the key of the last cell. */
  method RightmostValue(root: Node, ghost t: Tree) returns (m: int)
    requires Linked(t) && Root(t) == root
    ensures m == Rightmost(t) && m in Values(t)
    ensures IsBST(t) ==> forall x :: x in Values(t) ==> x <= m
  {
    var node: Node? := root;
    var found: Option<int> := None;
    ghost var sub := t;
    while node != null
      invariant node == Root(sub) && Linked(sub)
      invariant sub.Branch? ==> Rightmost(sub) == Rightmost(t)
      invariant sub.Empty? ==> found == Some(Rightmost(t))
      decreases sub
    {
      if node.right == null {
        found := Some(node.value);
      }
      node := node.right;
      sub := sub.right;
    }
    m := found.value;
  }

  /** Follows left links from `root` to the end and returns the key of the last cell. */
  method LeftmostValue(root: Node, ghost t: Tree) returns (m: int)
    requires Linked(t) && Root(t) == root
    ensures m == Leftmost(t) && m in Values(t)
    ensures IsBST(t) ==> forall x :: x in Values(t) ==> m <= x
  {
    var node: Node? := root;
    var found: Option<int> := None;
    ghost var sub := t;
    while node != null
      invariant node == Root(sub) && Linked(sub)
      invariant sub.Branch? ==> Leftmost(sub) == Leftmost(t)
      invariant sub.Empty? ==> found == Some(Leftmost(t))
      decreases sub
    {
      if node.left == null {
        found := Some(node.value);
      }
      node := node.left;
      sub := sub.left;
    }
    m := found.value;
  }

  /** The queue of cells holds the root cells of the queued subtrees of `t`, in order. */
  ghost predicate Queued(queue: seq<Node>, pending: seq<Tree>, t: Tree) {
    && |queue| == |pending|
    && (|queue| > 0 ==>
      && pending[0].Branch? && queue[0] == pending[0].node && IsSubtree(pending[0], t)
      && Queued(queue[1..], pending[1..], t))
  }

  lemma {:induction false} QueuedAppend(a: seq<Node>, s: seq<Tree>, b: seq<Node>, u: seq<Tree>, t: Tree)
    requires Queued(a, s, t) && Queued(b, u, t)
    ensures Queued(a + b, s + u, t)
    decreases |a|
  {
    if |a| == 0 {
      assert a + b == b && s + u == u;
    } else {
      assert (a + b)[1..] == a[1..] + b && (s + u)[1..] == s[1..] + u;
      QueuedAppend(a[1..], s[1..], b, u, t);
    }
  }

  lemma {:induction false} CellsAllocated(t: Tree)
    ensures forall n :: n in Nodes(t) ==> allocated(n)
  {
    match t
    case Empty =>
    case Branch(l, _, _, r) =>
      CellsAllocated(l);
      CellsAllocated(r);
  }

  /** The children of `node` to be queued after it: its left child, then its right child, each when present. */
  method ChildCells(node: Node, ghost head: Tree, ghost t: Tree) returns (cells: seq<Node>)
    requires Linked(head) && head.Branch? && head.node == node && IsSubtree(head, t)
    ensures Queued(cells, Children(head), t)
  {
    SubtreeChildren(head, t);
    cells := [];
    ghost var trees: seq<Tree> := [];
    if node.left != null {
      cells := cells + [node.left];
      trees := trees + [head.left];
      assert Queued(cells, trees, t);
    }
    if node.right != null {
      assert Queued([node.right], [head.right], t);
      QueuedAppend(cells, trees, [node.right], [head.right], t);
      cells := cells + [node.right];
      trees := trees + [head.right];
    }
    assert trees == Children(head);
  }

  /**
   * Breadth-first walk with a first-in first-out queue of cells: take the
   * first cell, emit its key, queue its left child and then its right child
   * when they exist. Returns the keys in the order they are emitted.
   */
  method BreadthFirst(root: Node, ghost t: Tree) returns (visited: seq<int>)
    requires Linked(t) && Root(t) == root
    ensures visited == LevelOrder(t)
    ensures multiset(visited) == Elems(t)
  {
    var queue: seq<Node> := [root];
    ghost var pending: seq<Tree> := [t];
    visited := [];
    ProgressStart(t);
    CellsAllocated(t);
    while |queue| > 0
      invariant Linked(t) && Queued(queue, pending, t) && Progress(t, visited, pending)
      invariant forall n :: n in Nodes(t) ==> allocated(n)
      decreases |ForestElems(pending)|
    {
      ghost var head, rest := pending[0], pending[1..];
      assert pending == [head] + rest;
      SubtreeOf(head, t);
      ProgressStep(t, visited, head, rest);
      SubtreeLinked(head, t);
      var node := queue[0];
      queue := queue[1..];
      visited := visited + [node.value];
      var children := ChildCells(node, head, t);
      QueuedAppend(queue, rest, children, Children(head), t);
      queue := queue + children;
      pending := rest + Children(head);
    }
    ProgressDone(t, visited);
  }
}
