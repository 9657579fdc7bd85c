/// The TypeScript binary search tree handle: the same walks as the Python one, a constructor taking
/// either a key or a cell, and a minimum that may start from any given cell.
module TypeScriptBst {
  import opened Outcomes
  import opened Cells
  import opened Trees
  import opened Descent
  import opened Updates
  import opened Breadth
  import opened Links
  import opened Walks

  class BinarySearchTree {
    var root: Node
    /** The shape of the tree below `root`, with the cell at each position. */
    ghost var Model: Tree
    /** The cells of the tree. */
    ghost var Repr: set<Node>

    ghost predicate Valid()
      reads this, Repr
    {
      && Repr == Nodes(Model)
      && Model.Branch?
      && Root(Model) == root
      && Linked(Model)
      && IsBST(Model)
    }

    /** The constructor given a number: a tree of one fresh cell holding it. */
    constructor FromValue(value: int)
      ensures Valid() && fresh(root) && fresh(Repr)
      ensures Model == Branch(Empty, root, value, Empty)
    {
      var cell := new Node(value);
      root := cell;
      Model := Branch(Empty, cell, value, Empty);
      Repr := {cell};
    }

    /** The constructor given a cell: a handle whose root is that very cell, over the tree `t` below it. */
    constructor FromNode(node: Node, ghost t: Tree)
      requires Linked(t) && Root(t) == node && IsBST(t)
      ensures Valid() && root == node && Model == t
    {
      CellsAllocated(t);
      root := node;
      Model := t;
      Repr := Nodes(t);
    }

    /**
     * Adds a key that is not yet stored by hanging a fresh leaf on the null
     * link where the descent for it ends. Nothing but that one link changes.
     */
    method Insert(value: int) returns (ghost leaf: Node)
      requires Valid() && value !in Values(Model)
      modifies this, Repr
      ensures Valid() && fresh(leaf) && root == old(root)
      ensures Values(Model) == old(Values(Model)) + {value}
      ensures Repr == old(Repr) + {leaf}
      ensures Model == Updates.Insert(old(Model), value, leaf)
      ensures forall n :: n in old(Repr) && n != ParentOf(old(Model), value) ==> unchanged(n)
      ensures var p := ParentOf(old(Model), value);
        && p.value == old(p.value)
        && (p.value > value ==> old(p.left) == null && p.left == leaf && p.right == old(p.right))
        && (p.value <= value ==> old(p.right) == null && p.right == leaf && p.left == old(p.left))
    {
      ghost var t := Model;
      leaf := InsertLeaf(root, value, t);
      InsertContents(t, value, leaf);
      InsertOrdered(t, value, leaf);
      Model := Updates.Insert(t, value, leaf);
      Repr := Nodes(Model);
    }

    /** The number of links from the root down to the key; `KeyNotFound` (a thrown `Error`) when it is absent. */
    method GetNodeHeight(value: int) returns (r: Outcome<nat>)
      requires Valid()
      ensures r == DepthOf(Model, value)
      ensures r.KeyNotFound? <==> value !in Values(Model)
      ensures r.Ok? ==> value in Level(Model, r.value)
    {
      r := DepthTo(root, value, Model);
    }

    /**
     * A new handle on the very cell that holds the key, sharing its subtree
     * with this tree. `KeyNotFound` (a thrown `Error`) when the key is absent.
     */
    method Search(value: int) returns (r: Outcome<BinarySearchTree>)
      requires Valid()
      ensures r.KeyNotFound? <==> value !in Values(Model)
      ensures r.Ok? ==> && fresh(r.value) && r.value.Valid()
                        && r.value.Model == Find(Model, value) && r.value.root.value == value
                        && r.value.Repr <= Repr && IsSubtree(r.value.Model, Model)
    {
      var found := Locate(root, value, Model);
      FindFound(Model, value);
      FindIsSubtree(Model, value);
      if found.KeyNotFound? {
        return KeyNotFound;
      }
      SubtreeOf(Find(Model, value), Model);
      var sub := new BinarySearchTree.FromNode(found.value, Find(Model, value));
      return Ok(sub);
    }

    /** The keys in breadth-first order: each key once, the root first, a cell's left child before its right. */
    method LevelOrderTraversal() returns (visited: seq<int>)
      requires Valid()
      ensures visited == LevelOrder(Model)
      ensures multiset(visited) == multiset(Values(Model))
      ensures |visited| > 0 && visited[0] == root.value
    {
      visited := BreadthFirst(root, Model);
      BstElems(Model);
      LevelOrderRootFirst(Model);
    }

    /** The key of the rightmost cell, which is the greatest key. */
    method Max() returns (m: int)
      requires Valid()
      ensures m == Rightmost(Model)
      ensures m in Values(Model) && forall x :: x in Values(Model) ==> x <= m
    {
      m := RightmostValue(root, Model);
    }

    /**
     * The key of the leftmost cell below `node`, or below the root when
     * `node` is null: the least key of that subtree when it is ordered.
     * `sub` describes the cells below `node`.
     */
    method Min(node: Node?, ghost sub: Tree) returns (m: int)
      requires Valid()
      requires node != null ==> Linked(sub) && Root(sub) == node
      ensures node == null ==> m == Leftmost(Model) && forall x :: x in Values(Model) ==> m <= x
      ensures node != null ==> m == Leftmost(sub) && m in Values(sub)
      ensures node != null && IsBST(sub) ==> forall x :: x in Values(sub) ==> m <= x
    {
      if node == null {
        m := LeftmostValue(root, Model);
      } else {
        m := LeftmostValue(node, sub);
      }
    }
  }
}
