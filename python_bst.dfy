/// The Python binary search tree handle: a root cell and the operations on the tree hanging from it.
module PythonBst {
  import opened Outcomes
  import opened Cells
  import opened Trees
  import opened Descent
  import opened Updates
  import opened Breadth
  import opened Links
  import opened Walks

  class BinarySearchTree {
    var root: Node
    /** The shape of the tree below `root`, with the cell at each position. */
    ghost var Model: Tree
    /** The cells of the tree. */
    ghost var Repr: set<Node>

    ghost predicate Valid()
      reads this, Repr
    {
      && Repr == Nodes(Model)
      && Model.Branch?
      && Root(Model) == root
      && Linked(Model)
      && IsBST(Model)
    }

    /**
     * Wraps the given cell when there is one (the tree `t` then describes the
     * cells below it), and otherwise a fresh cell holding `value`.
     */
    constructor (value: Option<int>, node: Node?, ghost t: Tree)
      requires node != null || value.Some?
      requires node != null ==> Linked(t) && Root(t) == node && IsBST(t)
      ensures Valid()
      ensures node != null ==> root == node && Model == t
      ensures node == null ==> fresh(root) && fresh(Repr) && Model == Branch(Empty, root, value.value, Empty)
    {
      CellsAllocated(t);
      if node != null {
        root := node;
        Model := t;
        Repr := Nodes(t);
      } else {
        var cell := new Node(value.value);
        root := cell;
        Model := Branch(Empty, cell, value.value, Empty);
        Repr := {cell};
      }
    }

    /**
     * Adds a key that is not yet stored by hanging a fresh leaf on the null
     * link where the descent for it ends. Nothing but that one link changes.
     */
    method Insert(value: int) returns (ghost leaf: Node)
      requires Valid() && value !in Values(Model)
      modifies this, Repr
      ensures Valid() && fresh(leaf) && root == old(root)
      ensures Values(Model) == old(Values(Model)) + {value}
      ensures Repr == old(Repr) + {leaf}
      ensures Model == Updates.Insert(old(Model), value, leaf)
      ensures forall n :: n in old(Repr) && n != ParentOf(old(Model), value) ==> unchanged(n)
      ensures var p := ParentOf(old(Model), value);
        && p.value == old(p.value)
        && (p.value > value ==> old(p.left) == null && p.left == leaf && p.right == old(p.right))
        && (p.value <= value ==> old(p.right) == null && p.right == leaf && p.left == old(p.left))
    {
      ghost var t := Model;
      leaf := InsertLeaf(root, value, t);
      InsertContents(t, value, leaf);
      InsertOrdered(t, value, leaf);
      Model := Updates.Insert(t, value, leaf);
      Repr := Nodes(Model);
    }

    /** The number of links from the root down to the key; `KeyNotFound` (a `ValueError`) when it is absent. */
    method GetNodeHeight(value: int) returns (r: Outcome<nat>)
      requires Valid()
      ensures r == DepthOf(Model, value)
      ensures r.KeyNotFound? <==> value !in Values(Model)
      ensures r.Ok? ==> value in Level(Model, r.value)
    {
      r := DepthTo(root, value, Model);
    }

    /**
     * A new handle on the very cell that holds the key: the subtree is shared
     * with this tree, not copied. `KeyNotFound` (a `ValueError`) when the key is absent.
     */
    method Search(value: int) returns (r: Outcome<BinarySearchTree>)
      requires Valid()
      ensures r.KeyNotFound? <==> value !in Values(Model)
      ensures r.Ok? ==> && fresh(r.value) && r.value.Valid()
                        && r.value.Model == Find(Model, value) && r.value.root.value == value
                        && r.value.Repr <= Repr && IsSubtree(r.value.Model, Model)
    {
      var found := Locate(root, value, Model);
      FindFound(Model, value);
      FindIsSubtree(Model, value);
      if found.KeyNotFound? {
        return KeyNotFound;
      }
      SubtreeOf(Find(Model, value), Model);
      var sub := new BinarySearchTree(None, found.value, Find(Model, value));
      return Ok(sub);
    }

    /** The keys in breadth-first order: each key once, the root first, a cell's left child before its right. */
    method DegreeTraversal() returns (visited: seq<int>)
      requires Valid()
      ensures visited == LevelOrder(Model)
      ensures multiset(visited) == multiset(Values(Model))
      ensures |visited| > 0 && visited[0] == root.value
    {
      visited := BreadthFirst(root, Model);
      BstElems(Model);
      LevelOrderRootFirst(Model);
    }

    /** The key of the rightmost cell, which is the greatest key. */
    method Max() returns (m: int)
      requires Valid()
      ensures m == Rightmost(Model)
      ensures m in Values(Model) && forall x :: x in Values(Model) ==> x <= m
    {
      m := RightmostValue(root, Model);
    }

    /** The key of the leftmost cell, which is the least key. */
    method Min() returns (m: int)
      requires Valid()
      ensures m == Leftmost(Model)
      ensures m in Values(Model) && forall x :: x in Values(Model) ==> m <= x
    {
      m := LeftmostValue(root, Model);
    }

    /**
     * Removes `value` from the subtree `t` rooted at `node`, in place, and
     * returns the cell that now roots the subtree (null when it became
     * empty). A leaf gives way to null and a cell with one child to that
     * child, with no link changed; a cell with two children stays, takes
     * the least key of its right subtree and has that key removed there.
     * `KeyNotFound` (a `ValueError`) when the key is absent, with no cell changed.
     */
    method RemoveAt(value: int, node: Node, ghost t: Tree) returns (r: Outcome<Node?>, ghost u: Tree)
      requires Linked(t) && Root(t) == node && IsBST(t)
      modifies Nodes(t)
      decreases t
      ensures r.KeyNotFound? <==> value !in Values(t)
      ensures r.Ok? ==> u == Delete(t, value) && Linked(u) && r.value == Root(u)
      ensures r.Ok? ==> (r.value == node <==> value != t.value || (t.left.Branch? && t.right.Branch?))
      ensures r.KeyNotFound? || r.value != node ==>
        forall n :: n in Nodes(t) && old(allocated(n)) ==> unchanged(n)
      ensures r.Ok? ==> forall n :: n in Nodes(t) - Nodes(u) && old(allocated(n)) ==> unchanged(n)
    {
      LinkedDistinct(t);
      NodesExisted(t);
      var l, w, rt := t.left, t.value, t.right;
      if node.value > value {
        assert value !in Values(rt);
        if node.left == null {
          return KeyNotFound, t;
        }
        var sub: Outcome<Node?>;
        sub, u := RemoveAt(value, node.left, l);
        if sub.KeyNotFound? {
          return KeyNotFound, t;
        }
        DeleteNodes(l, value);
        assert node !in Nodes(u);
        node.left := sub.value;
        assert Linked(u);
        RelinkLeft(t, u);
        assert Nodes(t) - Nodes(Branch(u, node, w, rt)) <= Nodes(l) - Nodes(u);
        u := Branch(u, node, w, rt);
      } else if node.value < value {
        assert value !in Values(l);
        if node.right == null {
          return KeyNotFound, t;
        }
        var sub: Outcome<Node?>;
        sub, u := RemoveAt(value, node.right, rt);
        if sub.KeyNotFound? {
          return KeyNotFound, t;
        }
        DeleteNodes(rt, value);
        assert node !in Nodes(u);
        node.right := sub.value;
        assert Linked(u);
        RelinkRight(t, w, u);
        assert Nodes(t) - Nodes(Branch(l, node, w, u)) <= Nodes(rt) - Nodes(u);
        u := Branch(l, node, w, u);
      } else if node.left == null && node.right == null {
        return Ok(null), Empty;
      } else if node.left == null {
        return Ok(node.right), rt;
      } else if node.right == null {
        return Ok(node.left), l;
      } else {
        var successor := LeftmostValue(node.right, rt);
        node.value := successor;
        var sub: Outcome<Node?>;
        sub, u := RemoveAt(successor, node.right, rt);
        assert sub.Ok?;
        DeleteNodes(rt, successor);
        assert node !in Nodes(u);
        node.right := sub.value;
        assert Linked(u);
        RelinkRight(t, successor, u);
        assert Nodes(t) - Nodes(Branch(l, node, successor, u)) <= Nodes(rt) - Nodes(u);
        u := Branch(l, node, successor, u);
      }
      return Ok(node), u;
    }

    /**
     * `remove` called without a cell: removes from the whole tree, starting
     * at the root, and returns the subtree root the removal produced. That
     * result is not stored back into `root`, so when the key sits in a root
     * with fewer than two children the tree is left exactly as it was.
     */
    method Remove(value: int) returns (r: Outcome<Node?>)
      requires Valid()
      modifies this, Repr
      ensures Valid() && root == old(root)
      ensures r.KeyNotFound? <==> value !in old(Values(Model))
      ensures r.KeyNotFound? ==> Model == old(Model)
      ensures r.Ok? && (value != old(Model.value) || (old(Model.left).Branch? && old(Model.right).Branch?)) ==>
        r.value == root && Model == Delete(old(Model), value)
      ensures r.Ok? && value == old(Model.value) && (old(Model.left).Empty? || old(Model.right).Empty?) ==>
        r.value != root && r.value == Root(Delete(old(Model), value)) && Model == old(Model)
      ensures r.Ok? ==> forall n :: n in old(Repr) - Repr ==> unchanged(n)
    {
      ghost var u;
      r, u := RemoveAt(value, root, Model);
      DeleteOrdered(old(Model), value);
      DeleteNodes(old(Model), value);
      if r.Ok? && r.value == root {
        Model := u;
        Repr := Nodes(u);
      }
    }
  }
}
