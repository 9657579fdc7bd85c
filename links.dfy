/// How the heap cells realise a tree shape, and what survives a change to them.
module Links {
  import opened Cells
  import opened Trees
  import opened Updates

  /** The cells agree with the shape: each holds its branch's key and links to the cells of its two subtrees. */
  ghost predicate Linked(t: Tree)
    reads Nodes(t)
  {
    match t
    case Empty => true
    case Branch(l, m, v, r) =>
      m.value == v && m.left == Root(l) && m.right == Root(r) && Linked(l) && Linked(r)
  }

  /** A cell of a linked tree holds one of the tree's keys. */
  lemma {:induction false} CellValue(t: Tree, n: Node)
    requires Linked(t) && n in Nodes(t)
    ensures n.value in Values(t)
  {
    match t
    case Branch(l, m, _, r) =>
      if n in Nodes(l) {
        CellValue(l, n);
      } else if n in Nodes(r) {
        CellValue(r, n);
      }
  }

  /**
   * A linked, ordered tree uses each cell at one position only: a cell at
   * two positions would put its key twice into the tree.
   */
  lemma {:induction false} LinkedDistinct(t: Tree)
    requires Linked(t) && IsBST(t)
    ensures Distinct(t)
  {
    match t
    case Empty =>
    case Branch(l, m, v, r) =>
      LinkedDistinct(l);
      LinkedDistinct(r);
      if m in Nodes(l) {
        CellValue(l, m);
        assert false;
      }
      if m in Nodes(r) {
        CellValue(r, m);
        assert false;
      }
      forall n | n in Nodes(l) ensures n !in Nodes(r) {
        CellValue(l, n);
        assert n.value < v;
        if n in Nodes(r) {
          CellValue(r, n);
        }
      }
  }

  /** Every subtree of a linked tree is linked. */
  lemma {:induction false} SubtreeLinked(s: Tree, t: Tree)
    requires Linked(t) && IsSubtree(s, t)
    ensures Linked(s)
  {
    if s != t {
      if IsSubtree(s, t.left) {
        SubtreeLinked(s, t.left);
      } else {
        SubtreeLinked(s, t.right);
      }
    }
  }

  /** The link the insertion walk stops at is null. */
  lemma {:induction false} ParentSlotEmpty(t: Tree, v: int)
    requires Linked(t) && t.Branch?
    ensures var p := ParentOf(t, v);
      && (p.value > v ==> p.left == null)
      && (p.value <= v ==> p.right == null)
  {
    if t.value > v {
      if t.left.Branch? { ParentSlotEmpty(t.left, v); }
    } else {
      if t.right.Branch? { ParentSlotEmpty(t.right, v); }
    }
  }

  /** The cells of a tree given to a two-state lemma existed in its earlier state. */
  twostate lemma {:induction false} NodesExisted(t: Tree)
    ensures forall n :: n in Nodes(t) ==> old(allocated(n))
  {
    match t
    case Empty =>
    case Branch(l, _, _, r) =>
      NodesExisted(l);
      NodesExisted(r);
  }

  /** A tree whose cells were all left alone is still linked. */
  twostate lemma {:induction false} LinkedStable(t: Tree)
    requires old(Linked(t))
    requires forall n :: n in Nodes(t) && old(allocated(n)) ==> unchanged(n)
    ensures Linked(t)
  {
    match t
    case Empty =>
    case Branch(l, m, _, r) =>
      NodesExisted(t);
      assert forall n :: n in Nodes(l) ==> n in Nodes(t);
      assert forall n :: n in Nodes(r) ==> n in Nodes(t);
      LinkedStable(l);
      LinkedStable(r);
  }

  /**
   * Attaching a fresh leaf (the single branch `leaf`, holding `v`) to the null
   * link where the insertion walk stops, and changing no other cell, links
   * the inserted shape.
   */
  twostate lemma {:induction false} InsertLinked(t: Tree, new v: int, new leaf: Tree)
    requires t.Branch? && old(Linked(t)) && Distinct(t)
    requires leaf.Branch? && leaf == Branch(Empty, leaf.node, v, Empty) && Linked(leaf) && leaf.node !in Nodes(t)
    requires forall n :: n in Nodes(t) && old(allocated(n)) && n != ParentOf(t, v) ==> unchanged(n)
    requires ParentOf(t, v).value == old(ParentOf(t, v).value)
    requires ParentOf(t, v).value > v ==>
      ParentOf(t, v).left == leaf.node && ParentOf(t, v).right == old(ParentOf(t, v).right)
    requires ParentOf(t, v).value <= v ==>
      ParentOf(t, v).right == leaf.node && ParentOf(t, v).left == old(ParentOf(t, v).left)
    ensures Linked(Insert(t, v, leaf.node))
  {
    match t
    case Branch(l, m, w, r) =>
      if w > v {
        if l.Branch? {
          ParentIn(l, v);
          InsertLinked(l, v, leaf);
          InsertContents(l, v, leaf.node);
        }
        LinkedStable(r);
      } else {
        if r.Branch? {
          ParentIn(r, v);
          InsertLinked(r, v, leaf);
          InsertContents(r, v, leaf.node);
        }
        LinkedStable(l);
      }
  }

  /**
   * Pointing the root cell of `t` at a new left subtree `u` made of cells of
   * the old left subtree, and leaving its key, its right link and the right
   * subtree alone, links the new shape.
   */
  twostate lemma RelinkLeft(t: Tree, new u: Tree)
    requires t.Branch? && old(Linked(t)) && Distinct(t)
    requires Linked(u) && Nodes(u) <= Nodes(t.left)
    requires t.node.left == Root(u) && t.node.right == old(t.node.right) && t.node.value == old(t.node.value)
    requires forall n :: n in Nodes(t.right) && old(allocated(n)) ==> unchanged(n)
    ensures Linked(Branch(u, t.node, t.value, t.right))
  {
    LinkedStable(t.right);
  }

  /**
   * Pointing the root cell of `t` at a new right subtree `u` made of cells of
   * the old right subtree, with key `w`, and leaving its left link and the
   * left subtree alone, links the new shape.
   */
  twostate lemma RelinkRight(t: Tree, new w: int, new u: Tree)
    requires t.Branch? && old(Linked(t)) && Distinct(t)
    requires Linked(u) && Nodes(u) <= Nodes(t.right)
    requires t.node.right == Root(u) && t.node.left == old(t.node.left) && t.node.value == w
    requires forall n :: n in Nodes(t.left) && old(allocated(n)) ==> unchanged(n)
    ensures Linked(Branch(t.left, t.node, w, u))
  {
    LinkedStable(t.left);
  }
}
