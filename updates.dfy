/// Insertion and removal, stated on the tree shape.
module Updates {
  import opened Cells
  import opened Trees

  /**
   * The shape after attaching the fresh cell `x`, holding `v`, where the
   * insertion walk ends: it goes left while the branch's key is greater than
   * `v` and right otherwise, and `x` replaces the null link it stops at.
   */
  function Insert(t: Tree, v: int, x: Node): Tree {
    match t
    case Empty => Branch(Empty, x, v, Empty)
    case Branch(l, m, w, r) =>
      if w > v then Branch(Insert(l, v, x), m, w, r)
      else Branch(l, m, w, Insert(r, v, x))
  }

  /** The last cell the insertion walk visits: the one that receives the new leaf. */
  function ParentOf(t: Tree, v: int): Node
    requires t.Branch?
  {
    if t.value > v then (if t.left.Empty? then t.node else ParentOf(t.left, v))
    else (if t.right.Empty? then t.node else ParentOf(t.right, v))
  }

  /**
   * The shape after removing `v` as the recursive removal does: a leaf goes,
   * a branch with one child is replaced by that child, and a branch with two
   * children keeps its cell, takes the least key of its right subtree and has
   * that key removed from the right subtree. Removing an absent key leaves the
   * tree as it is.
   */
  function Delete(t: Tree, v: int): Tree {
    match t
    case Empty => Empty
    case Branch(l, m, w, r) =>
      if w > v then Branch(Delete(l, v), m, w, r)
      else if w < v then Branch(l, m, w, Delete(r, v))
      else if l.Empty? && r.Empty? then Empty
      else if l.Empty? then r
      else if r.Empty? then l
      else Branch(l, m, Leftmost(r), Delete(r, Leftmost(r)))
  }

  /** Inserting adds exactly the new key and the new cell, and keeps the root cell. */
  lemma {:induction false} InsertContents(t: Tree, v: int, x: Node)
    ensures Values(Insert(t, v, x)) == Values(t) + {v}
    ensures Nodes(Insert(t, v, x)) == Nodes(t) + {x}
    ensures t.Branch? ==> Root(Insert(t, v, x)) == Root(t)
  {
    match t
    case Empty =>
    case Branch(l, _, w, r) =>
      if w > v {
        InsertContents(l, v, x);
      } else {
        InsertContents(r, v, x);
      }
  }

  /** Inserting a key that is not yet present keeps the tree ordered. */
  lemma {:induction false} InsertOrdered(t: Tree, v: int, x: Node)
    requires IsBST(t) && v !in Values(t)
    ensures IsBST(Insert(t, v, x))
  {
    match t
    case Empty =>
    case Branch(l, _, w, r) =>
      if w > v {
        InsertOrdered(l, v, x);
        InsertContents(l, v, x);
      } else {
        InsertOrdered(r, v, x);
        InsertContents(r, v, x);
      }
  }

  /** Inserting a fresh cell keeps every cell at a single position. */
  lemma {:induction false} InsertDistinct(t: Tree, v: int, x: Node)
    requires Distinct(t) && x !in Nodes(t)
    ensures Distinct(Insert(t, v, x))
  {
    match t
    case Empty =>
    case Branch(l, _, w, r) =>
      if w > v {
        InsertDistinct(l, v, x);
        InsertContents(l, v, x);
      } else {
        InsertDistinct(r, v, x);
        InsertContents(r, v, x);
      }
  }

  /** The receiving cell is a cell of the tree. */
  lemma {:induction false} ParentIn(t: Tree, v: int)
    requires t.Branch?
    ensures ParentOf(t, v) in Nodes(t)
  {
    if t.value > v {
      if t.left.Branch? { ParentIn(t.left, v); }
    } else {
      if t.right.Branch? { ParentIn(t.right, v); }
    }
  }

  /** Removal takes out exactly the removed key and keeps the tree ordered. */
  lemma {:induction false} DeleteOrdered(t: Tree, v: int)
    requires IsBST(t)
    ensures Values(Delete(t, v)) == Values(t) - {v}
    ensures IsBST(Delete(t, v))
  {
    match t
    case Empty =>
    case Branch(l, m, w, r) =>
      if w > v {
        DeleteOrdered(l, v);
        assert v !in Values(r);
      } else if w < v {
        DeleteOrdered(r, v);
        assert v !in Values(l);
      } else if l.Branch? && r.Branch? {
        var s := Leftmost(r);
        DeleteOrdered(r, s);
        assert w !in Values(l) && w !in Values(r);
        assert Values(Delete(t, v)) == Values(l) + {s} + (Values(r) - {s});
      } else {
        assert w !in Values(l) && w !in Values(r);
      }
  }

  /** Removal uses no cell that was not already in the tree and keeps every cell at a single position. */
  lemma {:induction false} DeleteNodes(t: Tree, v: int)
    ensures Nodes(Delete(t, v)) <= Nodes(t)
    ensures Distinct(t) ==> Distinct(Delete(t, v))
  {
    match t
    case Empty =>
    case Branch(l, _, w, r) =>
      if w > v {
        DeleteNodes(l, v);
      } else if w < v {
        DeleteNodes(r, v);
      } else if l.Branch? && r.Branch? {
        DeleteNodes(r, Leftmost(r));
      }
  }

  /** Removing a key that is present from an ordered tree without shared cells drops exactly one cell. */
  lemma {:induction false} DeleteDropsOne(t: Tree, v: int)
    requires IsBST(t) && Distinct(t) && v in Values(t)
    ensures |Nodes(Delete(t, v))| == |Nodes(t)| - 1
  {
    var Branch(l, m, w, r) := t;
    BranchSize(t);
    DeleteNodes(t, v);
    if w > v {
      DeleteDropsOne(l, v);
      BranchSize(Delete(t, v));
    } else if w < v {
      DeleteDropsOne(r, v);
      BranchSize(Delete(t, v));
    } else if l.Branch? && r.Branch? {
      DeleteDropsOne(r, Leftmost(r));
      BranchSize(Delete(t, v));
    }
  }

  /** In a tree without shared cells, a branch counts its own cell once beside those of its subtrees. */
  lemma BranchSize(t: Tree)
    requires t.Branch? && Distinct(t)
    ensures |Nodes(t)| == |Nodes(t.left)| + 1 + |Nodes(t.right)|
  {
    var a, b := Nodes(t.left), Nodes(t.right);
    assert a !! {t.node};
    assert |a + {t.node}| == |a| + 1;
    assert (a + {t.node}) !! b;
  }

  /** Removing an absent key changes nothing. */
  lemma {:induction false} DeleteAbsent(t: Tree, v: int)
    requires v !in Values(t)
    ensures Delete(t, v) == t
  {
    match t
    case Empty =>
    case Branch(l, _, w, r) =>
      if w > v {
        DeleteAbsent(l, v);
      } else if w < v {
        DeleteAbsent(r, v);
      }
  }
}
