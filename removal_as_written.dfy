/// The Python removal exactly as written. Its two-children case asks `min` for the least key of the
/// right subtree, but the Python `min` takes no cell argument, so that call fails with a type error
/// before any link is changed. `Updates.Delete` is the removal as evidently intended.
module RemovalAsWritten {
  import opened Trees
  import opened Descent
  import opened Updates

  /** What a removal call ends with: the new subtree, a `ValueError` for a missing key, or a `TypeError`. */
  datatype Removal = Removed(tree: Tree) | KeyMissing | TypeError

  /** Rebuilds a branch around the result of removing from one of its subtrees; errors pass through. */
  function Around(o: Removal, rebuild: Tree -> Tree): Removal {
    match o
    case Removed(s) => Removed(rebuild(s))
    case KeyMissing => KeyMissing
    case TypeError => TypeError
  }

  /**
   * The recursive removal as written: an absent child on the way down is a
   * missing key. It fails or removes only after reaching a cell holding `v`,
   * and what it leaves is made of keys and cells the tree already had.
   */
  function DeleteAsWritten(t: Tree, v: int): (o: Removal)
    ensures o != KeyMissing ==> v in Values(t)
    ensures o.Removed? ==> Values(o.tree) <= Values(t) && Nodes(o.tree) <= Nodes(t)
  {
    match t
    case Empty => KeyMissing
    case Branch(l, m, w, r) =>
      if w > v then Around(DeleteAsWritten(l, v), s => Branch(s, m, w, r))
      else if w < v then Around(DeleteAsWritten(r, v), s => Branch(l, m, w, s))
      else if l.Empty? && r.Empty? then Removed(Empty)
      else if l.Empty? then Removed(r)
      else if r.Empty? then Removed(l)
      else TypeError
  }

  /**
   * In an ordered tree the removal as written reports a missing key exactly
   * when the key is absent, fails with a type error exactly when the key sits
   * in a cell with two children, and otherwise agrees with the intended removal.
   */
  lemma {:induction false} AsWrittenAgrees(t: Tree, v: int)
    requires IsBST(t)
    ensures DeleteAsWritten(t, v) == KeyMissing <==> v !in Values(t)
    ensures DeleteAsWritten(t, v) == TypeError <==> Find(t, v).Branch? && Find(t, v).left.Branch? && Find(t, v).right.Branch?
    ensures DeleteAsWritten(t, v).Removed? ==> DeleteAsWritten(t, v).tree == Delete(t, v)
  {
    match t
    case Empty =>
    case Branch(l, m, w, r) =>
      if w > v {
        AsWrittenAgrees(l, v);
        assert v !in Values(r);
      } else if w < v {
        AsWrittenAgrees(r, v);
        assert v !in Values(l);
      }
  }

  /**
   * The tree built by inserting 8, 3, 10, 1, 6, 14, 4, 7 and 13: removing the
   * root key 8, whose cell has two children, fails as written, while the
   * intended removal gives the root key 10 with children 3 and 14.
   */
  lemma RootRemovalFails(t: Tree)
    requires t.Branch? && t.value == 8
    requires t.left.Branch? && t.left.value == 3
    requires t.right.Branch? && t.right.value == 10 && t.right.left.Empty?
    requires t.right.right.Branch? && t.right.right.value == 14
    ensures DeleteAsWritten(t, 8) == TypeError
    ensures var d := Delete(t, 8);
      d.Branch? && d.value == 10 && d.left.value == 3 && d.right.Branch? && d.right.value == 14
  {
    assert Leftmost(t.right) == 10;
  }
}
