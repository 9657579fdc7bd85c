/// Looking a key up by descending from the root, one comparison per branch.
module Descent {
  import opened Outcomes
  import opened Trees

  /** Adds `k` steps to a depth that was found; a missing key stays missing. */
  function Deeper(o: Outcome<nat>, k: nat): Outcome<nat> {
    match o
    case Ok(d) => Ok(d + k)
    case KeyNotFound => KeyNotFound
  }

  /**
   * The number of links followed from the root down to the branch holding `v`,
   * going left when the branch's key is greater and right when it is smaller;
   * `KeyNotFound` when the descent runs off the tree.
   */
  function DepthOf(t: Tree, v: int): Outcome<nat> {
    match t
    case Empty => KeyNotFound
    case Branch(l, _, w, r) =>
      if w == v then Ok(0)
      else if w > v then Deeper(DepthOf(l, v), 1)
      else Deeper(DepthOf(r, v), 1)
  }

  /** The subtree whose root holds `v`, found by the same descent; `Empty` when there is none. */
  function Find(t: Tree, v: int): Tree {
    match t
    case Empty => Empty
    case Branch(l, _, w, r) =>
      if w == v then t
      else if w > v then Find(l, v)
      else Find(r, v)
  }

  /** In an ordered tree the descent fails exactly when the key is absent. */
  lemma {:induction false} DepthFound(t: Tree, v: int)
    requires IsBST(t)
    ensures DepthOf(t, v).Ok? <==> v in Values(t)
  {
    match t
    case Empty =>
    case Branch(l, _, w, r) =>
      if w > v {
        DepthFound(l, v);
        assert v !in Values(r);
      } else if w < v {
        DepthFound(r, v);
        assert v !in Values(l);
      }
  }

  /**
   * The descent count is the key's depth: in an ordered tree it is `d`
   * exactly when the key is stored on level `d`.
   */
  lemma {:induction false} DepthIsLevel(t: Tree, v: int, d: nat)
    requires IsBST(t)
    ensures DepthOf(t, v) == Ok(d) <==> v in Level(t, d)
  {
    match t
    case Empty =>
    case Branch(l, _, w, r) =>
      if d > 0 {
        LevelValues(l, d - 1);
        LevelValues(r, d - 1);
        if w > v {
          DepthIsLevel(l, v, d - 1);
          assert v !in Level(r, d - 1);
        } else if w < v {
          DepthIsLevel(r, v, d - 1);
          assert v !in Level(l, d - 1);
        } else {
          assert v !in Level(l, d - 1) && v !in Level(r, d - 1);
        }
      } else if w > v {
        assert DepthOf(l, v).Ok? ==> DepthOf(t, v) != Ok(0);
      } else if w < v {
        assert DepthOf(r, v).Ok? ==> DepthOf(t, v) != Ok(0);
      }
  }

  /** In an ordered tree the lookup finds a subtree exactly when the key is present, and that subtree's root holds the key. */
  lemma {:induction false} FindFound(t: Tree, v: int)
    requires IsBST(t)
    ensures Find(t, v).Branch? <==> v in Values(t)
    ensures Find(t, v).Branch? ==> Find(t, v).value == v
  {
    match t
    case Empty =>
    case Branch(l, _, w, r) =>
      if w > v {
        FindFound(l, v);
        assert v !in Values(r);
      } else if w < v {
        FindFound(r, v);
        assert v !in Values(l);
      }
  }

  /** The lookup returns a part of the tree itself, not a copy: a subtree made of the tree's own cells. */
  lemma {:induction false} FindIsSubtree(t: Tree, v: int)
    ensures IsSubtree(Find(t, v), t)
    ensures Nodes(Find(t, v)) <= Nodes(t)
  {
    match t
    case Empty =>
    case Branch(l, _, w, r) =>
      if w > v {
        FindIsSubtree(l, v);
      } else if w < v {
        FindIsSubtree(r, v);
      }
  }
}
