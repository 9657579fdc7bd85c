/// The shape of a binary search tree over integer keys, as a value.
module Trees {
  import opened Cells

  /**
   * A binary tree whose every branch records the heap cell found at that
   * position and the key that cell holds. `Empty` stands for a null link.
   */
  datatype Tree = Empty | Branch(left: Tree, node: Node, value: int, right: Tree)

  /** The cell a link to this tree points at: null for the empty tree. */
  function Root(t: Tree): Node? {
    if t.Empty? then null else t.node
  }

  /** Every cell of the tree. */
  function Nodes(t: Tree): set<Node> {
    match t
    case Empty => {}
    case Branch(l, m, _, r) => Nodes(l) + {m} + Nodes(r)
  }

  /** The keys stored in the tree. */
  function Values(t: Tree): set<int> {
    match t
    case Empty => {}
    case Branch(l, _, v, r) => Values(l) + {v} + Values(r)
  }

  /** The keys stored in the tree, each counted as often as it is stored. */
  function Elems(t: Tree): multiset<int> {
    match t
    case Empty => multiset{}
    case Branch(l, _, v, r) => Elems(l) + multiset{v} + Elems(r)
  }

  /** The number of levels: 0 for the empty tree, 1 for a single leaf. */
  function Height(t: Tree): nat {
    match t
    case Empty => 0
    case Branch(l, _, _, r) => 1 + (if Height(l) < Height(r) then Height(r) else Height(l))
  }

  /** No cell sits at two positions: the links form a tree, with no sharing. */
  predicate Distinct(t: Tree) {
    match t
    case Empty => true
    case Branch(l, m, _, r) =>
      m !in Nodes(l) && m !in Nodes(r) && Nodes(l) !! Nodes(r) && Distinct(l) && Distinct(r)
  }

  /** The search-tree ordering: at every branch, keys on the left are smaller and keys on the right greater. */
  predicate IsBST(t: Tree) {
    match t
    case Empty => true
    case Branch(l, _, v, r) =>
      (forall x :: x in Values(l) ==> x < v) &&
      (forall x :: x in Values(r) ==> v < x) &&
      IsBST(l) && IsBST(r)
  }

  /** `s` is `t` or hangs somewhere below it. */
  predicate IsSubtree(s: Tree, t: Tree) {
    s == t || (t.Branch? && (IsSubtree(s, t.left) || IsSubtree(s, t.right)))
  }

  /** The keys of the left subtree, then the branch's own key, then the keys of the right subtree. */
  function InOrder(t: Tree): seq<int> {
    match t
    case Empty => []
    case Branch(l, _, v, r) => InOrder(l) + [v] + InOrder(r)
  }

  predicate StrictlyIncreasing(s: seq<int>) {
    forall i, j :: 0 <= i < j < |s| ==> s[i] < s[j]
  }

  /** The keys at depth `d` (the root is at depth 0), from left to right. */
  function Level(t: Tree, d: nat): seq<int> {
    match t
    case Empty => []
    case Branch(l, _, v, r) => if d == 0 then [v] else Level(l, d - 1) + Level(r, d - 1)
  }

  /** The key reached by following left links from the root to the end. */
  function Leftmost(t: Tree): (m: int)
    requires t.Branch?
    ensures m in Values(t)
    ensures IsBST(t) ==> forall x :: x in Values(t) ==> m <= x
  {
    if t.left.Empty? then t.value else Leftmost(t.left)
  }

  /** The key reached by following right links from the root to the end. */
  function Rightmost(t: Tree): (m: int)
    requires t.Branch?
    ensures m in Values(t)
    ensures IsBST(t) ==> forall x :: x in Values(t) ==> x <= m
  {
    if t.right.Empty? then t.value else Rightmost(t.right)
  }

  /** Under the ordering, every key is stored once: the multiset of keys is the set of keys. */
  lemma {:induction false} BstElems(t: Tree)
    requires IsBST(t)
    ensures Elems(t) == multiset(Values(t))
  {
    match t
    case Empty =>
    case Branch(l, _, v, r) =>
      BstElems(l);
      BstElems(r);
      assert Values(l) !! Values(r) by {
        forall x | x in Values(l) ensures x !in Values(r) { }
      }
      assert v !in Values(l) && v !in Values(r);
      DisjointUnion(Values(l), {v});
      DisjointUnion(Values(l) + {v}, Values(r));
  }

  lemma DisjointUnion(a: set<int>, b: set<int>)
    requires a !! b
    ensures multiset(a + b) == multiset(a) + multiset(b)
  {
    forall x ensures multiset(a + b)[x] == (multiset(a) + multiset(b))[x] { }
  }

  /** The in-order keys are exactly the stored keys. */
  lemma {:induction false} InOrderValues(t: Tree)
    ensures forall x :: x in InOrder(t) <==> x in Values(t)
  {
    match t
    case Empty =>
    case Branch(l, _, v, r) =>
      InOrderValues(l);
      InOrderValues(r);
  }

  /** A tree is ordered exactly when its in-order traversal is strictly increasing. */
  lemma {:induction false} BstIffInOrderIncreasing(t: Tree)
    ensures IsBST(t) <==> StrictlyIncreasing(InOrder(t))
  {
    match t
    case Empty =>
    case Branch(l, _, v, r) =>
      BstIffInOrderIncreasing(l);
      BstIffInOrderIncreasing(r);
      InOrderValues(l);
      InOrderValues(r);
      var a, b := InOrder(l), InOrder(r);
      if IsBST(t) {
        IncreasingJoin(a, v, b);
      }
      if StrictlyIncreasing(a + [v] + b) {
        IncreasingSplit(a, v, b);
      }
  }

  /** Joining two increasing runs around a key that separates them gives an increasing run. */
  lemma IncreasingJoin(a: seq<int>, v: int, b: seq<int>)
    requires StrictlyIncreasing(a) && StrictlyIncreasing(b)
    requires forall x :: x in a ==> x < v
    requires forall x :: x in b ==> v < x
    ensures StrictlyIncreasing(a + [v] + b)
  {
    var s := a + [v] + b;
    forall i, j | 0 <= i < j < |s| ensures s[i] < s[j] {
      if j < |a| {
        assert s[i] == a[i] && s[j] == a[j];
      } else if i < |a| {
        assert s[i] == a[i] && a[i] in a;
        if j > |a| { assert s[j] == b[j - |a| - 1] && b[j - |a| - 1] in b; }
      } else if i == |a| {
        assert s[j] == b[j - |a| - 1] && b[j - |a| - 1] in b;
      } else {
        assert s[i] == b[i - |a| - 1] && s[j] == b[j - |a| - 1];
      }
    }
  }

  /** The parts of an increasing run on either side of a key are increasing and separated by it. */
  lemma IncreasingSplit(a: seq<int>, v: int, b: seq<int>)
    requires StrictlyIncreasing(a + [v] + b)
    ensures StrictlyIncreasing(a) && StrictlyIncreasing(b)
    ensures forall x :: x in a ==> x < v
    ensures forall x :: x in b ==> v < x
  {
    var s := a + [v] + b;
    forall i, j | 0 <= i < j < |a| ensures a[i] < a[j] {
      assert s[i] == a[i] && s[j] == a[j];
    }
    forall i, j | 0 <= i < j < |b| ensures b[i] < b[j] {
      assert s[|a| + 1 + i] == b[i] && s[|a| + 1 + j] == b[j];
    }
    forall x | x in a ensures x < v {
      var i :| 0 <= i < |a| && a[i] == x;
      assert s[i] == x && s[|a|] == v;
    }
    forall x | x in b ensures v < x {
      var j :| 0 <= j < |b| && b[j] == x;
      assert s[|a| + 1 + j] == x && s[|a|] == v;
    }
  }

  /** Every key on a level is a key of the tree. */
  lemma {:induction false} LevelValues(t: Tree, d: nat)
    ensures forall x :: x in Level(t, d) ==> x in Values(t)
  {
    match t
    case Empty =>
    case Branch(l, _, _, r) =>
      if d > 0 {
        LevelValues(l, d - 1);
        LevelValues(r, d - 1);
      }
  }

  /** Below the last level there are no keys. */
  lemma {:induction false} LevelBeyond(t: Tree, d: nat)
    requires Height(t) <= d
    ensures Level(t, d) == []
  {
    match t
    case Empty =>
    case Branch(l, _, _, r) =>
      LevelBeyond(l, d - 1);
      LevelBeyond(r, d - 1);
  }

  /** A subtree of an ordered tree is ordered, and its keys and cells are the tree's. */
  lemma {:induction false} SubtreeOf(s: Tree, t: Tree)
    requires IsSubtree(s, t)
    ensures Values(s) <= Values(t) && Nodes(s) <= Nodes(t) && Height(s) <= Height(t)
    ensures IsBST(t) ==> IsBST(s)
  {
    if s != t {
      if IsSubtree(s, t.left) {
        SubtreeOf(s, t.left);
      } else {
        SubtreeOf(s, t.right);
      }
    }
  }

  /** The children of a subtree are subtrees too. */
  lemma {:induction false} SubtreeChildren(s: Tree, t: Tree)
    requires IsSubtree(s, t) && s.Branch?
    ensures IsSubtree(s.left, t) && IsSubtree(s.right, t)
  {
    if s != t {
      if IsSubtree(s, t.left) {
        SubtreeChildren(s, t.left);
      } else {
        SubtreeChildren(s, t.right);
      }
    }
  }
}
