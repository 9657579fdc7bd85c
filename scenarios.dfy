/// The scenarios the two programs run on their own trees, stated on the tree shape.
module Scenarios {
  import opened Outcomes
  import opened Cells
  import opened Trees
  import opened Descent
  import opened Updates
  import opened Breadth
  import opened RemovalAsWritten

  /** Inserting the keys `ks` in turn into `t`, the key `k` into the fresh cell `c[k]`. */
  ghost function InsertAll(t: Tree, ks: seq<int>, c: map<int, Node>): Tree
    requires forall i :: 0 <= i < |ks| ==> ks[i] in c
    decreases |ks|
  {
    if ks == [] then t else InsertAll(Insert(t, ks[0], c[ks[0]]), ks[1..], c)
  }

  /** A tree built from its first key, given to the constructor, with the other keys inserted in turn. */
  ghost function Grown(ks: seq<int>, c: map<int, Node>): Tree
    requires ks != [] && forall i :: 0 <= i < |ks| ==> ks[i] in c
  {
    InsertAll(Branch(Empty, c[ks[0]], ks[0], Empty), ks[1..], c)
  }

  /** No key occurs twice. */
  predicate NoRepeats(ks: seq<int>) {
    forall i, j :: 0 <= i < j < |ks| ==> ks[i] != ks[j]
  }

  /** Inserting new keys one by one keeps the tree ordered and adds exactly those keys. */
  lemma {:induction false} InsertAllOrdered(t: Tree, ks: seq<int>, c: map<int, Node>)
    requires forall i :: 0 <= i < |ks| ==> ks[i] in c
    requires IsBST(t) && NoRepeats(ks) && forall i :: 0 <= i < |ks| ==> ks[i] !in Values(t)
    ensures IsBST(InsertAll(t, ks, c))
    ensures Values(InsertAll(t, ks, c)) == Values(t) + set i | 0 <= i < |ks| :: ks[i]
    decreases |ks|
  {
    if ks != [] {
      var v, rest := ks[0], ks[1..];
      InsertOrdered(t, v, c[v]);
      InsertContents(t, v, c[v]);
      InsertAllOrdered(Insert(t, v, c[v]), rest, c);
      assert (set i | 0 <= i < |ks| :: ks[i]) == {v} + set i | 0 <= i < |rest| :: rest[i] by {
        forall i | 0 <= i < |rest| ensures rest[i] == ks[i + 1] { }
        forall i | 0 <= i < |ks| ensures ks[i] == v || ks[i] in set j | 0 <= j < |rest| :: rest[j] {
          if i > 0 { assert ks[i] == rest[i - 1]; }
        }
      }
    }
  }

  /** A tree grown from keys with no repeats is ordered and holds exactly those keys. */
  lemma GrownOrdered(ks: seq<int>, c: map<int, Node>)
    requires ks != [] && forall i :: 0 <= i < |ks| ==> ks[i] in c
    requires NoRepeats(ks)
    ensures IsBST(Grown(ks, c))
    ensures Values(Grown(ks, c)) == set i | 0 <= i < |ks| :: ks[i]
  {
    var rest := ks[1..];
    InsertAllOrdered(Branch(Empty, c[ks[0]], ks[0], Empty), rest, c);
    forall i | 0 <= i < |ks| ensures ks[i] == ks[0] || ks[i] in set j | 0 <= j < |rest| :: rest[j] {
      if i > 0 { assert ks[i] == rest[i - 1]; }
    }
  }

  /** The keys the demonstration inserts, the first one given to the constructor. */
  const DemoKeys: seq<int> := [50, 30, 70, 40, 60, 20, 80]

  /**
   * The demonstration tree has 50 at the root, 30 and 70 below it, and 20,
   * 40, 60 and 80 on the next level.
   */
  lemma DemoShape(c: map<int, Node>)
    requires forall k :: k in DemoKeys ==> k in c
    ensures Grown(DemoKeys, c) == Branch(Branch(Branch(Empty, c[20], 20, Empty), c[30], 30, Branch(Empty, c[40], 40, Empty)), c[50], 50, Branch(Branch(Empty, c[60], 60, Empty), c[70], 70, Branch(Empty, c[80], 80, Empty)))
  {
    assert Insert(Branch(Empty, c[50], 50, Empty), 30, c[30])
      == Branch(Branch(Empty, c[30], 30, Empty), c[50], 50, Empty);
    assert [30, 70, 40, 60, 20, 80][1..] == [70, 40, 60, 20, 80];
    assert Insert(Branch(Branch(Empty, c[30], 30, Empty), c[50], 50, Empty), 70, c[70])
      == Branch(Branch(Empty, c[30], 30, Empty), c[50], 50, Branch(Empty, c[70], 70, Empty));
    assert [70, 40, 60, 20, 80][1..] == [40, 60, 20, 80];
    assert Insert(Branch(Empty, c[30], 30, Empty), 40, c[40])
      == Branch(Empty, c[30], 30, Branch(Empty, c[40], 40, Empty));
    assert Insert(Branch(Branch(Empty, c[30], 30, Empty), c[50], 50, Branch(Empty, c[70], 70, Empty)), 40, c[40])
      == Branch(Branch(Empty, c[30], 30, Branch(Empty, c[40], 40, Empty)), c[50], 50, Branch(Empty, c[70], 70, Empty));
    assert [40, 60, 20, 80][1..] == [60, 20, 80];
    assert Insert(Branch(Empty, c[70], 70, Empty), 60, c[60])
      == Branch(Branch(Empty, c[60], 60, Empty), c[70], 70, Empty);
    assert Insert(Branch(Branch(Empty, c[30], 30, Branch(Empty, c[40], 40, Empty)), c[50], 50, Branch(Empty, c[70], 70, Empty)), 60, c[60])
      == Branch(Branch(Empty, c[30], 30, Branch(Empty, c[40], 40, Empty)), c[50], 50, Branch(Branch(Empty, c[60], 60, Empty), c[70], 70, Empty));
    assert [60, 20, 80][1..] == [20, 80];
    assert Insert(Branch(Empty, c[30], 30, Branch(Empty, c[40], 40, Empty)), 20, c[20])
      == Branch(Branch(Empty, c[20], 20, Empty), c[30], 30, Branch(Empty, c[40], 40, Empty));
    assert Insert(Branch(Branch(Empty, c[30], 30, Branch(Empty, c[40], 40, Empty)), c[50], 50, Branch(Branch(Empty, c[60], 60, Empty), c[70], 70, Empty)), 20, c[20])
      == Branch(Branch(Branch(Empty, c[20], 20, Empty), c[30], 30, Branch(Empty, c[40], 40, Empty)), c[50], 50, Branch(Branch(Empty, c[60], 60, Empty), c[70], 70, Empty));
    assert [20, 80][1..] == [80];
    assert Insert(Branch(Branch(Empty, c[60], 60, Empty), c[70], 70, Empty), 80, c[80])
      == Branch(Branch(Empty, c[60], 60, Empty), c[70], 70, Branch(Empty, c[80], 80, Empty));
    assert Insert(Branch(Branch(Branch(Empty, c[20], 20, Empty), c[30], 30, Branch(Empty, c[40], 40, Empty)), c[50], 50, Branch(Branch(Empty, c[60], 60, Empty), c[70], 70, Empty)), 80, c[80])
      == Branch(Branch(Branch(Empty, c[20], 20, Empty), c[30], 30, Branch(Empty, c[40], 40, Empty)), c[50], 50, Branch(Branch(Empty, c[60], 60, Empty), c[70], 70, Branch(Empty, c[80], 80, Empty)));
    assert [80][1..] == [];
  }

  /**
   * The queries of the demonstration: the depths 0, 1 and 2 of the levels,
   * a missing key for -100, and the subtree at 30 holding 20 and 40.
   */
  lemma DemoQueries(c: map<int, Node>)
    requires forall k :: k in DemoKeys ==> k in c
    ensures var t := Grown(DemoKeys, c);
      && DepthOf(t, 50) == Ok(0)
      && DepthOf(t, 30) == Ok(1) && DepthOf(t, 70) == Ok(1)
      && DepthOf(t, 40) == Ok(2) && DepthOf(t, 60) == Ok(2)
      && DepthOf(t, 20) == Ok(2) && DepthOf(t, 80) == Ok(2)
      && DepthOf(t, -100) == KeyNotFound
      && Find(t, 30) == Branch(Branch(Empty, c[20], 20, Empty), c[30], 30, Branch(Empty, c[40], 40, Empty))
      && Find(t, -100) == Empty
  {
    DemoShape(c);
    assert DepthOf(Branch(Empty, c[20], 20, Empty), -100) == KeyNotFound;
    assert DepthOf(Branch(Branch(Empty, c[20], 20, Empty), c[30], 30, Branch(Empty, c[40], 40, Empty)), 20) == Ok(1) && DepthOf(Branch(Branch(Empty, c[20], 20, Empty), c[30], 30, Branch(Empty, c[40], 40, Empty)), 40) == Ok(1);
    assert DepthOf(Branch(Branch(Empty, c[20], 20, Empty), c[30], 30, Branch(Empty, c[40], 40, Empty)), -100) == KeyNotFound;
    assert DepthOf(Branch(Branch(Empty, c[60], 60, Empty), c[70], 70, Branch(Empty, c[80], 80, Empty)), 60) == Ok(1) && DepthOf(Branch(Branch(Empty, c[60], 60, Empty), c[70], 70, Branch(Empty, c[80], 80, Empty)), 80) == Ok(1);
    assert Find(Branch(Empty, c[20], 20, Empty), -100) == Empty;
  }

  /** The traversal of the demonstration visits 50, then 30 and 70, then 20, 40, 60 and 80; its greatest key is 80 and its least 20. */
  lemma DemoTraversal(c: map<int, Node>)
    requires forall k :: k in DemoKeys ==> k in c
    ensures LevelOrder(Grown(DemoKeys, c)) == [50, 30, 70, 20, 40, 60, 80]
    ensures Rightmost(Grown(DemoKeys, c)) == 80 && Leftmost(Grown(DemoKeys, c)) == 20
  {
    DemoShape(c);
    assert Height(Branch(Empty, c[20], 20, Empty)) == 1 && Height(Branch(Empty, c[40], 40, Empty)) == 1;
    assert Height(Branch(Empty, c[60], 60, Empty)) == 1 && Height(Branch(Empty, c[80], 80, Empty)) == 1;
    assert Height(Branch(Branch(Empty, c[20], 20, Empty), c[30], 30, Branch(Empty, c[40], 40, Empty))) == 2 && Height(Branch(Branch(Empty, c[60], 60, Empty), c[70], 70, Branch(Empty, c[80], 80, Empty))) == 2;
    assert Level(Branch(Branch(Empty, c[20], 20, Empty), c[30], 30, Branch(Empty, c[40], 40, Empty)), 1) == [20, 40] && Level(Branch(Branch(Empty, c[60], 60, Empty), c[70], 70, Branch(Empty, c[80], 80, Empty)), 1) == [60, 80];
    assert Row([Branch(Branch(Branch(Empty, c[20], 20, Empty), c[30], 30, Branch(Empty, c[40], 40, Empty)), c[50], 50, Branch(Branch(Empty, c[60], 60, Empty), c[70], 70, Branch(Empty, c[80], 80, Empty)))], 0) == [50];
    assert Level(Branch(Branch(Branch(Empty, c[20], 20, Empty), c[30], 30, Branch(Empty, c[40], 40, Empty)), c[50], 50, Branch(Branch(Empty, c[60], 60, Empty), c[70], 70, Branch(Empty, c[80], 80, Empty))), 1) == [30] + [70];
    assert Row([Branch(Branch(Branch(Empty, c[20], 20, Empty), c[30], 30, Branch(Empty, c[40], 40, Empty)), c[50], 50, Branch(Branch(Empty, c[60], 60, Empty), c[70], 70, Branch(Empty, c[80], 80, Empty)))], 1) == [30, 70];
    assert Level(Branch(Branch(Branch(Empty, c[20], 20, Empty), c[30], 30, Branch(Empty, c[40], 40, Empty)), c[50], 50, Branch(Branch(Empty, c[60], 60, Empty), c[70], 70, Branch(Empty, c[80], 80, Empty))), 2) == [20, 40] + [60, 80];
    assert Row([Branch(Branch(Branch(Empty, c[20], 20, Empty), c[30], 30, Branch(Empty, c[40], 40, Empty)), c[50], 50, Branch(Branch(Empty, c[60], 60, Empty), c[70], 70, Branch(Empty, c[80], 80, Empty)))], 2) == [20, 40, 60, 80];
    assert Rows([Branch(Branch(Branch(Empty, c[20], 20, Empty), c[30], 30, Branch(Empty, c[40], 40, Empty)), c[50], 50, Branch(Branch(Empty, c[60], 60, Empty), c[70], 70, Branch(Empty, c[80], 80, Empty)))], 0, 3) == [50] + [30, 70] + [20, 40, 60, 80];
  }

  /** The keys of the sample tree the removal scenarios start from. */
  const SampleKeys: seq<int> := [8, 3, 10, 1, 6, 14, 4, 7, 13]

  /** The sample tree: 8 at the root, 3 (over 1 and 6, itself over 4 and 7) on the left, 10 (over 14, over 13) on the right. */
  lemma SampleShape(c: map<int, Node>)
    requires forall k :: k in SampleKeys ==> k in c
    ensures Grown(SampleKeys, c) == Branch(Branch(Branch(Empty, c[1], 1, Empty), c[3], 3, Branch(Branch(Empty, c[4], 4, Empty), c[6], 6, Branch(Empty, c[7], 7, Empty))), c[8], 8, Branch(Empty, c[10], 10, Branch(Branch(Empty, c[13], 13, Empty), c[14], 14, Empty)))
  {
    assert Insert(Branch(Empty, c[8], 8, Empty), 3, c[3])
      == Branch(Branch(Empty, c[3], 3, Empty), c[8], 8, Empty);
    assert [3, 10, 1, 6, 14, 4, 7, 13][1..] == [10, 1, 6, 14, 4, 7, 13];
    assert Insert(Branch(Branch(Empty, c[3], 3, Empty), c[8], 8, Empty), 10, c[10])
      == Branch(Branch(Empty, c[3], 3, Empty), c[8], 8, Branch(Empty, c[10], 10, Empty));
    assert [10, 1, 6, 14, 4, 7, 13][1..] == [1, 6, 14, 4, 7, 13];
    assert Insert(Branch(Empty, c[3], 3, Empty), 1, c[1])
      == Branch(Branch(Empty, c[1], 1, Empty), c[3], 3, Empty);
    assert Insert(Branch(Branch(Empty, c[3], 3, Empty), c[8], 8, Branch(Empty, c[10], 10, Empty)), 1, c[1])
      == Branch(Branch(Branch(Empty, c[1], 1, Empty), c[3], 3, Empty), c[8], 8, Branch(Empty, c[10], 10, Empty));
    assert [1, 6, 14, 4, 7, 13][1..] == [6, 14, 4, 7, 13];
    assert Insert(Branch(Branch(Empty, c[1], 1, Empty), c[3], 3, Empty), 6, c[6])
      == Branch(Branch(Empty, c[1], 1, Empty), c[3], 3, Branch(Empty, c[6], 6, Empty));
    assert Insert(Branch(Branch(Branch(Empty, c[1], 1, Empty), c[3], 3, Empty), c[8], 8, Branch(Empty, c[10], 10, Empty)), 6, c[6])
      == Branch(Branch(Branch(Empty, c[1], 1, Empty), c[3], 3, Branch(Empty, c[6], 6, Empty)), c[8], 8, Branch(Empty, c[10], 10, Empty));
    assert [6, 14, 4, 7, 13][1..] == [14, 4, 7, 13];
    assert Insert(Branch(Empty, c[10], 10, Empty), 14, c[14])
      == Branch(Empty, c[10], 10, Branch(Empty, c[14], 14, Empty));
    assert Insert(Branch(Branch(Branch(Empty, c[1], 1, Empty), c[3], 3, Branch(Empty, c[6], 6, Empty)), c[8], 8, Branch(Empty, c[10], 10, Empty)), 14, c[14])
      == Branch(Branch(Branch(Empty, c[1], 1, Empty), c[3], 3, Branch(Empty, c[6], 6, Empty)), c[8], 8, Branch(Empty, c[10], 10, Branch(Empty, c[14], 14, Empty)));
    assert [14, 4, 7, 13][1..] == [4, 7, 13];
    assert Insert(Branch(Empty, c[6], 6, Empty), 4, c[4])
      == Branch(Branch(Empty, c[4], 4, Empty), c[6], 6, Empty);
    assert Insert(Branch(Branch(Empty, c[1], 1, Empty), c[3], 3, Branch(Empty, c[6], 6, Empty)), 4, c[4])
      == Branch(Branch(Empty, c[1], 1, Empty), c[3], 3, Branch(Branch(Empty, c[4], 4, Empty), c[6], 6, Empty));
    assert Insert(Branch(Branch(Branch(Empty, c[1], 1, Empty), c[3], 3, Branch(Empty, c[6], 6, Empty)), c[8], 8, Branch(Empty, c[10], 10, Branch(Empty, c[14], 14, Empty))), 4, c[4])
      == Branch(Branch(Branch(Empty, c[1], 1, Empty), c[3], 3, Branch(Branch(Empty, c[4], 4, Empty), c[6], 6, Empty)), c[8], 8, Branch(Empty, c[10], 10, Branch(Empty, c[14], 14, Empty)));
    assert [4, 7, 13][1..] == [7, 13];
    assert Insert(Branch(Branch(Empty, c[4], 4, Empty), c[6], 6, Empty), 7, c[7])
      == Branch(Branch(Empty, c[4], 4, Empty), c[6], 6, Branch(Empty, c[7], 7, Empty));
    assert Insert(Branch(Branch(Empty, c[1], 1, Empty), c[3], 3, Branch(Branch(Empty, c[4], 4, Empty), c[6], 6, Empty)), 7, c[7])
      == Branch(Branch(Empty, c[1], 1, Empty), c[3], 3, Branch(Branch(Empty, c[4], 4, Empty), c[6], 6, Branch(Empty, c[7], 7, Empty)));
    assert Insert(Branch(Branch(Branch(Empty, c[1], 1, Empty), c[3], 3, Branch(Branch(Empty, c[4], 4, Empty), c[6], 6, Empty)), c[8], 8, Branch(Empty, c[10], 10, Branch(Empty, c[14], 14, Empty))), 7, c[7])
      == Branch(Branch(Branch(Empty, c[1], 1, Empty), c[3], 3, Branch(Branch(Empty, c[4], 4, Empty), c[6], 6, Branch(Empty, c[7], 7, Empty))), c[8], 8, Branch(Empty, c[10], 10, Branch(Empty, c[14], 14, Empty)));
    assert [7, 13][1..] == [13];
    assert Insert(Branch(Empty, c[14], 14, Empty), 13, c[13])
      == Branch(Branch(Empty, c[13], 13, Empty), c[14], 14, Empty);
    assert Insert(Branch(Empty, c[10], 10, Branch(Empty, c[14], 14, Empty)), 13, c[13])
      == Branch(Empty, c[10], 10, Branch(Branch(Empty, c[13], 13, Empty), c[14], 14, Empty));
    assert Insert(Branch(Branch(Branch(Empty, c[1], 1, Empty), c[3], 3, Branch(Branch(Empty, c[4], 4, Empty), c[6], 6, Branch(Empty, c[7], 7, Empty))), c[8], 8, Branch(Empty, c[10], 10, Branch(Empty, c[14], 14, Empty))), 13, c[13])
      == Branch(Branch(Branch(Empty, c[1], 1, Empty), c[3], 3, Branch(Branch(Empty, c[4], 4, Empty), c[6], 6, Branch(Empty, c[7], 7, Empty))), c[8], 8, Branch(Empty, c[10], 10, Branch(Branch(Empty, c[13], 13, Empty), c[14], 14, Empty)));
    assert [13][1..] == [];
  }

  /**
   * The removals the programs describe on the sample tree: removing the leaf
   * 1 empties the left link of 3; removing 10, which has one child, lifts 14
   * into its place; removing the root key 8 leaves 10 at the root over 3 and
   * 14. Removing -100 is a missing key. As written, the removal of 8 fails
   * with a type error while the other two agree with the intended removal.
   */
  lemma SampleRemovals(c: map<int, Node>)
    requires forall k :: k in SampleKeys ==> k in c
    ensures var t := Grown(SampleKeys, c);
      && Delete(t, 1).Branch? && Delete(t, 1).left.Branch? && Delete(t, 1).left.left == Empty
      && Delete(t, 10).Branch? && Delete(t, 10).right.Branch? && Delete(t, 10).right.value == 14
      && Delete(t, 8).Branch? && Delete(t, 8).value == 10
      && Delete(t, 8).left.Branch? && Delete(t, 8).left.value == 3
      && Delete(t, 8).right.Branch? && Delete(t, 8).right.value == 14
      && DeleteAsWritten(t, -100) == KeyMissing
      && DeleteAsWritten(t, 8) == TypeError
      && DeleteAsWritten(t, 1) == Removed(Delete(t, 1))
      && DeleteAsWritten(t, 10) == Removed(Delete(t, 10))
  {
    SampleShape(c);
    assert Delete(Branch(Empty, c[1], 1, Empty), 1) == Empty;
    assert DeleteAsWritten(Branch(Empty, c[1], 1, Empty), 1) == Removed(Empty);
    assert DeleteAsWritten(Branch(Branch(Empty, c[1], 1, Empty), c[3], 3, Branch(Branch(Empty, c[4], 4, Empty), c[6], 6, Branch(Empty, c[7], 7, Empty))), 1) == Removed(Branch(Empty, c[3], 3, Branch(Branch(Empty, c[4], 4, Empty), c[6], 6, Branch(Empty, c[7], 7, Empty))));
    assert DeleteAsWritten(Branch(Empty, c[1], 1, Empty), -100) == KeyMissing;
    assert DeleteAsWritten(Branch(Branch(Empty, c[1], 1, Empty), c[3], 3, Branch(Branch(Empty, c[4], 4, Empty), c[6], 6, Branch(Empty, c[7], 7, Empty))), -100) == KeyMissing;
  }
}
