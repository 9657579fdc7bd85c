/// Breadth-first order, defined level by level and related to the work queue of the traversal.
module Breadth {
  import opened Trees

  /** The non-empty children of a branch, left before right: what the traversal enqueues after visiting it. */
  function Children(t: Tree): seq<Tree> {
    if t.Empty? then []
    else (if t.left.Branch? then [t.left] else []) + (if t.right.Branch? then [t.right] else [])
  }

  /** Level `d` of each tree of a queue, tree after tree. */
  function Row(q: seq<Tree>, d: nat): seq<int> {
    if q == [] then [] else Level(q[0], d) + Row(q[1..], d)
  }

  /** Rows `d` to `d + n - 1` of a queue, one after another. */
  function Rows(q: seq<Tree>, d: nat, n: nat): seq<int>
    decreases n
  {
    if n == 0 then [] else Row(q, d) + Rows(q, d + 1, n - 1)
  }

  /** Breadth-first order: level 0, then level 1, and so on, each level from left to right. */
  function LevelOrder(t: Tree): seq<int> {
    Rows([t], 0, Height(t))
  }

  /** The keys of all trees of a queue. */
  function ForestElems(q: seq<Tree>): multiset<int> {
    if q == [] then multiset{} else Elems(q[0]) + ForestElems(q[1..])
  }

  lemma {:induction false} RowAppend(a: seq<Tree>, b: seq<Tree>, d: nat)
    ensures Row(a + b, d) == Row(a, d) + Row(b, d)
  {
    if a == [] {
      assert a + b == b;
    } else {
      assert (a + b)[1..] == a[1..] + b;
      RowAppend(a[1..], b, d);
    }
  }

  lemma {:induction false} RowsSnoc(q: seq<Tree>, d: nat, n: nat)
    ensures Rows(q, d, n + 1) == Rows(q, d, n) + Row(q, d + n)
    decreases n
  {
    if n > 0 {
      RowsSnoc(q, d + 1, n - 1);
    }
  }

  lemma {:induction false} RowsNil(d: nat, n: nat)
    ensures Rows([], d, n) == []
    decreases n
  {
    if n > 0 {
      RowsNil(d + 1, n - 1);
    }
  }

  /** The children of a branch are branches, each lower than it. */
  lemma ChildrenShape(t: Tree)
    requires t.Branch?
    ensures forall i :: 0 <= i < |Children(t)| ==> Children(t)[i].Branch? && Height(Children(t)[i]) < Height(t)
  {
  }

  /** The level below `d` of a branch is level `d` of its children. */
  lemma LevelOfChildren(t: Tree, d: nat)
    requires t.Branch?
    ensures Level(t, d + 1) == Row(Children(t), d)
  {
    var l, r := t.left, t.right;
    assert Level(t, d + 1) == Level(l, d) + Level(r, d);
    assert Row([], d) == [];
    if l.Branch? && r.Branch? {
      assert Children(t) == [l, r] && [l, r][1..] == [r];
      assert Row([r], d) == Level(r, d) + Row([], d);
    } else if l.Branch? {
      assert Children(t) == [l] && Level(r, d) == [];
    } else if r.Branch? {
      assert Children(t) == [r] && Level(l, d) == [];
    } else {
      assert Children(t) == [];
    }
  }

  /**
   * Regrouping the rows: with `c` the children of `t`,
   * row `d` of `q`, then rows `d + 1 ..` of `[t] + q`, equals rows `d ..` of
   * `q + c` followed by the row of `q` that comes after them.
   */
  lemma {:induction false} Interleave(t: Tree, q: seq<Tree>, d: nat, n: nat)
    requires t.Branch?
    ensures Row(q, d) + Rows([t] + q, d + 1, n) == Rows(q + Children(t), d, n) + Row(q, d + n)
    decreases n
  {
    if n > 0 {
      var c := Children(t);
      assert ([t] + q)[1..] == q;
      LevelOfChildren(t, d);
      assert Row([t] + q, d + 1) == Row(c, d) + Row(q, d + 1);
      Interleave(t, q, d + 1, n - 1);
      RowAppend(q, c, d);
      Regroup(Row(q, d), Row(c, d), Row(q, d + 1), Rows([t] + q, d + 2, n - 1), Rows(q + c, d + 1, n - 1), Row(q, d + n));
    }
  }

  /** Sequence concatenation regrouped; kept apart so that `Interleave` stays within its resource budget. */
  lemma Regroup(a: seq<int>, b: seq<int>, c: seq<int>, d: seq<int>, r: seq<int>, e: seq<int>)
    requires c + d == r + e
    ensures a + ((b + c) + d) == ((a + b) + r) + e
  {
    assert a + ((b + c) + d) == (a + b) + (c + d);
    assert ((a + b) + r) + e == (a + b) + (r + e);
  }

  /**
   * One step of the traversal: dequeuing the branch `t`, emitting its key and
   * enqueuing its children leaves the breadth-first order of the queue as it
   * was, once the emitted key is put in front. `h` bounds the height of `t`.
   */
  lemma DequeueStep(t: Tree, q: seq<Tree>, h: nat)
    requires t.Branch? && Height(t) <= h
    ensures Rows([t] + q, 0, h) == [t.value] + Rows(q + Children(t), 0, h)
  {
    FrontRow(t, q, h);
    Interleave(t, q, 0, h - 1);
    BackRow(t, q, h);
  }

  /** The first row of a queue headed by `t` starts with `t`'s key. */
  lemma FrontRow(t: Tree, q: seq<Tree>, h: nat)
    requires t.Branch? && Height(t) <= h
    ensures Rows([t] + q, 0, h) == [t.value] + (Row(q, 0) + Rows([t] + q, 1, h - 1))
  {
    assert ([t] + q)[1..] == q;
    assert Row([t] + q, 0) == [t.value] + Row(q, 0);
  }

  /** The children of `t` contribute nothing to the row below `t`'s last level. */
  lemma BackRow(t: Tree, q: seq<Tree>, h: nat)
    requires t.Branch? && Height(t) <= h
    ensures Rows(q + Children(t), 0, h) == Rows(q + Children(t), 0, h - 1) + Row(q, h - 1)
  {
    var c := Children(t);
    assert Row(c, h - 1) == [] by {
      LevelOfChildren(t, h - 1);
      LevelBeyond(t, h);
    }
    RowsSnoc(q + c, 0, h - 1);
    RowAppend(q, c, h - 1);
  }

  lemma {:induction false} ForestElemsAppend(a: seq<Tree>, b: seq<Tree>)
    ensures ForestElems(a + b) == ForestElems(a) + ForestElems(b)
  {
    if a == [] {
      assert a + b == b;
    } else {
      assert (a + b)[1..] == a[1..] + b;
      ForestElemsAppend(a[1..], b);
    }
  }

  /** The children of a branch hold all its keys but its own. */
  lemma ChildrenElems(t: Tree)
    requires t.Branch?
    ensures Elems(t) == multiset{t.value} + ForestElems(Children(t))
  {
    var l, r := t.left, t.right;
    var left := if l.Branch? then [l] else [];
    var right := if r.Branch? then [r] else [];
    assert Children(t) == left + right;
    ForestElemsAppend(left, right);
    if l.Branch? { ForestSingle(l); }
    if r.Branch? { ForestSingle(r); }
  }

  lemma ForestSingle(t: Tree)
    ensures ForestElems([t]) == Elems(t)
  {
    assert [t][1..] == [];
  }

  /**
   * Dequeuing the branch `t` from the front of the queue and enqueuing its
   * children at the back takes exactly `t`'s key out of the keys still queued.
   */
  lemma DequeueElems(t: Tree, q: seq<Tree>)
    requires t.Branch?
    ensures ForestElems([t] + q) == multiset{t.value} + ForestElems(q + Children(t))
    ensures |ForestElems(q + Children(t))| < |ForestElems([t] + q)|
  {
    assert ([t] + q)[1..] == q;
    ForestElemsAppend(q, Children(t));
    ChildrenElems(t);
  }

  /** Going through a queue level by level emits every key of every tree in it, each as often as it is stored. */
  lemma {:induction false} RowsElems(q: seq<Tree>, h: nat)
    requires forall i :: 0 <= i < |q| ==> q[i].Branch? && Height(q[i]) <= h
    ensures multiset(Rows(q, 0, h)) == ForestElems(q)
    decreases |ForestElems(q)|
  {
    if q == [] {
      RowsNil(0, h);
    } else {
      var t, rest := q[0], q[1..];
      var c := Children(t);
      assert q == [t] + rest;
      DequeueStep(t, rest, h);
      ForestElemsAppend(rest, c);
      ChildrenElems(t);
      ChildrenShape(t);
      assert forall i :: 0 <= i < |rest + c| ==> (rest + c)[i].Branch? && Height((rest + c)[i]) <= h by {
        forall i | 0 <= i < |rest + c| ensures (rest + c)[i].Branch? && Height((rest + c)[i]) <= h {
          if i < |rest| { assert (rest + c)[i] == q[i + 1]; } else { assert (rest + c)[i] == c[i - |rest|]; }
        }
      }
      RowsElems(rest + c, h);
    }
  }

  /**
   * Where a breadth-first traversal of `t` stands: `visited` keys were emitted
   * and the queue holds the subtrees `pending`; emitting the breadth-first
   * order of the queue after `visited` gives the order of `t`, and the keys
   * emitted and still queued are together those of `t`.
   */
  ghost predicate Progress(t: Tree, visited: seq<int>, pending: seq<Tree>) {
    && visited + Rows(pending, 0, Height(t)) == LevelOrder(t)
    && multiset(visited) + ForestElems(pending) == Elems(t)
  }

  /** One dequeue step keeps the traversal on course and leaves fewer keys to queue. */
  lemma ProgressStep(t: Tree, visited: seq<int>, head: Tree, rest: seq<Tree>)
    requires head.Branch? && Height(head) <= Height(t)
    requires Progress(t, visited, [head] + rest)
    ensures Progress(t, visited + [head.value], rest + Children(head))
    ensures |ForestElems(rest + Children(head))| < |ForestElems([head] + rest)|
  {
    StepOrder(Height(t), visited, head, rest, LevelOrder(t));
    StepElems(visited, head, rest, Elems(t));
  }

  lemma StepOrder(h: nat, visited: seq<int>, head: Tree, rest: seq<Tree>, order: seq<int>)
    requires head.Branch? && Height(head) <= h
    requires visited + Rows([head] + rest, 0, h) == order
    ensures (visited + [head.value]) + Rows(rest + Children(head), 0, h) == order
  {
    DequeueStep(head, rest, h);
    var after := Rows(rest + Children(head), 0, h);
    assert (visited + [head.value]) + after == visited + ([head.value] + after);
  }

  lemma StepElems(visited: seq<int>, head: Tree, rest: seq<Tree>, all: multiset<int>)
    requires head.Branch?
    requires multiset(visited) + ForestElems([head] + rest) == all
    ensures multiset(visited + [head.value]) + ForestElems(rest + Children(head)) == all
    ensures |ForestElems(rest + Children(head))| < |ForestElems([head] + rest)|
  {
    DequeueElems(head, rest);
    assert multiset(visited + [head.value]) == multiset(visited) + multiset{head.value};
  }

  /** A traversal starts with the whole tree queued and nothing emitted. */
  lemma ProgressStart(t: Tree)
    requires t.Branch?
    ensures Progress(t, [], [t])
  {
    LevelOrderElems(t);
    assert [t][1..] == [];
  }

  /** A traversal whose queue is empty has emitted the breadth-first order. */
  lemma ProgressDone(t: Tree, visited: seq<int>)
    requires Progress(t, visited, [])
    ensures visited == LevelOrder(t) && multiset(visited) == Elems(t)
  {
    RowsNil(0, Height(t));
  }

  /** The breadth-first order starts at the root. */
  lemma LevelOrderRootFirst(t: Tree)
    requires t.Branch?
    ensures |LevelOrder(t)| > 0 && LevelOrder(t)[0] == t.value
  {
    DequeueStep(t, [], Height(t));
  }

  /** The breadth-first order holds every key of the tree, each as often as it is stored. */
  lemma LevelOrderElems(t: Tree)
    ensures multiset(LevelOrder(t)) == Elems(t)
  {
    if t.Empty? {
      RowsNil(1, Height(t));
    } else {
      RowsElems([t], Height(t));
    }
  }
}
