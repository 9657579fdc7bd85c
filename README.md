# Unbalanced binary search tree of integer keys

The repository implements the same binary search tree twice, once in Python
(`python/main.py`) and once in TypeScript (`typescript/index.ts`). A tree is a
handle on a root cell. Each cell holds an integer key and nullable `left` and
`right` links. Insertion walks down from the root and hangs a fresh leaf on
the first null link it reaches, so the tree is never rebalanced. The handle
also answers these queries:

- the depth of a key ("node height");
- a search that returns a new handle sharing the found cell;
- a breadth-first traversal;
- the greatest and least keys.

The Python version also removes a key recursively, in place.

The model keeps the source's imperative form:

- `Cells.Node` is a class with the three mutable fields.
- Each handle is a class (`PythonBst.BinarySearchTree`, `TypeScriptBst.BinarySearchTree`) holding `root`.
- Every walk is a `while` loop over the cells, proved against a specification
  function of a ghost shape.
- The shape is the datatype `Trees.Tree`. It records, at every position, the
  cell found there and the key that cell holds.
- `Links.Linked(t)` ties the heap to the shape. The handle invariant `Valid()`
  says that the cells below `root` are linked as a shape that is a binary
  search tree.
- Errors that the source raises (`ValueError` in Python, `Error` in
  TypeScript) become the `KeyNotFound` case of `Outcomes.Outcome`.

These are the specification functions:

- `Updates.Insert` and `Updates.Delete` for the two updates;
- `Descent.DepthOf` and `Descent.Find` for the descent;
- `Breadth.LevelOrder` for the traversal (the keys level by level, each level from left to right);
- `Trees.Leftmost` and `Trees.Rightmost` for the extremes.

Lemmas relate these functions to the set of keys and to the ordering.

Two behaviours of the Python `remove` are worth knowing:

- At `python/main.py:125`, the two-children case calls `self.min(_node.right)`.
  But `min` (`python/main.py:89`) takes no argument, so as written that call
  raises a `TypeError`. `RemovalAsWritten.DeleteAsWritten` models the code as
  written. The class's `RemoveAt` and `Updates.Delete` model the evidently
  intended least key of the right subtree, which is what the TypeScript
  `min(node)` computes (see Findings).
- The top-level `remove` returns the new subtree root but never stores it in
  `self.root`. Suppose the key sits in the root cell and that cell has fewer
  than two children. The call then returns the child (or `None`) and the
  handle's tree stays as it was. `PythonBst.BinarySearchTree.Remove` states
  exactly this.

## Model

| member | source | states |
|---|---|---|
| Cells.Node.constructor | python/main.py:7-13 | A new cell holds the given key and has both links null (also `typescript/index.ts:3-11`). |
| PythonBst.BinarySearchTree.constructor | python/main.py:19-23 | Given a cell, the handle's root is that very cell over its existing tree. Otherwise the handle's root is a fresh one-cell tree holding the key, and its footprint is fresh too. Either way the handle is valid. |
| PythonBst.BinarySearchTree.Insert | python/main.py:25-40 | For a key not yet stored, the root stays the same and the keys become the old keys plus the new one. The shape becomes `Updates.Insert` of the old shape, the ordering is kept, and exactly one cell gains the fresh leaf on its previously null left link (its key is greater) or right link (otherwise). No other cell changes. |
| PythonBst.BinarySearchTree.GetNodeHeight | python/main.py:42-55 | The count is the descent depth `DepthOf`, and the key sits on that level of the tree. The error is raised exactly when the key is absent. |
| PythonBst.BinarySearchTree.Search | python/main.py:57-68 | When the key is present: a fresh, valid handle whose root is the cell holding the key, whose tree is that subtree of this tree (shared, not copied), and whose cells are among this tree's. The error is raised exactly when the key is absent. |
| PythonBst.BinarySearchTree.DegreeTraversal | python/main.py:70-78 | The keys visited by the queue loop are the breadth-first order `LevelOrder`. Each key is visited exactly once (as a multiset, the visited keys are the stored keys), starting with the root's key. |
| PythonBst.BinarySearchTree.Max | python/main.py:80-87 | The result is the rightmost cell's key, which is stored and is at least every stored key. |
| PythonBst.BinarySearchTree.Min | python/main.py:89-96 | The result is the leftmost cell's key, which is stored and is at most every stored key. |
| PythonBst.BinarySearchTree.RemoveAt | python/main.py:98-128 | The error is raised exactly when the key is absent, and then no cell changes. Otherwise the cells now linked form `Updates.Delete` of the old shape and the result is its root cell. The result is the cell the call started at exactly when the key was not in that cell or that cell had two children. When the result is another cell (or null), no cell changed. Every cell that leaves the tree is left exactly as it was. |
| PythonBst.BinarySearchTree.Remove | python/main.py:98-128 | The root stays the same and the handle stays valid. The error is raised exactly when the key is absent, and the tree is then unchanged. When the key is not in the root cell, or the root has two children, the tree becomes `Delete` of the old tree. When the key is in a root with fewer than two children, the result is the root of `Delete` of the old tree, it is not the handle's root, and the tree is unchanged. Every cell that leaves the tree is left exactly as it was. |
| TypeScriptBst.BinarySearchTree.FromValue | typescript/index.ts:16-22 | Given a number, the handle holds a fresh one-cell tree with that key, and its footprint is fresh. |
| TypeScriptBst.BinarySearchTree.FromNode | typescript/index.ts:16-22 | Given a cell, the handle's root is that very cell over its existing tree. |
| TypeScriptBst.BinarySearchTree.Insert | typescript/index.ts:24-44 | Same contract as the Python insertion: the keys gain the new key, the shape becomes `Insert` of the old one and stays ordered, one null link receives the leaf and nothing else changes. |
| TypeScriptBst.BinarySearchTree.GetNodeHeight | typescript/index.ts:46-64 | The count is `DepthOf` and the key is on that level. The error is thrown exactly when the key is absent. |
| TypeScriptBst.BinarySearchTree.Search | typescript/index.ts:66-80 | A fresh valid handle on the cell holding the key, sharing its subtree. The error is thrown exactly when the key is absent. |
| TypeScriptBst.BinarySearchTree.LevelOrderTraversal | typescript/index.ts:82-94 | The visited keys are `LevelOrder`: each key once, the root's key first. |
| TypeScriptBst.BinarySearchTree.Max | typescript/index.ts:96-106 | The rightmost key, which is the greatest stored key. |
| TypeScriptBst.BinarySearchTree.Min | typescript/index.ts:108-118 | Without a cell, the leftmost key of the whole tree, which is the least. With a cell, the leftmost key below that cell, which is a key of that subtree and is its least key when the subtree is ordered. |
| Walks.InsertLeaf | python/main.py:26-40 | The walk stops at `ParentOf`, whose link on the side given by the key comparison was null. That link now points to the fresh leaf, and the cells form `Insert(t, value, leaf)`. The key of every cell is unchanged, and no other cell changes (also `typescript/index.ts:25-43`). |
| Walks.DepthTo | python/main.py:43-55 | The loop's count equals `DepthOf(t, value)`. In an ordered tree it fails exactly when the key is absent, and a found key lies on the level given by the count. |
| Walks.Locate | python/main.py:58-67 | The loop stops at the cell rooting `Find(t, value)`, which holds the key. It fails exactly when there is no such subtree, which in an ordered tree is exactly when the key is absent. |
| Walks.RightmostValue | python/main.py:81-87 | The loop's last right-null key is `Rightmost(t)`: a stored key, and in an ordered tree the greatest. |
| Walks.LeftmostValue | python/main.py:90-96 | The loop's last left-null key is `Leftmost(t)`: a stored key, and in an ordered tree the least. |
| Walks.ChildCells | python/main.py:75-78 | The cells appended to the queue are the non-null children, left before right, and they match the child subtrees. |
| Walks.BreadthFirst | python/main.py:71-78 | The queue loop visits exactly `LevelOrder(t)`, and each stored key as often as it is stored (also `typescript/index.ts:83-93`). |
| Trees.Leftmost | python/main.py:89-96 | Following left links ends at a stored key, which in an ordered tree is at most every key. |
| Trees.Rightmost | python/main.py:80-87 | Following right links ends at a stored key, which in an ordered tree is at least every key. |
| Trees.BstElems | python/main.py:70-78 | In an ordered tree every key is stored once: the multiset of keys is the set of keys. |
| Trees.BstIffInOrderIncreasing | python/main.py:31-36 | The ordering that insertion keeps holds exactly when the in-order key sequence is strictly increasing (both directions). |
| Trees.SubtreeOf | python/main.py:68 | A subtree handed out by search has only keys and cells of the whole tree, is no taller, and is ordered when the tree is. |
| Descent.DepthFound | python/main.py:45-54 | In an ordered tree the descent finds a depth exactly when the key is stored. |
| Descent.DepthIsLevel | python/main.py:42-55 | In an ordered tree the descent returns depth `d` exactly when the key is on level `d` (both directions). |
| Descent.FindFound | python/main.py:59-67 | In an ordered tree the lookup yields a subtree exactly when the key is stored, and that subtree's root holds the key. |
| Descent.FindIsSubtree | python/main.py:68 | The lookup yields a part of the tree made of its own cells, not a copy. |
| Updates.InsertContents | python/main.py:37-40 | Insertion adds exactly the new key and the new cell and keeps the root cell. |
| Updates.InsertOrdered | python/main.py:29-40 | Inserting an absent key keeps the tree ordered. |
| Updates.InsertDistinct | python/main.py:26-40 | Inserting a fresh cell keeps every cell at a single position. |
| Updates.ParentIn | python/main.py:28-30 | The cell that receives the new leaf is a cell of the tree. |
| Updates.DeleteOrdered | python/main.py:98-128 | Removal takes out exactly the removed key (the keys become the old keys minus it) and keeps the tree ordered. |
| Updates.DeleteNodes | python/main.py:114-128 | Removal introduces no cell and keeps every cell at a single position. |
| Updates.DeleteDropsOne | python/main.py:98-128 | Removing a stored key from an ordered tree without shared cells drops exactly one cell: the tree has one cell fewer afterwards. |
| Updates.DeleteAbsent | python/main.py:105-113 | Removing an absent key changes nothing. |
| Breadth.LevelOfChildren | python/main.py:75-78 | The next level of a tree is the current level of its children, left before right. |
| Breadth.DequeueStep | python/main.py:72-78 | Taking a tree off the front of the queue and putting its children at the back emits its key and keeps the rest of the order. |
| Breadth.DequeueElems | python/main.py:72-78 | That step removes exactly the emitted key from the queued keys, so the loop terminates. |
| Breadth.ProgressStep | python/main.py:72-78 | The loop invariant holds again after one iteration, with fewer keys still queued. |
| Breadth.ProgressDone | python/main.py:72 | When the queue is empty the visited keys are the breadth-first order and all keys. |
| Breadth.LevelOrderRootFirst | python/main.py:71 | The traversal starts with the root's key. |
| Breadth.LevelOrderElems | python/main.py:70-78 | The breadth-first order holds every stored key as often as it is stored. |
| Links.LinkedDistinct | python/main.py:7-10 | Cells linked as an ordered tree occupy a single position each: the links form a tree, with no sharing. |
| Links.CellValue | python/main.py:7-10 | Every cell of a linked tree holds one of its keys. |
| Links.SubtreeLinked | python/main.py:68 | The cells below any cell of a linked tree are linked as that subtree. |
| Links.ParentSlotEmpty | python/main.py:37-40 | The link on which insertion hangs the leaf is null. |
| Links.InsertLinked | python/main.py:37-40 | Setting that one link to the fresh leaf makes the cells realise `Insert` of the shape. |
| Links.RelinkLeft | python/main.py:108 | Storing the new left subtree root in a cell relinks the shape with that subtree. |
| Links.RelinkRight | python/main.py:113 | Storing the new right subtree root, and in the two-children case the successor key, relinks the shape (also lines 126-127). |
| Links.LinkedStable | python/main.py:98-128 | A linked tree stays linked when none of its cells changes. |
| RemovalAsWritten.DeleteAsWritten | python/main.py:98-128 | The recursive removal as written: a missing child on the way down is a missing key, a key cell with two children is a type error, and otherwise the cell gives way to null or its one child. It fails with a type error or removes only when the key is stored, and what it leaves holds only keys and cells the tree already had. |
| RemovalAsWritten.AsWrittenAgrees | python/main.py:98-128 | In an ordered tree, the removal as written reports a missing key exactly when the key is absent. It fails with a type error exactly when the key's cell has two children. Otherwise it agrees with `Updates.Delete`. |
| RemovalAsWritten.RootRemovalFails | python/main.py:226-231 | On the sample tree's shape, removing the root key 8 fails as written, whereas the intended removal leaves 10 at the root over 3 and 14. |
| Scenarios.InsertAllOrdered | python/main.py:132-139 | Inserting keys that are new and not repeated, one by one, keeps the tree ordered and adds exactly those keys. |
| Scenarios.GrownOrdered | python/main.py:202-214 | A tree built from a key and then the remaining, non-repeated keys is ordered and holds exactly those keys. |
| Scenarios.DemoShape | python/main.py:132-152 | Inserting 50, 30, 70, 40, 60, 20 and 80 gives 50 at the root, 30 and 70 below it, then 20, 40, 60 and 80. |
| Scenarios.DemoQueries | python/main.py:154-191 | On that tree: the depths are 0, 1 and 2 by level, -100 is missing, and the subtree at 30 holds 20 and 40. |
| Scenarios.DemoTraversal | python/main.py:193-200 | On that tree: the breadth-first order is 50, 30, 70, 20, 40, 60, 80, the greatest key is 80 and the least is 20. |
| Scenarios.SampleShape | python/main.py:202-214 | Inserting 8, 3, 10, 1, 6, 14, 4, 7 and 13 gives the expected shape. |
| Scenarios.SampleRemovals | python/main.py:216-239 | On the sample tree, the intended removals behave as follows. Removing 1 empties the left link of 3. Removing 10 lifts 14. Removing 8 leaves 10 over 3 and 14. As written, removing -100 is a missing key, removing 8 raises the type error, and removing 1 or 10 agrees with the intended removal. |

## Findings

| source | as written | input that shows it | evidently intended | confidence | as-written member | corrected member |
|---|---|---|---|---|---|---|
| python/main.py:125 | `self.min(_node.right)` passes a cell to `min`, whose signature at `python/main.py:89` takes no argument, so removing a key whose cell has two children raises `TypeError` before any link changes | `make_bst()` then `remove(8)`: the root 8 has the children 3 and 10 | the least key of the right subtree becomes the cell's key and is removed from the right subtree, as the TypeScript `min(node)` at `typescript/index.ts:108-118` computes; the commented-out test at `python/main.py:226-231` expects the root to hold 10 afterwards | high; not executed | RemovalAsWritten.RootRemovalFails | Updates.DeleteOrdered |

## Left out

- Output: the Python `degree_traversal` and the TypeScript `levelOrderTraversal` write each key followed by `->` to standard output. The model returns the sequence of visited keys instead.
- PythonBst.BinarySearchTree.constructor: requires a key or a cell. Without either, the source leaves `root` unset, and every later operation fails with an attribute error.
- PythonBst.BinarySearchTree.Insert: requires the key to be absent. With a stored key, the source's loop finds a cell whose key equals the key, takes neither branch, and never terminates (`python/main.py:29-36`).
- TypeScriptBst.BinarySearchTree.Insert: requires the key to be absent for the same reason (`typescript/index.ts:28-38`).
- Handles are modelled one at a time. A `search` result shares its cells with the handle it came from, but each handle keeps its own ghost tree and footprint. After a change through one handle, the other handle's ghost tree is not kept up to date. An insert through a search view may also break the ordering of the tree it came from, because the view checks only its own subtree's keys.
- The `node` parameter of the Python `search` is overwritten on entry (`python/main.py:57-58`), so it is not modelled.
- The `None`/`null` results of `max` and `min` cannot occur, because a handle always has a root cell. The model returns a plain integer.
- `Insert` returns a ghost `leaf` that names the fresh cell. Constructors and the TypeScript `Min` take a ghost tree describing the cells below a given cell. The source has neither; they exist only to state the contracts.
- The TypeScript `remove` is commented out (`typescript/index.ts:120-154`), so it is not part of the program and is not modelled.
- The class's `RemoveAt` takes the successor with the intended least-key walk rather than the failing `min` call. The as-written behaviour is `RemovalAsWritten.DeleteAsWritten` (see Findings).
- Keys are unbounded integers. Python integers are unbounded too. TypeScript `number` is a double, so keys beyond 2^53 or with fractions are not modelled.
- The Python and TypeScript demonstration scripts and the commented-out removal tests are stated as lemmas on the tree shapes they build (`Scenarios`), not as calls on the handle classes.
- Exceptions are not modelled as control flow. A raised `ValueError`/`Error` is the `KeyNotFound` result, and the Python removal's `TypeError` is the `TypeError` case of `RemovalAsWritten.Removal`.
