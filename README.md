# Binary search tree, modelled in Dafny

This project models `BinarySearchTree` from `src/BinarySearchTree.js`. It is an
unbalanced binary search tree in which every node is also the root of its own
subtree. Each node holds a `key`, a `value`, a `parent` back-link and two child
links. An empty tree is a single node whose key and value are `null`.

The model has two layers:

- `Bst` (bst.dfy) is the node graph as it lives on the heap. The class
  `Bst.BinarySearchTree` has the same five fields as the source. It also has a
  ghost footprint `Repr`, an invariant `Valid()` and an abstraction `Model()`
  that reads the tree value. The following change nodes in place or push onto
  an accumulator, as the source does, and are imperative methods:
  - `insert`
  - `remove`, with its helper `_replaceWith`
  - the three depth-first walks
  - the queue-driven `bfs` loop

  `isBST` is an imperative method too: it walks the in-order array with a
  loop.

  `_findMin` only follows `left` links, so it is a function on the heap
  (`Bst.BinarySearchTree.FindMin`), tied to `TreeModel.FindMin`. `insert`,
  `remove`, the walks, `bfs` and `isBST` are proved against functions of
  `TreeModel`. `_replaceWith` is specified directly by the links and fields
  it leaves behind; `remove` then ties its effect to `TreeModel.Remove`.
- `TreeModel` (tree_model.dfy) is the tree as a value: `Nil` for an absent
  child, `Empty` for the keyless root, and `Node` for a keyed node. It holds
  the value-level definitions of the mutations. It also holds the operations
  that only follow the shape, written as functions: `find`, `_findMin`,
  `getHeight`, `countLeaves`, `isBalancedBST` and `findKthLargestValue`. The
  lemmas about all of them are here too.

`Values` (values.dfy) holds JavaScript `null` and numbers, the `<` used on
them, and the two exceptions the source can throw. `Scenarios` (scenarios.dfy)
works out small concrete trees.

Keys are integers. Values are `null` or integers, because `isBST` compares
values with `<`. The ordering invariant is: every key in a left subtree is
strictly less than the node's key, and every key in a right subtree is greater
than or equal to it. Equal keys therefore go right and can repeat.

The model follows the code in these places:

- `findKthLargestValue` gives no value when `k` exceeds the size. It also gives
  no value when `k <= 0`, because that index runs past the end of the in-order
  array. Neither case raises an error.
- `isBST` compares the in-order values, not the keys.
- `isBalancedBST` checks one level only.
- `remove` at the root does not keep the parent links consistent (see
  Findings).

## Model

| member | source | states |
|---|---|---|
| `Bst.BinarySearchTree.constructor` | src/BinarySearchTree.js:4-10 | a new node has the given key, value and parent and no children; with a `null` key it is the empty tree |
| `Bst.BinarySearchTree.Insert` | src/BinarySearchTree.js:12-43 | the tree after `insert` is `TreeModel.Insert` of the tree before; the tree stays valid (parent links included), only fresh nodes join, and the node keeps its parent |
| `TreeModel.Insert` | src/BinarySearchTree.js:12-43 | insert always leaves a keyed node in place and keeps every node keyed |
| `TreeModel.InsertPairCount` | src/BinarySearchTree.js:12-43 | insert adds exactly one node holding the new pair and keeps every other pair as often as before |
| `TreeModel.InsertKeyCount` | src/BinarySearchTree.js:34-41 | an inserted key is held once more than before, so a duplicate key coexists with the old one instead of overwriting it |
| `TreeModel.InsertNodeCount` | src/BinarySearchTree.js:14-16 | insert creates one node object, except on the empty root, which takes the pair itself |
| `TreeModel.InsertKeys` | src/BinarySearchTree.js:12-43 | the keys after insert are the old keys plus the new one |
| `TreeModel.InsertOrdered` | src/BinarySearchTree.js:17-42 | insert keeps the ordering invariant (left strictly less, right greater or equal) |
| `TreeModel.Find` | src/BinarySearchTree.js:45-68 | a successful `find(k)` stops at a node holding `k`; every failure is `Key Not Found` |
| `TreeModel.FindSound` | src/BinarySearchTree.js:45-63 | a value returned by `find(k)` is held by some node with key `k` |
| `TreeModel.FindComplete` | src/BinarySearchTree.js:45-67 | in an ordered tree, `find(k)` succeeds exactly when `k` is a key of the tree; otherwise it throws `Key Not Found` |
| `TreeModel.FindAfterInsert` | src/BinarySearchTree.js:12-67 | after `insert(k, v)`, `find(k)` succeeds with the first earlier match on the path, or `v` if there was none; this holds for every tree, ordered or not |
| `Bst.BinarySearchTree.FindMin` | src/BinarySearchTree.js:126-131 | `_findMin` returns the leftmost node, a node without a left child whose subtree is `TreeModel.FindMin` of the tree; unless it is the receiver, it is its parent's left child |
| `TreeModel.FindMin` | src/BinarySearchTree.js:126-131 | the leftmost node is keyed and has no left child |
| `TreeModel.FindMinIsLeast` | src/BinarySearchTree.js:73-75 | the leftmost node's pair belongs to the tree, and in an ordered tree its key is the least of all keys, so in `remove` it is the in-order successor |
| `TreeModel.RemoveMin` | src/BinarySearchTree.js:76 | what the successor leaves behind when it removes itself is again a tree of keyed nodes |
| `TreeModel.RemoveMinContents` | src/BinarySearchTree.js:76 | removing the leftmost node drops exactly its pair, one node and one occurrence of its key, and adds no key |
| `TreeModel.RemoveMinOrdered` | src/BinarySearchTree.js:76 | removing the leftmost node keeps the ordering invariant |
| `TreeModel.RemoveAt` | src/BinarySearchTree.js:70-98 | `remove` below the root leaves a tree of keyed nodes in the parent's slot when it succeeds |
| `TreeModel.Remove` | src/BinarySearchTree.js:70-124 | `remove` at the root leaves a proper tree and never an absent one: a removed leaf root becomes the empty node |
| `TreeModel.RemoveAtFailsLikeFind` | src/BinarySearchTree.js:91-97 | `remove(k)` fails exactly when `find(k)` fails, and then with `Key Not Found` |
| `TreeModel.RemoveAtPairCount` | src/BinarySearchTree.js:70-98 | a successful removal deletes exactly one node holding the pair `find(k)` reports and keeps every other pair |
| `TreeModel.RemoveHerePairCount` | src/BinarySearchTree.js:71-90 | in all three cases, removal at the node holding the key drops that node's pair only (with two children the successor's pair moves up) |
| `TreeModel.RemoveAtKeyCount` | src/BinarySearchTree.js:70-98 | a successful removal deletes exactly one occurrence of the key and keeps every other key's count |
| `TreeModel.RemoveAtShrinks` | src/BinarySearchTree.js:70-98 | a successful removal frees exactly one node object and brings in no new key |
| `TreeModel.RemoveAtOrdered` | src/BinarySearchTree.js:72-94 | removal keeps the ordering invariant, in the two-child case because the successor's key is the least on the right |
| `TreeModel.RemoveContents` | src/BinarySearchTree.js:70-124 | at the root: fails exactly as `find` fails; otherwise drops one pair and one key occurrence, keeps the order, and leaves the root keyless exactly when no key is left |
| `TreeModel.RemoveThenFind` | src/BinarySearchTree.js:45-98 | in an ordered tree holding `k` once, `remove(k)` succeeds and `find(k)` then throws `Key Not Found` |
| `TreeModel.RemoveEveryKey` | src/BinarySearchTree.js:70-124 | with consistent parent links, removing every key of an ordered tree, in any order and as often as it occurs, succeeds at each step and leaves the empty root with no children |
| `Bst.BinarySearchTree.Remove` | src/BinarySearchTree.js:70-98 | `remove(k)` throws `Key Not Found` exactly when `TreeModel.RemoveAt` fails, and then the tree value is unchanged. At the root it keeps the root object and its tree becomes `TreeModel.Remove`. Below the root the parent's slot holds `TreeModel.RemoveAt` and the parent's other slot is untouched |
| `Bst.BinarySearchTree.RemoveHere` | src/BinarySearchTree.js:71-90 | the node holding the key is removed by one of the three cases and the result is the model's removal |
| `Bst.BinarySearchTree.RemoveWithSuccessor` | src/BinarySearchTree.js:72-76 | with two children the node takes the successor's key and value, the successor removes itself, and the node's tree is `TreeModel.RemoveAt` of its old tree |
| `Bst.BinarySearchTree.ReplaceWith` | src/BinarySearchTree.js:100-124 | a node with a parent hands its slot in the parent to `node`, and `node` names that parent. A root copies `node`'s key, value and children in place, and those children now name the root. A root with no replacement clears its key, value and children |
| `Bst.BinarySearchTree.ReplaceWithAsWritten` | src/BinarySearchTree.js:100-124 | the same as written: a root copying `node` leaves the adopted children's parent links on `node` |
| `Bst.StaleParentLosesRemoval` | src/BinarySearchTree.js:100-124 | with `_replaceWith` as written, inserting 10, 5, 3, then removing 10 and then 3, leaves node 3 linked under the root; removing 5 after that leaves the root holding the key 3, so removing every inserted key does not empty the tree |
| `Bst.StaleParentOrphan` | src/BinarySearchTree.js:100-124 | with `_replaceWith` as written, after inserting 10, 5, 3, removing 10 and then 3, node 3 is reached from the root but is neither child of its parent; a second `remove(3)` changes nothing and node 3 stays linked under the root |
| `Bst.BinarySearchTree.DfsInOrder` | src/BinarySearchTree.js:133-148 | returns the accumulator with the subtree's values appended in left, node, right order |
| `Bst.BinarySearchTree.DfsPreOrder` | src/BinarySearchTree.js:150-165 | returns the accumulator with the subtree's values appended in node, left, right order |
| `Bst.BinarySearchTree.DfsPostOrder` | src/BinarySearchTree.js:167-182 | returns the accumulator with the subtree's values appended in left, right, node order |
| `TreeModel.TraversalLengths` | src/BinarySearchTree.js:133-182 | each depth-first walk appends exactly one value per node |
| `TreeModel.InOrderIsAllValues` | src/BinarySearchTree.js:133-148 | the in-order walk lists each value as often as nodes hold it |
| `TreeModel.PreOrderIsAllValues` | src/BinarySearchTree.js:150-165 | the pre-order walk lists each value as often as nodes hold it |
| `TreeModel.PostOrderIsAllValues` | src/BinarySearchTree.js:167-182 | the post-order walk lists each value as often as nodes hold it |
| `Bst.BinarySearchTree.Bfs` | src/BinarySearchTree.js:184-202 | the loop terminates and returns the accumulator with `TreeModel.LevelOrder` of the tree appended |
| `Bst.EnqueueChildren` | src/BinarySearchTree.js:191-197 | after a visit, the trees of the queued nodes are those of the old queue followed by the tree of the node's left child, then that of its right child, each only when present; every queued node is a valid node of the walked tree |
| `TreeModel.LevelOrderStep` | src/BinarySearchTree.js:188-199 | one turn of the queue walk emits the front value and queues its children behind the rest, leaving fewer nodes to walk |
| `TreeModel.LevelOrderIsByLevels` | src/BinarySearchTree.js:184-202 | the queue walk is level order: all roots of a level, left to right, then the next level, so each node comes before its children and a left child before its right sibling |
| `TreeModel.LevelOrderIsAllValues` | src/BinarySearchTree.js:184-202 | the queue walk emits every queued node's value exactly once |
| `TreeModel.LevelOrderLength` | src/BinarySearchTree.js:184-202 | the queue walk emits one value per queued node |
| `TreeModel.BreadthFirstFromNode` | src/BinarySearchTree.js:184-202 | from a tree: one value per node, each value as often as in-order lists it, the root's value first |
| `TreeModel.GetHeight` | src/BinarySearchTree.js:204-229 | `getHeight(c)` is never below the height `c` it starts from |
| `TreeModel.GetHeightIsLevels` | src/BinarySearchTree.js:204-229 | `getHeight(c)` is `c` plus the number of edges on the longest downward path, so a leaf gives `c` |
| `TreeModel.IsBalancedBST` | src/BinarySearchTree.js:278-300 | the result is a height or the sentinel -1, never below -1 |
| `TreeModel.IsBalancedBSTMeaning` | src/BinarySearchTree.js:278-300 | for a node with a child, `isBalancedBST` gives -1 exactly when the child heights (an absent child counting 0) differ by more than one; otherwise it gives the node's own height as `getHeight()` measures it; it is never below -1 |
| `Bst.BinarySearchTree.IsBST` | src/BinarySearchTree.js:231-243 | `isBST` is true exactly when no in-order value is less than the one before it |
| `Bst.ScanNonDecreasing` | src/BinarySearchTree.js:236-242 | the scan returns false exactly when some value is less than its predecessor |
| `TreeModel.NonDecreasingIsSorted` | src/BinarySearchTree.js:236-242 | checking neighbours is the same as every pair of values being in order |
| `TreeModel.OrderedInOrderSorted` | src/BinarySearchTree.js:231-243 | an ordered tree whose values are its keys lists its values in order, so `isBST` accepts every tree built by inserting each key as its own value |
| `TreeModel.FindKthLargestValue` | src/BinarySearchTree.js:245-256 | a value comes back exactly when `1 <= k <=` the number of in-order values, and it is one of them |
| `TreeModel.InOrderPairsValues` | src/BinarySearchTree.js:133-148 | in a keyed tree the in-order walk's values are, position by position, the values of the in-order (key, value) pairs |
| `TreeModel.PairKeys` | src/BinarySearchTree.js:133-148 | every key paired by the in-order walk is a key of the tree |
| `TreeModel.OrderedKeysSorted` | src/BinarySearchTree.js:133-148 | in every ordered tree, whatever its values, the in-order walk visits the nodes in non-decreasing key order |
| `TreeModel.FindKthLargestByKey` | src/BinarySearchTree.js:245-256 | in an ordered tree of keyed nodes, for `1 <= k <= n`, `findKthLargestValue(k)` is the value of the in-order node `n - k`, whose key is at least every key before it and at most every key after it: the node with the `k`-th largest key |
| `TreeModel.FindKthLargestValueRange` | src/BinarySearchTree.js:245-256 | for `1 <= k <= n` the result is in-order element `n - k`; for `k > n` or `k <= 0` there is no value |
| `TreeModel.FindKthLargestValueRank` | src/BinarySearchTree.js:245-256 | when in-order values never decrease, the `k`-th largest is at least every value before its position and at most every value after it; `k = 1` gives a maximum |
| `TreeModel.CountLeaves` | src/BinarySearchTree.js:258-276 | as written: either a TypeError (the only exception it can raise) or a count of at least one |
| `TreeModel.CountLeavesAsWritten` | src/BinarySearchTree.js:258-276 | `countLeaves()` throws a TypeError exactly when some node has only a left child, and otherwise returns the number of leaves |
| `TreeModel.CountLeavesLeftOnlyThrows` | src/BinarySearchTree.js:266 | a node whose only child is a left leaf makes `countLeaves` throw, where the corrected count is 1 |
| `TreeModel.CountLeavesFixed` | src/BinarySearchTree.js:258-276 | with the left recursion restored, every tree gives a count of at least one and no error |
| `TreeModel.CountLeavesFixedCounts` | src/BinarySearchTree.js:258-276 | with the left recursion restored, the count is the number of childless nodes, one more than the number of two-child nodes |
| `Scenarios.InsertValuesAreKeys` | src/BinarySearchTree.js:12-43 | inserting a key as its own value keeps every node's value equal to its key |
| `Scenarios.SmallTree` | src/BinarySearchTree.js:184-256 | inserting 10, 5, 15, 3, 7 gives height 2, in-order 3, 5, 7, 10, 15, level order 10, 5, 15, 3, 7, first largest 15, and no sixth largest |
| `Scenarios.PerfectTree` | src/BinarySearchTree.js:70-98 | inserting 50, 30, 70, 20, 40, 60, 80 gives four leaves and balance height 2. Removing 20 (leaf), 30 (one child) and 50 (two children, replaced by 60) succeeds, and each removed key is then not found |
| `Scenarios.IsBSTRejects` | src/BinarySearchTree.js:231-243 | a hand-built tree with 5 left of 3 breaks the ordering invariant, and its in-order values decrease |

## Findings

| source | as written | input that shows it | evidently intended | confidence | as-written member | corrected member |
|---|---|---|---|---|---|---|
| src/BinarySearchTree.js:266 | for a node with a left child and no right child, `countLeaves` recurses into the missing right child, which throws a TypeError | a node 10 with only the left child 5 (`TreeModel.CountLeavesLeftOnlyThrows`); in general any tree with such a node (`TreeModel.CountLeavesAsWritten`) | recurse into the left child, giving the number of leaves | high; not executed | `TreeModel.CountLeaves` | `TreeModel.CountLeavesFixed` |
| src/BinarySearchTree.js:111-116 | the root's `_replaceWith` copies the child's children but leaves their `parent` links on the unlinked child, so a later removal of one of them unlinks it from the detached node and not from the root | insert 10, 5, 3; remove 10; remove 3: node 3 stays under the root; a last remove 5 copies it into the root, so removing every inserted key leaves the key 3 (`Bst.StaleParentLosesRemoval`); instead of remove 5, a repeated remove 3 silently succeeds while node 3 stays in the tree (`Bst.StaleParentOrphan`) | re-point the adopted children at the root, keeping parent links consistent | high; not executed | `Bst.BinarySearchTree.ReplaceWithAsWritten` | `Bst.BinarySearchTree.ReplaceWith` |

`Bst.BinarySearchTree.Remove` uses the corrected `ReplaceWith`. With it, the
tree stays valid, parent links included, across every removal. `countLeaves` has no
caller in the source, so nothing else depends on either version.

## Left out

- The `Queue` class of `src/Queue.js` is not part of this model. The queue in `bfs` is a sequence, with append for `enqueue` and taking the front for `dequeue`.
- The `console.error` message of `findKthLargestValue` is output only. The model gives no value in that case.
- JavaScript loose equality (`==`), `undefined`, non-numeric keys, and comparisons between mixed types are not modelled. Keys are integers and values are `null` or integers. For `<`, `null` counts as 0, as it does in JavaScript.
- Keys and values are unbounded integers, not IEEE doubles. Precision loss, `NaN` and infinities are not modelled.
- `countLeaves(count)` is modelled only with the default `count = 0`. A non-zero start is passed to both recursive calls and added again at a node with two children, so it would be added once per leaf and once per two-child node.
- TreeModel.RemoveEveryKey, like every value-level removal lemma, assumes the parent links are consistent, as the corrected `_replaceWith` keeps them. With `_replaceWith` as written the round trip fails: after inserting 10, 5, 3 and removing 10, 3, 5 the tree still holds the key 3 (see Findings).
- `_replaceWith` on a node that is neither its parent's left nor right child leaves the parent untouched. `Bst.BinarySearchTree.Remove` requires a node that is one of its parent's children. With consistent parent links, as the corrected `_replaceWith` keeps them, every node reached from the root is one of its parent's children. With `_replaceWith` as written this branch is reached: after inserting 10, 5, 3, removing 10 and then 3, the root still reaches node 3, whose parent is the unlinked node 5. A second `remove(3)` then takes this branch, changes nothing and raises no error (`Bst.StaleParentOrphan`).
- Bst.BinarySearchTree.DfsInOrder, Bst.BinarySearchTree.DfsPreOrder, Bst.BinarySearchTree.DfsPostOrder and Bst.BinarySearchTree.Bfs take the accumulator as a sequence and return the extended one. They do not capture that the caller's own array object is also changed by `push`.
- `find`, `getHeight`, `countLeaves`, `isBalancedBST` and `findKthLargestValue` only read the tree. They are modelled as functions on the tree value that `Bst.BinarySearchTree.Model()` gives, not as walks over the heap nodes.
- Calls on an arbitrary node whose `parent` link does not point at a node that holds it are not modelled. Such nodes come from aliasing nodes across trees, or arise within one tree after the root branch of `_replaceWith` as written. `Bst.BinarySearchTree.Remove` requires a proper parent link when it is called below the root.
