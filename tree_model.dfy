// The value of a tree of BinarySearchTree nodes, and the node operations of
// src/BinarySearchTree.js that only follow the shape (insert and remove as
// value-level specifications, find, _findMin, getHeight, countLeaves,
// isBalancedBST, findKthLargestValue, the traversal orders).
module TreeModel {
  import opened Values

  /** The subtree seen from one slot. `Nil` is an absent (`null`) child;
      `Empty(value)` is a node whose key is `null` (the empty root, which
      has no children); `Node` is a keyed node with its two child slots. */
  datatype Tree = Nil | Empty(value: Value) | Node(left: Tree, key: int, value: Value, right: Tree)

  /** Every node of `t` holds a key. */
  predicate Keyed(t: Tree)
  {
    !t.Empty? && (t.Node? ==> Keyed(t.left) && Keyed(t.right))
  }

  lemma KeyedChildren(t: Tree)
    requires Keyed(t) && t.Node?
    ensures Keyed(t.left) && Keyed(t.right) && !t.left.Empty? && !t.right.Empty?
  {
  }

  /** The emptiness invariant: a keyless node only ever stands alone, as the root. */
  predicate Proper(t: Tree)
  {
    t.Empty? || Keyed(t)
  }

  /** The number of nodes of `t` holding the pair `(k, v)`. */
  function PairCount(t: Tree, k: int, v: Value): nat
  {
    match t
    case Node(l, key, val, r) => PairCount(l, k, v) + (if key == k && val == v then 1 else 0) + PairCount(r, k, v)
    case _ => 0
  }

  /** The number of nodes of `t` holding the key `k`. */
  function KeyCount(t: Tree, k: int): nat
  {
    match t
    case Node(l, key, _, r) => KeyCount(l, k) + (if key == k then 1 else 0) + KeyCount(r, k)
    case _ => 0
  }

  /** The keys held by the nodes of `t`. */
  function Keys(t: Tree): set<int>
  {
    match t
    case Node(l, k, _, r) => Keys(l) + {k} + Keys(r)
    case _ => {}
  }

  lemma {:induction false} KeysCounted(t: Tree, k: int)
    ensures k in Keys(t) <==> KeyCount(t, k) > 0
  {
    if t.Node? {
      KeysCounted(t.left, k);
      KeysCounted(t.right, k);
    }
  }

  /** The number of node objects in `t` (a keyless root is one node). */
  function NodeCount(t: Tree): nat
  {
    match t
    case Nil => 0
    case Empty(_) => 1
    case Node(l, _, _, r) => NodeCount(l) + 1 + NodeCount(r)
  }

  /** The ordering invariant: keys in a left subtree are strictly less than
      the node's key, keys in a right subtree are greater or equal. */
  ghost predicate Ordered(t: Tree)
  {
    match t
    case Node(l, k, _, r) =>
      (forall x :: x in Keys(l) ==> x < k) &&
      (forall x :: x in Keys(r) ==> k <= x) &&
      Ordered(l) && Ordered(r)
    case _ => true
  }

  // ---------------------------------------------------------------- insert

  /** `insert(key, value)` called on the node `t` (an absent slot receives the
      new node `new BinarySearchTree(key, value, this)`). A keyless node takes
      the pair; otherwise a key less than the node's goes left and any other
      key, an equal one included, goes right. */
  function Insert(t: Tree, k: int, v: Value): (r: Tree)
    ensures r.Node?
    ensures Proper(t) ==> Keyed(r)
  {
    match t
    case Nil => Node(Nil, k, v, Nil)
    case Empty(_) => Node(Nil, k, v, Nil)
    case Node(l, key, val, r) =>
      if k < key then Node(Insert(l, k, v), key, val, r)
      else Node(l, key, val, Insert(r, k, v))
  }

  /** Insert adds exactly one node holding the new pair and keeps every other
      pair. */
  lemma {:induction false} InsertPairCount(t: Tree, k: int, v: Value, x: int, y: Value)
    ensures PairCount(Insert(t, k, v), x, y) == PairCount(t, x, y) + (if x == k && y == v then 1 else 0)
  {
    match t
    case Nil =>
    case Empty(_) =>
    case Node(l, key, val, r) =>
      if k < key {
        InsertPairCount(l, k, v, x, y);
      } else {
        InsertPairCount(r, k, v, x, y);
      }
  }

  /** Insert adds one node holding the new key, so a key inserted twice is
      held twice. */
  lemma {:induction false} InsertKeyCount(t: Tree, k: int, v: Value, x: int)
    ensures KeyCount(Insert(t, k, v), x) == KeyCount(t, x) + (if x == k then 1 else 0)
  {
    match t
    case Nil =>
    case Empty(_) =>
    case Node(l, key, val, r) =>
      if k < key {
        InsertKeyCount(l, k, v, x);
      } else {
        InsertKeyCount(r, k, v, x);
      }
  }

  /** On a proper tree insert creates one node object, except that the keyless
      root takes the pair itself. */
  lemma {:induction false} InsertNodeCount(t: Tree, k: int, v: Value)
    requires Proper(t)
    ensures NodeCount(Insert(t, k, v)) == if t.Empty? then 1 else NodeCount(t) + 1
  {
    match t
    case Nil =>
    case Empty(_) =>
    case Node(l, key, val, r) =>
      KeyedChildren(t);
      if k < key {
        InsertNodeCount(l, k, v);
      } else {
        InsertNodeCount(r, k, v);
      }
  }

  lemma {:induction false} InsertKeys(t: Tree, k: int, v: Value)
    ensures Keys(Insert(t, k, v)) == Keys(t) + {k}
  {
    match t
    case Nil =>
    case Empty(_) =>
    case Node(l, key, val, r) =>
      if k < key {
        InsertKeys(l, k, v);
      } else {
        InsertKeys(r, k, v);
      }
  }

  /** Insert keeps the ordering invariant. */
  lemma {:induction false} InsertOrdered(t: Tree, k: int, v: Value)
    requires Ordered(t)
    ensures Ordered(Insert(t, k, v))
  {
    match t
    case Nil =>
    case Empty(_) =>
    case Node(l, key, val, r) =>
      if k < key {
        InsertOrdered(l, k, v);
        InsertKeys(l, k, v);
      } else {
        InsertOrdered(r, k, v);
        InsertKeys(r, k, v);
      }
  }

  // ------------------------------------------------------------------ find

  /** `find(key)`: the value at the first node of the search path whose key
      equals `k`; `Key Not Found` when the path reaches a missing child. */
  function Find(t: Tree, k: int): (r: Result<Value>)
    ensures r.Ok? ==> k in Keys(t)
    ensures r.Err? ==> r.error == KeyNotFound
  {
    match t
    case Node(l, key, v, r) =>
      if key == k then Ok(v)
      else if k < key && !l.Nil? then Find(l, k)
      else if k > key && !r.Nil? then Find(r, k)
      else Err(KeyNotFound)
    case _ => Err(KeyNotFound)
  }

  /** What find returns is a pair held by the tree. */
  lemma {:induction false} FindSound(t: Tree, k: int)
    requires Find(t, k).Ok?
    ensures PairCount(t, k, Find(t, k).value) > 0
    ensures k in Keys(t)
  {
    match t
    case Node(l, key, v, r) =>
      if key == k {
      } else if k < key && !l.Nil? {
        FindSound(l, k);
      } else {
        FindSound(r, k);
      }
  }

  /** In an ordered tree the search path always reaches a node with the key
      when the key is present, so `Key Not Found` means absent. */
  lemma {:induction false} FindComplete(t: Tree, k: int)
    requires Ordered(t)
    ensures Find(t, k).Ok? <==> k in Keys(t)
  {
    match t
    case Nil =>
    case Empty(_) =>
    case Node(l, key, v, r) =>
      if key == k {
      } else if k < key {
        assert k !in Keys(r);
        FindComplete(l, k);
      } else {
        assert k !in Keys(l);
        FindComplete(r, k);
      }
      if Find(t, k).Ok? {
        FindSound(t, k);
      }
  }

  /** After `insert(k, v)`, `find(k)` succeeds: it returns the value of an
      earlier node with key `k` on the path if there is one, else `v`. No
      ordering is needed, because insert follows find's own path. */
  lemma {:induction false} FindAfterInsert(t: Tree, k: int, v: Value)
    ensures Find(Insert(t, k, v), k) == if Find(t, k).Ok? then Find(t, k) else Ok(v)
  {
    match t
    case Nil =>
    case Empty(_) =>
    case Node(l, key, val, r) =>
      if k < key {
        FindAfterInsert(l, k, v);
      } else if k > key {
        FindAfterInsert(r, k, v);
      }
  }

  // ---------------------------------------------------------------- remove

  /** `_findMin()`: the leftmost node of `t`, following `left` until it is absent. */
  function FindMin(t: Tree): (m: Tree)
    requires t.Node? && Keyed(t)
    ensures m.Node? && m.left.Nil? && Keyed(m)
    decreases t
  {
    KeyedChildren(t);
    if t.left.Nil? then t else FindMin(t.left)
  }

  /** The node `_findMin` returns belongs to the tree, and in an ordered tree
      its key is the least. */
  lemma {:induction false} FindMinIsLeast(t: Tree)
    requires t.Node? && Keyed(t)
    ensures PairCount(t, FindMin(t).key, FindMin(t).value) > 0
    ensures FindMin(t).key in Keys(t)
    ensures Ordered(t) ==> forall x :: x in Keys(t) ==> FindMin(t).key <= x
  {
    KeyedChildren(t);
    if !t.left.Nil? {
      FindMinIsLeast(t.left);
    }
  }

  /** The subtree left behind when the node found by `_findMin` removes itself
      (`successor.remove(successor.key)`): it has no left child, so its right
      child, or nothing, takes its place. */
  function RemoveMin(t: Tree): (r: Tree)
    requires t.Node? && Keyed(t)
    ensures Keyed(r)
    decreases t
  {
    KeyedChildren(t);
    if t.left.Nil? then t.right else Node(RemoveMin(t.left), t.key, t.value, t.right)
  }

  /** Removing the leftmost node drops exactly its pair and keeps the others. */
  lemma {:induction false} RemoveMinContents(t: Tree, x: int, y: Value)
    requires t.Node? && Keyed(t)
    ensures var m := FindMin(t);
      PairCount(RemoveMin(t), x, y) == PairCount(t, x, y) - (if x == m.key && y == m.value then 1 else 0)
    ensures KeyCount(RemoveMin(t), x) == KeyCount(t, x) - (if x == FindMin(t).key then 1 else 0)
    ensures NodeCount(RemoveMin(t)) == NodeCount(t) - 1
    ensures Keys(RemoveMin(t)) <= Keys(t)
  {
    if !t.left.Nil? {
      RemoveMinContents(t.left, x, y);
      FindMinIsLeast(t.left);
      KeysCounted(t.left, FindMin(t).key);
    }
  }

  lemma {:induction false} RemoveMinOrdered(t: Tree)
    requires t.Node? && Keyed(t) && Ordered(t)
    ensures Ordered(RemoveMin(t))
  {
    if !t.left.Nil? {
      RemoveMinOrdered(t.left);
      RemoveMinContents(t.left, t.key, t.value);
    }
  }

  /** `remove(key)` called on a node that has a parent: the subtree that takes
      the node's place in the parent's slot (`Nil` when a leaf unlinks
      itself). Two children: the node takes the key and value of
      `right._findMin()`, which then removes itself. One child: that child
      is spliced in. The result is again a tree of keyed nodes. */
  function RemoveAt(t: Tree, k: int): (r: Result<Tree>)
    requires Proper(t)
    ensures r.Ok? ==> Keyed(r.value)
    decreases t
  {
    match t
    case Node(l, key, v, r) =>
      if key == k then
        if l.Node? && r.Node? then
          var s := FindMin(r);
          Ok(Node(l, s.key, s.value, RemoveMin(r)))
        else if l.Node? then Ok(l)
        else if r.Node? then Ok(r)
        else Ok(Nil)
      else if k < key && l.Node? then
        match RemoveAt(l, k)
        case Ok(l') => Ok(Node(l', key, v, r))
        case Err(e) => Err(e)
      else if k > key && r.Node? then
        match RemoveAt(r, k)
        case Ok(r') => Ok(Node(l, key, v, r'))
        case Err(e) => Err(e)
      else Err(KeyNotFound)
    case _ => Err(KeyNotFound)
  }

  /** `remove(key)` called on the root, which has no parent: the same, except
      that a root with no child clears its key and value in place instead of
      unlinking itself, so the tree becomes the empty root. */
  function Remove(t: Tree, k: int): (r: Result<Tree>)
    requires Proper(t)
    ensures r.Ok? ==> Proper(r.value) && !r.value.Nil?
  {
    match RemoveAt(t, k)
    case Ok(Nil) => Ok(Empty(Null))
    case other => other
  }

  /** Removal fails, with `Key Not Found`, exactly when find fails: both
      follow the same path. */
  lemma {:induction false} RemoveAtFailsLikeFind(t: Tree, k: int)
    requires Proper(t)
    ensures RemoveAt(t, k).Err? <==> Find(t, k).Err?
    ensures RemoveAt(t, k).Err? ==> RemoveAt(t, k).error == KeyNotFound
  {
    match t
    case Nil =>
    case Empty(_) =>
    case Node(l, key, v, r) =>
      if key == k {
      } else if k < key && l.Node? {
        RemoveAtFailsLikeFind(l, k);
      } else if k > key && r.Node? {
        RemoveAtFailsLikeFind(r, k);
      }
  }

  /** A successful removal deletes exactly one node holding the pair `find`
      reports (the first match on the path) and keeps every other pair. */
  lemma {:induction false} RemoveAtPairCount(t: Tree, k: int, x: int, y: Value)
    requires Proper(t) && RemoveAt(t, k).Ok?
    ensures Find(t, k).Ok?
    ensures PairCount(RemoveAt(t, k).value, x, y) == PairCount(t, x, y) - (if x == k && y == Find(t, k).value then 1 else 0)
  {
    match t
    case Node(l, key, v, r) =>
      if key == k {
        RemoveHerePairCount(t, x, y);
      } else if k < key && l.Node? {
        RemoveAtPairCount(l, k, x, y);
        FindSound(l, k);
      } else {
        RemoveAtPairCount(r, k, x, y);
        FindSound(r, k);
      }
  }

  /** Removal at the node that holds the key drops that node's pair only. */
  lemma RemoveHerePairCount(t: Tree, x: int, y: Value)
    requires Proper(t) && t.Node?
    ensures RemoveAt(t, t.key).Ok?
    ensures PairCount(RemoveAt(t, t.key).value, x, y) == PairCount(t, x, y) - (if x == t.key && y == t.value then 1 else 0)
  {
    if t.left.Node? && t.right.Node? {
      FindMinIsLeast(t.right);
      RemoveMinContents(t.right, x, y);
    }
  }

  /** A successful removal deletes exactly one node holding `k`. */
  lemma {:induction false} RemoveAtKeyCount(t: Tree, k: int, x: int)
    requires Proper(t) && RemoveAt(t, k).Ok?
    ensures KeyCount(RemoveAt(t, k).value, x) == KeyCount(t, x) - (if x == k then 1 else 0)
  {
    match t
    case Node(l, key, v, r) =>
      if key == k {
        if l.Node? && r.Node? {
          FindMinIsLeast(r);
          KeysCounted(r, FindMin(r).key);
          RemoveMinContents(r, x, Null);
        }
      } else if k < key && l.Node? {
        RemoveAtKeyCount(l, k, x);
        RemoveAtFailsLikeFind(l, k);
        FindSound(l, k);
        KeysCounted(l, k);
      } else {
        RemoveAtKeyCount(r, k, x);
        RemoveAtFailsLikeFind(r, k);
        FindSound(r, k);
        KeysCounted(r, k);
      }
  }

  /** A successful removal frees one node object and brings in no new key. */
  lemma {:induction false} RemoveAtShrinks(t: Tree, k: int)
    requires Proper(t) && RemoveAt(t, k).Ok?
    ensures NodeCount(RemoveAt(t, k).value) == NodeCount(t) - 1
    ensures Keys(RemoveAt(t, k).value) <= Keys(t)
  {
    match t
    case Node(l, key, v, r) =>
      if key == k {
        KeyedChildren(t);
        if l.Node? && r.Node? {
          FindMinIsLeast(r);
          RemoveMinContents(r, k, v);
        }
      } else if k < key && l.Node? {
        RemoveAtShrinks(l, k);
      } else {
        RemoveAtShrinks(r, k);
      }
  }

  /** Removal keeps the ordering invariant; in the two-child case because the
      successor's key is the least of the right subtree. */
  lemma {:induction false} RemoveAtOrdered(t: Tree, k: int)
    requires Proper(t) && Ordered(t) && RemoveAt(t, k).Ok?
    ensures Ordered(RemoveAt(t, k).value)
  {
    match t
    case Node(l, key, v, r) =>
      if key == k {
        if l.Node? && r.Node? {
          FindMinIsLeast(r);
          RemoveMinContents(r, k, v);
          RemoveMinOrdered(r);
        }
      } else if k < key && l.Node? {
        RemoveAtOrdered(l, k);
        RemoveAtShrinks(l, k);
      } else {
        RemoveAtOrdered(r, k);
        RemoveAtShrinks(r, k);
      }
  }

  /** Removal at the root: fails as find fails; otherwise removes exactly one
      node holding the pair find reports, keeps the ordering invariant, and
      leaves the root keyless exactly when no key is left. */
  lemma RemoveContents(t: Tree, k: int, x: int, y: Value)
    requires Proper(t)
    ensures Remove(t, k).Err? <==> Find(t, k).Err?
    ensures Remove(t, k).Ok? ==>
      PairCount(Remove(t, k).value, x, y) == PairCount(t, x, y) - (if x == k && y == Find(t, k).value then 1 else 0) &&
      KeyCount(Remove(t, k).value, x) == KeyCount(t, x) - (if x == k then 1 else 0) &&
      (Ordered(t) ==> Ordered(Remove(t, k).value)) &&
      (Remove(t, k).value.Empty? <==> Keys(Remove(t, k).value) == {})
  {
    RemoveAtFailsLikeFind(t, k);
    if RemoveAt(t, k).Ok? {
      RemoveAtPairCount(t, k, x, y);
      RemoveAtKeyCount(t, k, x);
      if Ordered(t) {
        RemoveAtOrdered(t, k);
      }
      var t' := Remove(t, k).value;
      if t'.Node? {
        assert t'.key in Keys(t');
      }
    }
  }

  /** With a single node holding `k`, find(k) fails once remove(k) succeeded. */
  lemma RemoveThenFind(t: Tree, k: int)
    requires Proper(t) && Ordered(t) && KeyCount(t, k) == 1
    ensures Remove(t, k).Ok? && Find(Remove(t, k).value, k).Err?
  {
    KeysCounted(t, k);
    FindComplete(t, k);
    RemoveAtFailsLikeFind(t, k);
    RemoveAtKeyCount(t, k, k);
    RemoveAtOrdered(t, k);
    var t' := Remove(t, k).value;
    KeysCounted(t', k);
    FindComplete(t', k);
  }

  /** A client that removes the keys of `ks` one after the other from the root. */
  function RemoveAll(t: Tree, ks: seq<int>): Result<Tree>
    requires Proper(t)
    decreases |ks|
  {
    if ks == [] then Ok(t)
    else match Remove(t, ks[0])
      case Err(e) => Err(e)
      case Ok(t') => RemoveAll(t', ks[1..])
  }

  lemma KeyCountAtRoot(t: Tree)
    ensures t.Node? ==> KeyCount(t, t.key) > 0
  {
  }

  /** Removing from an ordered tree each of its keys as often as it occurs,
      in any order, succeeds at each step and leaves the empty root. */
  lemma {:induction false} RemoveEveryKey(t: Tree, ks: seq<int>)
    requires Proper(t) && Ordered(t) && !t.Nil?
    requires forall x :: multiset(ks)[x] == KeyCount(t, x)
    ensures RemoveAll(t, ks).Ok? && RemoveAll(t, ks).value.Empty?
    decreases |ks|
  {
    if ks == [] {
      KeyCountAtRoot(t);
    } else {
      var k := ks[0];
      assert ks == [k] + ks[1..];
      assert multiset(ks)[k] > 0;
      KeysCounted(t, k);
      FindComplete(t, k);
      RemoveAtFailsLikeFind(t, k);
      RemoveAtOrdered(t, k);
      var t' := Remove(t, k).value;
      forall x ensures multiset(ks[1..])[x] == KeyCount(t', x) {
        RemoveAtKeyCount(t, k, x);
        assert multiset(ks)[x] == multiset([k])[x] + multiset(ks[1..])[x];
      }
      RemoveEveryKey(t', ks[1..]);
    }
  }

  // ------------------------------------------------------------ traversals

  /** The values in left-subtree, node, right-subtree order. */
  function InOrder(t: Tree): seq<Value>
  {
    match t
    case Nil => []
    case Empty(v) => [v]
    case Node(l, _, v, r) => InOrder(l) + [v] + InOrder(r)
  }

  /** The values in node, left-subtree, right-subtree order. */
  function PreOrder(t: Tree): seq<Value>
  {
    match t
    case Nil => []
    case Empty(v) => [v]
    case Node(l, _, v, r) => [v] + PreOrder(l) + PreOrder(r)
  }

  /** The values in left-subtree, right-subtree, node order. */
  function PostOrder(t: Tree): seq<Value>
  {
    match t
    case Nil => []
    case Empty(v) => [v]
    case Node(l, _, v, r) => PostOrder(l) + PostOrder(r) + [v]
  }

  /** The number of node objects of `t` whose value is `y`. */
  function ValueCount(t: Tree, y: Value): nat
  {
    match t
    case Nil => 0
    case Empty(v) => if v == y then 1 else 0
    case Node(l, _, v, r) => ValueCount(l, y) + (if v == y then 1 else 0) + ValueCount(r, y)
  }

  /** Each depth-first order lists one value per node object. */
  lemma {:induction false} TraversalLengths(t: Tree)
    ensures |InOrder(t)| == |PreOrder(t)| == |PostOrder(t)| == NodeCount(t)
  {
    if t.Node? {
      TraversalLengths(t.left);
      TraversalLengths(t.right);
    }
  }

  /** The in-order walk lists every node's value exactly once. */
  lemma {:induction false} InOrderIsAllValues(t: Tree, y: Value)
    ensures multiset(InOrder(t))[y] == ValueCount(t, y)
  {
    if t.Node? {
      InOrderIsAllValues(t.left, y);
      InOrderIsAllValues(t.right, y);
      assert InOrder(t) == InOrder(t.left) + [t.value] + InOrder(t.right);
    }
  }

  /** So does the pre-order walk. */
  lemma {:induction false} PreOrderIsAllValues(t: Tree, y: Value)
    ensures multiset(PreOrder(t))[y] == ValueCount(t, y)
  {
    if t.Node? {
      PreOrderIsAllValues(t.left, y);
      PreOrderIsAllValues(t.right, y);
      assert PreOrder(t) == [t.value] + PreOrder(t.left) + PreOrder(t.right);
    }
  }

  /** And the post-order walk. */
  lemma {:induction false} PostOrderIsAllValues(t: Tree, y: Value)
    ensures multiset(PostOrder(t))[y] == ValueCount(t, y)
  {
    if t.Node? {
      PostOrderIsAllValues(t.left, y);
      PostOrderIsAllValues(t.right, y);
      assert PostOrder(t) == PostOrder(t.left) + PostOrder(t.right) + [t.value];
    }
  }

  /** Every node's value is its own key (as when callers insert `(k, k)`). */
  predicate ValuesAreKeys(t: Tree)
  {
    match t
    case Nil => true
    case Empty(_) => true
    case Node(l, k, v, r) => v == Num(k) && ValuesAreKeys(l) && ValuesAreKeys(r)
  }

  /** Adjacent values never decrease: the loop condition of `isBST`. */
  predicate NonDecreasing(s: seq<Value>)
  {
    forall i :: 1 <= i < |s| ==> !Less(s[i], s[i - 1])
  }

  /** Every pair of values is in order. */
  predicate Sorted(s: seq<Value>)
  {
    forall i, j :: 0 <= i <= j < |s| ==> ToNumber(s[i]) <= ToNumber(s[j])
  }

  /** Checking neighbours is enough: adjacent order is sortedness. */
  lemma {:induction false} NonDecreasingIsSorted(s: seq<Value>)
    ensures NonDecreasing(s) <==> Sorted(s)
    decreases |s|
  {
    if NonDecreasing(s) && |s| > 1 {
      var p := s[..|s| - 1];
      assert NonDecreasing(p);
      NonDecreasingIsSorted(p);
      forall i, j | 0 <= i <= j < |s| ensures ToNumber(s[i]) <= ToNumber(s[j]) {
        if j == |s| - 1 && i < j {
          assert s[i] == p[i] && s[j - 1] == p[j - 1];
        } else if i < j {
          assert s[i] == p[i] && s[j] == p[j];
        }
      }
    }
  }

  /** In a keyed tree whose values are its keys, the in-order values are keys. */
  lemma {:induction false} InOrderHoldsKeys(t: Tree)
    requires Keyed(t) && ValuesAreKeys(t)
    ensures forall i :: 0 <= i < |InOrder(t)| ==> InOrder(t)[i].Num? && InOrder(t)[i].n in Keys(t)
  {
    if t.Node? {
      KeyedChildren(t);
      InOrderHoldsKeys(t.left);
      InOrderHoldsKeys(t.right);
      var a, b := InOrder(t.left), InOrder(t.right);
      var s := InOrder(t);
      assert s == a + [t.value] + b;
      forall i | 0 <= i < |s| ensures s[i].Num? && s[i].n in Keys(t) {
        if i < |a| {
          assert s[i] == a[i];
        } else if i > |a| {
          assert s[i] == b[i - |a| - 1];
        }
      }
    }
  }

  /** An ordered tree whose values are its keys lists them in order, so
      `isBST` accepts every tree built by inserting `(k, k)` pairs. */
  lemma {:induction false} OrderedInOrderSorted(t: Tree)
    requires Proper(t) && Ordered(t) && ValuesAreKeys(t)
    ensures Sorted(InOrder(t)) && NonDecreasing(InOrder(t))
  {
    match t
    case Nil =>
    case Empty(_) =>
    case Node(l, k, v, r) =>
      KeyedChildren(t);
      OrderedInOrderSorted(l);
      OrderedInOrderSorted(r);
      InOrderHoldsKeys(l);
      InOrderHoldsKeys(r);
      var a, b := InOrder(l), InOrder(r);
      var s := InOrder(t);
      assert s == a + [v] + b;
      forall i, j | 0 <= i <= j < |s| ensures ToNumber(s[i]) <= ToNumber(s[j]) {
        if j < |a| {
          assert s[i] == a[i] && s[j] == a[j];
        } else if i > |a| {
          assert s[i] == b[i - |a| - 1] && s[j] == b[j - |a| - 1];
        } else if i < |a| {
          assert s[i] == a[i] && a[i].n in Keys(l);
          if j > |a| {
            assert s[j] == b[j - |a| - 1] && b[j - |a| - 1].n in Keys(r);
          }
        } else if j > |a| {
          assert s[j] == b[j - |a| - 1] && b[j - |a| - 1].n in Keys(r);
        }
      }
      NonDecreasingIsSorted(s);
  }

  /** The (key, value) pairs of the keyed nodes, in left-subtree, node,
      right-subtree order: what `dfsInOrder` visits, with each node's key. */
  function InOrderPairs(t: Tree): seq<(int, Value)>
  {
    match t
    case Node(l, k, v, r) => InOrderPairs(l) + [(k, v)] + InOrderPairs(r)
    case _ => []
  }

  /** In a keyed tree the in-order walk lists the values of these pairs. */
  lemma {:induction false} InOrderPairsValues(t: Tree)
    requires Keyed(t)
    ensures |InOrderPairs(t)| == |InOrder(t)|
    ensures forall i :: 0 <= i < |InOrder(t)| ==> InOrderPairs(t)[i].1 == InOrder(t)[i]
  {
    if t.Node? {
      KeyedChildren(t);
      InOrderPairsValues(t.left);
      InOrderPairsValues(t.right);
      var a, b := InOrderPairs(t.left), InOrderPairs(t.right);
      var p, s := InOrderPairs(t), InOrder(t);
      assert p == a + [(t.key, t.value)] + b;
      assert s == InOrder(t.left) + [t.value] + InOrder(t.right);
      forall i | 0 <= i < |s| ensures p[i].1 == s[i] {
        if i < |a| {
          assert p[i] == a[i] && s[i] == InOrder(t.left)[i];
        } else if i > |a| {
          assert p[i] == b[i - |a| - 1] && s[i] == InOrder(t.right)[i - |a| - 1];
        }
      }
    }
  }

  /** An ordered tree lists its keys in non-decreasing order: equal keys,
      which insert sends right, come out in insertion order. */
  lemma {:induction false} OrderedKeysSorted(t: Tree)
    requires Ordered(t)
    ensures forall i, j :: 0 <= i <= j < |InOrderPairs(t)| ==> InOrderPairs(t)[i].0 <= InOrderPairs(t)[j].0
  {
    if t.Node? {
      OrderedKeysSorted(t.left);
      OrderedKeysSorted(t.right);
      PairKeys(t.left);
      PairKeys(t.right);
      var a, b := InOrderPairs(t.left), InOrderPairs(t.right);
      var p := InOrderPairs(t);
      assert p == a + [(t.key, t.value)] + b;
      forall i, j | 0 <= i <= j < |p| ensures p[i].0 <= p[j].0 {
        if j < |a| {
          assert p[i] == a[i] && p[j] == a[j];
        } else if i > |a| {
          assert p[i] == b[i - |a| - 1] && p[j] == b[j - |a| - 1];
        } else {
          if i < |a| {
            assert p[i] == a[i] && a[i].0 in Keys(t.left);
          }
          if j > |a| {
            assert p[j] == b[j - |a| - 1] && b[j - |a| - 1].0 in Keys(t.right);
          }
        }
      }
    }
  }

  /** Every paired key is a key of the tree. */
  lemma {:induction false} PairKeys(t: Tree)
    ensures forall i :: 0 <= i < |InOrderPairs(t)| ==> InOrderPairs(t)[i].0 in Keys(t)
  {
    if t.Node? {
      PairKeys(t.left);
      PairKeys(t.right);
      var a, b := InOrderPairs(t.left), InOrderPairs(t.right);
      var p := InOrderPairs(t);
      assert p == a + [(t.key, t.value)] + b;
      forall i | 0 <= i < |p| ensures p[i].0 in Keys(t) {
        if i < |a| {
          assert p[i] == a[i];
        } else if i > |a| {
          assert p[i] == b[i - |a| - 1];
        }
      }
    }
  }

  // ------------------------------------------------------ breadth-first walk

  /** The node objects among the children of `t`, left before right: what
      `bfs` enqueues after visiting `t`. */
  function Children(t: Tree): seq<Tree>
  {
    match t
    case Node(l, _, _, r) => (if l.Nil? then [] else [l]) + (if r.Nil? then [] else [r])
    case _ => []
  }

  /** The number of node objects in a queue of subtrees. */
  function Weight(q: seq<Tree>): nat
  {
    if q == [] then 0 else NodeCount(q[0]) + Weight(q[1..])
  }

  lemma {:induction false} WeightAppend(a: seq<Tree>, b: seq<Tree>)
    ensures Weight(a + b) == Weight(a) + Weight(b)
    decreases |a|
  {
    if a == [] {
      assert a + b == b;
    } else {
      assert (a + b)[0] == a[0];
      assert (a + b)[1..] == a[1..] + b;
      WeightAppend(a[1..], b);
    }
  }

  lemma ChildrenWeight(t: Tree)
    ensures Weight(Children(t)) + (if t.Nil? then 0 else 1) == NodeCount(t)
  {
    match t
    case Nil =>
    case Empty(_) =>
    case Node(l, _, _, r) =>
      var a: seq<Tree> := if l.Nil? then [] else [l];
      var b: seq<Tree> := if r.Nil? then [] else [r];
      WeightAppend(a, b);
      assert Weight(a) == NodeCount(l);
      assert Weight(b) == NodeCount(r);
  }

  /** Level order from a queue of subtrees: take the front, emit its value,
      append its children to the back; an absent subtree emits nothing. */
  function LevelOrder(q: seq<Tree>): seq<Value>
    decreases Weight(q), |q|
  {
    if q == [] then []
    else
      ChildrenWeight(q[0]);
      WeightAppend(q[1..], Children(q[0]));
      if q[0].Nil? then LevelOrder(q[1..])
      else [q[0].value] + LevelOrder(q[1..] + Children(q[0]))
  }

  /** The values of the roots of a forest, left to right. */
  function Roots(f: seq<Tree>): seq<Value>
  {
    if f == [] then [] else (if f[0].Nil? then [] else [f[0].value]) + Roots(f[1..])
  }

  /** The next level of a forest: the children of its roots, left to right. */
  function NextLevel(f: seq<Tree>): seq<Tree>
  {
    if f == [] then [] else Children(f[0]) + NextLevel(f[1..])
  }

  lemma {:induction false} NextLevelWeight(f: seq<Tree>)
    ensures Weight(NextLevel(f)) + |Roots(f)| == Weight(f)
    decreases |f|
  {
    if f != [] {
      NextLevelWeight(f[1..]);
      ChildrenWeight(f[0]);
      WeightAppend(Children(f[0]), NextLevel(f[1..]));
    }
  }

  /** The reference order level by level: all roots of the forest, then the
      whole next level, and so on. */
  function ByLevels(f: seq<Tree>): seq<Value>
    decreases Weight(f)
  {
    NextLevelWeight(f);
    if Roots(f) == [] then [] else Roots(f) + ByLevels(NextLevel(f))
  }

  lemma Assoc<T>(a: seq<T>, b: seq<T>, c: seq<T>)
    ensures (a + b) + c == a + (b + c)
  {
  }

  /** The queue walk emits a forest's roots and then walks the next level
      behind whatever is already queued. */
  lemma {:induction false} LevelOrderSplit(f: seq<Tree>, g: seq<Tree>)
    ensures LevelOrder(f + g) == Roots(f) + LevelOrder(g + NextLevel(f))
    decreases |f|, 0
  {
    if f == [] {
      assert f + g == g;
      assert g + NextLevel(f) == g;
    } else {
      var x, f' := f[0], f[1..];
      assert f == [x] + f';
      Assoc([x], f', g);
      if x.Nil? {
        LevelOrderSplitSkip(x, f', g);
      } else {
        LevelOrderSplitVisit(x, f', g);
      }
    }
  }

  lemma {:induction false} LevelOrderSplitSkip(x: Tree, f: seq<Tree>, g: seq<Tree>)
    requires x.Nil?
    ensures LevelOrder([x] + (f + g)) == Roots([x] + f) + LevelOrder(g + NextLevel([x] + f))
    decreases |f|, 1
  {
    ForestCons(x, f);
    LevelOrderCons(x, f + g);
    LevelOrderSplit(f, g);
    assert [] + Roots(f) == Roots(f);
    assert [] + NextLevel(f) == NextLevel(f);
  }

  lemma {:induction false} LevelOrderSplitVisit(x: Tree, f: seq<Tree>, g: seq<Tree>)
    requires !x.Nil?
    ensures LevelOrder([x] + (f + g)) == Roots([x] + f) + LevelOrder(g + NextLevel([x] + f))
    decreases |f|, 1
  {
    ForestCons(x, f);
    LevelOrderCons(x, f + g);
    Assoc(f, g, Children(x));
    LevelOrderSplit(f, g + Children(x));
    Assoc(g, Children(x), NextLevel(f));
    Assoc([x.value], Roots(f), LevelOrder(g + NextLevel([x] + f)));
  }

  /** How the level functions see a forest with `x` in front. */
  lemma ForestCons(x: Tree, f: seq<Tree>)
    ensures Roots([x] + f) == (if x.Nil? then [] else [x.value]) + Roots(f)
    ensures NextLevel([x] + f) == Children(x) + NextLevel(f)
  {
    assert ([x] + f)[0] == x && ([x] + f)[1..] == f;
  }

  /** One step of the queue walk on a queue with `x` in front. */
  lemma LevelOrderCons(x: Tree, q: seq<Tree>)
    ensures LevelOrder([x] + q) ==
      if x.Nil? then LevelOrder(q) else [x.value] + LevelOrder(q + Children(x))
  {
    assert ([x] + q)[0] == x && ([x] + q)[1..] == q;
  }

  /** One turn of the queue walk: the front node's value, then the rest of
      the queue with the front's children behind it, which holds fewer nodes. */
  lemma LevelOrderStep(x: Tree, rest: seq<Tree>)
    requires !x.Nil?
    ensures LevelOrder([x] + rest) == [x.value] + LevelOrder(rest + Children(x))
    ensures Weight(rest + Children(x)) < Weight([x] + rest)
  {
    LevelOrderCons(x, rest);
    ChildrenWeight(x);
    WeightAppend(rest, Children(x));
    WeightAppend([x], rest);
  }

  lemma {:induction false} RootsEmpty(f: seq<Tree>)
    requires Roots(f) == []
    ensures LevelOrder(f) == [] && NextLevel(f) == []
    decreases |f|
  {
    if f != [] {
      assert f[0].Nil?;
      RootsEmpty(f[1..]);
    }
  }

  /** The queue-driven walk is level order: each level's values, left to
      right, before the next level; so each node comes before its children,
      a left child before its right sibling. */
  lemma {:induction false} LevelOrderIsByLevels(f: seq<Tree>)
    ensures LevelOrder(f) == ByLevels(f)
    decreases Weight(f)
  {
    if Roots(f) == [] {
      RootsEmpty(f);
    } else {
      LevelOrderSplit(f, []);
      assert f + [] == f;
      assert [] + NextLevel(f) == NextLevel(f);
      NextLevelWeight(f);
      LevelOrderIsByLevels(NextLevel(f));
    }
  }

  /** The number of node objects with value `y` in a queue of subtrees. */
  function QueueValueCount(q: seq<Tree>, y: Value): nat
  {
    if q == [] then 0 else ValueCount(q[0], y) + QueueValueCount(q[1..], y)
  }

  lemma {:induction false} QueueValueCountAppend(a: seq<Tree>, b: seq<Tree>, y: Value)
    ensures QueueValueCount(a + b, y) == QueueValueCount(a, y) + QueueValueCount(b, y)
    decreases |a|
  {
    if a == [] {
      assert a + b == b;
    } else {
      assert (a + b)[0] == a[0];
      assert (a + b)[1..] == a[1..] + b;
      QueueValueCountAppend(a[1..], b, y);
    }
  }

  lemma ChildrenValueCount(t: Tree, y: Value)
    requires !t.Nil?
    ensures ValueCount(t, y) == (if t.value == y then 1 else 0) + QueueValueCount(Children(t), y)
  {
    match t
    case Empty(_) =>
    case Node(l, _, _, r) =>
      var a: seq<Tree> := if l.Nil? then [] else [l];
      var b: seq<Tree> := if r.Nil? then [] else [r];
      QueueValueCountAppend(a, b, y);
      assert QueueValueCount(a, y) == ValueCount(l, y);
      assert QueueValueCount(b, y) == ValueCount(r, y);
  }

  /** The walk emits every queued node's value exactly once. */
  lemma {:induction false} LevelOrderIsAllValues(q: seq<Tree>, y: Value)
    ensures multiset(LevelOrder(q))[y] == QueueValueCount(q, y)
    decreases Weight(q), |q|
  {
    if q != [] {
      var x, rest := q[0], q[1..];
      assert q == [x] + rest;
      LevelOrderCons(x, rest);
      ChildrenWeight(x);
      WeightAppend(rest, Children(x));
      if x.Nil? {
        LevelOrderIsAllValues(rest, y);
      } else {
        LevelOrderIsAllValues(rest + Children(x), y);
        QueueValueCountAppend(rest, Children(x), y);
        ChildrenValueCount(x, y);
      }
    }
  }

  /** Breadth-first from a node: one value per node, each node's value as
      often as the depth-first orders list it, the node's own value first. */
  lemma BreadthFirstFromNode(t: Tree, y: Value)
    requires !t.Nil?
    ensures multiset(LevelOrder([t]))[y] == ValueCount(t, y) == multiset(InOrder(t))[y]
    ensures |LevelOrder([t])| == NodeCount(t)
    ensures LevelOrder([t])[0] == t.value
  {
    LevelOrderIsAllValues([t], y);
    assert [t][1..] == [];
    ChildrenWeight(t);
    LevelOrderIsByLevels([t]);
    InOrderIsAllValues(t, y);
    LevelOrderLength([t]);
  }

  lemma {:induction false} LevelOrderLength(q: seq<Tree>)
    ensures |LevelOrder(q)| == Weight(q)
    decreases Weight(q), |q|
  {
    if q != [] {
      var x := q[0];
      ChildrenWeight(x);
      WeightAppend(q[1..], Children(x));
      if x.Nil? {
        LevelOrderLength(q[1..]);
      } else {
        LevelOrderLength(q[1..] + Children(x));
      }
    }
  }

  // ------------------------------------------------------- structural queries

  function Max(a: int, b: int): int
  {
    if a < b then b else a
  }

  /** The number of levels of `t`: 0 for an absent subtree, else one more than
      the deeper child. */
  function Levels(t: Tree): nat
  {
    match t
    case Nil => 0
    case Empty(_) => 1
    case Node(l, _, _, r) => 1 + Max(Levels(l), Levels(r))
  }

  /** `getHeight(currentHeight)` on the node `t`. */
  function GetHeight(t: Tree, currentHeight: int): (h: int)
    requires !t.Nil?
    ensures h >= currentHeight
  {
    match t
    case Empty(_) => currentHeight
    case Node(l, _, _, r) =>
      if l.Nil? && r.Nil? then currentHeight
      else if l.Nil? then GetHeight(r, currentHeight + 1)
      else if r.Nil? then GetHeight(l, currentHeight + 1)
      else Max(GetHeight(l, currentHeight + 1), GetHeight(r, currentHeight + 1))
  }

  /** `getHeight(c)` is `c` plus the number of edges on the longest downward
      path, so a leaf gives `c`. */
  lemma {:induction false} GetHeightIsLevels(t: Tree, c: int)
    requires !t.Nil?
    ensures GetHeight(t, c) == c + Levels(t) - 1
  {
    match t
    case Empty(_) =>
    case Node(l, _, _, r) =>
      if !l.Nil? {
        GetHeightIsLevels(l, c + 1);
      }
      if !r.Nil? {
        GetHeightIsLevels(r, c + 1);
      }
  }

  /** `isBalancedBST()` on the node `t`: 0 for a leaf; otherwise the heights of
      the children (an absent child counts as 0), -1 when they differ by more
      than one, else the larger plus one. */
  function IsBalancedBST(t: Tree): (h: int)
    requires !t.Nil?
    ensures h >= -1
  {
    match t
    case Empty(_) => 0
    case Node(l, _, _, r) =>
      if l.Nil? && r.Nil? then 0
      else
        var leftHeight := if l.Nil? then 0 else GetHeight(l, 0);
        var rightHeight := if r.Nil? then 0 else GetHeight(r, 0);
        if leftHeight - rightHeight > 1 || rightHeight - leftHeight > 1 then -1
        else if leftHeight > rightHeight then leftHeight + 1
        else rightHeight + 1
  }

  /** The height `isBalancedBST` uses for a child slot. */
  function SlotHeight(t: Tree): nat
  {
    if t.Nil? then 0 else Levels(t) - 1
  }

  /** The single-level balance check reports -1 exactly when the two child
      heights differ by more than one, and otherwise the node's own height;
      since a height is never negative, the sentinel cannot be mistaken. */
  lemma IsBalancedBSTMeaning(t: Tree)
    requires !t.Nil?
    ensures t.Node? && !(t.left.Nil? && t.right.Nil?) ==>
      (IsBalancedBST(t) == -1 <==> SlotHeight(t.left) - SlotHeight(t.right) > 1 || SlotHeight(t.right) - SlotHeight(t.left) > 1)
    ensures IsBalancedBST(t) == -1 || IsBalancedBST(t) == GetHeight(t, 0)
    ensures IsBalancedBST(t) >= -1
  {
    GetHeightIsLevels(t, 0);
    if t.Node? {
      if !t.left.Nil? {
        GetHeightIsLevels(t.left, 0);
      }
      if !t.right.Nil? {
        GetHeightIsLevels(t.right, 0);
      }
    }
  }

  /** `findKthLargestValue(k)`: element `length - k` of the in-order values,
      or no value (`undefined`) when that index is negative (after logging)
      or past the end. */
  function FindKthLargestValue(t: Tree, k: int): (r: Option<Value>)
    ensures r.Some? <==> 1 <= k <= |InOrder(t)|
    ensures r.Some? ==> r.value in InOrder(t)
  {
    var values := InOrder(t);
    var kthIndex := |values| - k;
    if kthIndex >= 0 then
      if kthIndex < |values| then Some(values[kthIndex]) else None
    else None
  }

  lemma FindKthLargestValueRange(t: Tree, k: int)
    ensures 1 <= k <= NodeCount(t) ==> |InOrder(t)| == NodeCount(t) && FindKthLargestValue(t, k) == Some(InOrder(t)[NodeCount(t) - k])
    ensures (k > NodeCount(t) || k <= 0) ==> FindKthLargestValue(t, k) == None
  {
    TraversalLengths(t);
  }

  /** When the in-order values never decrease, the k-th largest is no smaller
      than the values before it and no larger than those after it; `k = 1`
      gives a maximum. */
  lemma FindKthLargestValueRank(t: Tree, k: int)
    requires NonDecreasing(InOrder(t)) && 1 <= k <= |InOrder(t)|
    ensures FindKthLargestValue(t, k).Some?
    ensures var s, x := InOrder(t), ToNumber(FindKthLargestValue(t, k).value);
      forall i :: 0 <= i < |s| ==> (i <= |s| - k ==> ToNumber(s[i]) <= x) && (i >= |s| - k ==> x <= ToNumber(s[i]))
  {
    NonDecreasingIsSorted(InOrder(t));
  }

  /** In an ordered tree of keyed nodes, `findKthLargestValue(k)` for
      `1 <= k <= n` is the value of the node at in-order position `n - k`:
      no key before it is larger than its key and no key after it is
      smaller, so it holds the `k`-th largest key. */
  lemma FindKthLargestByKey(t: Tree, k: int)
    requires Keyed(t) && Ordered(t) && 1 <= k <= NodeCount(t)
    ensures var p, n := InOrderPairs(t), NodeCount(t);
      |p| == n && FindKthLargestValue(t, k) == Some(p[n - k].1) &&
      (forall i :: 0 <= i < n - k ==> p[i].0 <= p[n - k].0) &&
      (forall i :: n - k < i < n ==> p[n - k].0 <= p[i].0)
  {
    TraversalLengths(t);
    InOrderPairsValues(t);
    OrderedKeysSorted(t);
  }

  /** A node with a left child and no right child. */
  predicate LeftOnly(t: Tree)
  {
    t.Node? && !t.left.Nil? && t.right.Nil?
  }

  predicate HasLeftOnlyNode(t: Tree)
  {
    match t
    case Node(l, _, _, r) => LeftOnly(t) || HasLeftOnlyNode(l) || HasLeftOnlyNode(r)
    case _ => false
  }

  /** `countLeaves()` on the node `t`, as written: for a node with a left child
      and no right child it calls `this.right.countLeaves`, a property read on
      `null` that throws a TypeError. Only the default `count = 0` is modelled. */
  function CountLeaves(t: Tree): (r: Result<int>)
    requires !t.Nil?
    ensures r.Err? ==> r.error == TypeError
    ensures r.Ok? ==> r.value >= 1
  {
    match t
    case Empty(_) => Ok(1)
    case Node(l, _, _, r) =>
      if l.Nil? && r.Nil? then Ok(1)
      else if l.Nil? then CountLeaves(r)
      else if r.Nil? then Err(TypeError)
      else
        match CountLeaves(l)
        case Err(e) => Err(e)
        case Ok(leftCount) =>
          match CountLeaves(r)
          case Err(e) => Err(e)
          case Ok(rightCount) => Ok(0 + leftCount + rightCount)
  }

  /** `countLeaves()` with the evidently intended recursion into the left
      child when the right one is missing. */
  function CountLeavesFixed(t: Tree): (n: int)
    requires !t.Nil?
    ensures n >= 1
  {
    match t
    case Empty(_) => 1
    case Node(l, _, _, r) =>
      if l.Nil? && r.Nil? then 1
      else if l.Nil? then CountLeavesFixed(r)
      else if r.Nil? then CountLeavesFixed(l)
      else CountLeavesFixed(l) + CountLeavesFixed(r)
  }

  /** The number of nodes with both children. */
  function TwoChildCount(t: Tree): nat
  {
    match t
    case Node(l, _, _, r) => (if l.Nil? || r.Nil? then 0 else 1) + TwoChildCount(l) + TwoChildCount(r)
    case _ => 0
  }

  /** The number of childless nodes. */
  function LeafCount(t: Tree): nat
  {
    match t
    case Nil => 0
    case Empty(_) => 1
    case Node(l, _, _, r) => if l.Nil? && r.Nil? then 1 else LeafCount(l) + LeafCount(r)
  }

  /** The corrected count is the number of leaves, which in any binary tree is
      one more than the number of nodes with two children. */
  lemma {:induction false} CountLeavesFixedCounts(t: Tree)
    requires !t.Nil?
    ensures CountLeavesFixed(t) == LeafCount(t) == TwoChildCount(t) + 1
  {
    match t
    case Empty(_) =>
    case Node(l, _, _, r) =>
      if !l.Nil? {
        CountLeavesFixedCounts(l);
      }
      if !r.Nil? {
        CountLeavesFixedCounts(r);
      }
  }

  /** As written, `countLeaves` throws exactly when some node has only a left
      child, and otherwise returns the number of leaves. */
  lemma {:induction false} CountLeavesAsWritten(t: Tree)
    requires !t.Nil?
    ensures CountLeaves(t).Err? <==> HasLeftOnlyNode(t)
    ensures CountLeaves(t).Err? ==> CountLeaves(t).error == TypeError
    ensures CountLeaves(t).Ok? ==> CountLeaves(t).value == CountLeavesFixed(t)
  {
    match t
    case Empty(_) =>
    case Node(l, _, _, r) =>
      if !l.Nil? {
        CountLeavesAsWritten(l);
      }
      if !r.Nil? {
        CountLeavesAsWritten(r);
      }
  }

  /** The smallest case: a node whose only child is a left leaf. */
  lemma CountLeavesLeftOnlyThrows(k: int, v: Value, k': int, v': Value)
    ensures CountLeaves(Node(Node(Nil, k', v', Nil), k, v, Nil)) == Err(TypeError)
    ensures CountLeavesFixed(Node(Node(Nil, k', v', Nil), k, v, Nil)) == 1
  {
  }
}
