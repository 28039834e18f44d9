// The BinarySearchTree class of src/BinarySearchTree.js as linked heap nodes.
// Every node is an object with a key, a value, a parent link and two child
// links; insert, _replaceWith and remove change nodes in place, and the
// walks push values onto an array. Each node's fields are tied to the tree
// value of TreeModel through Model().
module Bst {
  import opened Values
  import TreeModel

  class BinarySearchTree {
    var key: Value
    var value: Value
    var parent: BinarySearchTree?
    var left: BinarySearchTree?
    var right: BinarySearchTree?
    /** The nodes reachable from this one (an upper bound: nodes unlinked by
        a removal may stay in it). */
    ghost var Repr: set<BinarySearchTree>

    /** The tree invariant: only a keyless node may lack a key, and it has
        no children; each child is keyed, points back at this node through
        `parent`, and owns a part of the tree disjoint from its sibling's. */
    ghost predicate Valid()
      reads this, Repr
      decreases Repr
    {
      this in Repr &&
      (key.Null? ==> left == null && right == null) &&
      (left != null ==>
        left in Repr && left.Repr <= Repr && this !in left.Repr &&
        left.parent == this && left.key.Num? && left.Valid()) &&
      (right != null ==>
        right in Repr && right.Repr <= Repr && this !in right.Repr &&
        right.parent == this && right.key.Num? && right.Valid()) &&
      (left != null && right != null ==> left.Repr !! right.Repr)
    }

    /** The tree value held by this node and its descendants. */
    ghost function Model(): (t: TreeModel.Tree)
      reads this, Repr
      requires Valid()
      ensures !t.Nil? && TreeModel.Proper(t)
      ensures key.Num? ==> t.Node? && TreeModel.Keyed(t)
      ensures t.value == value
      decreases Repr
    {
      if key.Null? then TreeModel.Empty(value)
      else
        var l := if left == null then TreeModel.Nil else left.Model();
        var r := if right == null then TreeModel.Nil else right.Model();
        assert TreeModel.Keyed(l) && TreeModel.Keyed(r);
        TreeModel.Node(l, key.n, value, r)
    }

    /** `new BinarySearchTree(key, value, parent)`: a node with no children. */
    constructor (key: Value, value: Value, parent: BinarySearchTree?)
      ensures Valid() && fresh(Repr) && Repr == {this}
      ensures this.key == key && this.value == value && this.parent == parent
      ensures left == null && right == null
      ensures Model() == if key.Null? then TreeModel.Empty(value) else TreeModel.Node(TreeModel.Nil, key.n, value, TreeModel.Nil)
    {
      this.key := key;
      this.value := value;
      this.parent := parent;
      this.left := null;
      this.right := null;
      Repr := {this};
    }

    /** `insert(key, value)`: the tree value changes as TreeModel.Insert says,
        only fresh nodes join, and the node keeps its parent. */
    method Insert(k: int, v: Value)
      requires Valid()
      modifies Repr
      ensures Valid() && old(Repr) <= Repr && fresh(Repr - old(Repr))
      ensures parent == old(parent) && key.Num?
      ensures Model() == TreeModel.Insert(old(Model()), k, v)
      decreases Repr
    {
      if key.Null? {
        key := Num(k);
        value := v;
      } else if Less(Num(k), key) {
        ghost var r0 := SlotModel(right);
        if left == null {
          left := new BinarySearchTree(Num(k), v, this);
          Repr := Repr + {left};
        } else {
          left.Insert(k, v);
          Repr := Repr + left.Repr;
        }
        assert SlotModel(right) == r0;
      } else {
        ghost var l0 := SlotModel(left);
        if right == null {
          right := new BinarySearchTree(Num(k), v, this);
          Repr := Repr + {right};
        } else {
          right.Insert(k, v);
          Repr := Repr + right.Repr;
        }
        assert SlotModel(left) == l0;
      }
    }

    /** `_findMin()`: the leftmost node below this one. It is the node of the
        leftmost subtree of the model, and unless it is this node it is the
        left child of its parent. */
    function FindMin(): (m: BinarySearchTree)
      reads this, Repr
      requires Valid()
      ensures m in Repr && m.Repr <= Repr && m.Valid() && m.left == null
      ensures key.Num? ==> m.key.Num? && m.Model() == TreeModel.FindMin(Model())
      ensures m != this ==>
        m.parent != null && m.parent in Repr && m.parent !in m.Repr &&
        m.parent.left == m && m.parent.right != m
      decreases Repr
    {
      if left == null then this else left.FindMin()
    }

    /** `remove(key)`. On the root (no parent) the tree value becomes
        TreeModel.Remove of the old one. On a node below the root, `m` is
        the node now in the parent's slot (null when the slot was emptied)
        and holds TreeModel.RemoveAt of the old value; the parent's other
        slot is untouched. `Key Not Found` exactly when the model's removal
        fails, and then nothing changes. */
    method Remove(k: int) returns (r: Result<()>, ghost m: BinarySearchTree?)
      requires Valid()
      requires parent != null ==>
        key.Num? && parent !in Repr && (parent.left == this || parent.right == this) && parent.left != parent.right
      modifies Repr, {parent}`left, {parent}`right
      ensures r.Ok? <==> TreeModel.RemoveAt(old(Model()), k).Ok?
      ensures old(parent) == null ==> m == this
      ensures m != null ==> m.Valid() && m.Repr <= old(Repr) && m.parent == old(parent)
      ensures old(parent) != null && m != null ==> m.key.Num?
      ensures r.Err? ==> r.error == KeyNotFound && m == this && Model() == old(Model())
      ensures r.Ok? ==>
        SlotModel(m) == (if old(parent) == null then TreeModel.Remove(old(Model()), k).value
         else TreeModel.RemoveAt(old(Model()), k).value)
      ensures old(parent) != null ==>
        old(parent).left == (if old(parent.left) == this then m else old(parent.left)) &&
        old(parent).right == (if old(parent.right) == this then m else old(parent.right))
      decreases Repr, 2
    {
      if key == Num(k) {
        m := RemoveHere();
        r := Ok(());
      } else if Less(Num(k), key) && left != null {
        ghost var m0;
        r, m0 := left.Remove(k);
        m := this;
      } else if Less(key, Num(k)) && right != null {
        ghost var m0;
        r, m0 := right.Remove(k);
        m := this;
      } else {
        r, m := Err(KeyNotFound), this;
      }
    }

    /** The branch of `remove` where this node holds the key: with two
        children it takes the key and value of `right._findMin()`, which then
        removes itself; with one child or none it is replaced through
        `_replaceWith`. */
    method RemoveHere() returns (ghost m: BinarySearchTree?)
      requires Valid() && key.Num?
      requires parent != null ==>
        parent !in Repr && (parent.left == this || parent.right == this) && parent.left != parent.right
      modifies Repr, {parent}`left, {parent}`right
      ensures TreeModel.RemoveAt(old(Model()), old(key.n)).Ok?
      ensures old(parent) == null ==> m == this
      ensures m != null ==> m.Valid() && m.Repr <= old(Repr) && m.parent == old(parent)
      ensures old(parent) != null && m != null ==> m.key.Num?
      ensures SlotModel(m) == (if old(parent) == null then TreeModel.Remove(old(Model()), old(key.n)).value
         else TreeModel.RemoveAt(old(Model()), old(key.n)).value)
      ensures old(parent) != null ==>
        old(parent).left == (if old(parent.left) == this then m else old(parent.left)) &&
        old(parent).right == (if old(parent.right) == this then m else old(parent.right))
      decreases Repr, 1
    {
      if left != null && right != null {
        RemoveWithSuccessor();
        m := this;
      } else if left != null {
        ghost var child := left;
        ReplaceWith(left);
        if old(parent) == null {
          AdoptedChildren(child, this);
        } else {
          ParentLinkChanged(child);
        }
        m := if old(parent) == null then this else child;
      } else if right != null {
        ghost var child := right;
        ReplaceWith(right);
        if old(parent) == null {
          AdoptedChildren(child, this);
        } else {
          ParentLinkChanged(child);
        }
        m := if old(parent) == null then this else child;
      } else {
        ReplaceWith(null);
        m := if old(parent) == null then this else null;
      }
    }

    /** The two-children case of `remove`: this node takes the key and value
        of `right._findMin()`, the successor, which then removes itself
        (`successor.remove(successor.key)`) from the right subtree. */
    method RemoveWithSuccessor()
      requires Valid() && key.Num? && left != null && right != null
      modifies Repr
      ensures Valid() && Repr == old(Repr) && parent == old(parent) && key.Num?
      ensures TreeModel.RemoveAt(old(Model()), old(key.n)) == Ok(Model())
      decreases Repr, 0
    {
      ghost var rt := right;
      var successor := right.FindMin();
      ghost var p := successor.parent;
      key := successor.key;
      value := successor.value;
      var r';
      ghost var m';
      r', m' := successor.Remove(successor.key.n);
      if successor != rt {
        SpliceLeftmost(rt, successor, p, m');
        SuccessorMoved(this, rt);
      } else {
        SuccessorMoved(this, m');
      }
    }

    /** `dfsInOrder(values)`: the accumulator with the subtree's values
        appended in left, node, right order. */
    method DfsInOrder(values: seq<Value>) returns (r: seq<Value>)
      requires Valid()
      ensures r == values + TreeModel.InOrder(Model())
      decreases Repr
    {
      r := values;
      if left != null {
        r := left.DfsInOrder(r);
      }
      r := r + [value];
      if right != null {
        r := right.DfsInOrder(r);
      }
    }

    /** `dfsPreOrder(values)`: the accumulator with the subtree's values
        appended in node, left, right order. */
    method DfsPreOrder(values: seq<Value>) returns (r: seq<Value>)
      requires Valid()
      ensures r == values + TreeModel.PreOrder(Model())
      decreases Repr
    {
      r := values + [value];
      if left != null {
        r := left.DfsPreOrder(r);
      }
      if right != null {
        r := right.DfsPreOrder(r);
      }
    }

    /** `dfsPostOrder(values)`: the accumulator with the subtree's values
        appended in left, right, node order. */
    method DfsPostOrder(values: seq<Value>) returns (r: seq<Value>)
      requires Valid()
      ensures r == values + TreeModel.PostOrder(Model())
      decreases Repr
    {
      r := values;
      if left != null {
        r := left.DfsPostOrder(r);
      }
      if right != null {
        r := right.DfsPostOrder(r);
      }
      r := r + [value];
    }

    /** `isBST()`: whether no in-order value is less than the one before it. */
    method IsBST() returns (b: bool)
      requires Valid()
      ensures b == TreeModel.NonDecreasing(TreeModel.InOrder(Model()))
    {
      ghost var inOrder := TreeModel.InOrder(Model());
      var values := DfsInOrder([]);
      assert [] + inOrder == inOrder;
      b := ScanNonDecreasing(values);
    }

    /** `bfs(tree, values)`: the accumulator with the values of `tree`'s
        nodes appended in level order, driven by a first-in first-out queue
        of nodes (`enqueue` appends, `dequeue` takes the front). The source
        dequeues once before the loop and again at the end of each turn,
        stopping when the queue gives nothing; here each turn dequeues at
        its start while the queue is non-empty, which visits the same nodes
        in the same order. The receiver itself is not used. */
    method Bfs(tree: BinarySearchTree, values: seq<Value>) returns (r: seq<Value>)
      requires tree.Valid()
      ensures r == values + TreeModel.LevelOrder([tree.Model()])
    {
      ghost var R, goal := tree.Repr, values + TreeModel.LevelOrder([tree.Model()]);
      var queue: seq<BinarySearchTree> := [tree];
      // The trees of the queued nodes, front first.
      ghost var pending := [tree.Model()];
      r := values;
      while queue != []
        invariant Tracks(queue, pending, R)
        invariant r + TreeModel.LevelOrder(pending) == goal
        decreases TreeModel.Weight(pending)
      {
        TracksFront(queue, pending, R);
        var node := queue[0];
        queue := queue[1..];
        ghost var rest := pending[1..];
        TreeModel.LevelOrderStep(node.Model(), rest);
        r := r + [node.value];
        queue := EnqueueChildren(node, queue, rest, R);
        pending := rest + TreeModel.Children(node.Model());
      }
    }

    /** `_replaceWith(node)` with the parent links of adopted children
        re-pointed. A node with a parent hands its slot in the parent to
        `node`; the root copies `node`'s key, value and children into
        itself (and the children now name the root as their parent), or
        clears itself when `node` is null. */
    method ReplaceWith(node: BinarySearchTree?)
      requires parent != this
      modifies (if parent == null then {this} else {})`key, (if parent == null then {this} else {})`value
      modifies (if parent == null then {this} else {})`left, (if parent == null then {this} else {})`right
      modifies {parent}`left, {parent}`right, (if parent != null then {node} else {})`parent
      modifies (if parent == null && node != null then {node.left, node.right} else {})`parent
      ensures old(parent) != null ==>
        old(parent).left == (if old(parent.left) == this then node else old(parent.left)) &&
        old(parent).right == (if old(parent.left) != this && old(parent.right) == this then node else old(parent.right)) &&
        (node != null ==> node.parent == old(parent))
      ensures old(parent) == null && node != null ==>
        key == old(node.key) && value == old(node.value) && left == old(node.left) && right == old(node.right) &&
        (left != null ==> left.parent == this) && (right != null ==> right.parent == this)
      ensures old(parent) == null && node == null ==>
        key == Null && value == Null && left == null && right == null
    {
      if parent != null {
        if this == parent.left {
          parent.left := node;
        } else if this == parent.right {
          parent.right := node;
        }
        if node != null {
          node.parent := parent;
        }
      } else {
        if node != null {
          key, value, left, right := node.key, node.value, node.left, node.right;
          if left != null {
            left.parent := this;
          }
          if right != null {
            right.parent := this;
          }
        } else {
          key, value, left, right := Null, Null, null, null;
        }
      }
    }

    /** `_replaceWith(node)` as written: the root copies `node`'s children but
        leaves their parent links pointing at `node`, which is no longer in
        the tree. */
    method ReplaceWithAsWritten(node: BinarySearchTree?)
      requires parent != this
      modifies (if parent == null then {this} else {})`key, (if parent == null then {this} else {})`value
      modifies (if parent == null then {this} else {})`left, (if parent == null then {this} else {})`right
      modifies {parent}`left, {parent}`right, (if parent != null then {node} else {})`parent
      ensures old(parent) != null ==>
        old(parent).left == (if old(parent.left) == this then node else old(parent.left)) &&
        old(parent).right == (if old(parent.left) != this && old(parent.right) == this then node else old(parent.right)) &&
        (node != null ==> node.parent == old(parent))
      ensures old(parent) == null && node != null ==>
        key == old(node.key) && value == old(node.value) && left == old(node.left) && right == old(node.right)
      ensures old(parent) == null && node != null && node != this ==>
        node.left == left && node.right == right &&
        (left != null ==> left.parent == old(node.left.parent)) &&
        (right != null ==> right.parent == old(node.right.parent))
      ensures old(parent) == null && node == null ==>
        key == Null && value == Null && left == null && right == null
    {
      if parent != null {
        if this == parent.left {
          parent.left := node;
        } else if this == parent.right {
          parent.right := node;
        }
        if node != null {
          node.parent := parent;
        }
      } else {
        if node != null {
          key, value, left, right := node.key, node.value, node.left, node.right;
        } else {
          key, value, left, right := Null, Null, null, null;
        }
      }
    }
  }

  /** The tree 10 with left child 5 with left child 3, after `remove(10)` and
      then `remove(3)` with `_replaceWith` as written: the root took over
      node 5's key and children, but node 3 still names node 5 as its
      parent, so removing node 3 empties a slot of the unlinked node 5 and
      the root still holds node 3. A last `remove(5)` then copies node 3
      into the root, so after removing every inserted key the tree still
      holds the key 3 instead of being empty. */
  method StaleParentLosesRemoval() returns (stillLinked: bool, keyLeft: Value)
    ensures stillLinked
    ensures keyLeft == Num(3)
  {
    var root := new BinarySearchTree(Num(10), Num(10), null);
    var five := new BinarySearchTree(Num(5), Num(5), root);
    root.left := five;
    var three := new BinarySearchTree(Num(3), Num(3), five);
    five.left := three;
    // remove(10) on the root: it has only a left child.
    root.ReplaceWithAsWritten(five);
    // remove(3): 3 < 5, so the root calls remove(3) on its left child, node
    // 3, a leaf, which calls _replaceWith(null).
    assert root.key == Num(5) && root.left == three && three.key == Num(3);
    three.ReplaceWithAsWritten(null);
    stillLinked := root.left == three && three.key == Num(3);
    // remove(5) on the root: its key is 5 and it has only the left child
    // node 3, which it copies.
    assert root.key == Num(5) && root.right == null;
    root.ReplaceWithAsWritten(root.left);
    keyLeft := root.key;
  }

  /** The same tree after `remove(10)` and `remove(3)` with `_replaceWith` as
      written, followed by a second `remove(3)`: the root still reaches
      node 3, which is now neither child of its stale parent node 5, so
      `_replaceWith(null)` changes nothing, no error is raised, and node 3
      stays in the tree. */
  method StaleParentOrphan() returns (orphaned: bool, stillLinked: bool)
    ensures orphaned
    ensures stillLinked
  {
    var root := new BinarySearchTree(Num(10), Num(10), null);
    var five := new BinarySearchTree(Num(5), Num(5), root);
    root.left := five;
    var three := new BinarySearchTree(Num(3), Num(3), five);
    five.left := three;
    // remove(10), then remove(3), as in StaleParentLosesRemoval.
    root.ReplaceWithAsWritten(five);
    three.ReplaceWithAsWritten(null);
    // remove(3) again: 3 < 5, so the root calls remove(3) on node 3, a leaf,
    // which calls _replaceWith(null) with node 5 as its parent.
    assert root.key == Num(5) && root.left == three && three.key == Num(3);
    assert three.left == null && three.right == null;
    orphaned := three.parent == five && five.left != three && five.right != three;
    three.ReplaceWithAsWritten(null);
    stillLinked := root.left == three && three.key == Num(3);
  }

  /** The loop of `isBST()` over the in-order values: false at the first
      value less than its predecessor. */
  method ScanNonDecreasing(values: seq<Value>) returns (b: bool)
    ensures b == TreeModel.NonDecreasing(values)
  {
    var i := 1;
    while i < |values|
      invariant 1 <= i
      invariant forall j :: 1 <= j < i && j < |values| ==> !Less(values[j], values[j - 1])
    {
      if Less(values[i], values[i - 1]) {
        return false;
      }
      i := i + 1;
    }
    return true;
  }

  /** A valid node whose nodes all lie inside `R`. */
  ghost predicate Live(n: BinarySearchTree, R: set<object>)
    reads R
  {
    n in R && n.Repr <= R && n.Valid()
  }

  /** `nodes` are valid nodes inside `R` whose trees are `ts`, in order. */
  ghost predicate Tracks(nodes: seq<BinarySearchTree>, ts: seq<TreeModel.Tree>, R: set<object>)
    reads R
    decreases |nodes|
  {
    |nodes| == |ts| &&
    (nodes != [] ==> Live(nodes[0], R) && nodes[0].Model() == ts[0] && Tracks(nodes[1..], ts[1..], R))
  }

  lemma TracksFront(nodes: seq<BinarySearchTree>, ts: seq<TreeModel.Tree>, R: set<object>)
    requires Tracks(nodes, ts, R) && nodes != []
    ensures Live(nodes[0], R) && ts == [nodes[0].Model()] + ts[1..]
    ensures Tracks(nodes[1..], ts[1..], R)
  {
  }

  lemma {:induction false} TracksSnoc(nodes: seq<BinarySearchTree>, ts: seq<TreeModel.Tree>, n: BinarySearchTree, R: set<object>)
    requires Tracks(nodes, ts, R) && Live(n, R)
    ensures Tracks(nodes + [n], ts + [n.Model()], R)
    decreases |nodes|
  {
    if nodes != [] {
      TracksSnoc(nodes[1..], ts[1..], n, R);
      assert (nodes + [n])[1..] == nodes[1..] + [n];
      assert (ts + [n.Model()])[1..] == ts[1..] + [n.Model()];
    } else {
      assert ([n])[1..] == [];
      assert ([n.Model()])[1..] == [];
    }
  }

  /** The children of `node`, left first, are the children of its tree. */
  lemma ChildSlots(node: BinarySearchTree, R: set<object>)
    requires Live(node, R)
    ensures node.left != null ==> Live(node.left, R)
    ensures node.right != null ==> Live(node.right, R)
    ensures TreeModel.Children(node.Model()) ==
      (if node.left == null then [] else [node.left.Model()]) + (if node.right == null then [] else [node.right.Model()])
  {
  }

  /** The enqueueing half of a `bfs` turn: `node`'s left child, then its
      right child, join the back of the queue when present. */
  method EnqueueChildren(node: BinarySearchTree, queue: seq<BinarySearchTree>, ghost ts: seq<TreeModel.Tree>, ghost R: set<object>)
    returns (q: seq<BinarySearchTree>)
    requires Live(node, R) && Tracks(queue, ts, R)
    ensures Tracks(q, ts + TreeModel.Children(node.Model()), R)
  {
    q := queue;
    ghost var tq := ts;
    ChildSlots(node, R);
    if node.left != null {
      TracksSnoc(q, tq, node.left, R);
      q, tq := q + [node.left], tq + [node.left.Model()];
    }
    if node.right != null {
      TracksSnoc(q, tq, node.right, R);
      q, tq := q + [node.right], tq + [node.right.Model()];
    }
    assert tq == ts + TreeModel.Children(node.Model());
  }

  /** The tree seen from a child slot holding `n`. */
  ghost function SlotModel(n: BinarySearchTree?): TreeModel.Tree
    reads if n == null then {} else {n} + n.Repr
    requires n == null || n.Valid()
  {
    if n == null then TreeModel.Nil else n.Model()
  }

  /** A node whose only changed field is its parent link is as valid as before
      and holds the same tree. */
  twostate lemma ParentLinkChanged(n: BinarySearchTree)
    requires old(n.Valid())
    requires unchanged(old(n.Repr) - {n})
    requires n.key == old(n.key) && n.value == old(n.value) && n.left == old(n.left) && n.right == old(n.right)
    requires n.Repr == old(n.Repr)
    ensures n.Valid() && n.Model() == old(n.Model())
  {
  }

  /** After the root copied the node `c`, and `c`'s children were re-pointed
      at the root (their only change), the root is valid and holds `c`'s old
      tree. */
  twostate lemma AdoptedChildren(c: BinarySearchTree, new root: BinarySearchTree)
    requires old(c.Valid()) && old(c.key.Num?)
    requires old(c.Repr) <= root.Repr && root !in old(c.Repr) && root in root.Repr
    requires root.key == old(c.key) && root.value == old(c.value)
    requires root.left == old(c.left) && root.right == old(c.right)
    requires unchanged(old(c.Repr) - {c, old(c.left), old(c.right)})
    requires root.left != null ==>
      root.left.parent == root && root.left.key == old(c.left.key) && root.left.value == old(c.left.value) &&
      root.left.left == old(c.left.left) && root.left.right == old(c.left.right) && root.left.Repr == old(c.left.Repr)
    requires root.right != null ==>
      root.right.parent == root && root.right.key == old(c.right.key) && root.right.value == old(c.right.value) &&
      root.right.left == old(c.right.left) && root.right.right == old(c.right.right) && root.right.Repr == old(c.right.Repr)
    ensures root.Valid() && root.Model() == old(c.Model())
  {
    if root.left != null {
      ParentLinkChanged(root.left);
    }
    if root.right != null {
      ParentLinkChanged(root.right);
    }
  }

  /** After the leftmost node `s` below `x` (not `x` itself) was replaced in
      its parent `p`'s left slot by `m`, which holds what `s` leaves behind,
      `x` holds its old tree without the leftmost node: the spine from `x`
      down to `p` is otherwise untouched. */
  twostate lemma SpliceLeftmost(x: BinarySearchTree, new s: BinarySearchTree, new p: BinarySearchTree, new m: BinarySearchTree?)
    requires old(x.Valid()) && old(x.key.Num?)
    requires s == old(x.FindMin()) && s != x && p == old(s.parent)
    requires unchanged(old(x.Repr) - old(s.Repr) - {p})
    requires p.key == old(p.key) && p.value == old(p.value) && p.right == old(p.right)
    requires p.parent == old(p.parent) && p.Repr == old(p.Repr) && p.left == m
    requires m == null || (m.Valid() && m.Repr <= old(s.Repr) && m.parent == p && m.key.Num?)
    requires SlotModel(m) == TreeModel.RemoveMin(old(s.Model()))
    ensures x.Valid() && x.Repr == old(x.Repr)
    ensures x.Model() == TreeModel.RemoveMin(old(x.Model()))
    decreases old(x.Repr)
  {
    var l := old(x.left);
    if l == s {
      assert p == x;
      LeftReplaced(x, m);
    } else {
      SpliceLeftmost(l, s, p, m);
      LeftReplaced(x, l);
    }
  }

  /** A node whose left child `n` now holds the old left subtree without its
      leftmost node, all else unchanged, holds its old tree without the
      leftmost node. */
  twostate lemma LeftReplaced(x: BinarySearchTree, new n: BinarySearchTree?)
    requires old(x.Valid()) && old(x.key.Num?) && old(x.left) != null
    requires x.key == old(x.key) && x.value == old(x.value) && x.right == old(x.right)
    requires x.Repr == old(x.Repr) && x.left == n
    requires x.right != null ==> unchanged(old(x.right.Repr))
    requires n == null || (n.Valid() && n.Repr <= old(x.left.Repr) && n.parent == x && n.key.Num?)
    requires SlotModel(n) == TreeModel.RemoveMin(old(x.left.Model()))
    ensures x.Valid() && x.Model() == TreeModel.RemoveMin(old(x.Model()))
  {
    if x.right != null {
      Untouched(x.right);
    }
  }

  /** A node with two children that took over the key and value of the
      leftmost node of its right subtree, and whose right child `n` now holds
      that subtree without its leftmost node, holds what TreeModel.RemoveAt
      leaves when its own old key is removed. */
  twostate lemma SuccessorMoved(x: BinarySearchTree, new n: BinarySearchTree?)
    requires old(x.Valid()) && old(x.key.Num?) && old(x.left) != null && old(x.right) != null
    requires x.key == old(x.right.FindMin().key) && x.value == old(x.right.FindMin().value)
    requires x.left == old(x.left) && x.Repr == old(x.Repr) && x.right == n
    requires unchanged(old(x.left.Repr))
    requires n == null || (n.Valid() && n.Repr <= old(x.right.Repr) && n.parent == x && n.key.Num?)
    requires SlotModel(n) == TreeModel.RemoveMin(old(x.right.Model()))
    ensures x.Valid() && TreeModel.RemoveAt(old(x.Model()), old(x.key.n)) == Ok(x.Model())
  {
    Untouched(x.left);
  }

  /** A valid node none of whose reachable nodes changed is still valid and
      holds the same tree. */
  twostate lemma Untouched(n: BinarySearchTree)
    requires old(n.Valid()) && unchanged(old(n.Repr))
    ensures n.Valid() && n.Repr == old(n.Repr) && n.Model() == old(n.Model())
  {
  }
}
