// Concrete trees: the small cases a reader would try by hand, worked out
// on the tree value of TreeModel.
module Scenarios {
  import opened Values
  import opened TreeModel

  /** A childless node whose value is its key. */
  function Leaf(k: int): Tree
  {
    Node(Nil, k, Num(k), Nil)
  }

  /** Inserting `k` with itself as value. */
  function Put(t: Tree, k: int): Tree
  {
    Insert(t, k, Num(k))
  }

  lemma {:induction false} InsertValuesAreKeys(t: Tree, k: int)
    requires ValuesAreKeys(t)
    ensures ValuesAreKeys(Insert(t, k, Num(k)))
  {
    match t
    case Nil =>
    case Empty(_) =>
    case Node(l, key, _, r) =>
      if k < key {
        InsertValuesAreKeys(l, k);
      } else {
        InsertValuesAreKeys(r, k);
      }
  }

  /** The tree built by inserting 10, 5, 15, 3, 7, each as its own value. */
  function Small(): Tree
  {
    Put(Put(Put(Put(Put(Empty(Null), 10), 5), 15), 3), 7)
  }

  lemma SmallShape()
    ensures Small() == Node(Node(Leaf(3), 5, Num(5), Leaf(7)), 10, Num(10), Leaf(15))
  {
  }

  lemma SmallLevelOrder(t: Tree)
    requires t == Node(Node(Leaf(3), 5, Num(5), Leaf(7)), 10, Num(10), Leaf(15))
    ensures LevelOrder([t]) == [Num(10), Num(5), Num(15), Num(3), Num(7)]
  {
    var n5 := t.left;
    LevelOrderCons(t, []);
    assert [] + Children(t) == [n5, Leaf(15)];
    LevelOrderCons(n5, [Leaf(15)]);
    assert [Leaf(15)] + Children(n5) == [Leaf(15), Leaf(3), Leaf(7)];
    LevelOrderCons(Leaf(15), [Leaf(3), Leaf(7)]);
    assert [Leaf(3), Leaf(7)] + Children(Leaf(15)) == [Leaf(3), Leaf(7)];
    LevelOrderCons(Leaf(3), [Leaf(7)]);
    assert [Leaf(7)] + Children(Leaf(3)) == [Leaf(7)];
    LevelOrderCons(Leaf(7), []);
    assert [] + Children(Leaf(7)) == [];
  }

  /** Inserting 10, 5, 15, 3, 7: height 2, the keys in order in-order, and
      level order 10, 5, 15, 3, 7. */
  lemma SmallTree()
    ensures GetHeight(Small(), 0) == 2
    ensures InOrder(Small()) == [Num(3), Num(5), Num(7), Num(10), Num(15)]
    ensures LevelOrder([Small()]) == [Num(10), Num(5), Num(15), Num(3), Num(7)]
    ensures FindKthLargestValue(Small(), 1) == Some(Num(15))
    ensures FindKthLargestValue(Small(), 6) == None
  {
    SmallShape();
    SmallLevelOrder(Small());
  }

  /** Inserting 50, 30, 70, 20, 40, 60, 80 gives the perfect tree of three
      levels: four leaves, balanced at height 2. Removing 20 (a leaf), then
      30 (now with one child), then 50 (the root, with two children, which
      takes 60 from its right subtree) succeeds each time, and each removed
      key is then not found. */
  lemma PerfectTree()
    ensures var t := Put(Put(Put(Put(Put(Put(Put(Empty(Null), 50), 30), 70), 20), 40), 60), 80);
      CountLeaves(t) == Ok(4) && IsBalancedBST(t) == 2 &&
      Remove(t, 20).Ok? && Find(Remove(t, 20).value, 20) == Err(KeyNotFound) &&
      Remove(Remove(t, 20).value, 30).Ok? &&
      Find(Remove(Remove(t, 20).value, 30).value, 30) == Err(KeyNotFound) &&
      Remove(Remove(Remove(t, 20).value, 30).value, 50) == Ok(Node(Leaf(40), 60, Num(60), Node(Nil, 70, Num(70), Leaf(80)))) &&
      Find(Remove(Remove(Remove(t, 20).value, 30).value, 50).value, 50) == Err(KeyNotFound)
  {
    var t := Node(Node(Leaf(20), 30, Num(30), Leaf(40)), 50, Num(50), Node(Leaf(60), 70, Num(70), Leaf(80)));
    assert Put(Put(Put(Put(Put(Put(Put(Empty(Null), 50), 30), 70), 20), 40), 60), 80) == t;
    var t1 := Node(Node(Nil, 30, Num(30), Leaf(40)), 50, Num(50), Node(Leaf(60), 70, Num(70), Leaf(80)));
    assert Remove(t, 20) == Ok(t1);
    var t2 := Node(Leaf(40), 50, Num(50), Node(Leaf(60), 70, Num(70), Leaf(80)));
    assert Remove(t1, 30) == Ok(t2);
    assert FindMin(Node(Leaf(60), 70, Num(70), Leaf(80))) == Leaf(60);
  }

  /** A node graph built by hand with 5 to the left of 3: not ordered, and
      `isBST` sees the in-order values 5, 3 decrease. */
  lemma IsBSTRejects()
    ensures var t := Node(Leaf(5), 3, Num(3), Nil);
      !Ordered(t) && !NonDecreasing(InOrder(t))
  {
    var t := Node(Leaf(5), 3, Num(3), Nil);
    assert 5 in Keys(t.left);
    assert InOrder(t) == [Num(5), Num(3)];
    assert Less(InOrder(t)[1], InOrder(t)[0]);
  }
}
