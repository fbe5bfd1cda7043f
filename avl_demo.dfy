/** The demonstration in modulo-2/aula1's `main`, replayed on the model.
    The run inserts 10, 20, 30, 40, 50 and 25 into an empty tree, then looks
    up 20 and 15. The lemmas follow each insertion one rebalancing step at
    a time, for any six values in the same relative order
    (a < b < m < c < d < e, inserted as a, b, c, d, e, m). */
module AvlDemo {
  import opened Primitives
  import opened Avl

  /** A larger value becomes a leaf's right child; no rotation. */
  lemma InsertRightOfLeaf(a: I32, b: I32)
    requires a < b
    ensures InsertNode(NewNode(a), b) == Node(a, Nil, NewNode(b), 2)
  {
  }

  /** A smaller value becomes a leaf's left child; no rotation. */
  lemma InsertLeftOfLeaf(a: I32, b: I32)
    requires b < a
    ensures InsertNode(NewNode(a), b) == Node(a, NewNode(b), Nil, 2)
  {
  }

  /** Extending the right chain a, b with c unbalances a (factor -2, right
      child -1): a single left rotation makes b the root. */
  lemma InsertRightOfChain(a: I32, b: I32, c: I32)
    requires a < b < c
    ensures InsertNode(Node(a, Nil, NewNode(b), 2), c) == Node(b, NewNode(a), NewNode(c), 2)
  {
    InsertRightOfLeaf(b, c);
    var n := Node(a, Nil, Node(b, Nil, NewNode(c), 2), 3);
    assert BalanceFactor(n) == -2 && BalanceFactor(n.right) == -1;
  }

  /** The fourth insertion (40): the right subtree grows, the root's factor
      becomes -1, and nothing rotates. */
  lemma InsertFourth(a: I32, b: I32, c: I32, d: I32)
    requires a < b < c < d
    ensures InsertNode(Node(b, NewNode(a), NewNode(c), 2), d)
         == Node(b, NewNode(a), Node(c, Nil, NewNode(d), 2), 3)
  {
    InsertRightOfLeaf(c, d);
  }

  /** The fifth insertion (50): the right chain c, d, e is rotated left
      below the root, which keeps its height. */
  lemma InsertFifth(a: I32, b: I32, c: I32, d: I32, e: I32)
    requires a < b < c < d < e
    ensures HeightCached(Node(b, NewNode(a), Node(c, Nil, NewNode(d), 2), 3))
    ensures InsertNode(Node(b, NewNode(a), Node(c, Nil, NewNode(d), 2), 3), e)
         == Node(b, NewNode(a), Node(d, NewNode(c), NewNode(e), 2), 3)
  {
    InsertRightOfChain(c, d, e);
  }

  /** The sixth insertion (25) below the root: it lands left of c, and d
      keeps its balance with factor 1. */
  lemma InsertSixthBelow(c: I32, d: I32, e: I32, m: I32)
    requires m < c < d < e
    ensures InsertNode(Node(d, NewNode(c), NewNode(e), 2), m)
         == Node(d, Node(c, NewNode(m), Nil, 2), NewNode(e), 3)
  {
    InsertLeftOfLeaf(c, m);
  }

  /** The sixth insertion at the root: the root is right-heavy (factor -2)
      while its right child leans left (factor 1), so the right-left double
      rotation makes c the root. */
  lemma InsertSixth(a: I32, b: I32, c: I32, d: I32, e: I32, m: I32)
    requires a < b < m < c < d < e
    ensures HeightCached(Node(b, NewNode(a), Node(d, NewNode(c), NewNode(e), 2), 3))
    ensures InsertNode(Node(b, NewNode(a), Node(d, NewNode(c), NewNode(e), 2), 3), m)
         == Node(c, Node(b, NewNode(a), NewNode(m), 2), Node(d, Nil, NewNode(e), 2), 3)
  {
    InsertSixthBelow(c, d, e, m);
    var right := Node(d, Node(c, NewNode(m), Nil, 2), NewNode(e), 3);
    var n := Node(b, NewNode(a), right, 4);
    assert BalanceFactor(n) == -2 && BalanceFactor(right) == 1;
    assert RotateRight(right) == Node(c, NewNode(m), Node(d, Nil, NewNode(e), 2), 3);
  }

  /** The final tree holds exactly the six values. */
  lemma ElementsOfSix(a: I32, b: I32, c: I32, d: I32, e: I32, m: I32)
    ensures Elements(Node(c, Node(b, NewNode(a), NewNode(m), 2), Node(d, Nil, NewNode(e), 2), 3))
         == {a, b, c, d, e, m}
  {
    assert Elements(Node(b, NewNode(a), NewNode(m), 2)) == {a, b, m};
    assert Elements(Node(d, Nil, NewNode(e), 2)) == {d, e};
  }

  /** One `Tree::insert` on a tree whose root is known, with the root it
      leaves as worked out by one of the lemmas above. */
  method InsertStep(tree: Tree, v: I32, ghost before: Link, ghost after: Link)
    requires tree.Valid() && tree.root == before && before.Node?
    requires InsertNode(before, v) == after
    modifies tree
    ensures tree.Valid() && tree.root == after
  {
    tree.Insert(v);
  }

  /** The six insertions of `main` into a new tree, for any values in the
      same relative order: the tree ends with c at the root over {a, b, m}
      and {d, e}. */
  method InsertSix(a: I32, b: I32, c: I32, d: I32, e: I32, m: I32) returns (tree: Tree)
    requires a < b < m < c < d < e
    ensures fresh(tree) && tree.Valid()
    ensures tree.root == Node(c, Node(b, NewNode(a), NewNode(m), 2), Node(d, Nil, NewNode(e), 2), 3)
  {
    tree := new Tree();
    tree.Insert(a);
    InsertRightOfLeaf(a, b);
    InsertStep(tree, b, NewNode(a), Node(a, Nil, NewNode(b), 2));
    InsertRightOfChain(a, b, c);
    InsertStep(tree, c, Node(a, Nil, NewNode(b), 2), Node(b, NewNode(a), NewNode(c), 2));
    InsertFourth(a, b, c, d);
    InsertStep(tree, d, Node(b, NewNode(a), NewNode(c), 2),
               Node(b, NewNode(a), Node(c, Nil, NewNode(d), 2), 3));
    InsertFifth(a, b, c, d, e);
    InsertStep(tree, e, Node(b, NewNode(a), Node(c, Nil, NewNode(d), 2), 3),
               Node(b, NewNode(a), Node(d, NewNode(c), NewNode(e), 2), 3));
    InsertSixth(a, b, c, d, e, m);
    InsertStep(tree, m, Node(b, NewNode(a), Node(d, NewNode(c), NewNode(e), 2), 3),
               Node(c, Node(b, NewNode(a), NewNode(m), 2), Node(d, Nil, NewNode(e), 2), 3));
  }

  /** After the six insertions, b is found and a value never inserted is
      not. */
  method InsertSixAndSearch(a: I32, b: I32, c: I32, d: I32, e: I32, m: I32, absent: I32)
    returns (foundB: bool, foundAbsent: bool, top: Link)
    requires a < b < m < c < d < e
    requires absent != a && absent != b && absent != c && absent != d && absent != e && absent != m
    ensures foundB && !foundAbsent
    ensures top == Node(c, Node(b, NewNode(a), NewNode(m), 2), Node(d, Nil, NewNode(e), 2), 3)
  {
    var tree := InsertSix(a, b, c, d, e, m);
    ElementsOfSix(a, b, c, d, e, m);
    foundB := tree.Search(b);
    foundAbsent := tree.Search(absent);
    top := tree.root;
  }

  /** The run of `main`: after inserting 10, 20, 30, 40, 50 and 25, 20 is
      found, 15 is not, and 30 is at the root with 20 and 40 below it. */
  method InsertAndSearch() returns (found20: bool, found15: bool, top: Link)
    ensures found20 && !found15
    ensures top == Node(30, Node(20, NewNode(10), NewNode(25), 2), Node(40, Nil, NewNode(50), 2), 3)
  {
    found20, found15, top := InsertSixAndSearch(10, 20, 30, 40, 50, 25, 15);
  }
}
