/** The AVL tree of modulo-2/aula1: a binary search tree over `i32` whose
    nodes cache their own height, rebalanced by single and double rotations
    on the way back up from every insertion.

    Rust's `Option<Box<Node>>` becomes the datatype `Link`; the operations
    that consume a node and return the new subtree root (`rotate_right`,
    `rotate_left`, `balance`, `Node::insert`) become functions from `Link`
    to `Link`. Only `Tree::insert` updates state in place, so `Tree` is a
    class whose `root` field it reassigns. */
module Avl {
  import opened Primitives

  /** An absent child (`None`), or an exclusively owned node with its value,
      its two subtrees and its cached height. */
  datatype Link = Nil | Node(value: I32, left: Link, right: Link, height: int)

  // ---------------------------------------------------------------------
  // The abstract view of a subtree and the three AVL invariants
  // ---------------------------------------------------------------------

  /** The set of values stored in a subtree. */
  ghost function Elements(t: Link): set<I32> {
    match t
    case Nil => {}
    case Node(v, l, r, _) => Elements(l) + {v} + Elements(r)
  }

  /** The in-order sequence of values; rotations must preserve it. */
  ghost function InOrder(t: Link): seq<I32> {
    match t
    case Nil => []
    case Node(v, l, r, _) => InOrder(l) + [v] + InOrder(r)
  }

  /** The real height of a subtree: 0 when absent, 1 for a leaf. */
  ghost function Depth(t: Link): nat {
    match t
    case Nil => 0
    case Node(_, l, r, _) => 1 + Max(Depth(l), Depth(r))
  }

  /** Search-tree order: left values are smaller, right values larger. */
  ghost predicate Ordered(t: Link) {
    match t
    case Nil => true
    case Node(v, l, r, _) =>
      && Ordered(l) && Ordered(r)
      && (forall x :: x in Elements(l) ==> x < v)
      && (forall x :: x in Elements(r) ==> v < x)
  }

  /** Height cache: every node's `height` field is its subtree's real height. */
  ghost predicate HeightCached(t: Link) {
    match t
    case Nil => true
    case Node(_, l, r, h) => h == Depth(t) && HeightCached(l) && HeightCached(r)
  }

  /** Height balance: at every node the subtrees' heights differ by at most 1. */
  ghost predicate Balanced(t: Link) {
    match t
    case Nil => true
    case Node(_, l, r, _) =>
      Balanced(l) && Balanced(r) && -1 <= Depth(l) - Depth(r) <= 1
  }

  /** All three invariants the tree keeps after every insertion. */
  ghost predicate IsAvl(t: Link) {
    Ordered(t) && HeightCached(t) && Balanced(t)
  }

  ghost predicate Sorted(s: seq<I32>) {
    forall i, j :: 0 <= i < j < |s| ==> s[i] < s[j]
  }

  /** `cmp::max`. */
  function Max(a: int, b: int): int {
    if a < b then b else a
  }

  // ---------------------------------------------------------------------
  // Facts about the abstract view
  // ---------------------------------------------------------------------

  lemma {:induction false} ElementsAreInOrder(t: Link)
    ensures forall x :: x in Elements(t) <==> x in InOrder(t)
  {
    match t
    case Nil =>
    case Node(v, l, r, _) =>
      ElementsAreInOrder(l);
      ElementsAreInOrder(r);
  }

  lemma SortedAroundSplits(a: seq<I32>, v: I32, b: seq<I32>)
    requires Sorted(a + [v] + b)
    ensures Sorted(a) && Sorted(b)
    ensures forall x :: x in a ==> x < v
    ensures forall x :: x in b ==> v < x
  {
    var s := a + [v] + b;
    forall i, j | 0 <= i < j < |a| ensures a[i] < a[j] {
      assert s[i] == a[i] && s[j] == a[j];
    }
    forall i, j | 0 <= i < j < |b| ensures b[i] < b[j] {
      assert s[|a| + 1 + i] == b[i] && s[|a| + 1 + j] == b[j];
    }
    forall x | x in a ensures x < v {
      var i :| 0 <= i < |a| && a[i] == x;
      assert s[i] == x && s[|a|] == v;
    }
    forall x | x in b ensures v < x {
      var i :| 0 <= i < |b| && b[i] == x;
      assert s[|a| + 1 + i] == x && s[|a|] == v;
    }
  }

  lemma SortedAroundJoins(a: seq<I32>, v: I32, b: seq<I32>)
    requires Sorted(a) && Sorted(b)
    requires forall x :: x in a ==> x < v
    requires forall x :: x in b ==> v < x
    ensures Sorted(a + [v] + b)
  {
    var s := a + [v] + b;
    forall i, j | 0 <= i < j < |s| ensures s[i] < s[j] {
      if j < |a| {
        assert s[i] == a[i] && s[j] == a[j];
      } else if i < |a| {
        assert s[i] == a[i] && a[i] in a;
        if j > |a| {
          assert s[j] == b[j - |a| - 1] && b[j - |a| - 1] in b;
        }
      } else if i == |a| {
        assert s[j] == b[j - |a| - 1] && b[j - |a| - 1] in b;
      } else {
        assert s[i] == b[i - |a| - 1] && s[j] == b[j - |a| - 1];
      }
    }
  }

  /** Search-tree order is exactly "the in-order sequence is strictly increasing". */
  lemma {:induction false} OrderedIffSorted(t: Link)
    ensures Ordered(t) <==> Sorted(InOrder(t))
  {
    match t
    case Nil =>
    case Node(v, l, r, _) =>
      OrderedIffSorted(l);
      OrderedIffSorted(r);
      ElementsAreInOrder(l);
      ElementsAreInOrder(r);
      if Sorted(InOrder(t)) {
        SortedAroundSplits(InOrder(l), v, InOrder(r));
      }
      if Ordered(t) {
        SortedAroundJoins(InOrder(l), v, InOrder(r));
      }
  }

  /** Two subtrees with the same in-order sequence hold the same values and
      are both search trees or both not. */
  lemma SameInOrder(a: Link, b: Link)
    requires InOrder(a) == InOrder(b)
    ensures Elements(a) == Elements(b)
    ensures Ordered(a) <==> Ordered(b)
  {
    ElementsAreInOrder(a);
    ElementsAreInOrder(b);
    OrderedIffSorted(a);
    OrderedIffSorted(b);
  }

  // ---------------------------------------------------------------------
  // Node operations
  // ---------------------------------------------------------------------

  /** `Node::new`: a leaf of height 1 holding `v`. */
  function NewNode(v: I32): (r: Link)
    ensures r.Node? && r.value == v && r.left.Nil? && r.right.Nil? && IsAvl(r)
    ensures Elements(r) == {v} && Depth(r) == 1 && r.height == 1
  {
    Node(v, Nil, Nil, 1)
  }

  /** `Node::height`: the cached height, 0 for an absent child. */
  function Height(t: Link): (h: int)
    ensures t.Nil? ==> h == 0
    ensures HeightCached(t) ==> h == Depth(t)
  {
    match t
    case Nil => 0
    case Node(_, _, _, h) => h
  }

  /** `balance_factor`: left height minus right height, from the caches. */
  function BalanceFactor(t: Link): (bf: int)
    requires t.Node?
    ensures HeightCached(t.left) && HeightCached(t.right) ==> bf == Depth(t.left) - Depth(t.right)
    ensures HeightCached(t) && Balanced(t) ==> -1 <= bf <= 1
  {
    Height(t.left) - Height(t.right)
  }

  /** `update_height`: refreshes the node's own cache from its children's
      caches and changes nothing else. */
  function UpdateHeight(t: Link): (r: Link)
    requires t.Node?
    ensures r.Node? && r.value == t.value && r.left == t.left && r.right == t.right
    ensures HeightCached(t.left) && HeightCached(t.right) ==> HeightCached(r)
  {
    t.(height := Max(Height(t.left), Height(t.right)) + 1)
  }

  /** `rotate_right`: promotes the left child (the Rust `unwrap` demands
      one); the node moves down as the promoted child's right child and
      takes over that child's former right subtree. */
  function RotateRight(t: Link): (r: Link)
    requires t.Node? && t.left.Node?
    ensures r.Node? && r.value == t.left.value && r.left == t.left.left
    ensures r.right.Node? && r.right.value == t.value
    ensures r.right.left == t.left.right && r.right.right == t.right
    ensures InOrder(r) == InOrder(t)
    ensures HeightCached(t.left.left) && HeightCached(t.left.right) && HeightCached(t.right)
      ==> HeightCached(r)
  {
    var child := t.left;
    var lowered := UpdateHeight(t.(left := child.right));
    UpdateHeight(child.(right := lowered))
  }

  /** `rotate_left`: the mirror image of `RotateRight`, promoting the right child. */
  function RotateLeft(t: Link): (r: Link)
    requires t.Node? && t.right.Node?
    ensures r.Node? && r.value == t.right.value && r.right == t.right.right
    ensures r.left.Node? && r.left.value == t.value
    ensures r.left.right == t.right.left && r.left.left == t.left
    ensures InOrder(r) == InOrder(t)
    ensures HeightCached(t.right.right) && HeightCached(t.right.left) && HeightCached(t.left)
      ==> HeightCached(r)
  {
    var child := t.right;
    var lowered := UpdateHeight(t.(right := child.left));
    UpdateHeight(child.(left := lowered))
  }

  /** `balance`: refreshes the node's height and, when one side is more than
      one level taller, restores balance with a single rotation or (when the
      taller child leans the other way) a double rotation. The children's
      caches must be right: that is what guarantees the `unwrap`s inside the
      rotations find a child. */
  function Balance(t: Link): (r: Link)
    requires t.Node? && HeightCached(t.left) && HeightCached(t.right)
    ensures r.Node? && HeightCached(r)
    ensures InOrder(r) == InOrder(t) && Elements(r) == Elements(t)
    ensures Ordered(t) ==> Ordered(r)
    ensures -1 <= Depth(t.left) - Depth(t.right) <= 1 ==> r == t.(height := Depth(t))
  {
    var n := UpdateHeight(t);
    var bf := BalanceFactor(n);
    var r :=
      if bf > 1 then
        var n' :=
          if BalanceFactor(n.left) < 0 then
            assert HeightCached(n.left.right);
            var lifted := RotateLeft(n.left);
            assert HeightCached(lifted.left) && HeightCached(lifted.right);
            n.(left := lifted)
          else n;
        RotateRight(n')
      else if bf < -1 then
        var n' :=
          if BalanceFactor(n.right) > 0 then
            assert HeightCached(n.right.left);
            var lifted := RotateRight(n.right);
            assert HeightCached(lifted.left) && HeightCached(lifted.right);
            n.(right := lifted)
          else n;
        RotateLeft(n')
      else
        n;
    SameInOrder(r, t);
    r
  }

  /** The left-left case: a single right rotation rebalances a node whose
      left child is two levels taller and leans left or not at all. */
  lemma SingleRotationBalances(n: Link)
    requires n.Node? && n.left.Node?
    requires Balanced(n.left) && Balanced(n.right)
    requires Depth(n.left.left) == Depth(n.right) + 1
    requires Depth(n.right) <= Depth(n.left.right) <= Depth(n.right) + 1
    ensures Balanced(RotateRight(n)) && Depth(RotateRight(n)) == Depth(n.left.right) + 2
  {
    var m := RotateRight(n);
    assert Depth(m.right) == Depth(n.left.right) + 1;
    assert Balanced(m.right);
  }

  /** The left-right case: rotating the left child left, then the node
      right, rebalances a node whose left child is two levels taller and
      leans right. */
  lemma DoubleRotationBalances(n: Link)
    requires n.Node? && n.left.Node? && n.left.right.Node?
    requires Balanced(n.left) && Balanced(n.right)
    requires Depth(n.left.left) == Depth(n.right)
    requires Depth(n.left.right) == Depth(n.right) + 1
    ensures Balanced(RotateRight(n.(left := RotateLeft(n.left))))
    ensures Depth(RotateRight(n.(left := RotateLeft(n.left)))) == Depth(n.right) + 2
  {
    var pivot := n.left.right;
    assert Balanced(pivot);
    var m := RotateRight(n.(left := RotateLeft(n.left)));
    assert m.left == Node(n.left.value, n.left.left, pivot.left, m.left.height);
    assert m.right == Node(n.value, pivot.right, n.right, m.right.height);
    assert Depth(m.left) == Depth(n.right) + 1;
    assert Depth(m.right) == Depth(n.right) + 1;
  }

  /** Mirror image of `SingleRotationBalances` (the right-right case). */
  lemma SingleRotationBalancesMirror(n: Link)
    requires n.Node? && n.right.Node?
    requires Balanced(n.left) && Balanced(n.right)
    requires Depth(n.right.right) == Depth(n.left) + 1
    requires Depth(n.left) <= Depth(n.right.left) <= Depth(n.left) + 1
    ensures Balanced(RotateLeft(n)) && Depth(RotateLeft(n)) == Depth(n.right.left) + 2
  {
    var m := RotateLeft(n);
    assert Depth(m.left) == Depth(n.right.left) + 1;
    assert Balanced(m.left);
  }

  /** Mirror image of `DoubleRotationBalances` (the right-left case). */
  lemma DoubleRotationBalancesMirror(n: Link)
    requires n.Node? && n.right.Node? && n.right.left.Node?
    requires Balanced(n.right) && Balanced(n.left)
    requires Depth(n.right.right) == Depth(n.left)
    requires Depth(n.right.left) == Depth(n.left) + 1
    ensures Balanced(RotateLeft(n.(right := RotateRight(n.right))))
    ensures Depth(RotateLeft(n.(right := RotateRight(n.right)))) == Depth(n.left) + 2
  {
    var pivot := n.right.left;
    assert Balanced(pivot);
    var m := RotateLeft(n.(right := RotateRight(n.right)));
    assert m.right == Node(n.right.value, pivot.right, n.right.right, m.right.height);
    assert m.left == Node(n.value, n.left, pivot.left, m.left.height);
    assert Depth(m.left) == Depth(n.left) + 1;
    assert Depth(m.right) == Depth(n.left) + 1;
  }

  /** With both children AVL and their heights at most two apart, `Balance`
      yields an AVL subtree whose height is the taller child's height, or
      one more. */
  lemma BalanceRestoresAvl(t: Link)
    requires t.Node? && HeightCached(t.left) && HeightCached(t.right)
    requires Balanced(t.left) && Balanced(t.right)
    requires -2 <= Depth(t.left) - Depth(t.right) <= 2
    ensures Balanced(Balance(t))
    ensures Max(Depth(t.left), Depth(t.right)) <= Depth(Balance(t))
    ensures Depth(Balance(t)) <= Max(Depth(t.left), Depth(t.right)) + 1
    ensures -1 <= Depth(t.left) - Depth(t.right) <= 1 ==>
      Depth(Balance(t)) == Max(Depth(t.left), Depth(t.right)) + 1
  {
    var l, r := t.left, t.right;
    var n := UpdateHeight(t);
    if Depth(l) - Depth(r) == 2 {
      assert HeightCached(l.left) && HeightCached(l.right);
      if Depth(l.left) < Depth(l.right) {
        assert Balance(t) == RotateRight(n.(left := RotateLeft(n.left)));
        DoubleRotationBalances(n);
      } else {
        assert Balance(t) == RotateRight(n);
        SingleRotationBalances(n);
      }
    } else if Depth(l) - Depth(r) == -2 {
      assert HeightCached(r.left) && HeightCached(r.right);
      if Depth(r.right) < Depth(r.left) {
        assert Balance(t) == RotateLeft(n.(right := RotateRight(n.right)));
        DoubleRotationBalancesMirror(n);
      } else {
        assert Balance(t) == RotateLeft(n);
        SingleRotationBalancesMirror(n);
      }
    } else {
      var same := t.(height := Depth(t));
      assert Balance(t) == same;
      assert Depth(same) == Depth(t) && Balanced(same);
    }
  }

  /** `Node::insert`: descends by comparison, hangs a new leaf where the
      descent leaves the tree, and rebalances every node on the way back up.
      An equal value takes neither branch. */
  function InsertNode(t: Link, v: I32): (r: Link)
    requires t.Node? && HeightCached(t)
    ensures r.Node? && HeightCached(r)
    ensures Elements(r) == Elements(t) + {v}
    decreases t
  {
    if v < t.value then
      Balance(t.(left := if t.left.Nil? then NewNode(v) else InsertNode(t.left, v)))
    else if v > t.value then
      Balance(t.(right := if t.right.Nil? then NewNode(v) else InsertNode(t.right, v)))
    else
      Balance(t)
  }

  /** Insertion keeps search-tree order. */
  lemma {:induction false} InsertKeepsOrder(t: Link, v: I32)
    requires t.Node? && HeightCached(t) && Ordered(t)
    ensures Ordered(InsertNode(t, v))
  {
    if v < t.value {
      var child := if t.left.Nil? then NewNode(v) else InsertNode(t.left, v);
      if t.left.Node? {
        InsertKeepsOrder(t.left, v);
      }
      var u := t.(left := child);
      assert Ordered(u) by {
        assert Elements(child) == Elements(t.left) + {v};
      }
      assert InsertNode(t, v) == Balance(u);
    } else if v > t.value {
      var child := if t.right.Nil? then NewNode(v) else InsertNode(t.right, v);
      if t.right.Node? {
        InsertKeepsOrder(t.right, v);
      }
      var u := t.(right := child);
      assert Ordered(u) by {
        assert Elements(child) == Elements(t.right) + {v};
      }
      assert InsertNode(t, v) == Balance(u);
    }
  }

  /** Insertion keeps height balance and grows the height by at most one. */
  lemma {:induction false} InsertKeepsBalance(t: Link, v: I32)
    requires t.Node? && HeightCached(t) && Balanced(t)
    ensures Balanced(InsertNode(t, v))
    ensures Depth(t) <= Depth(InsertNode(t, v)) <= Depth(t) + 1
  {
    var r := InsertNode(t, v);
    if v < t.value {
      var child := if t.left.Nil? then NewNode(v) else InsertNode(t.left, v);
      if t.left.Node? {
        InsertKeepsBalance(t.left, v);
      }
      var u := t.(left := child);
      assert r == Balance(u);
      GrownChildRebalances(t, u);
    } else if v > t.value {
      var child := if t.right.Nil? then NewNode(v) else InsertNode(t.right, v);
      if t.right.Node? {
        InsertKeepsBalance(t.right, v);
      }
      var u := t.(right := child);
      assert r == Balance(u);
      GrownChildRebalances(t, u);
    } else {
      assert r == Balance(t);
      GrownChildRebalances(t, t);
    }
  }

  /** One step of the insertion proof: `u` is the balanced node `t` with one
      child replaced by a balanced subtree at most one level taller. */
  lemma GrownChildRebalances(t: Link, u: Link)
    requires t.Node? && u.Node? && Balanced(t)
    requires HeightCached(u.left) && HeightCached(u.right) && Balanced(u.left) && Balanced(u.right)
    requires
      || (u.right == t.right && Depth(t.left) <= Depth(u.left) <= Depth(t.left) + 1)
      || (u.left == t.left && Depth(t.right) <= Depth(u.right) <= Depth(t.right) + 1)
    ensures Balanced(Balance(u))
    ensures Depth(t) <= Depth(Balance(u)) <= Depth(t) + 1
  {
    BalanceRestoresAvl(u);
  }

  /** `Node::insert` on an AVL search tree yields an AVL search tree holding
      the old values plus `v`. */
  lemma InsertKeepsAvl(t: Link, v: I32)
    requires t.Node? && IsAvl(t)
    ensures IsAvl(InsertNode(t, v))
    ensures Elements(InsertNode(t, v)) == Elements(t) + {v}
  {
    InsertKeepsOrder(t, v);
    InsertKeepsBalance(t, v);
  }

  /** Inserting a value already present returns the very same tree: the
      descent ends at the equal node, and `Balance` only refreshes caches
      that are already right. */
  lemma {:induction false} InsertPresentIsIdentity(t: Link, v: I32)
    requires t.Node? && IsAvl(t) && v in Elements(t)
    ensures InsertNode(t, v) == t
  {
    if v < t.value {
      assert v in Elements(t.left);
      InsertPresentIsIdentity(t.left, v);
    } else if v > t.value {
      assert v in Elements(t.right);
      InsertPresentIsIdentity(t.right, v);
    }
  }

  /** `Node::search`: descends by comparison; an absent child on the way
      means not found. On a search tree it decides membership. */
  function SearchNode(t: Link, v: I32): (found: bool)
    requires t.Node?
    ensures found ==> v in Elements(t)
    ensures Ordered(t) ==> (found <==> v in Elements(t))
    decreases t
  {
    if v == t.value then true
    else if v < t.value then t.left.Node? && SearchNode(t.left, v)
    else t.right.Node? && SearchNode(t.right, v)
  }

  // ---------------------------------------------------------------------
  // The tree
  // ---------------------------------------------------------------------

  /** `Tree`: the owner of an optional root node. */
  class Tree {
    var root: Link

    ghost predicate Valid()
      reads this
    {
      IsAvl(root)
    }

    /** The set of values the tree holds. */
    ghost function Contents(): set<I32>
      reads this
    {
      Elements(root)
    }

    /** `Tree::new`: an empty tree. */
    constructor ()
      ensures Valid() && root == Nil && Contents() == {}
    {
      root := Nil;
    }

    /** `Tree::insert`: the first value becomes a single-node root; later
        ones go through `Node::insert`. */
    method Insert(v: I32)
      requires Valid()
      modifies this
      ensures Valid() && Contents() == old(Contents()) + {v}
      ensures root == (if old(root).Nil? then NewNode(v) else InsertNode(old(root), v))
      ensures v in old(Contents()) ==> root == old(root)
    {
      match root
      case Nil =>
        root := NewNode(v);
      case Node(_, _, _, _) =>
        InsertKeepsAvl(root, v);
        if v in Elements(root) {
          InsertPresentIsIdentity(root, v);
        }
        root := InsertNode(root, v);
    }

    /** `Tree::search`: false on an empty tree, otherwise `Node::search`
        from the root. */
    function Search(v: I32): (found: bool)
      reads this
      requires Valid()
      ensures found <==> v in Contents()
    {
      root.Node? && SearchNode(root, v)
    }
  }
}
