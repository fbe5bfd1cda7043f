# AVL tree, vector and stack: a verified Dafny model

This project models three small Rust data structures from a course
repository on data structures, and proves what they promise.

- **The AVL tree** (`modulo-2/aula1/src/main.rs`). It is a binary search
  tree over `i32`, and every node caches its own height. `Node::insert`
  descends by comparison and hangs a new leaf at the bottom. On the way back
  up, `balance` refreshes each node's height. When one side is more than one
  level taller, it rotates: a single rotation, or a double one when the
  taller child leans the other way. `Tree` owns the optional root node.
- **`MyVec`** (`modulo-1/vetores/src/lib.rs`). It wraps a `Vec<i32>`, with
  `push` and a bounds-checked `get`.
- **`Stack<T>`** (`modulo-1/aula3/src/lib.rs`). It is a LIFO stack over a
  `Vec<T>`, with `push`, `pop`, `peek` and `is_empty`.

Files:

- `primitives.dfy` holds `i32` (a newtype) and `Option`.
- `avl_tree.dfy` holds module `Avl`:
  - `Option<Box<Node>>` becomes the datatype `Link`.
  - The node operations become functions from `Link` to `Link`.
  - `Tree` becomes a class whose `root` field `Insert` reassigns.
  - The three AVL invariants are ghost predicates, each over the real
    height `Depth`:
    - `Ordered`: search-tree order.
    - `HeightCached`: every cached height is right.
    - `Balanced`: heights differ by at most one at every node.
- `avl_demo.dfy` holds module `AvlDemo`. It replays `main` step by step,
  for any six values in the same relative order, and then for the
  literal ones.
- `my_vec.dfy` holds module `Vectors`, and `stack.dfy` holds module
  `Stacks`. There, the wrapped `Vec` is a `seq` field that the mutating
  methods reassign. The unit tests become methods whose postconditions are
  the tests' assertions.

## Model

| member | source | states |
|---|---|---|
| Avl.NewNode | modulo-2/aula1/src/main.rs:14-21 | a fresh node holds the value, has no children and height 1, is an AVL tree, and contains only that value |
| Avl.Height | modulo-2/aula1/src/main.rs:24-26 | an absent child has height 0; a node with correct caches reports its real height |
| Avl.BalanceFactor | modulo-2/aula1/src/main.rs:29-31 | with correct child caches it is the left height minus the right height, and it lies in [-1, 1] on a balanced node |
| Avl.UpdateHeight | modulo-2/aula1/src/main.rs:34-36 | changes only the node's own height, and makes its cache right when the children's caches are right |
| Avl.RotateRight | modulo-2/aula1/src/main.rs:39-46 | needs a left child; promotes it, moves the node down as its right child holding the child's former right subtree, keeps the in-order sequence, and leaves every cache right |
| Avl.RotateLeft | modulo-2/aula1/src/main.rs:49-56 | the mirror of RotateRight |
| Avl.Balance | modulo-2/aula1/src/main.rs:59-82 | returns a node with right caches, the same in-order sequence and values, keeps search order, and only refreshes the height when the node is already balanced |
| Avl.SingleRotationBalances | modulo-2/aula1/src/main.rs:63-70 | in the left-left case, the single right rotation yields a balanced tree of the expected height |
| Avl.DoubleRotationBalances | modulo-2/aula1/src/main.rs:63-70 | in the left-right case, the left-then-right double rotation yields a balanced tree of the expected height |
| Avl.SingleRotationBalancesMirror | modulo-2/aula1/src/main.rs:72-79 | in the right-right case, the single left rotation yields a balanced tree of the expected height |
| Avl.DoubleRotationBalancesMirror | modulo-2/aula1/src/main.rs:72-79 | in the right-left case, the right-then-left double rotation yields a balanced tree of the expected height |
| Avl.BalanceRestoresAvl | modulo-2/aula1/src/main.rs:59-82 | when both children are balanced and their heights differ by at most 2, the result is balanced and its height is the taller child's height or one more (exactly one more when no rotation is needed) |
| Avl.InsertNode | modulo-2/aula1/src/main.rs:85-98 | the result has right caches and holds exactly the old values plus the inserted one |
| Avl.InsertKeepsOrder | modulo-2/aula1/src/main.rs:85-98 | insertion into a search tree yields a search tree |
| Avl.InsertKeepsBalance | modulo-2/aula1/src/main.rs:85-98 | insertion into a balanced tree yields a balanced tree whose height grew by at most one |
| Avl.GrownChildRebalances | modulo-2/aula1/src/main.rs:86-97 | replacing one child of a balanced node by a balanced subtree at most one level taller, then balancing, gives a balanced node at most one level taller |
| Avl.InsertKeepsAvl | modulo-2/aula1/src/main.rs:85-98 | insertion into an AVL tree yields an AVL tree holding the old values plus the new one |
| Avl.InsertPresentIsIdentity | modulo-2/aula1/src/main.rs:86-97 | inserting a value already in an AVL tree returns the identical tree |
| Avl.SearchNode | modulo-2/aula1/src/main.rs:101-109 | a found value is in the tree, and on a search tree found is equivalent to membership |
| Avl.Tree.constructor | modulo-2/aula1/src/main.rs:119-121 | a new tree has no root, is valid and holds nothing |
| Avl.Tree.Insert | modulo-2/aula1/src/main.rs:123-128 | keeps the AVL invariants and adds the value to the contents; an empty tree gets a single-node root; a value already present leaves the root unchanged |
| Avl.Tree.Search | modulo-2/aula1/src/main.rs:130-132 | true exactly when the value is in the tree; false on the empty tree |
| AvlDemo.InsertRightOfLeaf | modulo-2/aula1/src/main.rs:140 | inserting 20 after 10: a larger value becomes the right child of a leaf, with no rotation |
| AvlDemo.InsertLeftOfLeaf | modulo-2/aula1/src/main.rs:144 | a smaller value becomes the left child of a leaf, with no rotation |
| AvlDemo.InsertRightOfChain | modulo-2/aula1/src/main.rs:141 | inserting 30: a single left rotation makes the middle value the root |
| AvlDemo.InsertFourth | modulo-2/aula1/src/main.rs:142 | inserting 40 grows the right subtree without rotating |
| AvlDemo.InsertFifth | modulo-2/aula1/src/main.rs:143 | inserting 50 rotates the right subtree left, below the root |
| AvlDemo.InsertSixthBelow | modulo-2/aula1/src/main.rs:144 | inserting 25: below the root, the right subtree grows on its left |
| AvlDemo.InsertSixth | modulo-2/aula1/src/main.rs:144 | inserting 25: the right-left double rotation makes 30 the root |
| AvlDemo.ElementsOfSix | modulo-2/aula1/src/main.rs:139-144 | the final tree holds exactly the six inserted values |
| AvlDemo.InsertStep | modulo-2/aula1/src/main.rs:123-128 | one `Tree::insert` on a known root leaves the root that InsertNode computes |
| AvlDemo.InsertSix | modulo-2/aula1/src/main.rs:136-144 | six insertions into a new tree, in the order of `main`, leave a valid tree with the third value at the root |
| AvlDemo.InsertSixAndSearch | modulo-2/aula1/src/main.rs:135-148 | after those insertions, the second value is found and a value never inserted is not |
| AvlDemo.InsertAndSearch | modulo-2/aula1/src/main.rs:135-148 | `main`: after inserting 10, 20, 30, 40, 50 and 25, search(20) is true and search(15) is false; the root is 30, over 20 (with children 10 and 25) and 40 (with right child 50) |
| Vectors.MyVec.constructor | modulo-1/vetores/src/lib.rs:10-12 | a new vector is empty, so get returns None at every index |
| Vectors.MyVec.Push | modulo-1/vetores/src/lib.rs:14-16 | appends the value: earlier indices keep their values, the old length now holds the value, and the next index holds nothing |
| Vectors.MyVec.Get | modulo-1/vetores/src/lib.rs:18-20 | Some exactly when the index is within the length, and then the element at that index |
| Vectors.PushAndGet | modulo-1/vetores/src/lib.rs:33-55 | the unit test: after pushing 10 and 20, get(0) is Some(10), get(1) is Some(20) and get(2) is None |
| Stacks.Stack.constructor | modulo-1/aula3/src/lib.rs:6-8 | a new stack is empty and has no top |
| Stacks.Stack.Push | modulo-1/aula3/src/lib.rs:10-12 | the value goes on top; the stack is then non-empty and peek returns it |
| Stacks.Stack.Pop | modulo-1/aula3/src/lib.rs:14-16 | on an empty stack it returns None and the stack stays empty; otherwise it returns the old top and leaves the elements below it |
| Stacks.Stack.Peek | modulo-1/aula3/src/lib.rs:17-19 | Some exactly when the stack is non-empty, and then the last pushed element still present |
| Stacks.Stack.IsEmpty | modulo-1/aula3/src/lib.rs:21-23 | true exactly when the stack holds no element |
| Stacks.PushThenPop | modulo-1/aula3/src/lib.rs:10-16 | LIFO: a push followed by a pop returns the pushed value and restores the stack |
| Stacks.StackOperations | modulo-1/aula3/src/lib.rs:29-42 | the unit test: a new stack is empty; after pushing 10 and 20, peek gives 20, the pops give 20 and then 10, and the stack is empty again |

## Left out

- `main`'s `println!` output: `InsertAndSearch` returns the two search results instead of printing them.
- `modulo-1/aula2/src/main.rs` is not part of this model.
- Ownership is not modelled: `Box`, `take` and moves out of `self`. Nodes are immutable values, so aliasing cannot arise, and the in-place updates inside `rotate_*` and `balance` become rebuilt values.
- `i32` overflow of the cached heights is not modelled: heights are unbounded integers. An AVL tree of height 2^31 cannot fit in memory. Stored values are `i32` (the newtype `I32`) and are only compared.
- Avl.Balance: requires both children's cached heights to be right. The Rust function has no such check, and with corrupted caches its `unwrap` calls could panic. Every caller in the source keeps the caches right, and `HeightCached` is proved to hold after every operation.
- Avl.InsertNode: requires the tree's cached heights to be right, for the same reason as Avl.Balance.
- The double rotation at `main.rs:64-66` and `main.rs:73-75` is modelled as intended. It replaces the child by the rotated child. As written, it rotates through a `ref mut` borrow, which Rust does not accept.
- `Stack`'s compile typos in `aula3/src/lib.rs` are modelled as intended: `Stack<T<` at line 5, `test_stack)operations` and `assert1` at lines 30-32, `peak` at line 36, and the missing closing brace. The test is modelled as `Stack::peek`, `assert!` and the complete module.
- `MyVec::get` and `Stack::peek` return `Option<&T>` in Rust. The model returns the value itself, since the borrow carries no extra information.
- Deletion, iteration and the logarithmic height bound of AVL trees are not in the source and are not modelled.
