# AVL tree rebalancing engine, modelled in Dafny

This project models the AVL tree of `simple/AVLTree.py`. That is an ordered
container of integers. It keeps itself height-balanced by rotations applied on
the return path of a recursive insertion, and it iterates its values in inorder.

The Python class mutates child pointers in place. Every such mutation already
flows back through return values: `_insert` returns the new subtree, and
`balance` and the rotations return the new subtree root. The model therefore
uses an immutable `datatype Tree = Empty | Node(val, left, right, height)` with
pure functions. Each reassignment of a child slot becomes "build the node with
the returned subtree".

Modules, following the structure of the source file:

- `Nodes` (`nodes.dfy`): the node datatype and `Leaf` (the `Node` constructor).
  It also holds `Height` (`get_height`, −1 for an empty subtree),
  `BalanceFactor` (right height minus left height) and `Inorder` (the
  `inorder` generator as a sequence). Finally it holds the invariants:
  - `WellCached`: every cached height is 1 + the larger child height.
  - `HeightsInRange`: every cached height is at least 0.
  - `Balanced`: every balance factor lies in [−1, 1].
  - `Ordered`: left ≤ value ≤ right.
  - `StrictlyOrdered`: left < value ≤ right.
- `Balancing` (`balancing.dfy`): `Update` (`update_node`), `RotateLeft`,
  `RotateRight`, `Rebalance` (`balance`) and the lemmas that show the retrace
  policy restores the AVL invariant.
- `Insertion` (`insertion.dfy`): `Insert` (`_insert`), with the placement,
  ordering and balance lemmas.
- `AvlTrees` (`avl_tree.dfy`): the `AVLTree` object as `AvlTree(root)`, with
  `NewTree` (`__init__`), `Insert` (`insert`) and `Iterate` (`__iter__`).
  `Build` models any history of insertions into a new tree.

Where the Python code would raise `AttributeError`, the model uses a
precondition. Two cases exist:

- A rotation dereferences the child it promotes, so `RotateLeft` needs a right
  child and `RotateRight` needs a left child.
- `balance` dereferences exactly the children its chosen rotation touches. The
  predicate `Rotatable` states that those children are present, and `Rebalance`
  requires it.

`_insert` requires every cached height to be at least 0 (`HeightsInRange`).
That condition makes `Rotatable` hold at every node on the insertion path. It
holds for every tree the class can build, because a fresh node has height 0 and
`update_node` never stores a height below 0.

### Ordering with repeated values

`_insert` sends ties right with a strict `<` test. That test suggests the
routing order "left < value ≤ right" (`StrictlyOrdered`). Rotations do not keep
that order when a value repeats. Inserting the same value three times into a new
tree makes the third insertion rotate left. That rotation moves a copy of the
value into the root's left subtree (`DuplicatesBreakStrictOrder`).

What insertion does keep is the non-strict order "left ≤ value ≤ right". That
order is the same as a non-decreasing inorder sequence (`OrderedIffSorted`).
When no value was inserted twice, the tree also keeps the strict order
(`DistinctIsStrictlyOrdered`). The converse fails for the tree: two copies of a
value still sit in strict order, with the second copy as the right child
(`SecondCopy` gives that shape). For iteration it holds: the inorder sequence is strictly
ascending exactly when no value was inserted twice (`BuildStrictIffDistinct`).

## Model

| member | source | states |
|---|---|---|
| Nodes.Leaf | simple/AVLTree.py:2-6 | A new node holds only its value, so its inorder sequence is `[v]`. It satisfies the cached-height, balance and order invariants. |
| Nodes.Height | simple/AVLTree.py:16-17 | Definition of `get_height`: −1 for an empty subtree, else the node's cached height. |
| Nodes.BalanceFactor | simple/AVLTree.py:19-20 | Definition of `balance_factor`: right height minus left height. It requires a node, because the Python code dereferences `node.right` and `node.left`. |
| Nodes.EmptyHeight | simple/AVLTree.py:16-17 | In a tree with consistent cached heights, height −1 marks exactly the empty subtree. Every real node has height at least 0. |
| Nodes.Inorder | simple/AVLTree.py:70-75 | The inorder sequence yields one value per node: its length equals the node count. |
| Nodes.InorderElements | simple/AVLTree.py:70-75 | The inorder sequence lists exactly the subtree's stored values, with their multiplicities. |
| Nodes.OrderedIffSorted | simple/AVLTree.py:70-75 | A tree satisfies the search order left ≤ value ≤ right exactly when its inorder sequence is non-decreasing. |
| Nodes.DistinctIsStrictlyOrdered | simple/AVLTree.py:61-64 | When the inorder sequence has no repeated value, the tree satisfies the strict routing order left < value ≤ right. |
| Balancing.Update | simple/AVLTree.py:22-23 | Refreshing a node changes only its height. Afterwards the node's cache is consistent exactly when its children's caches are. |
| Balancing.RotateLeft | simple/AVLTree.py:25-31 | The old right child becomes the root and the old root becomes its left child. The old root takes over the right child's left subtree. The inorder sequence is unchanged. Both rebuilt nodes have consistent heights when the three untouched subtrees do. |
| Balancing.RotateRight | simple/AVLTree.py:33-39 | Mirror image of `RotateLeft`: the old left child becomes the root. The inorder sequence is unchanged, and the caches are consistent when the untouched subtrees' caches are. |
| Balancing.InRangeIsRotatable | simple/AVLTree.py:43-52 | When every cached height in both child subtrees is at least 0, every rotation `balance` can choose finds the children it dereferences. |
| Balancing.Rebalance | simple/AVLTree.py:41-53 | The inorder sequence is preserved. With \|bf\| ≤ 1 the node is returned unchanged apart from its refreshed height. If right-heavy and bf(right) ≥ 0, the right child becomes the root. The old root becomes its left child and takes over the right child's left subtree. If right-heavy and bf(right) < 0, the right child's left child becomes the root, with the old root on its left and the old right child on its right. Its two subtrees go to the old root's right slot and the old right child's left slot. Left-heavy is the mirror image. Each case states where every untouched subtree ends up, so a single rotation is never confused with a double one. |
| Balancing.RebalanceKeepsCaches | simple/AVLTree.py:41-53 | Every node `balance` rebuilds gets a recomputed height. So children with consistent caches give a consistent result, and cached heights of at least 0 stay at least 0. |
| Balancing.RebalanceRestoresBalance | simple/AVLTree.py:41-53 | Suppose both children are AVL trees with consistent caches and bf ∈ [−2, 2]. Then the result is an AVL tree with consistent caches. Its height is the refreshed node's height or one less, and exactly that height when no rotation happens. |
| Balancing.RightHeavySingle | simple/AVLTree.py:43-45 | If bf = 2 and bf(right) ≥ 0, one left rotation gives an AVL tree whose height is the right child's height or one more. |
| Balancing.RightHeavyDouble | simple/AVLTree.py:43-47 | If bf = 2 and bf(right) < 0, a right rotation of the child and then a left rotation give an AVL tree with the right child's height. |
| Balancing.LeftHeavySingle | simple/AVLTree.py:48-50 | If bf = −2 and bf(left) ≤ 0, one right rotation gives an AVL tree whose height is the left child's height or one more. |
| Balancing.LeftHeavyDouble | simple/AVLTree.py:48-52 | If bf = −2 and bf(left) > 0, a left rotation of the child and then a right rotation give an AVL tree with the left child's height. |
| Balancing.HeightLogarithmic | simple/AVLTree.py:41-53 | An AVL tree of height h with consistent caches holds at least 2^((h+1)/2) − 1 nodes, so its height is logarithmic in its size. |
| Insertion.Insert | simple/AVLTree.py:58-65 | The result is a node, its cached heights stay at least 0, and its contents are the old contents plus exactly one copy of `v`. |
| Insertion.InsertInorder | simple/AVLTree.py:58-65 | For a search-ordered tree, the new inorder sequence is the old one with `v` inserted at the split point. That point comes after every element ≤ `v`, including equal ones, and before every greater element. |
| Insertion.InsertKeepsOrder | simple/AVLTree.py:58-65 | Insertion keeps the search order. A strictly increasing inorder sequence stays strictly increasing when `v` was absent. |
| Insertion.RetraceLeft | simple/AVLTree.py:61-65 | Suppose an AVL node's left child is replaced by an AVL subtree at most one level taller, and the node is then rebalanced. The result is an AVL tree with consistent caches, at most one level taller than the node. |
| Insertion.RetraceRight | simple/AVLTree.py:63-65 | Mirror image of `RetraceLeft` for the right child slot. |
| Insertion.InsertKeepsBalance | simple/AVLTree.py:58-65 | Insertion into an AVL tree with consistent caches yields an AVL tree with consistent caches. The new height is the old height or the old height + 1. |
| AvlTrees.NewTree | simple/AVLTree.py:12-13 | A new container satisfies every invariant and iterates over nothing. |
| AvlTrees.Iterate | simple/AVLTree.py:67-68 | Iteration yields exactly one value per stored node. |
| AvlTrees.Insert | simple/AVLTree.py:55-56 | Inserting adds exactly one element: the iterated multiset grows by `{v}` and the length by one. |
| AvlTrees.InsertKeepsValid | simple/AVLTree.py:55-65 | On a valid container, insertion keeps it valid. It places `v` after all elements ≤ `v` and before all greater ones, and raises the root height by at most one. |
| AvlTrees.IterateSorted | simple/AVLTree.py:67-75 | Iterating a valid container yields a non-decreasing sequence. |
| AvlTrees.BuildValid | simple/AVLTree.py:55-75 | After any sequence of insertions into a new container, the tree is valid (AVL, consistent caches, search order). It iterates over exactly the inserted values, one per insertion, in non-decreasing order. The order is strictly ascending when no value was inserted twice. |
| AvlTrees.BuildStrictIffDistinct | simple/AVLTree.py:55-75 | After any sequence of insertions into a new container, iteration is strictly ascending exactly when no value was inserted twice. |
| AvlTrees.DuplicatesBreakStrictOrder | simple/AVLTree.py:41-64 | Inserting some `x` three times into a new tree gives a root `x` with a left child `x`. The result is ordered but not strictly ordered. |

## Left out

- Deletion (`discard`), membership (`contains`), `__len__`, a cached subtree size and `median` are not part of this model. No code for them exists in `simple/AVLTree.py`; only the test drivers call them. `Size` is a model-level node count, not a cached field.
- `__repr__` is omitted because it is display only.
- Generator laziness of `__iter__` and `inorder` is omitted: iteration is modelled as a function that returns the whole sequence.
- The top-level `AVLTree.py` (level-order layer extraction and an unfinished `__str__`) is a rendering helper. It is not part of this model.
- The test scripts `AVLtest.py`, `simple/AVLTest.py` and `recursive/AVLTest.py` are drivers that print results. They are not part of this model.
- Values are Python integers compared with `<`, modelled as unbounded `int`. Other comparable value types are not modelled.
- A cached height below 0, which the class never creates, can make Python raise `AttributeError` inside `balance`. The model excludes such trees by precondition and does not model the exception.
