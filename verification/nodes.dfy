/**
 The node layer of the AVL tree: the immutable node datatype, the cached-height
 queries the rebalancing engine reads, inorder traversal, and the invariants
 (cached heights, AVL balance, search order) that every public operation keeps.
 */
module Nodes {

  /** A subtree: empty, or a node holding a value, two owned children and the
      node's cached height. */
  datatype Tree = Empty | Node(val: int, left: Tree, right: Tree, height: int)

  function Max(a: int, b: int): int {
    if a < b then b else a
  }

  /** The cached height of a subtree; an empty subtree has height -1. */
  function Height(t: Tree): int {
    if t.Empty? then -1 else t.height
  }

  /** Right height minus left height. */
  function BalanceFactor(t: Tree): int
    requires t.Node?
  {
    Height(t.right) - Height(t.left)
  }

  /** A freshly created node: no children and height 0. */
  function Leaf(v: int): (r: Tree)
    ensures r.Node? && r.val == v
    ensures Inorder(r) == [v]
    ensures WellCached(r) && Balanced(r) && Ordered(r)
  {
    Node(v, Empty, Empty, 0)
  }

  /** Number of nodes in a subtree. */
  function Size(t: Tree): nat {
    match t
    case Empty => 0
    case Node(_, l, r, _) => Size(l) + 1 + Size(r)
  }

  /** The values stored in a subtree, with their multiplicities. */
  function Elements(t: Tree): multiset<int> {
    match t
    case Empty => multiset{}
    case Node(v, l, r, _) => Elements(l) + multiset{v} + Elements(r)
  }

  /** Inorder traversal: left subtree, then the node's value, then the right subtree. */
  function Inorder(t: Tree): (r: seq<int>)
    ensures |r| == Size(t)
  {
    match t
    case Empty => []
    case Node(v, l, r, _) => Inorder(l) + [v] + Inorder(r)
  }

  /** Every node's cached height is a real height (at least 0). */
  ghost predicate HeightsInRange(t: Tree) {
    match t
    case Empty => true
    case Node(_, l, r, h) => h >= 0 && HeightsInRange(l) && HeightsInRange(r)
  }

  /** Every node caches 1 + the larger of its children's heights. */
  ghost predicate WellCached(t: Tree)
    ensures WellCached(t) ==> HeightsInRange(t)
  {
    match t
    case Empty => true
    case Node(_, l, r, h) =>
      && h == 1 + Max(Height(l), Height(r))
      && WellCached(l) && WellCached(r)
  }

  /** The AVL invariant: every node's balance factor lies in [-1, 1]. */
  ghost predicate Balanced(t: Tree) {
    match t
    case Empty => true
    case Node(_, l, r, _) =>
      && -1 <= BalanceFactor(t) <= 1
      && Balanced(l) && Balanced(r)
  }

  /** Search order with ties allowed on both sides: left <= val <= right. */
  ghost predicate Ordered(t: Tree) {
    match t
    case Empty => true
    case Node(v, l, r, _) =>
      && (forall x :: x in Elements(l) ==> x <= v)
      && (forall x :: x in Elements(r) ==> v <= x)
      && Ordered(l) && Ordered(r)
  }

  /** The routing order insertion's strict test suggests: left < val <= right. */
  ghost predicate StrictlyOrdered(t: Tree) {
    match t
    case Empty => true
    case Node(v, l, r, _) =>
      && (forall x :: x in Elements(l) ==> x < v)
      && (forall x :: x in Elements(r) ==> v <= x)
      && StrictlyOrdered(l) && StrictlyOrdered(r)
  }

  ghost predicate Sorted(s: seq<int>) {
    forall i, j :: 0 <= i < j < |s| ==> s[i] <= s[j]
  }

  ghost predicate StrictlySorted(s: seq<int>) {
    forall i, j :: 0 <= i < j < |s| ==> s[i] < s[j]
  }

  /** In a tree with consistent caches, height -1 identifies exactly the empty subtree. */
  lemma EmptyHeight(t: Tree)
    requires WellCached(t)
    ensures Height(t) == -1 <==> t.Empty?
    ensures t.Node? ==> Height(t) >= 0
  {
  }

  /** A sequence split around one element is sorted exactly when both parts
      are sorted and sit on the correct sides of that element. */
  lemma SortedAround(a: seq<int>, v: int, b: seq<int>)
    ensures Sorted(a + [v] + b) <==>
      && Sorted(a) && Sorted(b)
      && (forall i :: 0 <= i < |a| ==> a[i] <= v)
      && (forall i :: 0 <= i < |b| ==> v <= b[i])
  {
    var s := a + [v] + b;
    if Sorted(s) {
      forall i | 0 <= i < |a| ensures a[i] <= v {
        assert s[i] == a[i] && s[|a|] == v;
      }
      forall i | 0 <= i < |b| ensures v <= b[i] {
        assert s[|a| + 1 + i] == b[i] && s[|a|] == v;
      }
      forall i, j | 0 <= i < j < |a| ensures a[i] <= a[j] {
        assert s[i] == a[i] && s[j] == a[j];
      }
      forall i, j | 0 <= i < j < |b| ensures b[i] <= b[j] {
        assert s[|a| + 1 + i] == b[i] && s[|a| + 1 + j] == b[j];
      }
    }
  }

  /** The inorder sequence lists exactly the subtree's contents, with multiplicities. */
  lemma {:induction false} InorderElements(t: Tree)
    ensures multiset(Inorder(t)) == Elements(t)
  {
    match t
    case Empty =>
    case Node(v, l, r, _) =>
      InorderElements(l);
      InorderElements(r);
      assert Inorder(t) == Inorder(l) + [v] + Inorder(r);
  }

  /** Two subtrees with the same inorder sequence hold the same contents. */
  lemma SameInorderSameElements(a: Tree, b: Tree)
    requires Inorder(a) == Inorder(b)
    ensures Elements(a) == Elements(b)
  {
    InorderElements(a);
    InorderElements(b);
  }

  /** Membership in a subtree's contents and in its inorder sequence agree. */
  lemma InInorder(t: Tree, x: int)
    ensures x in Elements(t) <==> x in Inorder(t)
  {
    InorderElements(t);
    assert x in multiset(Inorder(t)) <==> x in Inorder(t);
  }

  /** "Every value of the left subtree is at most v", stated over contents and over positions. */
  lemma LeftSideAgrees(l: Tree, v: int)
    ensures (forall x :: x in Elements(l) ==> x <= v) <==> (forall i :: 0 <= i < |Inorder(l)| ==> Inorder(l)[i] <= v)
  {
    var s := Inorder(l);
    if forall x :: x in Elements(l) ==> x <= v {
      forall i | 0 <= i < |s| ensures s[i] <= v {
        InInorder(l, s[i]);
      }
    }
    if forall i :: 0 <= i < |s| ==> s[i] <= v {
      forall x | x in Elements(l) ensures x <= v {
        InInorder(l, x);
      }
    }
  }

  /** "Every value of the right subtree is at least v", stated over contents and over positions. */
  lemma RightSideAgrees(r: Tree, v: int)
    ensures (forall x :: x in Elements(r) ==> v <= x) <==> (forall i :: 0 <= i < |Inorder(r)| ==> v <= Inorder(r)[i])
  {
    var s := Inorder(r);
    if forall x :: x in Elements(r) ==> v <= x {
      forall i | 0 <= i < |s| ensures v <= s[i] {
        InInorder(r, s[i]);
      }
    }
    if forall i :: 0 <= i < |s| ==> v <= s[i] {
      forall x | x in Elements(r) ensures v <= x {
        InInorder(r, x);
      }
    }
  }

  /** The search order of a tree is exactly the sortedness of its inorder sequence. */
  lemma {:induction false} OrderedIffSorted(t: Tree)
    ensures Ordered(t) <==> Sorted(Inorder(t))
  {
    match t
    case Empty =>
    case Node(v, l, r, _) =>
      OrderedIffSorted(l);
      OrderedIffSorted(r);
      SortedAround(Inorder(l), v, Inorder(r));
      LeftSideAgrees(l, v);
      RightSideAgrees(r, v);
  }

  /** The parts of a strictly sorted sequence split around one element. */
  lemma StrictlySortedAround(a: seq<int>, v: int, b: seq<int>)
    requires StrictlySorted(a + [v] + b)
    ensures StrictlySorted(a) && StrictlySorted(b)
    ensures forall i :: 0 <= i < |a| ==> a[i] < v
    ensures forall i :: 0 <= i < |b| ==> v < b[i]
  {
    var s := a + [v] + b;
    forall i | 0 <= i < |a| ensures a[i] < v {
      assert s[i] == a[i] && s[|a|] == v;
    }
    forall i | 0 <= i < |b| ensures v < b[i] {
      assert s[|a| + 1 + i] == b[i] && s[|a|] == v;
    }
    forall i, j | 0 <= i < j < |a| ensures a[i] < a[j] {
      assert s[i] == a[i] && s[j] == a[j];
    }
    forall i, j | 0 <= i < j < |b| ensures b[i] < b[j] {
      assert s[|a| + 1 + i] == b[i] && s[|a| + 1 + j] == b[j];
    }
  }

  /** Every position of the left subtree's inorder sequence below v puts all its contents below v. */
  lemma LeftSideStrict(l: Tree, v: int)
    requires forall i :: 0 <= i < |Inorder(l)| ==> Inorder(l)[i] < v
    ensures forall x :: x in Elements(l) ==> x < v
  {
    forall x | x in Elements(l) ensures x < v {
      InInorder(l, x);
    }
  }

  /** Root-level facts of a node whose inorder sequence is strictly increasing. */
  lemma StrictNode(v: int, l: Tree, r: Tree, h: int)
    requires StrictlySorted(Inorder(Node(v, l, r, h)))
    ensures StrictlySorted(Inorder(l)) && StrictlySorted(Inorder(r))
    ensures forall x :: x in Elements(l) ==> x < v
    ensures forall x :: x in Elements(r) ==> v <= x
  {
    StrictlySortedAround(Inorder(l), v, Inorder(r));
    LeftSideStrict(l, v);
    RightSideAgrees(r, v);
  }

  /** When the inorder sequence has no repeated value, the search order is
      strict on the left as well. */
  lemma {:induction false} DistinctIsStrictlyOrdered(t: Tree)
    requires StrictlySorted(Inorder(t))
    ensures StrictlyOrdered(t)
  {
    match t
    case Empty =>
    case Node(v, l, r, h) =>
      StrictNode(v, l, r, h);
      DistinctIsStrictlyOrdered(l);
      DistinctIsStrictlyOrdered(r);
  }
}
