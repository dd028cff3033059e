/**
 The container: an AVL tree that owns at most one root, grows by insertion and
 is iterated in inorder. Repeated insertion from the empty tree is the only way
 the container is built, so its properties are stated for every such history.
 */
module AvlTrees {
  import opened Nodes
  import Insertion
  import Balancing

  datatype AvlTree = AvlTree(root: Tree)

  /** The invariants every public operation leaves behind. */
  ghost predicate Valid(tr: AvlTree) {
    WellCached(tr.root) && Balanced(tr.root) && Ordered(tr.root)
  }

  /** A new container has no root. */
  function NewTree(): (tr: AvlTree)
    ensures Valid(tr) && Iterate(tr) == []
  {
    AvlTree(Empty)
  }

  /** Iteration yields the values in inorder, one per node. */
  function Iterate(tr: AvlTree): (xs: seq<int>)
    ensures |xs| == Size(tr.root)
  {
    Inorder(tr.root)
  }

  /** Inserts v; the root is replaced by the subtree insertion returns. Exactly
      one element is added. */
  function Insert(tr: AvlTree, v: int): (r: AvlTree)
    requires HeightsInRange(tr.root)
    ensures HeightsInRange(r.root)
    ensures multiset(Iterate(r)) == multiset(Iterate(tr)) + multiset{v}
    ensures |Iterate(r)| == |Iterate(tr)| + 1
  {
    var r := AvlTree(Insertion.Insert(tr.root, v));
    InorderElements(tr.root);
    InorderElements(r.root);
    assert |Iterate(r)| == |multiset(Iterate(r))|;
    assert |Iterate(tr)| == |multiset(Iterate(tr))|;
    r
  }

  /** Insertion keeps the container valid, places v after every element at most v
      and before every greater one, and raises the height by at most one. */
  lemma InsertKeepsValid(tr: AvlTree, v: int)
    requires Valid(tr)
    ensures Valid(Insert(tr, v))
    ensures var s := Iterate(tr); var k := Insertion.SplitPoint(s, v);
            && Iterate(Insert(tr, v)) == s[..k] + [v] + s[k..]
            && (forall i :: k <= i < |s| ==> v < s[i])
    ensures Height(tr.root) <= Height(Insert(tr, v).root) <= Height(tr.root) + 1
  {
    Insertion.InsertKeepsBalance(tr.root, v);
    Insertion.InsertKeepsOrder(tr.root, v);
    Insertion.InsertInorder(tr.root, v);
    OrderedIffSorted(tr.root);
    Insertion.SortedAfterSplit(Iterate(tr), v);
  }

  /** Iterating a valid container yields a non-decreasing sequence. */
  lemma IterateSorted(tr: AvlTree)
    requires Valid(tr)
    ensures Sorted(Iterate(tr))
  {
    OrderedIffSorted(tr.root);
  }

  /** The container after inserting vals one by one into a new container. */
  function Build(vals: seq<int>): (tr: AvlTree)
    ensures HeightsInRange(tr.root)
  {
    if |vals| == 0 then NewTree()
    else Insert(Build(vals[..|vals| - 1]), vals[|vals| - 1])
  }

  ghost predicate Distinct(vals: seq<int>) {
    forall i, j :: 0 <= i < j < |vals| ==> vals[i] != vals[j]
  }

  /** Any history of insertions leaves a valid container that iterates over
      exactly the inserted values in non-decreasing order, strictly increasing
      when no value was inserted twice. */
  lemma {:induction false} BuildValid(vals: seq<int>)
    ensures Valid(Build(vals))
    ensures multiset(Iterate(Build(vals))) == multiset(vals)
    ensures |Iterate(Build(vals))| == |vals|
    ensures Sorted(Iterate(Build(vals)))
    ensures Distinct(vals) ==> StrictlySorted(Iterate(Build(vals)))
  {
    if |vals| > 0 {
      var init, v := vals[..|vals| - 1], vals[|vals| - 1];
      assert vals == init + [v];
      BuildValid(init);
      var prev := Build(init);
      assert Build(vals) == Insert(prev, v);
      InsertKeepsValid(prev, v);
      IterateSorted(Insert(prev, v));
      if Distinct(vals) {
        DistinctLast(vals);
        Insertion.InsertKeepsOrder(prev.root, v);
      }
    }
  }

  /** Without repetitions, the last value does not occur among the earlier ones. */
  lemma DistinctLast(vals: seq<int>)
    requires |vals| > 0 && Distinct(vals)
    ensures var init := vals[..|vals| - 1];
            Distinct(init) && vals[|vals| - 1] !in multiset(init)
  {
    var init := vals[..|vals| - 1];
    assert vals[|vals| - 1] !in init;
  }

  /** A sequence has no repeated value exactly when its multiset holds every
      value at most once. */
  lemma {:induction false} DistinctCounts(s: seq<int>)
    ensures Distinct(s) <==> forall x :: multiset(s)[x] <= 1
  {
    if |s| > 0 {
      var a, t := s[0], s[1..];
      assert s == [a] + t;
      DistinctCounts(t);
      if Distinct(s) {
        forall j | 0 <= j < |t| ensures t[j] != a {
          assert t[j] == s[j + 1];
        }
        assert Distinct(t) by {
          forall i, j | 0 <= i < j < |t| ensures t[i] != t[j] {
            assert t[i] == s[i + 1] && t[j] == s[j + 1];
          }
        }
      }
      if forall x :: multiset(s)[x] <= 1 {
        assert multiset(t)[a] == 0 by {
          assert multiset(s)[a] == 1 + multiset(t)[a];
        }
        assert forall x :: multiset(t)[x] <= 1 by {
          forall x ensures multiset(t)[x] <= 1 {
            assert multiset(t)[x] <= multiset(s)[x];
          }
        }
        forall i, j | 0 <= i < j < |s| ensures s[i] != s[j] {
          if i == 0 {
            assert s[j] == t[j - 1] && s[j] in t;
          } else {
            assert s[i] == t[i - 1] && s[j] == t[j - 1];
          }
        }
      }
    }
  }

  /** Iteration is strictly ascending exactly when no value was inserted twice. */
  lemma BuildStrictIffDistinct(vals: seq<int>)
    ensures StrictlySorted(Iterate(Build(vals))) <==> Distinct(vals)
  {
    BuildValid(vals);
    var xs := Iterate(Build(vals));
    DistinctCounts(xs);
    DistinctCounts(vals);
    if StrictlySorted(xs) {
      assert Distinct(xs);
    }
  }

  /** With a repeated value the strict order left < val is lost: inserting any
      x three times into a new tree, the third insertion triggers a left rotation
      that moves a copy of x into the root's left subtree. */
  lemma DuplicatesBreakStrictOrder(x: int)
    ensures var t := Insertion.Insert(Insertion.Insert(Insertion.Insert(Empty, x), x), x);
            && t.val == x && t.left.Node? && t.left.val == x
            && Ordered(t) && !StrictlyOrdered(t)
  {
    var t1 := Insertion.Insert(Empty, x);
    assert t1 == Leaf(x);
    var t2 := Insertion.Insert(t1, x);
    SecondCopy(x);
    Insertion.InsertKeepsOrder(t2, x);
    var n := Node(x, Empty, t2, 1);
    assert Insertion.Insert(t2, x) == Balancing.Rebalance(n);
    var t := Insertion.Insert(t2, x);
    assert x in Elements(t.left);
  }

  /** The second copy of x goes right of the first, without a rotation. */
  lemma SecondCopy(x: int)
    ensures Insertion.Insert(Leaf(x), x) == Node(x, Empty, Leaf(x), 1)
  {
  }
}
