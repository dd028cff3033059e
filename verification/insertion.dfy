/**
 Recursive insertion: descend by a strict less-than test (ties go right),
 hang a fresh leaf at the empty position, and on the way back up put the
 returned subtree into the child slot and rebalance the node.
 */
module Insertion {
  import opened Nodes
  import opened Balancing

  /** Inserts v below t and returns the rebalanced subtree that replaces t. */
  function Insert(t: Tree, v: int): (r: Tree)
    requires HeightsInRange(t)
    ensures r.Node? && HeightsInRange(r)
    ensures Elements(r) == Elements(t) + multiset{v}
  {
    if t.Empty? then Leaf(v)
    else
      var n := if v < t.val then t.(left := Insert(t.left, v))
               else t.(right := Insert(t.right, v));
      InRangeIsRotatable(n);
      RebalanceKeepsCaches(n);
      var r := Rebalance(n);
      SameInorderSameElements(r, n);
      r
  }

  /** The position just after every leading element that is at most v: the
      first position holding an element greater than v, or the length. */
  function SplitPoint(s: seq<int>, v: int): (k: nat)
    ensures k <= |s|
    ensures forall i :: 0 <= i < k ==> s[i] <= v
    ensures k < |s| ==> v < s[k]
  {
    if |s| == 0 || v < s[0] then 0 else 1 + SplitPoint(s[1..], v)
  }

  /** The split point is the only position with its two defining properties. */
  lemma SplitPointUnique(s: seq<int>, v: int, k: nat)
    requires k <= |s|
    requires forall i :: 0 <= i < k ==> s[i] <= v
    requires k < |s| ==> v < s[k]
    ensures SplitPoint(s, v) == k
  {
  }

  /** In a sorted sequence every element from the split point on exceeds v. */
  lemma SortedAfterSplit(s: seq<int>, v: int)
    requires Sorted(s)
    ensures forall i :: SplitPoint(s, v) <= i < |s| ==> v < s[i]
  {
    var k := SplitPoint(s, v);
    forall i | k <= i < |s| ensures v < s[i] {
      assert s[k] <= s[i];
    }
  }

  /** Placing v at the split point of a sorted sequence keeps it sorted. */
  lemma PlaceKeepsSorted(s: seq<int>, v: int)
    requires Sorted(s)
    ensures var k := SplitPoint(s, v); Sorted(s[..k] + [v] + s[k..])
  {
    var k := SplitPoint(s, v);
    SortedAfterSplit(s, v);
    var a, b := s[..k], s[k..];
    assert Sorted(a) by {
      forall i, j | 0 <= i < j < |a| ensures a[i] <= a[j] {
        assert a[i] == s[i] && a[j] == s[j];
      }
    }
    assert Sorted(b) by {
      forall i, j | 0 <= i < j < |b| ensures b[i] <= b[j] {
        assert b[i] == s[k + i] && b[j] == s[k + j];
      }
    }
    forall i | 0 <= i < |a| ensures a[i] <= v {
      assert a[i] == s[i];
    }
    forall i | 0 <= i < |b| ensures v <= b[i] {
      assert b[i] == s[k + i];
    }
    SortedAround(a, v, b);
  }

  /** Placing a value that does not occur at the split point of a strictly
      increasing sequence keeps it strictly increasing. */
  lemma PlaceKeepsStrictlySorted(s: seq<int>, v: int)
    requires StrictlySorted(s) && v !in s
    ensures var k := SplitPoint(s, v); StrictlySorted(s[..k] + [v] + s[k..])
  {
    var k := SplitPoint(s, v);
    assert Sorted(s);
    SortedAfterSplit(s, v);
    var p := s[..k] + [v] + s[k..];
    forall i, j | 0 <= i < j < |p| ensures p[i] < p[j] {
      if j < k {
        assert p[i] == s[i] && p[j] == s[j];
      } else if j == k {
        assert p[i] == s[i] && s[i] in s;
      } else if i < k {
        assert p[i] == s[i] && p[j] == s[j - 1];
      } else if i == k {
        assert p[j] == s[j - 1];
      } else {
        assert p[i] == s[i - 1] && p[j] == s[j - 1];
      }
    }
  }

  /** When v goes into the left part of a node's sequence a + [x] + b, placing
      it at the left part's split point places it at the whole sequence's. */
  lemma PlaceLeft(a: seq<int>, x: int, b: seq<int>, v: int)
    requires v < x
    ensures var s, kl := a + [x] + b, SplitPoint(a, v);
            (a[..kl] + [v] + a[kl..]) + [x] + b
              == s[..SplitPoint(s, v)] + [v] + s[SplitPoint(s, v)..]
  {
    var s, kl := a + [x] + b, SplitPoint(a, v);
    SplitPointUnique(s, v, kl);
    assert s[..kl] == a[..kl];
    assert s[kl..] == a[kl..] + [x] + b;
  }

  /** When v goes into the right part of a node's sequence a + [x] + b, placing
      it at the right part's split point places it at the whole sequence's. */
  lemma PlaceRight(a: seq<int>, x: int, b: seq<int>, v: int)
    requires x <= v
    requires forall i :: 0 <= i < |a| ==> a[i] <= x
    ensures var s, kr := a + [x] + b, SplitPoint(b, v);
            a + [x] + (b[..kr] + [v] + b[kr..])
              == s[..SplitPoint(s, v)] + [v] + s[SplitPoint(s, v)..]
  {
    var kr := SplitPoint(b, v);
    var s, k := a + [x] + b, |a| + 1 + kr;
    SplitPointUnique(s, v, k);
    assert s[..k] == a + [x] + b[..kr];
    assert s[k..] == b[kr..];
  }

  /** One step of insertion seen through the inorder sequence: the value goes
      into the left or the right part and rebalancing moves nothing. */
  lemma InsertStep(t: Tree, v: int)
    requires t.Node? && HeightsInRange(t)
    ensures v < t.val ==> Inorder(Insert(t, v)) == Inorder(Insert(t.left, v)) + [t.val] + Inorder(t.right)
    ensures t.val <= v ==> Inorder(Insert(t, v)) == Inorder(t.left) + [t.val] + Inorder(Insert(t.right, v))
  {
  }

  /** Insertion into a search-ordered tree places v in the inorder sequence
      after every element at most v (after any equal elements) and before
      every element greater than v. */
  lemma {:induction false} InsertInorder(t: Tree, v: int)
    requires HeightsInRange(t) && Ordered(t)
    ensures var s := Inorder(t); var k := SplitPoint(s, v);
            Inorder(Insert(t, v)) == s[..k] + [v] + s[k..]
  {
    match t
    case Empty =>
    case Node(x, l, r, _) =>
      assert Inorder(t) == Inorder(l) + [x] + Inorder(r);
      InsertStep(t, v);
      if v < x {
        InsertInorder(l, v);
        PlaceLeft(Inorder(l), x, Inorder(r), v);
      } else {
        InsertInorder(r, v);
        LeftSideAgrees(l, x);
        PlaceRight(Inorder(l), x, Inorder(r), v);
      }
  }

  /** Insertion keeps the search order, and a strictly increasing inorder
      sequence stays strictly increasing when v was not present. */
  lemma InsertKeepsOrder(t: Tree, v: int)
    requires HeightsInRange(t) && Ordered(t)
    ensures Ordered(Insert(t, v))
    ensures StrictlySorted(Inorder(t)) && v !in Inorder(t) ==> StrictlySorted(Inorder(Insert(t, v)))
  {
    OrderedIffSorted(t);
    InsertInorder(t, v);
    PlaceKeepsSorted(Inorder(t), v);
    if StrictlySorted(Inorder(t)) && v !in Inorder(t) {
      PlaceKeepsStrictlySorted(Inorder(t), v);
    }
    OrderedIffSorted(Insert(t, v));
  }

  /** Insertion into an AVL tree with consistent caches yields an AVL tree with
      consistent caches whose height grew by at most one. */
  lemma {:induction false} InsertKeepsBalance(t: Tree, v: int)
    requires WellCached(t) && Balanced(t)
    ensures WellCached(Insert(t, v)) && Balanced(Insert(t, v))
    ensures Height(t) <= Height(Insert(t, v)) <= Height(t) + 1
  {
    match t
    case Empty =>
    case Node(x, l, r, _) =>
      if v < x {
        InsertKeepsBalance(l, v);
        RetraceLeft(t, Insert(l, v));
        assert Insert(t, v) == Rebalance(t.(left := Insert(l, v)));
      } else {
        InsertKeepsBalance(r, v);
        RetraceRight(t, Insert(r, v));
        assert Insert(t, v) == Rebalance(t.(right := Insert(r, v)));
      }
  }

  /** Replacing the left child of an AVL node by an AVL subtree that is at most one
      taller and rebalancing gives an AVL tree at most one taller than the node. */
  lemma RetraceLeft(t: Tree, c: Tree)
    requires t.Node? && WellCached(t) && Balanced(t)
    requires WellCached(c) && Balanced(c)
    requires Height(t.left) <= Height(c) <= Height(t.left) + 1
    ensures Rotatable(t.(left := c))
    ensures WellCached(Rebalance(t.(left := c))) && Balanced(Rebalance(t.(left := c)))
    ensures Height(t) <= Height(Rebalance(t.(left := c))) <= Height(t) + 1
  {
    RebalanceRestoresBalance(t.(left := c));
  }

  /** Mirror image of RetraceLeft. */
  lemma RetraceRight(t: Tree, c: Tree)
    requires t.Node? && WellCached(t) && Balanced(t)
    requires WellCached(c) && Balanced(c)
    requires Height(t.right) <= Height(c) <= Height(t.right) + 1
    ensures Rotatable(t.(right := c))
    ensures WellCached(Rebalance(t.(right := c))) && Balanced(Rebalance(t.(right := c)))
    ensures Height(t) <= Height(Rebalance(t.(right := c))) <= Height(t) + 1
  {
    RebalanceRestoresBalance(t.(right := c));
  }
}
