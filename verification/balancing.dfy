/**
 The balance engine: refreshing a node's cached height, the two single
 rotations, and the retrace policy that picks a single or a double rotation
 from the sign of the heavy child's balance factor.
 */
module Balancing {
  import opened Nodes

  /** Recomputes a node's cached height from its two children. */
  function Update(t: Tree): (r: Tree)
    requires t.Node?
    ensures r.Node? && r.val == t.val && r.left == t.left && r.right == t.right
    ensures Inorder(r) == Inorder(t)
    ensures WellCached(r) <==> WellCached(t.left) && WellCached(t.right)
    ensures HeightsInRange(r) <==> HeightsInRange(t.left) && HeightsInRange(t.right)
    ensures Balanced(r) <==> Balanced(t)
  {
    Node(t.val, t.left, t.right, 1 + Max(Height(t.left), Height(t.right)))
  }

  /** Promotes the right child to the root of the subtree; the old root becomes
      its left child and takes over the right child's left subtree. The lower
      node is refreshed before the new root. */
  function RotateLeft(t: Tree): (r: Tree)
    requires t.Node? && t.right.Node?
    ensures r.Node? && r.val == t.right.val && r.right == t.right.right
    ensures r.left.Node? && r.left.val == t.val
    ensures r.left.left == t.left && r.left.right == t.right.left
    ensures Inorder(r) == Inorder(t)
    ensures WellCached(t.left) && WellCached(t.right.left) && WellCached(t.right.right) ==> WellCached(r)
    ensures (HeightsInRange(t.left) && HeightsInRange(t.right.left) && HeightsInRange(t.right.right))
              ==> HeightsInRange(r)
  {
    var child := t.right;
    var lower := Update(Node(t.val, t.left, child.left, t.height));
    Update(Node(child.val, lower, child.right, child.height))
  }

  /** Promotes the left child to the root of the subtree; mirror image of RotateLeft. */
  function RotateRight(t: Tree): (r: Tree)
    requires t.Node? && t.left.Node?
    ensures r.Node? && r.val == t.left.val && r.left == t.left.left
    ensures r.right.Node? && r.right.val == t.val
    ensures r.right.left == t.left.right && r.right.right == t.right
    ensures Inorder(r) == Inorder(t)
    ensures WellCached(t.left.left) && WellCached(t.left.right) && WellCached(t.right) ==> WellCached(r)
    ensures (HeightsInRange(t.left.left) && HeightsInRange(t.left.right) && HeightsInRange(t.right))
              ==> HeightsInRange(r)
  {
    var child := t.left;
    var lower := Update(Node(t.val, child.right, t.right, t.height));
    Update(Node(child.val, child.left, lower, child.height))
  }

  /** The nodes a rotation chosen by Rebalance reads are present. Without them
      the rotation would dereference a missing child. */
  ghost predicate Rotatable(t: Tree)
    requires t.Node?
  {
    && (BalanceFactor(t) > 1 ==>
          t.right.Node? && (BalanceFactor(t.right) < 0 ==> t.right.left.Node?))
    && (BalanceFactor(t) < -1 ==>
          t.left.Node? && (BalanceFactor(t.left) > 0 ==> t.left.right.Node?))
  }

  /** When every cached height in both child subtrees is a real height, the
      rotation Rebalance chooses always finds the children it dereferences. */
  lemma InRangeIsRotatable(t: Tree)
    requires t.Node? && HeightsInRange(t.left) && HeightsInRange(t.right)
    ensures Rotatable(t)
  {
  }

  /** The retrace policy applied to one node after one of its children was replaced. */
  function Rebalance(t: Tree): (r: Tree)
    requires t.Node? && Rotatable(t)
    ensures r.Node?
    ensures Inorder(r) == Inorder(t)
    // no rotation: the node comes back with only its height refreshed
    ensures -1 <= BalanceFactor(t) <= 1 ==>
              r == t.(height := 1 + Max(Height(t.left), Height(t.right)))
    // right-heavy: the right child (single) or its left child (double) becomes
    // the root, and every untouched subtree moves to its new slot
    ensures BalanceFactor(t) > 1 && BalanceFactor(t.right) >= 0 ==>
              && r.val == t.right.val && r.left.Node? && r.left.val == t.val
              && r.left.left == t.left && r.left.right == t.right.left
              && r.right == t.right.right
    ensures BalanceFactor(t) > 1 && BalanceFactor(t.right) < 0 ==>
              && r.val == t.right.left.val
              && r.left.Node? && r.left.val == t.val
              && r.right.Node? && r.right.val == t.right.val
              && r.left.left == t.left && r.left.right == t.right.left.left
              && r.right.left == t.right.left.right && r.right.right == t.right.right
    // left-heavy: the mirror image
    ensures BalanceFactor(t) < -1 && BalanceFactor(t.left) <= 0 ==>
              && r.val == t.left.val && r.right.Node? && r.right.val == t.val
              && r.left == t.left.left && r.right.left == t.left.right
              && r.right.right == t.right
    ensures BalanceFactor(t) < -1 && BalanceFactor(t.left) > 0 ==>
              && r.val == t.left.right.val
              && r.right.Node? && r.right.val == t.val
              && r.left.Node? && r.left.val == t.left.val
              && r.left.left == t.left.left && r.left.right == t.left.right.left
              && r.right.left == t.left.right.right && r.right.right == t.right
  {
    var n := Update(t);
    if BalanceFactor(n) > 1 then
      if BalanceFactor(n.right) >= 0 then RotateLeft(n)
      else RotateLeft(n.(right := RotateRight(n.right)))
    else if BalanceFactor(n) < -1 then
      if BalanceFactor(n.left) <= 0 then RotateRight(n)
      else RotateRight(n.(left := RotateLeft(n.left)))
    else n
  }

  /** Rebalancing recomputes the height of every node it rebuilds: consistent
      children give a consistent result, and heights of at least 0 stay so. */
  lemma RebalanceKeepsCaches(t: Tree)
    requires t.Node? && Rotatable(t)
    ensures WellCached(t.left) && WellCached(t.right) ==> WellCached(Rebalance(t))
    ensures HeightsInRange(t.left) && HeightsInRange(t.right) ==> HeightsInRange(Rebalance(t))
  {
    var n := Update(t);
    if BalanceFactor(n) > 1 && BalanceFactor(n.right) < 0 {
      assert HeightsInRange(n.right) ==> HeightsInRange(n.right.left);
      assert WellCached(n.right) ==> WellCached(n.right.left);
      var m := n.(right := RotateRight(n.right));
      assert WellCached(m.right) ==> WellCached(m.right.left) && WellCached(m.right.right);
      assert HeightsInRange(m.right) ==> HeightsInRange(m.right.left) && HeightsInRange(m.right.right);
    } else if BalanceFactor(n) < -1 && BalanceFactor(n.left) > 0 {
      assert HeightsInRange(n.left) ==> HeightsInRange(n.left.right);
      assert WellCached(n.left) ==> WellCached(n.left.right);
      var m := n.(left := RotateLeft(n.left));
      assert WellCached(m.left) ==> WellCached(m.left.left) && WellCached(m.left.right);
      assert HeightsInRange(m.left) ==> HeightsInRange(m.left.left) && HeightsInRange(m.left.right);
    }
  }

  /** Rebalancing a node whose children are AVL trees with consistent caches and
      whose heights differ by at most 2 yields an AVL tree with consistent caches,
      whose height is the refreshed node's height or one less; without a rotation
      it is exactly the refreshed height. */
  lemma RebalanceRestoresBalance(t: Tree)
    requires t.Node? && -2 <= BalanceFactor(t) <= 2
    requires WellCached(t.left) && Balanced(t.left)
    requires WellCached(t.right) && Balanced(t.right)
    ensures Rotatable(t)
    ensures WellCached(Rebalance(t)) && Balanced(Rebalance(t))
    ensures var h := 1 + Max(Height(t.left), Height(t.right));
            h - 1 <= Height(Rebalance(t)) <= h
    ensures -1 <= BalanceFactor(t) <= 1 ==>
              Height(Rebalance(t)) == 1 + Max(Height(t.left), Height(t.right))
  {
    InRangeIsRotatable(t);
    var n := Update(t);
    if BalanceFactor(n) > 1 {
      if BalanceFactor(n.right) >= 0 {
        RightHeavySingle(n);
      } else {
        RightHeavyDouble(n);
      }
    } else if BalanceFactor(n) < -1 {
      if BalanceFactor(n.left) <= 0 {
        LeftHeavySingle(n);
      } else {
        LeftHeavyDouble(n);
      }
    }
  }

  /** Right-heavy by 2 with a right child that is not left-heavy: one left rotation
      restores balance and lowers the height by at most one. */
  lemma RightHeavySingle(n: Tree)
    requires n.Node? && n.right.Node? && BalanceFactor(n) == 2 && BalanceFactor(n.right) >= 0
    requires WellCached(n.left) && Balanced(n.left)
    requires WellCached(n.right) && Balanced(n.right)
    ensures WellCached(RotateLeft(n)) && Balanced(RotateLeft(n))
    ensures Height(n.right) <= Height(RotateLeft(n)) <= Height(n.right) + 1
  {
    var c := n.right;
    EmptyHeight(c.left);
    EmptyHeight(c.right);
    RotateLeftHeights(n);
  }

  /** Right-heavy by 2 with a left-heavy right child: rotating the child right and
      then the node left restores balance and lowers the height by one. */
  lemma RightHeavyDouble(n: Tree)
    requires n.Node? && n.right.Node? && BalanceFactor(n) == 2 && BalanceFactor(n.right) < 0
    requires WellCached(n.left) && Balanced(n.left)
    requires WellCached(n.right) && Balanced(n.right)
    ensures n.right.left.Node?
    ensures var m := n.(right := RotateRight(n.right));
            && WellCached(RotateLeft(m)) && Balanced(RotateLeft(m))
            && Height(RotateLeft(m)) == Height(n.right)
  {
    var c := n.right;
    EmptyHeight(c.left);
    EmptyHeight(c.right);
    var g := c.left;
    EmptyHeight(g.left);
    EmptyHeight(g.right);
    RotateRightHeights(c);
    var m := n.(right := RotateRight(c));
    RotateLeftHeights(m);
  }

  /** Mirror image of RightHeavySingle. */
  lemma LeftHeavySingle(n: Tree)
    requires n.Node? && n.left.Node? && BalanceFactor(n) == -2 && BalanceFactor(n.left) <= 0
    requires WellCached(n.left) && Balanced(n.left)
    requires WellCached(n.right) && Balanced(n.right)
    ensures WellCached(RotateRight(n)) && Balanced(RotateRight(n))
    ensures Height(n.left) <= Height(RotateRight(n)) <= Height(n.left) + 1
  {
    var c := n.left;
    EmptyHeight(c.left);
    EmptyHeight(c.right);
    RotateRightHeights(n);
  }

  /** Mirror image of RightHeavyDouble. */
  lemma LeftHeavyDouble(n: Tree)
    requires n.Node? && n.left.Node? && BalanceFactor(n) == -2 && BalanceFactor(n.left) > 0
    requires WellCached(n.left) && Balanced(n.left)
    requires WellCached(n.right) && Balanced(n.right)
    ensures n.left.right.Node?
    ensures var m := n.(left := RotateLeft(n.left));
            && WellCached(RotateRight(m)) && Balanced(RotateRight(m))
            && Height(RotateRight(m)) == Height(n.left)
  {
    var c := n.left;
    EmptyHeight(c.left);
    EmptyHeight(c.right);
    var g := c.right;
    EmptyHeight(g.left);
    EmptyHeight(g.right);
    RotateLeftHeights(c);
    var m := n.(left := RotateLeft(c));
    RotateRightHeights(m);
  }

  /** The heights and balance factors of the two nodes RotateLeft rebuilds, in
      terms of the three subtrees it does not touch. */
  lemma RotateLeftHeights(t: Tree)
    requires t.Node? && t.right.Node?
    ensures var r := RotateLeft(t);
            var a, b, c := Height(t.left), Height(t.right.left), Height(t.right.right);
            && Height(r.left) == 1 + Max(a, b)
            && BalanceFactor(r.left) == b - a
            && Height(r) == 1 + Max(1 + Max(a, b), c)
            && BalanceFactor(r) == c - (1 + Max(a, b))
            && ((Balanced(t.left) && Balanced(t.right.left) && Balanced(t.right.right)
                 && -1 <= b - a <= 1 && -1 <= c - (1 + Max(a, b)) <= 1) ==> Balanced(r))
  {
  }

  /** Mirror image of RotateLeftHeights. */
  lemma RotateRightHeights(t: Tree)
    requires t.Node? && t.left.Node?
    ensures var r := RotateRight(t);
            var a, b, c := Height(t.left.left), Height(t.left.right), Height(t.right);
            && Height(r.right) == 1 + Max(b, c)
            && BalanceFactor(r.right) == c - b
            && Height(r) == 1 + Max(a, 1 + Max(b, c))
            && BalanceFactor(r) == 1 + Max(b, c) - a
            && ((Balanced(t.left.left) && Balanced(t.left.right) && Balanced(t.right)
                 && -1 <= c - b <= 1 && -1 <= 1 + Max(b, c) - a <= 1) ==> Balanced(r))
  {
  }

  function Pow2(n: int): nat {
    if n <= 0 then 1 else 2 * Pow2(n - 1)
  }

  lemma {:induction false} Pow2Monotone(a: int, b: int)
    requires a <= b
    ensures Pow2(a) <= Pow2(b)
    decreases b - a
  {
    if a < b {
      Pow2Monotone(a, b - 1);
    }
  }

  /** The AVL invariant keeps the height logarithmic in the number of nodes:
      a tree of height h holds at least 2^((h+1)/2) - 1 nodes. */
  lemma {:induction false} HeightLogarithmic(t: Tree)
    requires WellCached(t) && Balanced(t)
    ensures Pow2((Height(t) + 1) / 2) <= Size(t) + 1
  {
    match t
    case Empty =>
    case Node(_, l, r, h) =>
      HeightLogarithmic(l);
      HeightLogarithmic(r);
      EmptyHeight(l);
      EmptyHeight(r);
      if h >= 1 {
        Pow2Monotone((h - 1) / 2, (Height(l) + 1) / 2);
        Pow2Monotone((h - 1) / 2, (Height(r) + 1) / 2);
        assert Pow2((h + 1) / 2) == 2 * Pow2((h - 1) / 2);
      }
  }
}
