/** The rotation engine: the four AVL rotations and `balance`, which picks one
    of them whenever a node's children differ in height by more than the
    allowed imbalance and then recomputes the node's cached height. */
module Rotations {
  import opened Elements
  import opened Trees

  /** The largest height difference tolerated between two siblings. */
  const AllowedImbalance := 1

  /** Single rotation for case 1: the left child `k1` becomes the root and the
      old root `k2` becomes its right child, heights recomputed child first. */
  function RotateWithLeftChild(k2: Tree): (r: Tree)
    requires k2.Node? && k2.left.Node?
    ensures r.Node? && r.right.Node?
    ensures r.elem == k2.left.elem && r.right.elem == k2.elem
    ensures InOrder(r) == InOrder(k2)
    ensures Elems(r) == Elems(k2) && Keys(r) == Keys(k2)
    ensures Ordered(k2) ==> Ordered(r)
    ensures HeightsOk(k2.left.left) && HeightsOk(k2.left.right) && HeightsOk(k2.right) ==> HeightsOk(r)
  {
    var k1 := k2.left;
    var lowered := Node(k2.elem, k1.right, k2.right, Max(Height(k1.right), Height(k2.right)) + 1);
    var r := Node(k1.elem, k1.left, lowered, Max(Height(k1.left), Height(lowered)) + 1);
    assert Ordered(k2) ==> Ordered(r) by {
      if Ordered(k2) {
        assert Ordered(k1);
        assert k1.elem.key in Keys(k1) && Keys(k1.right) <= Keys(k1);
        assert Ordered(lowered);
        assert forall k :: k in Keys(lowered) ==> k1.elem.key < k;
      }
    }
    r
  }

  /** Single rotation for case 4: the right child `k2` becomes the root and the
      old root `k1` becomes its left child. */
  function RotateWithRightChild(k1: Tree): (r: Tree)
    requires k1.Node? && k1.right.Node?
    ensures r.Node? && r.left.Node?
    ensures r.elem == k1.right.elem && r.left.elem == k1.elem
    ensures InOrder(r) == InOrder(k1)
    ensures Elems(r) == Elems(k1) && Keys(r) == Keys(k1)
    ensures Ordered(k1) ==> Ordered(r)
    ensures HeightsOk(k1.left) && HeightsOk(k1.right.left) && HeightsOk(k1.right.right) ==> HeightsOk(r)
  {
    var k2 := k1.right;
    var lowered := Node(k1.elem, k1.left, k2.left, Max(Height(k1.left), Height(k2.left)) + 1);
    var r := Node(k2.elem, lowered, k2.right, Max(Height(k2.right), Height(lowered)) + 1);
    assert Ordered(k1) ==> Ordered(r) by {
      if Ordered(k1) {
        assert Ordered(k2);
        assert k2.elem.key in Keys(k2) && Keys(k2.left) <= Keys(k2);
        assert Ordered(lowered);
        assert forall k :: k in Keys(lowered) ==> k < k2.elem.key;
      }
    }
    r
  }

  /** Double rotation for case 2: the left child is first rotated with its own
      right child, then the root with its new left child; the grandchild on the
      inside becomes the root. */
  function DoubleWithLeftChild(k3: Tree): (r: Tree)
    requires k3.Node? && k3.left.Node? && k3.left.right.Node?
    ensures r.Node? && r.elem == k3.left.right.elem
    ensures InOrder(r) == InOrder(k3)
    ensures Elems(r) == Elems(k3) && Keys(r) == Keys(k3)
    ensures Ordered(k3) ==> Ordered(r)
    ensures HeightsOk(k3.left) && HeightsOk(k3.right) ==> HeightsOk(r)
  {
    var k1 := RotateWithRightChild(k3.left);
    assert HeightsOk(k3.left) ==> HeightsOk(k1.left) && HeightsOk(k1.right) by {
      if HeightsOk(k3.left) {
        assert HeightsOk(k3.left.right);
        assert HeightsOk(k1);
      }
    }
    RotateWithLeftChild(Node(k3.elem, k1, k3.right, k3.height))
  }

  /** Double rotation for case 3, the mirror image of case 2. */
  function DoubleWithRightChild(k1: Tree): (r: Tree)
    requires k1.Node? && k1.right.Node? && k1.right.left.Node?
    ensures r.Node? && r.elem == k1.right.left.elem
    ensures InOrder(r) == InOrder(k1)
    ensures Elems(r) == Elems(k1) && Keys(r) == Keys(k1)
    ensures Ordered(k1) ==> Ordered(r)
    ensures HeightsOk(k1.left) && HeightsOk(k1.right) ==> HeightsOk(r)
  {
    var k3 := RotateWithLeftChild(k1.right);
    assert HeightsOk(k1.right) ==> HeightsOk(k3.left) && HeightsOk(k3.right) by {
      if HeightsOk(k1.right) {
        assert HeightsOk(k1.right.left);
        assert HeightsOk(k3);
      }
    }
    RotateWithRightChild(Node(k1.elem, k1.left, k3, k1.height))
  }

  /** Rebalances one node whose children carry correct heights: rotates when one
      side is taller by more than `AllowedImbalance`, then recomputes the height.
      The elements, their in-order sequence and the search order are kept. */
  function Balance(t: Tree): (r: Tree)
    requires t.Node? ==> HeightsOk(t.left) && HeightsOk(t.right)
    ensures HeightsOk(r)
    ensures t.Leaf? <==> r.Leaf?
    ensures InOrder(r) == InOrder(t)
    ensures Elems(r) == Elems(t) && Keys(r) == Keys(t)
    ensures Ordered(t) ==> Ordered(r)
  {
    match t
    case Leaf => Leaf
    case Node(e, l, rt, h) =>
      CachedHeightIsReal(l);
      CachedHeightIsReal(rt);
      var u :=
        if Height(l) - Height(rt) > AllowedImbalance then
          CachedHeightIsReal(l.left);
          if Height(l.left) >= Height(l.right) then RotateWithLeftChild(t)
          else DoubleWithLeftChild(t)
        else if Height(rt) - Height(l) > AllowedImbalance then
          CachedHeightIsReal(rt.right);
          if Height(rt.right) >= Height(rt.left) then RotateWithRightChild(t)
          else DoubleWithRightChild(t)
        else t;
      Node(u.elem, u.left, u.right, Max(Height(u.left), Height(u.right)) + 1)
  }

  /** On a node that is already balanced with correct heights, `balance`
      changes nothing. */
  lemma BalanceKeepsBalancedNode(t: Tree)
    requires HeightsOk(t) && Balanced(t)
    ensures Balance(t) == t
  {
  }

  /** Case 1: the left child is too tall on its outside; one rotation fixes it. */
  lemma RotateWithLeftChildBalances(t: Tree)
    requires t.Node? && t.left.Node?
    requires HeightsOk(t.left) && HeightsOk(t.right) && Balanced(t.left) && Balanced(t.right)
    requires Height(t.left) == Height(t.right) + 2
    requires Height(t.left.left) >= Height(t.left.right)
    ensures Balanced(RotateWithLeftChild(t))
    ensures Height(t.left) <= Height(RotateWithLeftChild(t)) <= Height(t.left) + 1
  {
    CachedHeightIsReal(t.right);
  }

  /** Case 4, the mirror image of case 1. */
  lemma RotateWithRightChildBalances(t: Tree)
    requires t.Node? && t.right.Node?
    requires HeightsOk(t.left) && HeightsOk(t.right) && Balanced(t.left) && Balanced(t.right)
    requires Height(t.right) == Height(t.left) + 2
    requires Height(t.right.right) >= Height(t.right.left)
    ensures Balanced(RotateWithRightChild(t))
    ensures Height(t.right) <= Height(RotateWithRightChild(t)) <= Height(t.right) + 1
  {
    CachedHeightIsReal(t.left);
  }

  /** Case 2: the left child is too tall on its inside; the double rotation
      makes the inner grandchild the root and leaves the height of the left child. */
  lemma DoubleWithLeftChildBalances(t: Tree)
    requires t.Node? && t.left.Node? && t.left.right.Node?
    requires HeightsOk(t.left) && HeightsOk(t.right) && Balanced(t.left) && Balanced(t.right)
    requires Height(t.left) == Height(t.right) + 2
    requires Height(t.left.left) < Height(t.left.right)
    ensures Balanced(DoubleWithLeftChild(t))
    ensures Height(DoubleWithLeftChild(t)) == Height(t.left)
  {
    CachedHeightIsReal(t.right);
    CachedHeightIsReal(t.left.right.left);
    CachedHeightIsReal(t.left.right.right);
  }

  /** Case 3, the mirror image of case 2. */
  lemma DoubleWithRightChildBalances(t: Tree)
    requires t.Node? && t.right.Node? && t.right.left.Node?
    requires HeightsOk(t.left) && HeightsOk(t.right) && Balanced(t.left) && Balanced(t.right)
    requires Height(t.right) == Height(t.left) + 2
    requires Height(t.right.right) < Height(t.right.left)
    ensures Balanced(DoubleWithRightChild(t))
    ensures Height(DoubleWithRightChild(t)) == Height(t.right)
  {
    CachedHeightIsReal(t.left);
    CachedHeightIsReal(t.right.left.left);
    CachedHeightIsReal(t.right.left.right);
  }

  /** `balance` restores AVL balance at a node whose children are balanced and
      differ in height by at most two.  The new height is the taller child's
      height or one more, and exactly one more when no rotation was needed. */
  lemma BalanceRestoresAvl(t: Tree)
    requires t.Node?
    requires HeightsOk(t.left) && HeightsOk(t.right) && Balanced(t.left) && Balanced(t.right)
    requires -2 <= Height(t.left) - Height(t.right) <= 2
    ensures Balanced(Balance(t))
    ensures Max(Height(t.left), Height(t.right)) <= Height(Balance(t)) <= Max(Height(t.left), Height(t.right)) + 1
    ensures -1 <= Height(t.left) - Height(t.right) <= 1 ==> Height(Balance(t)) == Max(Height(t.left), Height(t.right)) + 1
  {
    var l, rt := t.left, t.right;
    CachedHeightIsReal(l);
    CachedHeightIsReal(rt);
    if Height(l) - Height(rt) > AllowedImbalance {
      CachedHeightIsReal(l.left);
      if Height(l.left) >= Height(l.right) {
        RotateWithLeftChildBalances(t);
      } else {
        DoubleWithLeftChildBalances(t);
      }
    } else if Height(rt) - Height(l) > AllowedImbalance {
      CachedHeightIsReal(rt.right);
      if Height(rt.right) >= Height(rt.left) {
        RotateWithRightChildBalances(t);
      } else {
        DoubleWithRightChildBalances(t);
      }
    }
  }
}
