/** `remove` and `findMin`: the AVL deletion. A node with two children takes the
    smallest element of its right subtree, which is then deleted from there; a
    node with fewer children is replaced by its only child or by nothing. */
module Removal {
  import opened Elements
  import opened Trees
  import opened Rotations
  import opened Search

  /** The leftmost element of `t`, reached by following left children; none for
      the empty tree. */
  function FindMin(t: Tree): (m: Option<Elem>)
    ensures m.None? <==> t.Leaf?
    ensures m.Some? ==> m.value in Elems(t) && m.value.key in Keys(t)
    ensures m.Some? ==> m.value == InOrder(t)[0]
  {
    match t
    case Leaf => None
    case Node(e, l, _, _) => if l.Leaf? then Some(e) else FindMin(l)
  }

  /** In an ordered tree the leftmost element holds the smallest key. */
  lemma {:induction false} FindMinIsSmallest(t: Tree)
    requires Ordered(t) && t.Node?
    ensures forall k :: k in Keys(t) ==> FindMin(t).value.key <= k
  {
    match t
    case Node(e, l, r, _) =>
      if l.Node? {
        FindMinIsSmallest(l);
      }
  }

  /** Removes the element with `x`'s key from below `t`, rebalancing every node
      on the way back up; an absent key reaches an empty subtree and changes
      nothing. */
  function Remove(x: Elem, t: Tree): (r: Tree)
    requires HeightsOk(t)
    ensures HeightsOk(r)
    ensures Elems(r) <= Elems(t)
    decreases t, 1
  {
    match t
    case Leaf => Leaf
    case Node(e, l, rt, h) =>
      var c := Compare(x, e);
      if c < 0 then Balance(Node(e, Remove(x, l), rt, h))
      else if c > 0 then Balance(Node(e, l, Remove(x, rt), h))
      else Balance(Splice(t))
  }

  /** What takes the place of a node that is being removed, before rebalancing:
      with two children, the node keeps its children but takes the right
      subtree's smallest element, which is removed from the right subtree;
      otherwise its only child, or nothing. */
  function Splice(t: Tree): (r: Tree)
    requires t.Node? && HeightsOk(t)
    ensures r.Node? ==> HeightsOk(r.left) && HeightsOk(r.right)
    ensures Elems(r) <= Elems(t.left) + Elems(t.right)
    decreases t, 0
  {
    var l, rt := t.left, t.right;
    if l.Node? && rt.Node? then
      var m := FindMin(rt).value;
      Node(m, l, Remove(m, rt), t.height)
    else if l.Node? then
      assert HeightsOk(l);
      assert HeightsOk(l.left) && HeightsOk(l.right);
      l
    else
      assert HeightsOk(rt);
      assert rt.Node? ==> HeightsOk(rt.left) && HeightsOk(rt.right);
      rt
  }

  /** The elements of `s` whose key differs from `k`. */
  function WithoutKey(s: set<Elem>, k: int): set<Elem> {
    set e | e in s && e.key != k
  }

  /** Removal keeps search order, cached heights and AVL balance; it takes out
      `x`'s key and nothing else; and the height drops by at most one. */
  lemma {:induction false} RemoveKeepsValid(x: Elem, t: Tree)
    requires Valid(t)
    ensures RemovedWell(x, t, Remove(x, t))
    decreases t
  {
    match t
    case Leaf =>
    case Node(e, l, rt, h) =>
      var c := Compare(x, e);
      if c < 0 {
        RemoveKeepsValid(x, l);
        RemoveBelowLeft(x, t);
      } else if c > 0 {
        RemoveKeepsValid(x, rt);
        RemoveBelowRight(x, t);
      } else if l.Node? && rt.Node? {
        RemoveKeepsValid(FindMin(rt).value, rt);
        RemoveWithTwoChildren(x, t);
      } else {
        RemoveWithOneChildAtMost(x, t);
      }
  }

  /** The result `r` of removing `x` from the valid tree `t` is valid, lacks
      exactly `x`'s key, and is at most one level lower. */
  ghost predicate RemovedWell(x: Elem, t: Tree, r: Tree) {
    && Valid(r)
    && Keys(r) == Keys(t) - {x.key}
    && Height(t) - 1 <= Height(r) <= Height(t)
  }

  /** Removal below the left child: the node keeps `RemovedWell` once the left
      subtree has it. */
  lemma RemoveBelowLeft(x: Elem, t: Tree)
    requires Valid(t) && t.Node? && x.key < t.elem.key
    requires RemovedWell(x, t.left, Remove(x, t.left))
    ensures RemovedWell(x, t, Remove(x, t))
  {
    var n := Node(t.elem, Remove(x, t.left), t.right, t.height);
    assert Ordered(n);
    assert Remove(x, t) == Balance(n);
    ShrinkStep(t, n);
  }

  /** Removal below the right child, the mirror image. */
  lemma RemoveBelowRight(x: Elem, t: Tree)
    requires Valid(t) && t.Node? && t.elem.key < x.key
    requires RemovedWell(x, t.right, Remove(x, t.right))
    ensures RemovedWell(x, t, Remove(x, t))
  {
    var n := Node(t.elem, t.left, Remove(x, t.right), t.height);
    assert Ordered(n);
    assert Remove(x, t) == Balance(n);
    ShrinkStep(t, n);
  }

  /** The found node has two children: it takes the minimum of its right
      subtree, which is removed there. */
  lemma RemoveWithTwoChildren(x: Elem, t: Tree)
    requires Valid(t) && t.Node? && x.key == t.elem.key && t.left.Node? && t.right.Node?
    requires RemovedWell(FindMin(t.right).value, t.right, Remove(FindMin(t.right).value, t.right))
    ensures RemovedWell(x, t, Remove(x, t))
  {
    var l, rt := t.left, t.right;
    var m := FindMin(rt).value;
    FindMinIsSmallest(rt);
    var rt' := Remove(m, rt);
    var n := Node(m, l, rt', t.height);
    assert Remove(x, t) == Balance(n);
    assert forall k :: k in Keys(l) ==> k < m.key;
    forall k | k in Keys(rt') ensures m.key < k {
      assert k in Keys(rt) && k != m.key;
    }
    assert Ordered(n);
    assert Keys(n) == Keys(t) - {x.key};
    ShrinkStep(t, n);
  }

  /** The found node has at most one child, which takes its place. */
  lemma RemoveWithOneChildAtMost(x: Elem, t: Tree)
    requires Valid(t) && t.Node? && x.key == t.elem.key && (t.left.Leaf? || t.right.Leaf?)
    ensures RemovedWell(x, t, Remove(x, t))
  {
    CachedHeightIsReal(t.left);
    CachedHeightIsReal(t.right);
    var s := Splice(t);
    assert s == t.left || s == t.right;
    assert Remove(x, t) == Balance(s);
    if s.Node? {
      BalanceKeepsBalancedNode(s);
    }
  }

  /** Rebuilding a valid node around one child that lost at most one level
      (and possibly a new element at the root) gives, after `balance`, a valid
      tree at most one level lower. */
  lemma ShrinkStep(t: Tree, n: Tree)
    requires Valid(t) && t.Node? && n.Node?
    requires Ordered(n) && Valid(n.left) && Valid(n.right)
    requires || (n.left == t.left && Height(t.right) - 1 <= Height(n.right) <= Height(t.right))
             || (n.right == t.right && Height(t.left) - 1 <= Height(n.left) <= Height(t.left))
    ensures Valid(Balance(n))
    ensures Height(t) - 1 <= Height(Balance(n)) <= Height(t)
  {
    BalanceRestoresAvl(n);
  }

  /** Removal takes out exactly the element stored under `x`'s key, whatever
      its name, and keeps every other element. */
  lemma {:induction false} RemoveContents(x: Elem, t: Tree)
    requires Valid(t)
    ensures Elems(Remove(x, t)) == WithoutKey(Elems(t), x.key)
    decreases t
  {
    match t
    case Leaf =>
    case Node(e, l, rt, h) =>
      var c := Compare(x, e);
      forall f | f in Elems(l) ensures f.key < e.key {
        ElemKeyIsKey(l, f);
      }
      forall f | f in Elems(rt) ensures e.key < f.key {
        ElemKeyIsKey(rt, f);
      }
      if c < 0 {
        RemoveContents(x, l);
      } else if c > 0 {
        RemoveContents(x, rt);
      } else if l.Node? && rt.Node? {
        var m := FindMin(rt).value;
        RemoveContents(m, rt);
        assert Splice(t) == Node(m, l, Remove(m, rt), h);
        forall f | f in Elems(rt) && f.key == m.key ensures f == m {
          KeysAreUnique(rt, f, m);
        }
        assert Elems(Remove(m, rt)) + {m} == Elems(rt);
      } else {
        assert Splice(t) == l || Splice(t) == rt;
      }
  }

  /** Removing a key the descent does not find returns the balanced tree unchanged. */
  lemma {:induction false} RemoveAbsentIsNoop(x: Elem, t: Tree)
    requires HeightsOk(t) && Balanced(t)
    requires Lookup(x, t).Leaf?
    ensures Remove(x, t) == t
  {
    match t
    case Leaf =>
    case Node(e, l, rt, h) =>
      var c := Compare(x, e);
      if c < 0 {
        RemoveAbsentIsNoop(x, l);
      } else if c > 0 {
        RemoveAbsentIsNoop(x, rt);
      }
      BalanceKeepsBalancedNode(t);
  }

  /** In a valid tree, removing an absent key changes nothing. */
  lemma {:induction false} RemoveAbsentKey(x: Elem, t: Tree)
    requires Valid(t) && x.key !in Keys(t)
    ensures Remove(x, t) == t
  {
    LookupFindsStoredKey(x, t);
    RemoveAbsentIsNoop(x, t);
  }
}
