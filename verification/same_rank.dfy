/** `sameRank`: lists, in post-order, the members whose own rank equals the
    rank of `x`, recomputing every rank by a fresh descent from the root. */
module SameRank {
  import opened Elements
  import opened Trees
  import opened Search

  /** The traversal as written: `t` is walked left subtree, right subtree, node;
      both ranks are taken in the whole tree `root`. */
  function SameRankIn(x: Elem, root: Tree, t: Tree): seq<Elem> {
    match t
    case Leaf => []
    case Node(e, l, r, _) =>
      var rank := Rank(x, root);
      SameRankIn(x, root, l) + SameRankIn(x, root, r)
        + (if Rank(e, root) == rank then [e] else [])
  }

  /** The output of `sameRank` on the tree `t`. */
  function SameRankOf(x: Elem, t: Tree): seq<Elem> {
    SameRankIn(x, t, t)
  }

  /** The independent reference: the nodes `d` levels below the root of `t`,
      in post-order. */
  function AtDepth(t: Tree, d: int): seq<Elem> {
    match t
    case Leaf => []
    case Node(e, l, r, _) =>
      if d < 0 then []
      else if d == 0 then [e]
      else AtDepth(l, d - 1) + AtDepth(r, d - 1)
  }

  /** In an ordered tree the rank of a stored member is its depth: the members
      listed at depth `d` are exactly those whose rank is `d`. */
  lemma {:induction false} AtDepthIsRank(t: Tree, d: int)
    requires Ordered(t)
    ensures forall e :: e in AtDepth(t, d) <==> e in Elems(t) && Rank(e, t) == d
  {
    match t
    case Leaf =>
    case Node(f, l, r, _) =>
      AtDepthIsRank(l, d - 1);
      AtDepthIsRank(r, d - 1);
      forall e | e in Elems(l) ensures e.key < f.key && Rank(e, t) == 1 + Rank(e, l) {
        ElemKeyIsKey(l, e);
      }
      forall e | e in Elems(r) ensures f.key < e.key && Rank(e, t) == 1 + Rank(e, r) {
        ElemKeyIsKey(r, e);
      }
  }

  /** The walk over a subtree `s` that sits `k` levels below the root lists the
      nodes of `s` at depth `rank(x) - k` within `s`. */
  lemma {:induction false} SameRankInIsAtDepth(x: Elem, root: Tree, s: Tree, k: nat)
    requires Ordered(s)
    requires forall e :: e in Elems(s) ==> Rank(e, root) == k + Rank(e, s)
    ensures SameRankIn(x, root, s) == AtDepth(s, Rank(x, root) - k)
  {
    match s
    case Leaf =>
    case Node(f, l, r, _) =>
      forall e | e in Elems(l) ensures Rank(e, root) == (k + 1) + Rank(e, l) {
        ElemKeyIsKey(l, e);
      }
      forall e | e in Elems(r) ensures Rank(e, root) == (k + 1) + Rank(e, r) {
        ElemKeyIsKey(r, e);
      }
      SameRankInIsAtDepth(x, root, l, k + 1);
      SameRankInIsAtDepth(x, root, r, k + 1);
      assert Rank(f, s) == 0;
      var d := Rank(x, root) - k;
      if d < 0 {
        assert AtDepth(l, d - 1) == [] && AtDepth(r, d - 1) == [];
      }
  }

  /** `sameRank` prints the nodes at the depth of `x`'s descent, in post-order,
      and a member appears exactly when its own rank equals the rank of `x`. */
  lemma SameRankListsEqualRanks(x: Elem, t: Tree)
    requires Ordered(t)
    ensures SameRankOf(x, t) == AtDepth(t, Rank(x, t))
    ensures forall e :: e in SameRankOf(x, t) <==> e in Elems(t) && Rank(e, t) == Rank(x, t)
  {
    SameRankInIsAtDepth(x, t, t, 0);
    AtDepthIsRank(t, Rank(x, t));
  }
}
