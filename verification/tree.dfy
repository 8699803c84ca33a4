/** The node structure of the AVL tree and its three invariants: keys in
    search-tree order, cached heights equal to real heights, and AVL balance. */
module Trees {
  import opened Elements

  /** A subtree: empty, or a node holding one element, two children and the
      cached height of the node. */
  datatype Tree = Leaf | Node(elem: Elem, left: Tree, right: Tree, height: int)

  /** The height the algorithms read: the cached field, and -1 for the empty tree. */
  function Height(t: Tree): int {
    match t
    case Leaf => -1
    case Node(_, _, _, h) => h
  }

  /** The height recomputed from the shape, ignoring every cached field. */
  function RealHeight(t: Tree): int {
    match t
    case Leaf => -1
    case Node(_, l, r, _) => 1 + Max(RealHeight(l), RealHeight(r))
  }

  function Size(t: Tree): nat {
    match t
    case Leaf => 0
    case Node(_, l, r, _) => Size(l) + Size(r) + 1
  }

  function Elems(t: Tree): set<Elem> {
    match t
    case Leaf => {}
    case Node(e, l, r, _) => {e} + Elems(l) + Elems(r)
  }

  function Keys(t: Tree): set<int> {
    match t
    case Leaf => {}
    case Node(e, l, r, _) => {e.key} + Keys(l) + Keys(r)
  }

  function InOrder(t: Tree): seq<Elem> {
    match t
    case Leaf => []
    case Node(e, l, r, _) => InOrder(l) + [e] + InOrder(r)
  }

  /** Search-tree order: every key on the left is smaller than the node's key
      and every key on the right is larger, so no key occurs twice. */
  ghost predicate Ordered(t: Tree) {
    match t
    case Leaf => true
    case Node(e, l, r, _) =>
      && Ordered(l) && Ordered(r)
      && (forall k :: k in Keys(l) ==> k < e.key)
      && (forall k :: k in Keys(r) ==> e.key < k)
  }

  /** Every cached height is one more than the larger cached height of the children. */
  ghost predicate HeightsOk(t: Tree) {
    match t
    case Leaf => true
    case Node(_, l, r, h) => HeightsOk(l) && HeightsOk(r) && h == 1 + Max(Height(l), Height(r))
  }

  /** AVL balance: at every node the children's heights differ by at most one. */
  ghost predicate Balanced(t: Tree) {
    match t
    case Leaf => true
    case Node(_, l, r, _) => Balanced(l) && Balanced(r) && -1 <= Height(l) - Height(r) <= 1
  }

  /** What every public operation of the tree keeps. */
  ghost predicate Valid(t: Tree) {
    Ordered(t) && HeightsOk(t) && Balanced(t)
  }

  /** With the invariant, the cached height is the real one, it is -1 exactly
      for the empty tree, and it bounds the size from below. */
  lemma {:induction false} CachedHeightIsReal(t: Tree)
    requires HeightsOk(t)
    ensures Height(t) == RealHeight(t)
    ensures Height(t) >= -1
    ensures t.Leaf? <==> Height(t) == -1
    ensures Size(t) >= Height(t) + 1
  {
    match t
    case Leaf =>
    case Node(_, l, r, _) =>
      CachedHeightIsReal(l);
      CachedHeightIsReal(r);
  }

  /** The key of a stored element is a stored key. */
  lemma {:induction false} ElemKeyIsKey(t: Tree, e: Elem)
    requires e in Elems(t)
    ensures e.key in Keys(t)
  {
    match t
    case Leaf =>
    case Node(f, l, r, _) =>
      if e in Elems(l) {
        ElemKeyIsKey(l, e);
      } else if e in Elems(r) {
        ElemKeyIsKey(r, e);
      }
  }

  /** Every stored key belongs to some stored element. */
  lemma {:induction false} KeyHasElem(t: Tree, k: int) returns (e: Elem)
    requires k in Keys(t)
    ensures e in Elems(t) && e.key == k
  {
    match t
    case Node(f, l, r, _) =>
      if k == f.key {
        e := f;
      } else if k in Keys(l) {
        e := KeyHasElem(l, k);
      } else {
        e := KeyHasElem(r, k);
      }
  }

  /** In an ordered tree a key identifies its element. */
  lemma {:induction false} KeysAreUnique(t: Tree, a: Elem, b: Elem)
    requires Ordered(t)
    requires a in Elems(t) && b in Elems(t) && a.key == b.key
    ensures a == b
  {
    match t
    case Node(f, l, r, _) =>
      if a in Elems(l) {
        ElemKeyIsKey(l, a);
        if b in Elems(l) {
          KeysAreUnique(l, a, b);
        } else if b in Elems(r) {
          ElemKeyIsKey(r, b);
        }
      } else if a in Elems(r) {
        ElemKeyIsKey(r, a);
        if b in Elems(r) {
          KeysAreUnique(r, a, b);
        } else if b in Elems(l) {
          ElemKeyIsKey(l, b);
        }
      } else {
        if b in Elems(l) {
          ElemKeyIsKey(l, b);
        } else if b in Elems(r) {
          ElemKeyIsKey(r, b);
        }
      }
  }

  /** Keys of an in-order listing increase strictly. */
  ghost predicate StrictlyIncreasing(s: seq<Elem>) {
    forall i, j :: 0 <= i < j < |s| ==> s[i].key < s[j].key
  }

  /** Search-tree order is exactly a strictly increasing in-order listing, and the
      listing holds every element once. */
  lemma {:induction false} OrderedIffInOrderIncreasing(t: Tree)
    ensures Ordered(t) <==> StrictlyIncreasing(InOrder(t))
    ensures forall e :: e in InOrder(t) <==> e in Elems(t)
    ensures |InOrder(t)| == Size(t)
  {
    match t
    case Leaf =>
    case Node(e, l, r, _) =>
      OrderedIffInOrderIncreasing(l);
      OrderedIffInOrderIncreasing(r);
      var s := InOrder(t);
      var sl, sr := InOrder(l), InOrder(r);
      assert s == sl + [e] + sr;
      assert forall k :: k in Keys(l) <==> exists i :: 0 <= i < |sl| && sl[i].key == k by {
        forall k | k in Keys(l) ensures exists i :: 0 <= i < |sl| && sl[i].key == k {
          var f := KeyHasElem(l, k);
          assert f in sl;
        }
        forall i | 0 <= i < |sl| ensures sl[i].key in Keys(l) {
          assert sl[i] in Elems(l);
          ElemKeyIsKey(l, sl[i]);
        }
      }
      assert forall k :: k in Keys(r) <==> exists i :: 0 <= i < |sr| && sr[i].key == k by {
        forall k | k in Keys(r) ensures exists i :: 0 <= i < |sr| && sr[i].key == k {
          var f := KeyHasElem(r, k);
          assert f in sr;
        }
        forall i | 0 <= i < |sr| ensures sr[i].key in Keys(r) {
          assert sr[i] in Elems(r);
          ElemKeyIsKey(r, sr[i]);
        }
      }
      if Ordered(t) {
        forall i, j | 0 <= i < j < |s| ensures s[i].key < s[j].key {
          if j < |sl| {
          } else if i < |sl| {
            assert sl[i].key in Keys(l);
            if j > |sl| {
              assert s[j] == sr[j - |sl| - 1];
              assert sr[j - |sl| - 1].key in Keys(r);
            }
          } else if i == |sl| {
            assert s[j] == sr[j - |sl| - 1];
            assert sr[j - |sl| - 1].key in Keys(r);
          } else {
            assert s[i] == sr[i - |sl| - 1];
            assert s[j] == sr[j - |sl| - 1];
          }
        }
      }
      if StrictlyIncreasing(s) {
        assert StrictlyIncreasing(sl) by {
          forall i, j | 0 <= i < j < |sl| ensures sl[i].key < sl[j].key {
            assert s[i] == sl[i] && s[j] == sl[j];
          }
        }
        assert StrictlyIncreasing(sr) by {
          forall i, j | 0 <= i < j < |sr| ensures sr[i].key < sr[j].key {
            assert s[|sl| + 1 + i] == sr[i] && s[|sl| + 1 + j] == sr[j];
          }
        }
        forall k | k in Keys(l) ensures k < e.key {
          var i :| 0 <= i < |sl| && sl[i].key == k;
          assert s[i] == sl[i] && s[|sl|] == e;
        }
        forall k | k in Keys(r) ensures e.key < k {
          var i :| 0 <= i < |sr| && sr[i].key == k;
          assert s[|sl| + 1 + i] == sr[i] && s[|sl|] == e;
        }
      }
  }
}
