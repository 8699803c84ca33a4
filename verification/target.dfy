/** `target`: the lowest common superior of two members, found by scanning the
    two deepest-first paths for the first entry of `x`'s path that also lies on
    `y`'s path. Entries are matched by key, which in a search tree identifies
    the node. */
module Target {
  import opened Elements
  import opened Trees
  import opened Search

  /** Some entry of `s` has the key of `e`. */
  predicate Occurs(e: Elem, s: seq<Elem>) {
    exists j :: 0 <= j < |s| && s[j].key == e.key
  }

  /** The nested scan: the first entry of `px` that occurs in `py`, if any. */
  function FirstShared(px: seq<Elem>, py: seq<Elem>): (r: Option<Elem>)
    ensures r.None? <==> forall i :: 0 <= i < |px| ==> !Occurs(px[i], py)
    ensures r.Some? ==> r.value in px && Occurs(r.value, py)
  {
    if |px| == 0 then None
    else if Occurs(px[0], py) then Some(px[0])
    else
      var r := FirstShared(px[1..], py);
      assert forall i :: 1 <= i < |px| ==> px[i] == px[1..][i - 1];
      r
  }

  /** The common superior of `x` and `y`, or none. */
  function TargetOf(x: Elem, y: Elem, t: Tree): Option<Elem> {
    FirstShared(Path(x, t), Path(y, t))
  }

  /** The scan returns entry `i` of `px` whenever that entry is the first one
      occurring in `py`. */
  lemma {:induction false} FirstSharedIsFirst(px: seq<Elem>, py: seq<Elem>, i: nat)
    requires i < |px| && Occurs(px[i], py)
    requires forall j :: 0 <= j < i ==> !Occurs(px[j], py)
    ensures FirstShared(px, py) == Some(px[i])
    decreases i
  {
    if i > 0 {
      assert !Occurs(px[0], py);
      assert forall j :: 0 <= j < i - 1 ==> px[1..][j] == px[j + 1];
      FirstSharedIsFirst(px[1..], py, i - 1);
    }
  }

  /** The entry the scan returns is the first one of `px` occurring in `py`. */
  lemma {:induction false} FirstSharedIndex(px: seq<Elem>, py: seq<Elem>) returns (i: nat)
    requires FirstShared(px, py).Some?
    ensures i < |px| && px[i] == FirstShared(px, py).value
    ensures forall j :: 0 <= j < i ==> !Occurs(px[j], py)
  {
    if Occurs(px[0], py) {
      i := 0;
    } else {
      var i' := FirstSharedIndex(px[1..], py);
      i := i' + 1;
      assert forall j :: 1 <= j < i ==> px[j] == px[1..][j - 1];
    }
  }

  /** When both keys are stored, `target` finds their lowest common ancestor:
      a node on both paths, whose key lies between the two keys, and below
      every other node the two paths share. */
  lemma {:induction false} TargetIsLowestCommonAncestor(x: Elem, y: Elem, t: Tree)
    requires Ordered(t) && x.key in Keys(t) && y.key in Keys(t)
    ensures TargetOf(x, y, t).Some?
    ensures TargetOf(x, y, t).value in Path(x, t) && TargetOf(x, y, t).value in Path(y, t)
    ensures Min(x.key, y.key) <= TargetOf(x, y, t).value.key <= Max(x.key, y.key)
    ensures forall c :: c in Path(x, t) && c in Path(y, t) ==> c in Path(TargetOf(x, y, t).value, t)
  {
    var e, l, r := t.elem, t.left, t.right;
    var px, py := Path(x, t), Path(y, t);
    PathShape(x, t);
    PathShape(y, t);
    if x.key < e.key && y.key < e.key {
      TargetIsLowestCommonAncestor(x, y, l);
      SameSideStep(x, y, t, true);
    } else if e.key < x.key && e.key < y.key {
      TargetIsLowestCommonAncestor(x, y, r);
      SameSideStep(x, y, t, false);
    } else {
      SplitStep(x, y, t);
    }
  }

  /** Both keys lie on the same side of the root: the answer in that child
      stays the answer, and the root joins both paths at their end. */
  lemma SameSideStep(x: Elem, y: Elem, t: Tree, goLeft: bool)
    requires t.Node? && Ordered(t)
    requires goLeft ==> x.key < t.elem.key && y.key < t.elem.key
    requires !goLeft ==> t.elem.key < x.key && t.elem.key < y.key
    requires var s := if goLeft then t.left else t.right;
      && TargetOf(x, y, s).Some?
      && TargetOf(x, y, s).value in Path(x, s) && TargetOf(x, y, s).value in Path(y, s)
      && Min(x.key, y.key) <= TargetOf(x, y, s).value.key <= Max(x.key, y.key)
      && forall c :: c in Path(x, s) && c in Path(y, s) ==> c in Path(TargetOf(x, y, s).value, s)
    ensures TargetOf(x, y, t).Some?
    ensures TargetOf(x, y, t).value in Path(x, t) && TargetOf(x, y, t).value in Path(y, t)
    ensures Min(x.key, y.key) <= TargetOf(x, y, t).value.key <= Max(x.key, y.key)
    ensures forall c :: c in Path(x, t) && c in Path(y, t) ==> c in Path(TargetOf(x, y, t).value, t)
  {
    var e := t.elem;
    var s := if goLeft then t.left else t.right;
    var a := TargetOf(x, y, s).value;
    var px, py := Path(x, s), Path(y, s);
    assert Path(x, t) == px + [e] && Path(y, t) == py + [e];
    PathShape(x, s);
    PathShape(y, s);
    // every entry of the child paths lies strictly on the child's side of `e`
    forall p | p in Elems(s) ensures p.key != e.key && (goLeft <==> p.key < e.key) {
      ElemKeyIsKey(s, p);
    }
    // so sharing with `py + [e]` is sharing with `py` for them
    forall p | p in px ensures Occurs(p, py + [e]) <==> Occurs(p, py) {
      if Occurs(p, py + [e]) {
        var j :| 0 <= j < |py + [e]| && (py + [e])[j].key == p.key;
        assert j < |py|;
        assert py[j].key == p.key;
      }
      if Occurs(p, py) {
        var j :| 0 <= j < |py| && py[j].key == p.key;
        assert (py + [e])[j] == py[j];
      }
    }
    var i := FirstSharedIndex(px, py);
    assert Occurs(px[i], py + [e]);
    FirstSharedIsFirst(px + [e], py + [e], i);
    assert a.key < e.key || e.key < a.key;
    assert Path(a, t) == Path(a, s) + [e];
  }

  /** The keys are on different sides of the root, or one is the root's: the
      root is the first entry of `x`'s path that `y`'s path contains. */
  lemma SplitStep(x: Elem, y: Elem, t: Tree)
    requires t.Node? && Ordered(t) && x.key in Keys(t) && y.key in Keys(t)
    requires !(x.key < t.elem.key && y.key < t.elem.key)
    requires !(t.elem.key < x.key && t.elem.key < y.key)
    ensures TargetOf(x, y, t) == Some(t.elem)
    ensures t.elem in Path(x, t) && t.elem in Path(y, t)
    ensures Min(x.key, y.key) <= t.elem.key <= Max(x.key, y.key)
    ensures forall c :: c in Path(x, t) && c in Path(y, t) ==> c in Path(t.elem, t)
  {
    var e, l, r := t.elem, t.left, t.right;
    var px, py := Path(x, t), Path(y, t);
    PathShape(x, t);
    PathShape(y, t);
    PathShape(x, l);
    PathShape(x, r);
    PathShape(y, l);
    PathShape(y, r);
    forall p | p in Elems(l) ensures p.key < e.key {
      ElemKeyIsKey(l, p);
    }
    forall p | p in Elems(r) ensures e.key < p.key {
      ElemKeyIsKey(r, p);
    }
    // every entry of `px` but the last lies on the other side from every entry of `py`
    forall j | 0 <= j < |px| - 1 ensures !Occurs(px[j], py) {
    }
    assert Occurs(px[|px| - 1], py) by {
      assert py[|py| - 1] == e;
    }
    FirstSharedIsFirst(px, py, |px| - 1);
    forall c | c in px && c in py ensures c == e {
    }
  }
}
