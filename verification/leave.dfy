/** `leave`: reports, without changing the tree, who would take the place of
    the member with `x`'s key if it were removed. */
module Leaving {
  import opened Elements
  import opened Trees
  import opened Search
  import opened Removal

  /** The answer of `leave`: no member with that key, nobody (a leaf leaves), or
      the name of the replacing member. */
  datatype Replacement = NotFound | Nobody | Name(name: string)

  /** Descends to `x`'s key; a leaf is replaced by nobody, a node with one child
      by that child, and a node with two children by the leftmost member of
      its right subtree. */
  function Leave(x: Elem, t: Tree): Replacement {
    match t
    case Leaf => NotFound
    case Node(e, l, rt, _) =>
      var c := Compare(x, e);
      if c < 0 then Leave(x, l)
      else if c > 0 then Leave(x, rt)
      else if rt.Leaf? && l.Leaf? then Nobody
      else if rt.Leaf? && l.Node? then Name(l.elem.name)
      else if rt.Node? && l.Leaf? then Name(rt.elem.name)
      else Name(FindMin(rt).value.name)
  }

  /** How a subtree that takes a removed node's place is reported. */
  function ReplacementOf(s: Tree): Replacement {
    if s.Leaf? then Nobody else Name(s.elem.name)
  }

  /** `leave` reports not-found exactly when the descent misses, and otherwise
      exactly what `remove` splices into the found node's place. */
  lemma {:induction false} LeaveAgreesWithRemove(x: Elem, t: Tree)
    requires HeightsOk(t)
    ensures HeightsOk(Lookup(x, t))
    ensures Leave(x, t).NotFound? <==> Lookup(x, t).Leaf?
    ensures Lookup(x, t).Node? ==> Leave(x, t) == ReplacementOf(Splice(Lookup(x, t)))
  {
    match t
    case Leaf =>
    case Node(e, l, rt, _) =>
      LeaveAgreesWithRemove(x, l);
      LeaveAgreesWithRemove(x, rt);
  }

  /** In a valid tree: not-found means the key is absent, and a reported name
      belongs to a member that is still in the tree after `remove`. */
  lemma LeaveNamesASurvivor(x: Elem, t: Tree)
    requires Valid(t)
    ensures Leave(x, t).NotFound? <==> x.key !in Keys(t)
    ensures Leave(x, t).Name? ==>
      exists e :: e in Elems(Remove(x, t)) && e.name == Leave(x, t).name
  {
    LeaveAgreesWithRemove(x, t);
    LookupFindsStoredKey(x, t);
    if Leave(x, t).Name? {
      var found := Lookup(x, t);
      var s := Splice(found);
      var e := s.elem;
      assert e in Elems(s);
      assert e in Elems(found.left) + Elems(found.right);
      assert Ordered(found);
      if e in Elems(found.left) {
        ElemKeyIsKey(found.left, e);
      } else {
        ElemKeyIsKey(found.right, e);
      }
      RemoveContents(x, t);
      assert e in Elems(Remove(x, t));
    }
  }
}
