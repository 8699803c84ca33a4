/** The read-only descents from the root: `path`, which lists the visited
    elements deepest first, and `rank`, which counts the steps taken, that is
    the depth and not an order statistic. */
module Search {
  import opened Elements
  import opened Trees

  /** The elements the descent towards `x` visits, deepest first: index 0 is the
      node with `x`'s key or the last node visited, the last entry is the root. */
  function Path(x: Elem, t: Tree): seq<Elem> {
    match t
    case Leaf => []
    case Node(e, l, r, _) =>
      var c := Compare(x, e);
      if c < 0 then Path(x, l) + [e]
      else if c > 0 then Path(x, r) + [e]
      else [e]
  }

  /** The number of left or right steps the descent towards `x` takes before it
      meets `x`'s key or falls off the tree. */
  function Rank(x: Elem, t: Tree): nat {
    match t
    case Leaf => 0
    case Node(e, l, r, _) =>
      var c := Compare(x, e);
      if c < 0 then 1 + Rank(x, l)
      else if c > 0 then 1 + Rank(x, r)
      else 0
  }

  /** The subtree whose root holds `x`'s key, found by the same descent; empty
      when the descent falls off the tree. */
  function Lookup(x: Elem, t: Tree): Tree {
    match t
    case Leaf => Leaf
    case Node(e, l, r, _) =>
      var c := Compare(x, e);
      if c < 0 then Lookup(x, l)
      else if c > 0 then Lookup(x, r)
      else t
  }

  function Reverse(s: seq<Elem>): (r: seq<Elem>)
    ensures |r| == |s|
    ensures forall i :: 0 <= i < |s| ==> r[i] == s[|s| - 1 - i]
  {
    if |s| == 0 then [] else [s[|s| - 1]] + Reverse(s[..|s| - 1])
  }

  /** In an ordered tree the descent finds a node exactly when the key is stored,
      and that node holds the key. */
  lemma {:induction false} LookupFindsStoredKey(x: Elem, t: Tree)
    requires Ordered(t)
    ensures Lookup(x, t).Node? <==> x.key in Keys(t)
    ensures Lookup(x, t).Node? ==> Lookup(x, t).elem.key == x.key
    ensures Elems(Lookup(x, t)) <= Elems(t)
    ensures Ordered(Lookup(x, t))
  {
    match t
    case Leaf =>
    case Node(e, l, r, _) =>
      LookupFindsStoredKey(x, l);
      LookupFindsStoredKey(x, r);
  }

  /** Every element on the path is stored in the tree, the path is empty only
      for the empty tree, its entry 0 is the found node when there is one, and
      its last entry is the root. */
  lemma {:induction false} PathShape(x: Elem, t: Tree)
    ensures forall p :: p in Path(x, t) ==> p in Elems(t)
    ensures |Path(x, t)| == 0 <==> t.Leaf?
    ensures t.Node? ==> Path(x, t)[|Path(x, t)| - 1] == t.elem
    ensures Lookup(x, t).Node? ==> Path(x, t)[0] == Lookup(x, t).elem
  {
    match t
    case Leaf =>
    case Node(e, l, r, _) =>
      PathShape(x, l);
      PathShape(x, r);
  }

  /** The path never holds more entries than the root's height plus one, so the
      array `path` preallocates from the cached height cannot overflow. */
  lemma {:induction false} PathFitsHeight(x: Elem, t: Tree)
    requires HeightsOk(t)
    ensures |Path(x, t)| <= Height(t) + 1
  {
    match t
    case Leaf =>
    case Node(e, l, r, _) =>
      PathFitsHeight(x, l);
      PathFitsHeight(x, r);
  }

  /** Rank counts the steps: one fewer than the path's entries when the key is
      found, as many as the entries when the descent falls off the tree. */
  lemma {:induction false} RankIsPathLength(x: Elem, t: Tree)
    ensures Lookup(x, t).Node? ==> Rank(x, t) == |Path(x, t)| - 1
    ensures Lookup(x, t).Leaf? ==> Rank(x, t) == |Path(x, t)|
  {
    match t
    case Leaf =>
    case Node(e, l, r, _) =>
      RankIsPathLength(x, l);
      RankIsPathLength(x, r);
  }

  /** With search order, rank and path agree on whether the key is stored. */
  lemma {:induction false} RankOfStoredKey(x: Elem, t: Tree)
    requires Ordered(t)
    ensures x.key in Keys(t) ==> Rank(x, t) == |Path(x, t)| - 1
    ensures x.key !in Keys(t) ==> Rank(x, t) == |Path(x, t)|
    ensures t.Leaf? || (t.Node? && x.key == t.elem.key) ==> Rank(x, t) == 0
  {
    LookupFindsStoredKey(x, t);
    RankIsPathLength(x, t);
  }

  lemma ReverseSnoc(s: seq<Elem>, e: Elem)
    ensures Reverse(s + [e]) == [e] + Reverse(s)
  {
    assert (s + [e])[..|s|] == s;
  }

  /** The array algorithm of `path`: records each visited element root first
      in an array sized by the cached root height, then copies it reversed into
      an array of the exact length. */
  method PathArray(x: Elem, t: Tree) returns (trueSuperiors: seq<Elem>)
    requires HeightsOk(t)
    ensures trueSuperiors == Path(x, t)
    ensures |trueSuperiors| <= Height(t) + 1
  {
    CachedHeightIsReal(t);
    var index := 0;
    var size := Height(t) + 1;
    var superiors := new Elem[size];
    var cur := t;
    ghost var rootFirst: seq<Elem> := [];
    while cur.Node?
      invariant HeightsOk(cur)
      invariant superiors.Length == size
      invariant 0 <= index <= size && index + Height(cur) + 1 <= size
      invariant superiors[..index] == rootFirst
      invariant Path(x, t) == Path(x, cur) + Reverse(rootFirst)
      decreases cur
    {
      CachedHeightIsReal(cur.left);
      CachedHeightIsReal(cur.right);
      var c := Compare(x, cur.elem);
      superiors[index] := cur.elem;
      index := index + 1;
      ReverseSnoc(rootFirst, cur.elem);
      rootFirst := rootFirst + [cur.elem];
      if c < 0 {
        cur := cur.left;
      } else if c > 0 {
        cur := cur.right;
      } else {
        break;
      }
    }
    trueSuperiors := ReversedCopy(superiors, index);
  }

  /** The second half of `path`: copies the first `index` recorded elements into
      an array of exactly that length, last recorded first. */
  method ReversedCopy(superiors: array<Elem>, index: nat) returns (trueSuperiors: seq<Elem>)
    requires index <= superiors.Length
    ensures trueSuperiors == Reverse(superiors[..index])
  {
    var result := new Elem[index];
    var newSize := index;
    var top := index;
    var i := 0;
    while i < newSize
      invariant 0 <= i <= newSize && top == newSize - i
      invariant forall j :: 0 <= j < i ==> result[j] == superiors[newSize - 1 - j]
    {
      top := top - 1;
      result[i] := superiors[top];
      i := i + 1;
    }
    trueSuperiors := result[..];
  }
}
