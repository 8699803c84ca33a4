/** `findMaxIndependentNodes`: the largest number of members no two of which are
    parent and child, computed bottom-up from the tree's shape alone. */
module Independence {
  import opened Elements
  import opened Trees

  /** Best counts for a subtree: with its root chosen, and without it. */
  datatype Counts = Counts(withRoot: nat, withoutRoot: nat)

  /** The post-order recursion: choosing the root excludes both children's
      roots; leaving it out lets each child take its better count. */
  function CountsOf(t: Tree): (p: Counts)
    ensures p.withRoot <= Size(t) && p.withoutRoot <= Size(t)
    ensures t.Node? ==> p.withRoot >= 1
  {
    match t
    case Leaf => Counts(0, 0)
    case Node(_, l, r, _) =>
      var left := CountsOf(l);
      var right := CountsOf(r);
      var withoutCurrent := Max(left.withRoot, left.withoutRoot) + Max(right.withRoot, right.withoutRoot);
      var withCurrent := 1 + left.withoutRoot + right.withoutRoot;
      Counts(withCurrent, withoutCurrent)
  }

  /** The answer: the better of the root's two counts. */
  function FindMaxIndependentNodes(t: Tree): (n: nat)
    ensures n <= Size(t)
    ensures t.Leaf? ==> n == 0
    ensures t.Node? ==> n >= 1
    ensures t.Node? && t.left.Leaf? && t.right.Leaf? ==> n == 1
  {
    var p := CountsOf(t);
    Max(p.withRoot, p.withoutRoot)
  }

  /** A choice of nodes laid over a tree of the same shape. */
  datatype Marking = Blank | Mark(chosen: bool, left: Marking, right: Marking)

  /** `m` has the shape of `t`. */
  predicate Fits(m: Marking, t: Tree) {
    match t
    case Leaf => m.Blank?
    case Node(_, l, r, _) => m.Mark? && Fits(m.left, l) && Fits(m.right, r)
  }

  function RootChosen(m: Marking): bool {
    m.Mark? && m.chosen
  }

  /** No chosen node has a chosen child. */
  predicate Independent(m: Marking) {
    match m
    case Blank => true
    case Mark(c, l, r) =>
      && Independent(l) && Independent(r)
      && (c ==> !RootChosen(l) && !RootChosen(r))
  }

  function Chosen(m: Marking): nat {
    match m
    case Blank => 0
    case Mark(c, l, r) => (if c then 1 else 0) + Chosen(l) + Chosen(r)
  }

  /** The tree's shape with its elements and cached heights forgotten. */
  datatype Shape = Empty | Fork(left: Shape, right: Shape)

  function ShapeOf(t: Tree): Shape {
    match t
    case Leaf => Empty
    case Node(_, l, r, _) => Fork(ShapeOf(l), ShapeOf(r))
  }

  /** No independent choice beats the counts: with the root chosen it holds at
      most `withRoot` nodes, without it at most `withoutRoot`. */
  lemma {:induction false} CountsAreUpperBounds(t: Tree, m: Marking)
    requires Fits(m, t) && Independent(m)
    ensures RootChosen(m) ==> Chosen(m) <= CountsOf(t).withRoot
    ensures !RootChosen(m) ==> Chosen(m) <= CountsOf(t).withoutRoot
  {
    match t
    case Leaf =>
    case Node(_, l, r, _) =>
      CountsAreUpperBounds(l, m.left);
      CountsAreUpperBounds(r, m.right);
  }

  /** A choice that attains the count: `rooted` says whether the root is taken. */
  function BestMarking(t: Tree, rooted: bool): (m: Marking)
    ensures Fits(m, t) && Independent(m)
    ensures t.Node? ==> RootChosen(m) == rooted
    ensures Chosen(m) == if rooted then CountsOf(t).withRoot else CountsOf(t).withoutRoot
  {
    match t
    case Leaf => Blank
    case Node(_, l, r, _) =>
      if rooted then Mark(true, BestMarking(l, false), BestMarking(r, false))
      else
        var pl, pr := CountsOf(l), CountsOf(r);
        Mark(false, BestMarking(l, pl.withRoot >= pl.withoutRoot), BestMarking(r, pr.withRoot >= pr.withoutRoot))
  }

  /** The answer is attained: some set of nodes with no parent-child pair has
      exactly that many nodes. */
  lemma MaxIndependentIsAttained(t: Tree)
    ensures var best := BestMarking(t, CountsOf(t).withRoot >= CountsOf(t).withoutRoot);
      Fits(best, t) && Independent(best) && Chosen(best) == FindMaxIndependentNodes(t)
  {
  }

  /** The answer is not exceeded: no set of nodes with no parent-child pair has
      more nodes. */
  lemma {:induction false} MaxIndependentIsUpperBound(t: Tree, m: Marking)
    requires Fits(m, t) && Independent(m)
    ensures Chosen(m) <= FindMaxIndependentNodes(t)
  {
    CountsAreUpperBounds(t, m);
  }

  /** The answer depends only on the shape: names, keys and cached heights play no part. */
  lemma {:induction false} CountsDependOnShapeOnly(t: Tree, u: Tree)
    requires ShapeOf(t) == ShapeOf(u)
    ensures CountsOf(t) == CountsOf(u)
    ensures FindMaxIndependentNodes(t) == FindMaxIndependentNodes(u)
  {
    match t
    case Leaf =>
    case Node(_, l, r, _) =>
      CountsDependOnShapeOnly(l, u.left);
      CountsDependOnShapeOnly(r, u.right);
  }
}
