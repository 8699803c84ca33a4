/** `insert`: the AVL insertion, which ignores a duplicate key and reports a
    "welcomed" event for every node it passes on the way down. */
module Insertion {
  import opened Elements
  import opened Trees
  import opened Rotations
  import opened Search

  /** One line of the insertion log: `host` welcomed the newcomer `guest`. */
  datatype Welcome = Welcome(host: Elem, guest: Elem)

  /** The new root together with the events logged on the way down, root first. */
  datatype Inserted = Inserted(tree: Tree, log: seq<Welcome>)

  /** Inserts `x` below `t`: an empty subtree becomes a fresh leaf; at a node
      with a different key the node logs a welcome and the insertion goes on
      into the matching child; at a node with the same key nothing is inserted.
      Every node on the way back up is rebalanced. */
  function Insert(x: Elem, t: Tree): (r: Inserted)
    requires HeightsOk(t)
    ensures HeightsOk(r.tree)
    ensures r.tree.Node?
    ensures Elems(r.tree) <= Elems(t) + {x}
    ensures x.key in Keys(r.tree)
  {
    match t
    case Leaf => Inserted(Node(x, Leaf, Leaf, 0), [])
    case Node(e, l, rt, h) =>
      var c := Compare(x, e);
      if c < 0 then
        var sub := Insert(x, l);
        Inserted(Balance(Node(e, sub.tree, rt, h)), [Welcome(e, x)] + sub.log)
      else if c > 0 then
        var sub := Insert(x, rt);
        Inserted(Balance(Node(e, l, sub.tree, h)), [Welcome(e, x)] + sub.log)
      else
        Inserted(Balance(t), [])
  }

  /** Insertion keeps search order, cached heights and AVL balance; it adds
      `x`'s key and nothing else; and the height grows by at most one. */
  lemma {:induction false} InsertKeepsValid(x: Elem, t: Tree)
    requires Valid(t)
    ensures Valid(Insert(x, t).tree)
    ensures Keys(Insert(x, t).tree) == Keys(t) + {x.key}
    ensures Height(t) <= Height(Insert(x, t).tree) <= Height(t) + 1
  {
    match t
    case Leaf =>
    case Node(e, l, rt, h) =>
      var c := Compare(x, e);
      if c < 0 {
        InsertKeepsValid(x, l);
        var n := Node(e, Insert(x, l).tree, rt, h);
        BalanceRestoresAvl(n);
        assert Ordered(n);
      } else if c > 0 {
        InsertKeepsValid(x, rt);
        var n := Node(e, l, Insert(x, rt).tree, h);
        BalanceRestoresAvl(n);
        assert Ordered(n);
      } else {
        BalanceKeepsBalancedNode(t);
      }
  }

  /** When the descent falls off the tree, the insertion adds exactly `x`. */
  lemma {:induction false} InsertAddsNewElem(x: Elem, t: Tree)
    requires HeightsOk(t) && Lookup(x, t).Leaf?
    ensures Elems(Insert(x, t).tree) == Elems(t) + {x}
  {
    match t
    case Leaf =>
    case Node(e, l, rt, h) =>
      var c := Compare(x, e);
      if c < 0 {
        InsertAddsNewElem(x, l);
      } else if c > 0 {
        InsertAddsNewElem(x, rt);
      }
  }

  /** When the descent meets `x`'s key in a balanced tree, the tree comes back
      exactly as it was. */
  lemma {:induction false} InsertDuplicateIsNoop(x: Elem, t: Tree)
    requires HeightsOk(t) && Balanced(t) && Lookup(x, t).Node?
    ensures Insert(x, t).tree == t
  {
    match t
    case Node(e, l, rt, h) =>
      var c := Compare(x, e);
      if c < 0 {
        InsertDuplicateIsNoop(x, l);
      } else if c > 0 {
        InsertDuplicateIsNoop(x, rt);
      }
      BalanceKeepsBalancedNode(t);
  }

  /** In a valid tree: a new key adds exactly the element `x`; a key already
      present, under whatever name, leaves the tree exactly as it was. */
  lemma {:induction false} InsertContents(x: Elem, t: Tree)
    requires Valid(t)
    ensures x.key !in Keys(t) ==> Elems(Insert(x, t).tree) == Elems(t) + {x}
    ensures x.key in Keys(t) ==> Insert(x, t).tree == t
  {
    LookupFindsStoredKey(x, t);
    if x.key in Keys(t) {
      InsertDuplicateIsNoop(x, t);
    } else {
      InsertAddsNewElem(x, t);
    }
  }

  /** The log holds one welcome per step of the descent, so its length is the
      rank of `x` before insertion, and entry `i` is logged by the node `i`
      steps below the root, which is entry `i` of the path read from its root
      end. A duplicate is not welcomed by its own key's node. */
  lemma {:induction false} InsertLogFollowsPath(x: Elem, t: Tree)
    requires HeightsOk(t)
    ensures |Insert(x, t).log| == Rank(x, t) <= |Path(x, t)|
    ensures LogFollows(Insert(x, t).log, Path(x, t), x)
  {
    match t
    case Leaf =>
    case Node(e, l, rt, h) =>
      var c := Compare(x, e);
      if c < 0 {
        InsertLogFollowsPath(x, l);
        LogStep(Insert(x, l).log, Path(x, l), e, x);
      } else if c > 0 {
        InsertLogFollowsPath(x, rt);
        LogStep(Insert(x, rt).log, Path(x, rt), e, x);
      }
  }

  /** Entry `i` of `log` welcomes `x` on behalf of entry `i` of `path` counted
      from its root end. */
  ghost predicate LogFollows(log: seq<Welcome>, path: seq<Elem>, x: Elem) {
    && |log| <= |path|
    && forall i :: 0 <= i < |log| ==> log[i] == Welcome(path[|path| - 1 - i], x)
  }

  /** One more level above: the new root's welcome comes first in the log and its
      element last on the path. */
  lemma LogStep(log: seq<Welcome>, path: seq<Elem>, e: Elem, x: Elem)
    requires LogFollows(log, path, x)
    ensures LogFollows([Welcome(e, x)] + log, path + [e], x)
  {
    var log', path' := [Welcome(e, x)] + log, path + [e];
    forall i | 0 <= i < |log'| ensures log'[i] == Welcome(path'[|path'| - 1 - i], x) {
      if i > 0 {
        assert log'[i] == log[i - 1];
        assert path'[|path'| - 1 - i] == path[|path| - 1 - (i - 1)];
      }
    }
  }
}
