/** The tree's public face: a root that starts empty and is replaced by the
    result of each `insert` or `remove`. Sequences of such calls keep the
    invariants and account for every key. */
module Lifecycle {
  import opened Elements
  import opened Trees
  import opened Insertion
  import opened Removal

  /** The keys of a sequence of members. */
  function KeysOf(xs: seq<Elem>): set<int> {
    set i | 0 <= i < |xs| :: xs[i].key
  }

  /** Calls `insert` with each member in turn, starting from the root `t`. */
  function InsertAll(t: Tree, xs: seq<Elem>): (r: Tree)
    requires HeightsOk(t)
    ensures HeightsOk(r)
    decreases |xs|
  {
    if |xs| == 0 then t else InsertAll(Insert(xs[0], t).tree, xs[1..])
  }

  /** Calls `remove` with each member in turn, starting from the root `t`. */
  function RemoveAll(t: Tree, ys: seq<Elem>): (r: Tree)
    requires HeightsOk(t)
    ensures HeightsOk(r)
    decreases |ys|
  {
    if |ys| == 0 then t else RemoveAll(Remove(ys[0], t), ys[1..])
  }

  lemma KeysOfSplit(xs: seq<Elem>)
    requires |xs| > 0
    ensures KeysOf(xs) == {xs[0].key} + KeysOf(xs[1..])
  {
    forall k | k in KeysOf(xs) ensures k in {xs[0].key} + KeysOf(xs[1..]) {
      var i :| 0 <= i < |xs| && xs[i].key == k;
      if i > 0 {
        assert xs[1..][i - 1] == xs[i];
      }
    }
    forall k | k in KeysOf(xs[1..]) ensures k in KeysOf(xs) {
      var i :| 0 <= i < |xs[1..]| && xs[1..][i].key == k;
      assert xs[i + 1] == xs[1..][i];
    }
  }

  /** Inserting a sequence keeps the tree valid and adds exactly its keys. */
  lemma {:induction false} InsertAllKeys(t: Tree, xs: seq<Elem>)
    requires Valid(t)
    ensures Valid(InsertAll(t, xs))
    ensures Keys(InsertAll(t, xs)) == Keys(t) + KeysOf(xs)
    decreases |xs|
  {
    if |xs| > 0 {
      InsertKeepsValid(xs[0], t);
      InsertAllKeys(Insert(xs[0], t).tree, xs[1..]);
      KeysOfSplit(xs);
    }
  }

  /** Removing a sequence keeps the tree valid and takes out exactly its keys. */
  lemma {:induction false} RemoveAllKeys(t: Tree, ys: seq<Elem>)
    requires Valid(t)
    ensures Valid(RemoveAll(t, ys))
    ensures Keys(RemoveAll(t, ys)) == Keys(t) - KeysOf(ys)
    decreases |ys|
  {
    if |ys| > 0 {
      RemoveKeepsValid(ys[0], t);
      RemoveAllKeys(Remove(ys[0], t), ys[1..]);
      KeysOfSplit(ys);
    }
  }

  /** Inserting members and then removing members whose keys cover them, in
      any order, leaves the empty tree. */
  lemma InsertThenRemoveAllIsEmpty(xs: seq<Elem>, ys: seq<Elem>)
    requires KeysOf(xs) <= KeysOf(ys)
    ensures RemoveAll(InsertAll(Leaf, xs), ys) == Leaf
  {
    InsertAllKeys(Leaf, xs);
    RemoveAllKeys(InsertAll(Leaf, xs), ys);
  }
}
