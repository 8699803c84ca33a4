# AVL family tree — a Dafny model

This project models the engine of a small "family" program: an AVL tree of
members, each a name plus a weight that orders them. The tree keeps three
invariants: search order by weight, a cached height at every node, and AVL
balance. On top of the usual `insert` and `remove` it answers five queries:

- `leave`: who would take a member's place if it were removed;
- `path`: the members visited on the way down to a member, deepest first;
- `rank`: how many steps that descent takes, which is the member's depth;
- `sameRank`: the members at the same depth, listed in post-order;
- `target`: the lowest common superior of two members.

It also computes `findMaxIndependentNodes`: the largest number of members no
two of which are parent and child.

The model is functional. `Trees.Tree = Leaf | Node(elem, left, right, height)`
mirrors the source's `AvlNode`, with its cached `height` field. An element is
`Elem(name, key)`, and `Compare` looks only at the key. Every mutating method
of the source becomes a function that returns the new subtree. The public
class, which keeps a `root` field and overwrites it after every call, becomes
the caller replacing its tree with the result (`Lifecycle.InsertAll`,
`Lifecycle.RemoveAll`). Two side effects become returned values:

- the "X welcomed Y" lines that `insert` writes become `Insertion.Inserted.log`;
- the members that `sameRank` writes become the sequence `SameRank.SameRankOf`.

Modules follow the source's structure:

| file | module | what it holds |
|---|---|---|
| element.dfy | Elements | `Elem`, `Compare`, `Option` |
| tree.dfy | Trees | `Tree`, the invariants `Ordered`, `HeightsOk`, `Balanced`, `Valid` |
| rotation.dfy | Rotations | the four rotations, `Balance` |
| search.dfy | Search | `Path` (and its array version `PathArray`), `Rank`, `Lookup` |
| insertion.dfy | Insertion | `Insert` with its welcome log |
| removal.dfy | Removal | `FindMin`, `Remove`, `Splice` |
| leave.dfy | Leaving | `Leave` |
| same_rank.dfy | SameRank | `SameRankOf` and the depth listing `AtDepth` |
| target.dfy | Target | `TargetOf`, `FirstShared` |
| independent.dfy | Independence | `FindMaxIndependentNodes`, `CountsOf` |
| lifecycle.dfy | Lifecycle | sequences of inserts and removes on one root |

Behaviour follows the Java code. In four places the code does something
other than its textual description, and the model follows the code:

- `path` returns the visited members deepest first. Index 0 is the matched
  or last-visited member, and the root comes last (AvlTree.java:306-310).
  It is not root first.
- For an absent key, `rank` counts the final step off the tree as well. It
  equals the path length, one more than the depth of the last member
  visited (AvlTree.java:338-356).
- After inserting 10, 5, 15, 3 and 7, the member 7 is two steps below the
  root. Its path is `[7, 5, 10]` and its rank is 2.
- `findMaxIndependentNodes` counts sets with no parent–child pair. A comment
  calls them sets where no member is "superior or inferior" to another, which
  would mean no ancestor–descendant pair at all. These counts differ: on the
  full tree with seven nodes the code gives 5 (the root and the four leaves),
  while the largest ancestor-free set has 4 nodes. The model proves what the
  code computes.

## Model

| member | source | states |
|---|---|---|
| Elements.Compare | Node.java:37-42 | the comparison is negative, zero or positive exactly as the first key is smaller than, equal to or larger than the second; names are ignored |
| Elements.CompareAntisymmetric | Node.java:38-42 | swapping the operands negates the result, and elements with equal keys compare alike whatever their names |
| Trees.CachedHeightIsReal | AvlTree.java:163-166 | with correct cached heights, `height` equals the height recomputed from the shape, is -1 exactly for the empty tree, and is below the node count |
| Rotations.RotateWithLeftChild | AvlTree.java:174-182 | the left child becomes the root and the old root its right child; the in-order sequence, the elements and the search order are kept; the heights it writes are correct when the subtrees' heights are |
| Rotations.RotateWithRightChild | AvlTree.java:190-198 | the mirror image: the right child becomes the root, with in-order sequence, elements, order and heights kept |
| Rotations.DoubleWithLeftChild | AvlTree.java:207-211 | the inner grandchild on the left becomes the root; in-order sequence, elements, order and heights kept |
| Rotations.DoubleWithRightChild | AvlTree.java:220-224 | the inner grandchild on the right becomes the root; in-order sequence, elements, order and heights kept |
| Rotations.Balance | AvlTree.java:94-114 | `balance` yields correct heights whenever the children's heights are correct; it keeps the in-order sequence, elements, keys and search order; it returns empty only for the empty tree |
| Rotations.BalanceKeepsBalancedNode | AvlTree.java:94-114 | on a node that is already balanced with correct heights, `balance` returns it unchanged |
| Rotations.RotateWithLeftChildBalances | AvlTree.java:100-102 | when the left child is two levels taller and heavy on its outside, the single rotation is AVL-balanced and its height is the left child's height or one more |
| Rotations.RotateWithRightChildBalances | AvlTree.java:106-108 | the mirror case for a right-heavy node |
| Rotations.DoubleWithLeftChildBalances | AvlTree.java:100-104 | when the left child is two levels taller and heavy on its inside, the double rotation is AVL-balanced with exactly the left child's height |
| Rotations.DoubleWithRightChildBalances | AvlTree.java:106-110 | the mirror case for a right-heavy node |
| Rotations.BalanceRestoresAvl | AvlTree.java:94-114 | at a node whose children are balanced and differ in height by at most two, `balance` restores AVL balance; the new height is the taller child's height or one more, and exactly one more when no rotation is needed |
| Search.LookupFindsStoredKey | AvlTree.java:299-305 | in an ordered tree the descent stops at a node exactly when the key is stored, and that node holds the key |
| Search.PathShape | AvlTree.java:295-311 | every path entry is a stored member; the path is empty only for the empty tree; entry 0 is the matched node when there is one; the last entry is the root |
| Search.PathFitsHeight | AvlTree.java:296-301 | with correct cached heights the path has at most `height(root) + 1` entries |
| Search.PathArray | AvlTree.java:295-312 | the array algorithm returns exactly the deepest-first path; its writes stay inside the array sized `height(root) + 1` |
| Search.ReversedCopy | AvlTree.java:306-311 | the copy loop returns the recorded prefix in reverse order |
| Search.RankIsPathLength | AvlTree.java:338-356 | rank is the path length minus one when the descent meets the key, and the path length when it falls off the tree |
| Search.RankOfStoredKey | AvlTree.java:338-356 | in an ordered tree: rank is the path length minus one for a stored key and the path length for an absent one; rank is 0 on the empty tree and at the root's key |
| Insertion.Insert | AvlTree.java:124-141 | insertion yields correct cached heights and a non-empty tree that holds `x`'s key and no element other than the old ones and `x` |
| Insertion.InsertKeepsValid | AvlTree.java:124-141 | on a valid tree, insertion keeps search order, correct heights and AVL balance; the keys become the old keys plus `x`'s; the height grows by at most one |
| Insertion.InsertAddsNewElem | AvlTree.java:125-126 | when the descent falls off the tree, exactly the element `x` is added |
| Insertion.InsertDuplicateIsNoop | AvlTree.java:138-140 | when the descent meets `x`'s key in a balanced tree, the tree is returned unchanged |
| Insertion.InsertContents | AvlTree.java:124-141 | in a valid tree, a new key adds exactly `x`; a key already present, under any name, leaves the tree unchanged |
| Insertion.InsertLogFollowsPath | AvlTree.java:128-137 | the log has one welcome per descent step, so its length is `rank(x)` before insertion; entry `i` is (the `i`-th path member from the root, `x`); no welcome comes from a node with `x`'s key |
| Removal.FindMin | AvlTree.java:148-156 | `findMin` is absent only for the empty tree; otherwise it returns a stored member, and it is the first member in order |
| Removal.FindMinIsSmallest | AvlTree.java:148-156 | in an ordered tree the element `findMin` returns has the smallest key |
| Removal.Remove | AvlTree.java:38-55 | removal yields correct cached heights and adds no element |
| Removal.Splice | AvlTree.java:47-53 | what replaces a removed node has children with correct heights and holds only elements from the node's subtrees |
| Removal.RemoveKeepsValid | AvlTree.java:38-55 | on a valid tree, removal keeps search order, correct heights and AVL balance; the keys become the old keys minus `x`'s; the height drops by at most one |
| Removal.RemoveBelowLeft | AvlTree.java:43-44 | descending left keeps these properties once the left subtree has them |
| Removal.RemoveBelowRight | AvlTree.java:45-46 | descending right keeps these properties once the right subtree has them |
| Removal.RemoveWithTwoChildren | AvlTree.java:47-51 | the node with two children takes its right subtree's minimum, which is removed from that subtree, and the result keeps these properties |
| Removal.RemoveWithOneChildAtMost | AvlTree.java:52-53 | a node with at most one child is replaced by that child or by nothing, and the result keeps these properties |
| Removal.ShrinkStep | AvlTree.java:54 | after a child loses at most one level, `balance` gives a valid tree at most one level lower than before |
| Removal.RemoveContents | AvlTree.java:38-55 | in a valid tree, removal takes out exactly the element stored under `x`'s key, whatever its name, and keeps every other element |
| Removal.RemoveAbsentIsNoop | AvlTree.java:39-40 | when the descent falls off a balanced tree, removal returns it unchanged |
| Removal.RemoveAbsentKey | AvlTree.java:39-40 | in a valid tree, removing an absent key changes nothing |
| Leaving.LeaveAgreesWithRemove | AvlTree.java:262-287 | `leave` reports not-found exactly when the descent misses; otherwise it reports nobody or a name exactly as the subtree that `remove` puts in the found node's place is empty or rooted at that member |
| Leaving.LeaveNamesASurvivor | AvlTree.java:262-287 | in a valid tree, not-found means the key is absent, and a reported name belongs to a member still present after `remove` |
| SameRank.AtDepthIsRank | AvlTree.java:338-356 | in an ordered tree, the members at depth `d` are exactly the stored members whose rank is `d` |
| SameRank.SameRankInIsAtDepth | AvlTree.java:365-375 | the post-order walk over a subtree `k` levels below the root lists that subtree's members at depth `rank(x) - k` |
| SameRank.SameRankListsEqualRanks | AvlTree.java:365-375 | `sameRank` outputs the members at `x`'s rank in post-order: a member appears exactly when its own rank equals `rank(x)` |
| Target.FirstShared | AvlTree.java:323-329 | the nested scan finds nothing exactly when no entry of the first path occurs in the second; otherwise it returns an entry of the first path that occurs in the second |
| Target.FirstSharedIsFirst | AvlTree.java:323-329 | when entry `i` is the first entry of the first path that occurs in the second, the scan returns entry `i` |
| Target.FirstSharedIndex | AvlTree.java:323-329 | the scan's result is an entry of the first path, and no earlier entry occurs in the second path |
| Target.TargetIsLowestCommonAncestor | AvlTree.java:320-330 | for two stored keys, `target` returns a member on both paths whose key lies between the two keys, and every member on both paths is on the path to it, so it is their lowest common ancestor |
| Target.SameSideStep | AvlTree.java:320-330 | when both keys lie on one side of the root, the answer in that subtree stays the answer |
| Target.SplitStep | AvlTree.java:320-330 | when the keys are on different sides of the root, or one of them is the root's, the answer is the root |
| Independence.CountsOf | AvlTree.java:401-413 | both counts are at most the node count, and choosing a node's root counts at least one |
| Independence.FindMaxIndependentNodes | AvlTree.java:390-393 | the answer is 0 for the empty tree, 1 for a single node, at least 1 for a non-empty tree, and at most the node count |
| Independence.CountsAreUpperBounds | AvlTree.java:401-413 | no set of nodes without a parent–child pair is larger than the count for its case (root chosen or not) |
| Independence.BestMarking | AvlTree.java:401-413 | for each case there is a set of nodes without a parent–child pair whose size equals the count |
| Independence.MaxIndependentIsAttained | AvlTree.java:386-393 | the answer is attained: one set of nodes without a parent–child pair has exactly that many nodes |
| Independence.MaxIndependentIsUpperBound | AvlTree.java:386-393 | the answer is never exceeded: every set of nodes without a parent–child pair has at most that many nodes |
| Independence.CountsDependOnShapeOnly | AvlTree.java:401-413 | two trees of the same shape get the same counts and answer, whatever their members and cached heights |
| Lifecycle.InsertAll | AvlTree.java:18-20 | repeated insertion keeps cached heights correct |
| Lifecycle.RemoveAll | AvlTree.java:27-29 | repeated removal keeps cached heights correct |
| Lifecycle.InsertAllKeys | AvlTree.java:18-20 | inserting a sequence into a valid tree keeps it valid and adds exactly the sequence's keys |
| Lifecycle.RemoveAllKeys | AvlTree.java:27-29 | removing a sequence from a valid tree keeps it valid and takes out exactly the sequence's keys |
| Lifecycle.InsertThenRemoveAllIsEmpty | AvlTree.java:18-29 | inserting members into the empty tree and then removing, in any order, members whose keys cover theirs leaves the empty tree |

## Left out

- The command dispatcher `Main.java`: reading the command file, splitting lines, parsing weights with `Float.parseFloat`, formatting output with `%.3f`, and printing `target`'s result. When `target` returns null that last step dereferences it (Main.java:87). All of this is input/output plumbing around the engine.
- Floating-point weights: keys are unbounded integers. The float comparison in `Node.compareTo` is not a total order on NaN, and the model does not reproduce that.
- The output text: the model does not build the "X welcomed Y" lines or the name and weight that `sameRank` prints. It returns the events and the members as sequences instead of writing them to a file, so write failures (`IOException`) are not modelled.
- `leave`'s string results "nobody" and null: they become the `Replacement` datatype, so a member actually named "nobody" cannot be confused with the sentinel.
- Java reference equality in `target`: entries are matched by key instead. In a search-ordered tree each key belongs to one node, so matching by key picks the same node.
- In-place mutation and aliasing of `AvlNode` objects: nodes are immutable values, and each operation returns the new subtree.
- Java `int` overflow of heights and ranks: not modelled. Both are bounded by the node count.
- The getters, the default constructor of `Node` and the empty `AvlTree` constructor: they are trivial.
- Whether the independent-set count never decreases as members are added: not modelled. Rotations change the tree's shape, and the count depends on the shape.
