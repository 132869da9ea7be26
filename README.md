# bbtree in Dafny

The Go package `bbtree` is an in-memory ordered map. It is a self-balancing
binary search tree: a binary encoding of a 2-3 tree, like a left-leaning
red-black tree mirrored to lean right, with the colours named "blue" and
"black". Each vertex records the colour of the link from its parent. A blue
link glues the vertex to its parent into one 3-node; a black link is a true
binary split. Every vertex also records the size of its subtree, so that
rank, select and range counting take time logarithmic in the size.

This project models the package's core and proves properties of it:

- `node.go`, the vertex and its nil-safe accessors: module `Nodes` (`node.dfy`).
- `bbtree.go`, split by layer:
  - the rotations, the colour flip, `fixUp` and the two borrow operations
    (`Restructure`);
  - the recursive mutators `put`, `removeMax`, `removeMin` and `remove`
    (`Mutators`);
  - the read-only traversals `find`, `min`, `max`, `rank`, `selector` and
    `Count` (`Queries`);
  - the two traversals that append to a slice, `rangeSearch` and `inOrder`
    (`Walks`);
  - the locked public facade `BBTree` (`BBTrees`).

The abstract meaning of a subtree is its in-order walk, a sequence of
`Entry(key, value)` pairs (`Nodes.InOrder`). `Entries` defines what each map
operation must do to such a sequence:

- `Insert` replaces or adds the entry of the key, keeping key order;
- `Delete` drops the entry of the key;
- `Lookup`, `Below`, `Between` and `Within` are the lookup and the filters
  the queries answer.

The shape invariants live in `Balance` and `DeleteShape`:

- `Balanced`: every path has the same number of black links;
- `TwoThree` and `TwoThreeRoot`: no vertex leans left with a blue left link,
  and there are no two blue links in a row;
- the descent conditions under which each deletion may visit a vertex.

`MutatorLaws` shows that each recursive mutator does the right thing to the
contents and keeps the shape. `BBTrees` combines these into one invariant,
`ValidRoot`, kept by every public mutation. It then states each method of the
`BBTree` class against `Contents()`, the ascending sequence of entries the tree
holds.

The facade's deletions are modelled with explicit guards:

- an empty tree, or a key that is absent, leaves the tree unchanged;
- the root is recoloured only when it is not empty.

The code as written has neither guard for `Remove`, and only the first for
`RemoveMax` and `RemoveMin` (bbtree.go:179-181, 205-207). So `Remove` crashes on
an empty tree or an absent key, and each of the three deletions crashes when it
removes the last entry. Module `AsWritten` (`as_written.dfy`) models the
deletions exactly as they are written: each read through a nil link becomes
`None` in the model. It then shows which inputs reach those reads (see
"## Findings"). The guarded `Remove` follows its doc comment (bbtree.go:229,
"if it exists"). The model follows the code in `AsWritten` and the documented
behaviour in `BBTree`.

Go's routines overwrite node fields in place and return the new subtree root.
The model computes the same new root as an immutable value: each routine is a
function from the old subtree to the new one. The facade is a class whose
methods assign the `root` field.

## Model

| member | source | states |
|---|---|---|
| Nodes.SizeCounts | node.go:30-35 | where every recorded size is right, `size` of a link is the number of entries below it (0 for nil) |
| Nodes.NewNodeIsSingleton | node.go:37-39 | a new node holds exactly its one entry, has size 1, its sizes are consistent and it enters by a blue link |
| Nodes.MoreTrichotomy | node.go:26-28 | for two present nodes exactly one of `a.more(b)`, `b.more(a)` and equal keys holds |
| Nodes.OrderedNode | node.go:14-20 | a vertex is a search tree iff both subtrees are and its key lies strictly between their keys |
| Restructure.RotateRight | bbtree.go:30-43 | a right rotation of a vertex with a left child keeps the in-order contents and yields a vertex with a right child |
| Restructure.RotateRightFacts | bbtree.go:30-43 | the promoted child takes the old root's size and link colour, and the demoted root becomes its blue right child. Sizes stay correct: in both new children when they were in the old children, and in the whole subtree when they were in the old one |
| Restructure.RotateLeft | bbtree.go:45-57 | a left rotation keeps the in-order contents and yields a vertex with a left child |
| Restructure.RotateLeftFacts | bbtree.go:45-57 | the promoted child takes the old root's size and colour, and the demoted root becomes its blue left child. Sizes stay correct: in both new children when they were in the old children, and in the whole subtree when they were in the old one |
| Restructure.FlipColors | bbtree.go:59-63 | the flip needs both children present (otherwise nil is read) and keeps the in-order contents |
| Restructure.FlipColorsTogglesThree | bbtree.go:59-63 | the flip toggles exactly the link colours of the vertex and of its two children; keys, values, sizes, shape and all deeper colours are unchanged |
| Restructure.FlipColorsInvolution | bbtree.go:59-63 | flipping twice restores the subtree |
| Restructure.FixUp | bbtree.go:67-81 | the repair keeps the in-order contents, makes the root's size the sum of its children's plus one, and keeps every size correct when the children's are |
| Restructure.MoveBlueRight | bbtree.go:83-92 | the right borrow needs both children, keeps contents and sizes, and leaves a right child to descend into |
| Restructure.MoveBlueLeft | bbtree.go:94-102 | the left borrow needs both children, keeps contents and sizes, and leaves a left child to descend into |
| Balance.Recolour | bbtree.go:116 | recolouring the root link changes neither balance nor 2-3 form, and a black root over a 2-3 tree is a proper 2-3 subtree |
| Balance.HeightByBlackLinks | bbtree.go:65-81 | in a balanced 2-3 subtree no path is longer than twice its black links, plus one for a blue link into the subtree |
| Balance.SizeByBlackLinks | node.go:30-35 | a balanced subtree with `b` black links on every path holds at least `2^b - 1` entries |
| Balance.FixUpAfterInsertRight | bbtree.go:124-132 | after `put` into the right subtree, `fixUp` returns a balanced tree of unchanged black height whose only possible flaw is at its top, and only when the vertex was itself blue |
| Balance.SplitFourNode | bbtree.go:71-77 | a temporary 4-node made by an insertion on the right is rotated and split by the flip into a valid subtree of the same black height |
| Balance.FixUpAfterInsertLeft | bbtree.go:126-132 | the same for `put` into the left subtree |
| DeleteShape.EmptySibling | bbtree.go:188-189 | in a balanced vertex a missing child on one side means no black child on the other, so returning nil drops only the vertex |
| DeleteShape.MoveRightSafe | bbtree.go:192-193 | at a vertex `removeMax` visits, a borrow is only ever asked for where the left child exists |
| DeleteShape.MaxStep | bbtree.go:192-194 | after the optional right borrow, the right child is a valid `removeMax` vertex inside a 3-node, and the vertex keeps its black height and colour or is the flipped 3-node |
| DeleteShape.MaxStepDescends | bbtree.go:192-195 | after the optional right borrow, the contents are unchanged and the right child can be descended into |
| DeleteShape.LeanLeft | bbtree.go:213-215 | the initial left rotation keeps the contents, sizes, black height and descent conditions, and removes any blue right link |
| DeleteShape.LeftStepSafe | bbtree.go:217-222 | when the left child is nil so is the right, and the left borrow only happens where a right child exists |
| DeleteShape.MinStep | bbtree.go:221-223 | after the optional left borrow, the left child is a valid descent vertex inside a 3-node, and the key the routine keeps is the vertex's or its right child's |
| DeleteShape.FixUpRight | bbtree.go:195-197 | `fixUp` over a repaired right subtree is a repaired subtree: balanced, 2-3, and of the same height and colour where the vertex was part of a 3-node |
| DeleteShape.FixUpLeft | bbtree.go:224-226 | the same over a repaired left subtree |
| Queries.FindIsLookup | bbtree.go:278-290 | on a search tree `find` returns exactly the entry stored for the key, or nothing when the key is absent |
| Queries.MinIsFirst | bbtree.go:166-172 | following the left spine reaches the first entry of the in-order walk |
| Queries.MaxIsLast | bbtree.go:147-152 | following the right spine reaches the last entry of the in-order walk |
| Queries.RankCountsBelow | bbtree.go:309-324 | `rank` is the number of stored keys strictly less than the key, present or not |
| Queries.SelectIsIndex | bbtree.go:335-350 | `selector(i)` returns the entry at 0-based position i of the in-order walk, and nothing when i is negative or not below the size |
| Queries.SelectOfRank | bbtree.go:302-350 | for a stored key, selecting its rank gives back the key's own entry |
| Queries.WithinByRanks | bbtree.go:363-366 | in an ascending sequence the number of keys in [low, high] is the rank of high minus the rank of low, plus one when high is present |
| Queries.CountIsWithin | bbtree.go:354-368 | `Count` is the number of stored keys in the inclusive range, and 0 for a range with low above high |
| Mutators.Put | bbtree.go:119-133 | `put` always returns a vertex, and keeps every recorded size correct |
| Mutators.RemoveMax | bbtree.go:187-198 | from a valid `removeMax` vertex, every recursive call is entered at a valid vertex (no nil is read), and sizes stay correct |
| Mutators.RemoveMin | bbtree.go:212-227 | the same for `removeMin` from a valid descent vertex |
| Mutators.Remove | bbtree.go:238-267 | the same for `remove` of a key the subtree holds, including the splice that takes over the left subtree's maximum |
| Mutators.RightStepSafe | bbtree.go:239-242 | descending right for a larger key never reads nil: the right child exists, and the left one does where a borrow is needed |
| Mutators.RightStepKeys | bbtree.go:239-243 | after the optional right borrow, the contents are unchanged and the key is still above the vertex and held by the right child |
| Mutators.LeftStepKeys | bbtree.go:246-258 | after the optional rotation and borrow, the contents are unchanged and the key is at most the vertex's. The "totality" branch only fires on the key itself, and the vertex's left subtree is then a valid `removeMax` vertex |
| MutatorLaws.PutContents | bbtree.go:119-133 | `put` turns the contents into `Insert(contents, k, v)` and keeps the search-tree order |
| MutatorLaws.PutShape | bbtree.go:119-133 | `put` keeps balance and black height, and breaks 2-3 form at most at the top link, only where that link is blue |
| MutatorLaws.RemoveMaxContents | bbtree.go:187-198 | `removeMax` drops exactly the last entry |
| MutatorLaws.RemoveMaxShape | bbtree.go:187-198 | `removeMax` returns a balanced 2-3 tree, of the same height when started inside a 3-node |
| MutatorLaws.RemoveMinContents | bbtree.go:212-227 | `removeMin` drops exactly the first entry |
| MutatorLaws.RemoveMinShape | bbtree.go:212-227 | `removeMin` returns a balanced 2-3 tree, of the same height when started inside a 3-node |
| MutatorLaws.RemoveContents | bbtree.go:238-267 | `remove` turns the contents into `Delete(contents, k)` |
| MutatorLaws.RemoveShape | bbtree.go:238-267 | `remove` returns a balanced 2-3 tree, of the same height when started inside a 3-node |
| MutatorLaws.DeletesHere | bbtree.go:255-263 | splicing in the left subtree's maximum, while that subtree drops its last entry, deletes exactly the vertex's own entry |
| MutatorLaws.DeletesOnly | bbtree.go:255-258 | returning nil for a lone vertex holding the key deletes its only entry |
| Walks.RangeSearch | bbtree.go:383-399 | the slice comes back extended by exactly the entries with low < key < high, in order; the pruned sides hold none of them |
| Walks.InOrderWalk | bbtree.go:418-425 | the slice comes back extended by all entries, in in-order order |
| Entries.InsertLookup | bbtree.go:104-105 | after an insert the key maps to the new value and every other key keeps its entry |
| Entries.InsertLength | bbtree.go:104-105 | an insert grows an ascending map by one exactly when the key was absent |
| Entries.InsertAscending | bbtree.go:104-105 | an insert keeps a map ascending |
| Entries.DeleteLookup | bbtree.go:229 | after a delete the key has no entry and every other key keeps its entry |
| Entries.DeleteLength | bbtree.go:229 | a delete shrinks an ascending map by one exactly when the key was present |
| Entries.DeleteAbsent | bbtree.go:229 | deleting an absent key leaves an ascending map unchanged |
| Entries.BetweenMeans | bbtree.go:370-371 | the open range of an ascending map is ascending and holds exactly the entries with low < key < high |
| BBTrees.PaintRoot | bbtree.go:116 | recolouring a non-empty root black keeps contents, sizes and shape, leaves an empty root empty, and never leaves a blue root |
| BBTrees.EmptyIsLeaf | bbtree.go:26-28 | a tree has no entries exactly when its root link is nil |
| BBTrees.RootDescends | bbtree.go:183 | a valid non-empty root is a vertex `removeMax` and `removeMin` may start from |
| BBTrees.RemoveEntry | bbtree.go:234 | a valid root holding the key is a vertex `remove` may start from |
| BBTrees.HeightIsLogarithmic | bbtree.go:65-81 | a valid tree with `b` black links on every path is at most `2 * b` high and holds at least `2^b - 1` entries, so its height is at most `2 * log2(size + 1)` |
| BBTrees.PutKeepsValid | bbtree.go:106-117 | `Put` keeps the tree ordered, sized, balanced, 2-3 and black-rooted, and its contents become `Insert(contents, k, v)` |
| BBTrees.RemoveMaxKeepsValid | bbtree.go:175-185 | on a non-empty tree `RemoveMax` keeps the invariant and drops the last entry |
| BBTrees.RemoveMinKeepsValid | bbtree.go:201-210 | on a non-empty tree `RemoveMin` keeps the invariant and drops the first entry |
| BBTrees.RemoveKeepsValid | bbtree.go:230-236 | for a present key `Remove` keeps the invariant and deletes the key |
| BBTrees.BBTree.constructor | bbtree.go:454-457 | `New` makes a valid, empty tree |
| BBTrees.BBTree.IsEmpty | bbtree.go:26-28 | true exactly when the tree holds no entries |
| BBTrees.BBTree.Put | bbtree.go:104-117 | keeps the invariant. The contents become `Insert(old, k, v)`: `k` maps to `v` and every other key is unchanged. The size grows by one exactly for a new key |
| BBTrees.BBTree.RemoveMax | bbtree.go:174-185 | keeps the invariant and drops the last entry; an empty tree stays empty |
| BBTrees.BBTree.RemoveMin | bbtree.go:200-210 | keeps the invariant and drops the first entry; an empty tree stays empty |
| BBTrees.BBTree.Remove | bbtree.go:229-236 | keeps the invariant. The contents become `Delete(old, k)`: `k` has no entry, every other key is unchanged, and the size shrinks by one exactly when `k` was present |
| BBTrees.BBTree.Find | bbtree.go:269-290 | the stored entry for the key, found exactly when the key is present |
| BBTrees.BBTree.Min | bbtree.go:154-172 | nothing on an empty tree, else the first entry, whose key is below every other key |
| BBTrees.BBTree.Max | bbtree.go:135-152 | nothing on an empty tree, else the last entry, whose key is above every other key |
| BBTrees.BBTree.Size | bbtree.go:292-298 | the number of entries |
| BBTrees.BBTree.Rank | bbtree.go:300-307 | the number of keys strictly less than the given key |
| BBTrees.BBTree.Select | bbtree.go:326-333 | the entry of 0-based rank i when 0 <= i < size, else nothing |
| BBTrees.BBTree.Count | bbtree.go:352-368 | the number of keys in the inclusive range, 0 when low is above high |
| BBTrees.BBTree.Range | bbtree.go:370-379 | exactly the entries with low < key < high, ascending |
| BBTrees.BBTree.InOrder | bbtree.go:403-416 | all entries, ascending |
| AsWritten.PaintRootAsWritten | bbtree.go:184 | the unguarded recolouring fails exactly on an empty root, and otherwise is the guarded one |
| AsWritten.RemoveMaxAtAgrees | bbtree.go:187-198 | the nil-checked `removeMax` never meets nil from a valid vertex and equals the model's |
| AsWritten.RemoveMinAtAgrees | bbtree.go:212-227 | the nil-checked `removeMin` never meets nil from a valid vertex and equals the model's |
| AsWritten.RemoveAtAgrees | bbtree.go:238-267 | the nil-checked `remove` never meets nil for a present key and equals the model's |
| AsWritten.RemoveAtAbsent | bbtree.go:238-267 | the nil-checked `remove` of an absent key always meets nil, on every ordered tree |
| AsWritten.RemoveMaxAsWrittenFails | bbtree.go:175-185 | the written `RemoveMax` fails exactly when it removes the last entry, and otherwise drops the last entry |
| AsWritten.RemoveMinAsWrittenFails | bbtree.go:201-210 | the written `RemoveMin` fails exactly when it removes the last entry, and otherwise drops the first entry |
| AsWritten.RemoveAsWrittenFails | bbtree.go:230-236 | the written `Remove` fails exactly when the key is absent (an empty tree included) or is the last entry, and otherwise deletes the key |
| AsWritten.LastRemovalFails | bbtree.go:230-240 | on a one-entry tree every written removal of its key fails, and so does `Remove` of a larger key; `Remove` on the empty tree fails too |

## Left out

- The mutex `mu` and the `Lock`/`Unlock` pairs in every public method: concurrency is not modelled; each method is one atomic step.
- `Print`, `printify` and the `String` methods of `Node` and `node`: output formatting only.
- Update in place: the routines overwrite node fields through pointers; the model builds the new subtree as a value. No node is shared between two places in a tree, and clients only ever get fresh `Node` copies, so no aliasing is lost.
- Put's panic on a nil value: `V` is a type parameter with no nil, so that panic cannot arise.
- The `Comparable` interface: keys are `int`, and `a.More(b)` is `a > b`. This assumes the client's `More` is a strict total order, which the code also assumes (the "totality" comment at bbtree.go:254). The concrete `Int` key type defined for the tests is not modelled.
- The test files `bbtree_test.go`, `node_test.go` and `example_test.go` are not part of this model.
- Go's `int` is 64 bits wide; sizes and ranks are modelled as unbounded integers, because no tree that fits in memory comes near the bound.
- BBTrees.BBTree.Select: Go returns `&Node{nil, nil}` for an index out of range; the model returns `None`.
- BBTrees.BBTree.Find: the Go `(*Node, bool)` pair is modelled as one optional entry.
- BBTrees.BBTree.Remove: it looks the key up first and does nothing when the key is absent or the tree is empty. The as-written routine panics on such inputs instead (see "## Findings").
- BBTrees.BBTree.RemoveMax, BBTrees.BBTree.RemoveMin and BBTrees.BBTree.Remove: they skip the root recolouring when the tree has become empty. The written code recolours nil instead (see "## Findings").
- `isBlue` and `size` are the definitions `Nodes.IsBlue` and `Nodes.Size`, and everything proved about the tree uses them. `more` is `Nodes.MoreNode`, which `Mutators.Put` uses for its two comparisons as `put` does (bbtree.go:124, 126). The other routines compare a key with a node's key through `Nodes.More`, as the source calls `key.More` there. None of these definitions has a row of its own.
- The query functions `Queries.Find` (bbtree.go:278-290), `Queries.Min` (166-172), `Queries.Max` (147-152), `Queries.Rank` (309-324), `Queries.Select` (335-350) and `Queries.CountRange` (358-367) carry no contract of their own. Their rows are the lemmas that state what they compute: `Queries.FindIsLookup`, `Queries.MinIsFirst`, `Queries.MaxIsLast`, `Queries.RankCountsBelow`, `Queries.SelectIsIndex` and `Queries.CountIsWithin`.
- The as-written functions `AsWritten.RemoveMaxAt` (bbtree.go:187-198), `AsWritten.RemoveMinAt` (212-227), `AsWritten.RemoveAt` (238-267), `AsWritten.RemoveMaxAsWritten` (175-185), `AsWritten.RemoveMinAsWritten` (201-210) and `AsWritten.RemoveAsWritten` (230-236) carry no contract of their own either. Their rows are `AsWritten.RemoveMaxAtAgrees`, `AsWritten.RemoveMinAtAgrees`, `AsWritten.RemoveAtAgrees` with `AsWritten.RemoveAtAbsent`, and `AsWritten.RemoveMaxAsWrittenFails`, `AsWritten.RemoveMinAsWrittenFails` and `AsWritten.RemoveAsWrittenFails`.

## Findings

| source | as written | input that shows it | evidently intended | confidence | as-written member | corrected member |
|---|---|---|---|---|---|---|
| bbtree.go:183-184 | `RemoveMax` sets `bb.root.parentColor` after `removeMax` has returned nil | a tree holding one entry, then `RemoveMax()` | the tree becomes empty | not executed | AsWritten.RemoveMaxAsWrittenFails | BBTrees.BBTree.RemoveMax |
| bbtree.go:208-209 | `RemoveMin` sets `bb.root.parentColor` after `removeMin` has returned nil | a tree holding one entry, then `RemoveMin()` | the tree becomes empty | not executed | AsWritten.RemoveMinAsWrittenFails | BBTrees.BBTree.RemoveMin |
| bbtree.go:234-235 | `Remove` sets `bb.root.parentColor` after `remove` has returned nil | a tree holding only key 1, then `Remove(1)` | the tree becomes empty | not executed | AsWritten.LastRemovalFails | BBTrees.BBTree.Remove |
| bbtree.go:234, bbtree.go:239 | `Remove` calls `remove` on an empty tree, whose first step reads `currentNode.key` of nil | an empty tree, then `Remove(1)` | nothing happens, like `RemoveMin`/`RemoveMax` on an empty tree | not executed | AsWritten.RemoveAsWrittenFails | BBTrees.BBTree.Remove |
| bbtree.go:240, bbtree.go:265 | `remove` of an absent key descends to nil: either line 240 reads `right` of a nil right child, or line 265 recurses into nil and line 239 reads its key | a tree holding only key 1, then `Remove(2)` (line 240) or `Remove(0)` (line 239) | remove the key "if it exists" (bbtree.go:229), else nothing | not executed | AsWritten.RemoveAtAbsent | BBTrees.BBTree.Remove |
