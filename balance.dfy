/**
 * The balance discipline of the tree, read as a binary encoding of a 2-3 tree
 * whose multi-key nodes are glued together by blue links leaning right.
 *
 *  - Balanced: every path from a node down to an empty link crosses the same
 *    number of black links (the empty link and blue links count nothing).
 *  - TwoThree: no vertex is entered by a blue link from the left, and no blue
 *    vertex has a blue right child, so every multi-key node holds two keys.
 *
 * The colour of the root's own link means nothing to the shape of the tree:
 * the root-level predicates ignore it.
 */
module Balance {
  import opened Nodes
  import opened Restructure

  /** Black links on the leftmost path from the link into `t` down to the empty link. */
  function BlackLinks<V>(t: Tree<V>): nat {
    match t
    case Leaf => 0
    case Node(_, _, l, _, _, b) => BlackLinks(l) + (if b then 0 else 1)
  }

  ghost predicate Balanced<V>(t: Tree<V>) {
    match t
    case Leaf => true
    case Node(_, _, l, r, _, _) => BlackLinks(l) == BlackLinks(r) && Balanced(l) && Balanced(r)
  }

  /** `t`, entered by the link colour it records, is a well-formed part of a 2-3 tree. */
  ghost predicate TwoThree<V>(t: Tree<V>) {
    match t
    case Leaf => true
    case Node(_, _, l, r, _, b) => !IsBlue(l) && !(b && IsBlue(r)) && TwoThree(l) && TwoThree(r)
  }

  /** `t` is a well-formed 2-3 tree whatever the colour of its own link. */
  ghost predicate TwoThreeRoot<V>(t: Tree<V>) {
    t.Leaf? || (!IsBlue(t.left) && TwoThree(t.left) && TwoThree(t.right))
  }

  /** The balance invariant that holds between public operations. */
  ghost predicate WellShaped<V>(t: Tree<V>) {
    Balanced(t) && TwoThreeRoot(t)
  }

  /** Balance ignores a vertex's own link colour, and a black vertex over a
      well-formed 2-3 tree is one too. */
  lemma Recolour<V>(t: Tree<V>, b: bool)
    requires t.Node?
    ensures Balanced(t.(blue := b)) == Balanced(t)
    ensures BlackLinks(t.(blue := b)) == BlackLinks(t.left) + (if b then 0 else 1)
    ensures TwoThreeRoot(t.(blue := b)) == TwoThreeRoot(t)
    ensures TwoThree(t.(blue := Black)) == TwoThreeRoot(t)
  {
  }

  // ---------------------------------------------------------------------
  // Height

  /** The number of vertices on the longest path from `t` down to an empty link. */
  function Height<V>(t: Tree<V>): nat {
    match t
    case Leaf => 0
    case Node(_, _, l, r, _, _) => 1 + (if Height(l) < Height(r) then Height(r) else Height(l))
  }

  function Pow2(n: nat): nat {
    if n == 0 then 1 else 2 * Pow2(n - 1)
  }

  /** In a balanced 2-3 subtree every path alternates at worst blue, black, blue,
      black, ...: it is at most twice as long as its black links, plus one for a
      blue link into the subtree itself. */
  lemma {:induction false} HeightByBlackLinks<V>(t: Tree<V>)
    requires Balanced(t) && TwoThree(t)
    ensures Height(t) <= 2 * BlackLinks(t) + (if IsBlue(t) then 1 else 0)
  {
    if t.Node? {
      HeightByBlackLinks(t.left);
      HeightByBlackLinks(t.right);
    }
  }

  /** Every black link on a path at least doubles the number of entries below it. */
  lemma {:induction false} SizeByBlackLinks<V>(t: Tree<V>)
    requires Balanced(t) && SizesOk(t)
    ensures Pow2(BlackLinks(t)) <= Size(t) + 1
  {
    if t.Node? {
      SizeByBlackLinks(t.left);
      SizeByBlackLinks(t.right);
    }
  }

  // ---------------------------------------------------------------------
  // Insertion

  /** What `Put` leaves behind in place of a subtree `h`: a balanced subtree
      with the same black height, a proper 2-3 tree below its root, and at most
      one violation at the top (a blue vertex with a blue right child), which
      can only occur where `h` itself was entered by a blue link. */
  ghost predicate InsertResult<V>(h: Tree<V>, r: Tree<V>) {
    r.Node? && Balanced(r) && BlackLinks(r) == BlackLinks(h) && TwoThreeRoot(r) &&
    (!IsBlue(h) ==> TwoThree(r))
  }

  /** FixUp repairs a vertex whose right subtree was just replaced by an insertion result. */
  lemma FixUpAfterInsertRight<V>(h: Tree<V>, r: Tree<V>)
    requires h.Node? && Balanced(h) && TwoThree(h)
    requires InsertResult(h.right, r)
    ensures InsertResult(h, FixUp(h.(right := r)))
  {
    var x := h.(right := r);
    if IsBlue(r) && IsBlue(r.right) {
      SplitFourNode(h, r);
    } else {
      assert FixUp(x) == x.(size := Size(x.left) + Size(x.right) + 1);
    }
  }

  /** Two blue links in a row to the right: rotate left, then split the 4-node. */
  lemma SplitFourNode<V>(h: Tree<V>, r: Tree<V>)
    requires h.Node? && Balanced(h) && TwoThree(h)
    requires InsertResult(h.right, r) && IsBlue(r) && IsBlue(r.right)
    ensures InsertResult(h, FixUp(h.(right := r)))
  {
    var x := h.(right := r);
    assert !h.blue;
    var lo := Node(h.key, h.value, h.left, r.left, Size(h.left) + Size(r.left) + 1, Black);
    var hi := r.right.(blue := Black);
    var z := Node(r.key, r.value, lo, hi, Size(lo) + Size(hi) + 1, Blue);
    assert FixUp(x) == z;
    assert BlackLinks(r) == BlackLinks(r.left);
    assert BlackLinks(hi) == BlackLinks(r.right) + 1;
    Recolour(r.right, Black);
  }

  /** FixUp repairs a vertex whose left subtree was just replaced by an insertion result. */
  lemma FixUpAfterInsertLeft<V>(h: Tree<V>, l: Tree<V>)
    requires h.Node? && Balanced(h) && TwoThree(h)
    requires InsertResult(h.left, l)
    ensures InsertResult(h, FixUp(h.(left := l)))
  {
  }
}
