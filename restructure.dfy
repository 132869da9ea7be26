/**
 * The local restructuring primitives and the balance repair built on them:
 * rotations, the colour flip, the bottom-up repair `FixUp` and the two
 * borrow operations used on the way down a deletion.
 *
 * Every routine takes the subtree it reshapes and returns the new local root,
 * as the source's return-new-root pattern does; none of them changes the
 * in-order contents of the subtree.
 */
module Restructure {
  import opened Entries
  import opened Nodes

  /** Promote the left child: it takes the old root's size and incoming colour,
      and the old root becomes its blue right child with a recomputed size. */
  function RotateRight<V>(t: Tree<V>): (r: Tree<V>)
    requires t.Node? && t.left.Node?
    ensures r.Node? && r.right.Node?
    ensures InOrder(r) == InOrder(t)
  {
    var l := t.left;
    var demoted := t.(left := l.right, size := Size(l.right) + Size(t.right) + 1, blue := Blue);
    l.(right := demoted, size := t.size, blue := t.blue)
  }

  /** Mirror image of RotateRight: promote the right child. */
  function RotateLeft<V>(t: Tree<V>): (r: Tree<V>)
    requires t.Node? && t.right.Node?
    ensures r.Node? && r.left.Node?
    ensures InOrder(r) == InOrder(t)
  {
    var rt := t.right;
    var demoted := t.(right := rt.left, size := Size(t.left) + Size(rt.left) + 1, blue := Blue);
    rt.(left := demoted, size := t.size, blue := t.blue)
  }

  /** Toggle the incoming colours of a node and of both its children (both must exist). */
  function FlipColors<V>(t: Tree<V>): (r: Tree<V>)
    requires t.Node? && t.left.Node? && t.right.Node?
    ensures r.Node? && r.left.Node? && r.right.Node?
    ensures InOrder(r) == InOrder(t)
  {
    t.(blue := !t.blue, left := t.left.(blue := !t.left.blue), right := t.right.(blue := !t.right.blue))
  }

  /** The repair run on every frame on the way back up: rotate right if the node
      leans left, rotate left on two blue links in a row to the right, flip if
      both children are blue, in that order; then recompute the root's size. */
  function FixUp<V>(t: Tree<V>): (r: Tree<V>)
    requires t.Node?
    ensures r.Node? && r.size == Size(r.left) + Size(r.right) + 1
    ensures InOrder(r) == InOrder(t)
    ensures SizesOk(t.left) && SizesOk(t.right) ==> SizesOk(r)
  {
    var t1 := if IsBlue(t.left) && !IsBlue(t.right) then RotateRight(t) else t;
    var t2 := if IsBlue(t1.right) && IsBlue(t1.right.right) then RotateLeft(t1) else t1;
    var t3 := if IsBlue(t2.right) && IsBlue(t2.left) then FlipColors(t2) else t2;
    RotateSizesBelow(t, t1, t2, t3);
    t3.(size := Size(t3.left) + Size(t3.right) + 1)
  }

  /** Borrow for a descent to the right: flip, and if that made two blue links in a
      row on the left, rotate them over to the right and flip back. */
  function MoveBlueRight<V>(t: Tree<V>): (r: Tree<V>)
    requires t.Node? && t.left.Node? && t.right.Node?
    ensures r.Node? && r.right.Node?
    ensures InOrder(r) == InOrder(t)
    ensures SizesOk(t) ==> SizesOk(r)
  {
    FlipColorsSizes(t);
    var f := FlipColors(t);
    if IsBlue(f.left.right) then
      RotateLeftFacts(f.left);
      RotateRightFacts(f.(left := RotateLeft(f.left)));
      FlipColorsSizes(RotateRight(f.(left := RotateLeft(f.left))));
      FlipColors(RotateRight(f.(left := RotateLeft(f.left))))
    else f
  }

  /** Borrow for a descent to the left: flip, and if the right child now
      starts two blue links in a row, rotate left and flip back. */
  function MoveBlueLeft<V>(t: Tree<V>): (r: Tree<V>)
    requires t.Node? && t.left.Node? && t.right.Node?
    ensures r.Node? && r.left.Node?
    ensures InOrder(r) == InOrder(t)
    ensures SizesOk(t) ==> SizesOk(r)
  {
    FlipColorsSizes(t);
    var f := FlipColors(t);
    if IsBlue(f.right.right) then
      RotateLeftFacts(f);
      FlipColorsSizes(RotateLeft(f));
      FlipColors(RotateLeft(f))
    else f
  }

  // ---------------------------------------------------------------------
  // Facts about the primitives

  /** The colour-blind skeleton of a tree: keys, values, sizes and shape. */
  function Skeleton<V>(t: Tree<V>): Tree<V> {
    match t
    case Leaf => Leaf
    case Node(k, v, l, r, n, _) => Node(k, v, Skeleton(l), Skeleton(r), n, Black)
  }

  /** A flip toggles exactly the three colours it names and nothing else:
      the skeleton and every deeper colour are untouched. */
  lemma FlipColorsTogglesThree<V>(t: Tree<V>)
    requires t.Node? && t.left.Node? && t.right.Node?
    ensures Skeleton(FlipColors(t)) == Skeleton(t)
    ensures FlipColors(t).blue == !t.blue
    ensures FlipColors(t).left.blue == !t.left.blue && FlipColors(t).right.blue == !t.right.blue
    ensures FlipColors(t).left.left == t.left.left && FlipColors(t).left.right == t.left.right
    ensures FlipColors(t).right.left == t.right.left && FlipColors(t).right.right == t.right.right
  {
  }

  /** Flipping twice is the identity. */
  lemma FlipColorsInvolution<V>(t: Tree<V>)
    requires t.Node? && t.left.Node? && t.right.Node?
    ensures FlipColors(FlipColors(t)) == t
  {
  }

  /** A rotation keeps the root's size and incoming colour and makes the demoted
      node blue.  Sizes: when both children of the old root have correct sizes,
      so do both children of the new one, and the new root's own size is correct
      when the old root's was. */
  lemma RotateRightFacts<V>(t: Tree<V>)
    requires t.Node? && t.left.Node?
    ensures RotateRight(t).size == t.size && RotateRight(t).blue == t.blue
    ensures RotateRight(t).right.blue == Blue
    ensures RotateRight(t).key == t.left.key && RotateRight(t).right.key == t.key
    ensures SizesOk(t.left) && SizesOk(t.right) ==>
      SizesOk(RotateRight(t).left) && SizesOk(RotateRight(t).right)
    ensures SizesOk(t) ==> SizesOk(RotateRight(t))
  {
    if SizesOk(t.left) && SizesOk(t.right) {
      assert SizesOk(t.left.left) && SizesOk(t.left.right);
    }
  }

  lemma RotateLeftFacts<V>(t: Tree<V>)
    requires t.Node? && t.right.Node?
    ensures RotateLeft(t).size == t.size && RotateLeft(t).blue == t.blue
    ensures RotateLeft(t).left.blue == Blue
    ensures RotateLeft(t).key == t.right.key && RotateLeft(t).left.key == t.key
    ensures SizesOk(t.left) && SizesOk(t.right) ==>
      SizesOk(RotateLeft(t).left) && SizesOk(RotateLeft(t).right)
    ensures SizesOk(t) ==> SizesOk(RotateLeft(t))
  {
    if SizesOk(t.left) && SizesOk(t.right) {
      assert SizesOk(t.right.left) && SizesOk(t.right.right);
    }
  }

  // ---------------------------------------------------------------------
  // Size bookkeeping through the primitives

  lemma FlipColorsSizes<V>(t: Tree<V>)
    requires t.Node? && t.left.Node? && t.right.Node?
    ensures SizesOk(t.left) ==> SizesOk(FlipColors(t).left)
    ensures SizesOk(t.right) ==> SizesOk(FlipColors(t).right)
    ensures SizesOk(t) ==> SizesOk(FlipColors(t))
  {
  }

  /** The three steps of FixUp keep the sizes of the current root's children correct. */
  lemma RotateSizesBelow<V>(t: Tree<V>, t1: Tree<V>, t2: Tree<V>, t3: Tree<V>)
    requires t.Node?
    requires t1 == if IsBlue(t.left) && !IsBlue(t.right) then RotateRight(t) else t
    requires t1.Node?
    requires t2 == if IsBlue(t1.right) && IsBlue(t1.right.right) then RotateLeft(t1) else t1
    requires t2.Node?
    requires t3 == if IsBlue(t2.right) && IsBlue(t2.left) then FlipColors(t2) else t2
    ensures t3.Node?
    ensures SizesOk(t.left) && SizesOk(t.right) ==> SizesOk(t3.left) && SizesOk(t3.right)
  {
    if IsBlue(t.left) && !IsBlue(t.right) {
      RotateRightFacts(t);
    }
    if IsBlue(t1.right) && IsBlue(t1.right.right) {
      RotateLeftFacts(t1);
    }
  }
}
