/**
 * Why the three deletions never dereference an empty link and leave a
 * balanced 2-3 tree behind.
 *
 * On the way down, every vertex a deletion visits is part of a multi-key
 * node of the 2-3 tree ("not a 2-node"), except possibly the root.  The
 * borrow operations establish this for the child before the descent; FixUp
 * restores the parent on the way back up.  The lemmas below state this one
 * step at a time: a *step* lemma says what the vertex looks like just before
 * the recursive call, a *repair* lemma says what FixUp makes of it once the
 * recursive call has returned.
 */
module DeleteShape {
  import opened Nodes
  import opened Restructure
  import opened Balance

  /** At most one of the three links at `h` (its own and its two children's) is blue. */
  ghost predicate AtMostOneBlue<V>(h: Tree<V>)
    requires h.Node?
  {
    !(h.blue && IsBlue(h.left)) && !(h.blue && IsBlue(h.right)) && !(IsBlue(h.left) && IsBlue(h.right))
  }

  /** A vertex a deletion may visit: balanced, proper 2-3 subtrees below it, and at
      most one blue link among its own and its children's. */
  ghost predicate Descent<V>(h: Tree<V>) {
    h.Node? && Balanced(h) && TwoThree(h.left) && TwoThree(h.right) && AtMostOneBlue(h)
  }

  /** The vertex belongs to a 3-node: one of the three links at it is blue. */
  ghost predicate NotTwo<V>(h: Tree<V>) {
    h.Node? && (h.blue || IsBlue(h.left) || IsBlue(h.right))
  }

  /** A vertex `removeMax` may visit: it never leans left. */
  ghost predicate MaxDescent<V>(h: Tree<V>) {
    Descent(h) && !IsBlue(h.left)
  }

  /** What a deletion returns in place of `h`: a balanced 2-3 tree (whatever its
      root colour), and, when `h` was part of a 3-node, one of the same black
      height that is a proper 2-3 subtree and is blue only where `h` was. */
  ghost predicate Repaired<V>(h: Tree<V>, r: Tree<V>) {
    Balanced(r) && TwoThreeRoot(r) &&
    (NotTwo(h) ==> BlackLinks(r) == BlackLinks(h) && TwoThree(r) && (IsBlue(r) ==> h.blue))
  }

  /** The vertex `m` reached from `h` just before descending right: its right child is
      a valid `removeMax` vertex in a 3-node, and `m` is related to `h` either by
      keeping its colour and black height, or (after a plain flip that made both
      children blue) by the flipped colour. */
  ghost predicate RightFrame<V>(h: Tree<V>, m: Tree<V>) {
    h.Node? && m.Node? && Balanced(m) && TwoThree(m.left) && MaxDescent(m.right) && NotTwo(m.right) &&
    (IsBlue(m.left) ==> IsBlue(m.right)) &&
    (IsBlue(m.right) && !IsBlue(m.left) ==> !m.blue) &&
    (!IsBlue(m.left) ==> BlackLinks(m) == BlackLinks(h) && m.blue == h.blue) &&
    (IsBlue(m.left) ==> m.blue == !h.blue && !IsBlue(h.left) && !IsBlue(h.right) &&
                        (h.blue ==> BlackLinks(h) == BlackLinks(m.right) + 1))
  }

  /** The mirror image of RightFrame, for the descent to the left. */
  ghost predicate LeftFrame<V>(h: Tree<V>, m: Tree<V>) {
    h.Node? && m.Node? && Balanced(m) && TwoThree(m.right) && Descent(m.left) && NotTwo(m.left) &&
    (IsBlue(m.right) ==> IsBlue(m.left)) &&
    (IsBlue(m.left) && !IsBlue(m.right) ==> !m.blue) &&
    (!IsBlue(m.right) ==> BlackLinks(m) == BlackLinks(h) && m.blue == h.blue) &&
    (IsBlue(m.right) ==> m.blue == !h.blue && !IsBlue(h.left) && !IsBlue(h.right) &&
                         (h.blue ==> BlackLinks(h) == BlackLinks(m.left) + 1))
  }

  // ---------------------------------------------------------------------
  // Small facts

  /** A black vertex is at least one black link high. */
  lemma BlackIsHigh<V>(t: Tree<V>)
    requires t.Node? && !t.blue
    ensures BlackLinks(t) >= 1
  {
  }

  /** Below a balanced vertex, an empty child forces the other child to be empty or blue. */
  lemma EmptySibling<V>(h: Tree<V>)
    requires h.Node? && Balanced(h)
    ensures h.left.Leaf? && !IsBlue(h.right) ==> h.right.Leaf?
    ensures h.right.Leaf? && !IsBlue(h.left) ==> h.left.Leaf?
    ensures h.right.Node? && !IsBlue(h.right) ==> h.left.Node?
    ensures h.left.Node? && !IsBlue(h.left) ==> h.right.Node?
  {
  }

  /** A descent vertex that is part of a 3-node keeps that under the weaker view. */
  lemma RepairedFrom<V>(h: Tree<V>, t: Tree<V>, x: Tree<V>)
    requires Repaired(t, x)
    requires NotTwo(h) ==> NotTwo(t) && BlackLinks(t) == BlackLinks(h) && (t.blue ==> h.blue)
    ensures Repaired(h, x)
  {
  }

  // ---------------------------------------------------------------------
  // Steps before descending right (removeMax, and remove for a larger key)

  /** The borrow before descending right needs a left child: balance provides it. */
  lemma MoveRightSafe<V>(h: Tree<V>)
    requires MaxDescent(h) && h.right.Node?
    ensures !IsBlue(h.right) ==> h.left.Node?
  {
    if !IsBlue(h.right) {
      BlackIsHigh(h.right);
    }
  }

  /** The vertex reached before descending right is a right frame; its key is the
      old one, or the one borrowed from the right spine of the left sibling. */
  lemma MaxStep<V>(h: Tree<V>, m: Tree<V>)
    requires MaxDescent(h) && h.right.Node? && (!IsBlue(h.right) ==> h.left.Node?)
    requires m == if !IsBlue(h.right) && !IsBlue(h.right.right) then MoveBlueRight(h) else h
    ensures RightFrame(h, m)
    ensures m.key == h.key || (h.left.Node? && h.left.right.Node? && m.key == h.left.right.key)
  {
    if !IsBlue(h.right) && !IsBlue(h.right.right) {
      var l, c := h.left, h.right;
      var f := FlipColors(h);
      assert f == Node(h.key, h.value, l.(blue := Blue), c.(blue := Blue), h.size, !h.blue);
      Recolour(l, Blue);
      Recolour(c, Blue);
      if IsBlue(l.right) {
        MaxStepBorrow(h);
      } else {
        assert m == f;
      }
    }
  }

  /** Just the part of MaxStep that the next recursive call needs. */
  lemma MaxStepDescends<V>(h: Tree<V>, m: Tree<V>)
    requires MaxDescent(h) && h.right.Node? && (!IsBlue(h.right) ==> h.left.Node?)
    requires m == if !IsBlue(h.right) && !IsBlue(h.right.right) then MoveBlueRight(h) else h
    ensures MaxDescent(m.right) && InOrder(m) == InOrder(h)
  {
    MaxStep(h, m);
  }

  /** The borrow that rotates a key over from the left sibling. */
  lemma MaxStepBorrow<V>(h: Tree<V>)
    requires MaxDescent(h) && h.right.Node? && h.left.Node?
    requires !IsBlue(h.right) && !IsBlue(h.right.right) && IsBlue(h.left.right)
    ensures RightFrame(h, MoveBlueRight(h))
    ensures MoveBlueRight(h).key == h.left.right.key
  {
    var l, c := h.left, h.right;
    var lr := l.right;
    var lx := Node(l.key, l.value, l.left, lr.left, Size(l.left) + Size(lr.left) + 1, Black);
    var hx := Node(h.key, h.value, lr.right, c.(blue := Blue), Size(lr.right) + Size(c) + 1, Black);
    var m := Node(lr.key, lr.value, lx, hx, h.size, h.blue);
    assert MoveBlueRight(h) == m;
    Recolour(c, Blue);
    // what the left sibling, a 3-node leaning right, contributes
    assert TwoThree(l) && TwoThree(lr) && Balanced(l) && Balanced(lr);
    assert BlackLinks(l.left) == BlackLinks(lr.left) == BlackLinks(lr.right);
    assert BlackLinks(lx) == BlackLinks(l) == BlackLinks(c);
    assert Balanced(lx) && Balanced(hx) && TwoThree(lx);
  }

  // ---------------------------------------------------------------------
  // Steps before descending left (removeMin, and remove for a smaller or equal key)

  /** A vertex leaning right is turned to lean left first. */
  lemma RotateLeftStep<V>(h: Tree<V>)
    requires Descent(h) && IsBlue(h.right)
    ensures Descent(RotateLeft(h)) && NotTwo(h) && NotTwo(RotateLeft(h))
    ensures IsBlue(RotateLeft(h).left) && !IsBlue(RotateLeft(h).right)
    ensures BlackLinks(RotateLeft(h)) == BlackLinks(h) && RotateLeft(h).blue == h.blue
  {
    var r := h.right;
    var d := Node(h.key, h.value, h.left, r.left, Size(h.left) + Size(r.left) + 1, Blue);
    assert RotateLeft(h) == Node(r.key, r.value, d, r.right, h.size, h.blue);
    assert Balanced(r) && BlackLinks(r.left) == BlackLinks(r.right) == BlackLinks(h.left);
    assert Balanced(d);
  }

  /** The optional first step of every left descent, with what it keeps. */
  lemma LeanLeft<V>(h: Tree<V>, t: Tree<V>)
    requires Descent(h) && t == if IsBlue(h.right) then RotateLeft(h) else h
    ensures Descent(t) && !IsBlue(t.right)
    ensures NotTwo(h) ==> NotTwo(t) && BlackLinks(t) == BlackLinks(h) && (t.blue ==> h.blue)
    ensures IsBlue(h.right) ==> IsBlue(t.left) && t.key == h.right.key
    ensures InOrder(t) == InOrder(h) && (SizesOk(h) ==> SizesOk(t))
  {
    if IsBlue(h.right) {
      RotateLeftStep(h);
      RotateLeftFacts(h);
    }
  }

  /** After that, an empty left child means an empty right child, and the borrow
      from the right has a right child to borrow from. */
  lemma LeftStepSafe<V>(t: Tree<V>)
    requires Descent(t) && !IsBlue(t.right)
    ensures t.left.Leaf? ==> t.right.Leaf?
    ensures t.left.Node? && !IsBlue(t.left) ==> t.right.Node?
  {
    if t.left.Node? && !IsBlue(t.left) {
      BlackIsHigh(t.left);
    }
  }

  /** The vertex reached before descending left is a left frame; its key is the old
      one, or the one borrowed from the right sibling. */
  lemma MinStep<V>(t: Tree<V>, m: Tree<V>)
    requires Descent(t) && !IsBlue(t.right) && t.left.Node? && (!IsBlue(t.left) ==> t.right.Node?)
    requires m == if !IsBlue(t.left) && !IsBlue(t.left.right) then MoveBlueLeft(t) else t
    ensures LeftFrame(t, m)
    ensures (m.key == t.key && !IsBlue(m.left.left)) || m.key == t.right.key
    ensures IsBlue(m.left.left) ==> m.left.key == t.key
  {
    if !IsBlue(t.left) && !IsBlue(t.left.right) {
      var l, c := t.left, t.right;
      var f := FlipColors(t);
      assert f == Node(t.key, t.value, l.(blue := Blue), c.(blue := Blue), t.size, !t.blue);
      Recolour(l, Blue);
      Recolour(c, Blue);
      if IsBlue(c.right) {
        MinStepBorrow(t);
      } else {
        assert m == f;
      }
    }
  }

  /** The borrow that rotates a key over from the right sibling. */
  lemma MinStepBorrow<V>(t: Tree<V>)
    requires Descent(t) && !IsBlue(t.right) && t.left.Node? && t.right.Node?
    requires !IsBlue(t.left) && !IsBlue(t.left.right) && IsBlue(t.right.right)
    ensures LeftFrame(t, MoveBlueLeft(t))
    ensures MoveBlueLeft(t).key == t.right.key && MoveBlueLeft(t).left.key == t.key
  {
    var l, c := t.left, t.right;
    var rr := c.right;
    var d := Node(t.key, t.value, l.(blue := Blue), c.left, Size(l) + Size(c.left) + 1, Black);
    var m := Node(c.key, c.value, d, rr.(blue := Black), t.size, t.blue);
    assert MoveBlueLeft(t) == m;
    Recolour(l, Blue);
    Recolour(rr, Black);
    // what the right sibling, a 3-node leaning right, contributes
    assert TwoThree(c) && TwoThree(rr) && Balanced(c) && Balanced(rr);
    assert BlackLinks(c.left) == BlackLinks(rr) == BlackLinks(rr.left);
    assert BlackLinks(d) == BlackLinks(l) == BlackLinks(c);
    assert Balanced(d) && TwoThree(rr.(blue := Black));
  }

  // ---------------------------------------------------------------------
  // Repairs on the way back up

  /** FixUp after the right child of a right frame was replaced by its deletion result. */
  lemma FixUpRight<V>(h: Tree<V>, m: Tree<V>, r: Tree<V>)
    requires RightFrame(h, m) && Repaired(m.right, r)
    ensures Repaired(h, FixUp(m.(right := r)))
  {
    var x := m.(right := r);
    if IsBlue(m.left) {
      FixUpRightBorrowed(h, m, r);
    } else {
      assert FixUp(x) == x.(size := Size(x.left) + Size(x.right) + 1);
      assert BlackLinks(r) == BlackLinks(m.right) == BlackLinks(m.left);
      assert Balanced(x);
    }
  }

  lemma FixUpRightBorrowed<V>(h: Tree<V>, m: Tree<V>, r: Tree<V>)
    requires RightFrame(h, m) && Repaired(m.right, r) && IsBlue(m.left)
    ensures Repaired(h, FixUp(m.(right := r)))
  {
    var x := m.(right := r);
    var l := m.left;
    if IsBlue(r) {
      var z := Node(m.key, m.value, l.(blue := Black), r.(blue := Black), Size(l) + Size(r) + 1, !m.blue);
      assert FixUp(x) == z;
      Recolour(l, Black);
      Recolour(r, Black);
    } else {
      var d := Node(m.key, m.value, l.right, r, Size(l.right) + Size(r) + 1, Blue);
      var z := Node(l.key, l.value, l.left, d, Size(l.left) + Size(d) + 1, m.blue);
      assert FixUp(x) == z;
      assert Balanced(l) && BlackLinks(l.left) == BlackLinks(l.right) == BlackLinks(m.right) == BlackLinks(r);
      assert Balanced(d);
    }
  }

  /** FixUp after the left child of a left frame was replaced by its deletion result. */
  lemma FixUpLeft<V>(h: Tree<V>, m: Tree<V>, l: Tree<V>)
    requires LeftFrame(h, m) && Repaired(m.left, l)
    ensures Repaired(h, FixUp(m.(left := l)))
  {
    var x := m.(left := l);
    if IsBlue(m.right) {
      if IsBlue(l) {
        var c := m.right;
        var z := Node(m.key, m.value, l.(blue := Black), c.(blue := Black), Size(l) + Size(c) + 1, !m.blue);
        assert FixUp(x) == z;
        Recolour(l, Black);
        Recolour(c, Black);
      } else {
        assert FixUp(x) == x.(size := Size(x.left) + Size(x.right) + 1);
      }
    } else if IsBlue(l) {
      var d := Node(m.key, m.value, l.right, m.right, Size(l.right) + Size(m.right) + 1, Blue);
      var z := Node(l.key, l.value, l.left, d, Size(l.left) + Size(d) + 1, m.blue);
      assert FixUp(x) == z;
    } else {
      assert FixUp(x) == x.(size := Size(x.left) + Size(x.right) + 1);
    }
  }
}
