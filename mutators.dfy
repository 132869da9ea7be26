/**
 * The recursive mutators: each takes a subtree and returns the root of the
 * subtree that replaces it, running FixUp on every vertex on the way back up.
 *
 * Each deletion is only ever entered at a vertex satisfying the descent
 * invariant of DeleteShape; the lemma calls in the bodies show that every
 * recursive call is entered the same way, and with that that no empty link is
 * ever dereferenced.
 */
module Mutators {
  import opened Entries
  import opened Nodes
  import opened Restructure
  import opened Balance
  import opened DeleteShape
  import opened Queries

  /** Insert or overwrite `k`, then repair each vertex on the search path. */
  function Put<V>(h: Tree<V>, k: int, v: V): (r: Tree<V>)
    ensures r.Node?
    ensures SizesOk(h) ==> SizesOk(r)
  {
    var p := NewNode(k, v);
    if h.Leaf? then p
    else if MoreNode(p, h) then FixUp(h.(right := Put(h.right, k, v)))
    else if MoreNode(h, p) then FixUp(h.(left := Put(h.left, k, v)))
    else FixUp(h.(value := p.value))
  }

  /** Remove the entry of largest key, borrowing on the way down the right spine. */
  function RemoveMax<V>(h: Tree<V>): (r: Tree<V>)
    requires MaxDescent(h)
    ensures SizesOk(h) ==> SizesOk(r)
    decreases |InOrder(h)|
  {
    if h.right.Leaf? then Leaf
    else
      MoveRightSafe(h);
      var m := if !IsBlue(h.right) && !IsBlue(h.right.right) then MoveBlueRight(h) else h;
      MaxStep(h, m);
      FixUp(m.(right := RemoveMax(m.right)))
  }

  /** Remove the entry of smallest key, borrowing on the way down the left spine. */
  function RemoveMin<V>(h: Tree<V>): (r: Tree<V>)
    requires Descent(h)
    ensures SizesOk(h) ==> SizesOk(r)
    decreases |InOrder(h)|
  {
    var t := if IsBlue(h.right) then RotateLeft(h) else h;
    LeanLeft(h, t);
    LeftStepSafe(t);
    if t.left.Leaf? then Leaf
    else
      var m := if !IsBlue(t.left) && !IsBlue(t.left.right) then MoveBlueLeft(t) else t;
      MinStep(t, m);
      FixUp(m.(left := RemoveMin(m.left)))
  }

  /** A vertex `remove(k, ·)` may visit: a descent vertex of an ordered subtree holding
      `k`, which leans left only when `k` is not in its right part. */
  ghost predicate RemoveDescent<V>(k: int, h: Tree<V>) {
    Descent(h) && (IsBlue(h.left) ==> k <= h.key) && Ordered(h) && HasKey(InOrder(h), k)
  }

  /** Remove the entry of a present key `k`; a vertex carrying `k` takes over the
      entry of largest key of its left subtree, which is then removed there. */
  function Remove<V>(k: int, h: Tree<V>): (r: Tree<V>)
    requires RemoveDescent(k, h)
    ensures SizesOk(h) ==> SizesOk(r)
    decreases |InOrder(h)|
  {
    if More(k, h.key) then
      RightStepSafe(k, h);
      var m := if !IsBlue(h.right) && !IsBlue(h.right.right) then MoveBlueRight(h) else h;
      RightStepKeys(k, h, m);
      FixUp(m.(right := Remove(k, m.right)))
    else
      var t := if IsBlue(h.right) then RotateLeft(h) else h;
      LeanLeft(h, t);
      LeftStepSafe(t);
      var m := if !IsBlue(t.left) && t.left.Node? && !IsBlue(t.left.right) then MoveBlueLeft(t) else t;
      LeftStepKeys(k, h, t, m);
      if !More(m.key, k) then
        if m.left.Leaf? then Leaf
        else
          var e := Max(m.left);
          FixUp(m.(key := e.key, value := e.value, left := RemoveMax(m.left)))
      else
        FixUp(m.(left := Remove(k, m.left)))
  }

  // ---------------------------------------------------------------------
  // Keys along the descent of `remove`

  lemma KeyInRight<V>(m: Tree<V>, k: int)
    requires m.Node? && Ordered(m) && HasKey(InOrder(m), k) && k > m.key
    ensures m.right.Node? && Ordered(m.right) && HasKey(InOrder(m.right), k)
  {
    SplitRight(m, k);
    LookupFinds(InOrder(m), k);
    LookupFinds(InOrder(m.right), k);
  }

  lemma KeyInLeft<V>(m: Tree<V>, k: int)
    requires m.Node? && Ordered(m) && HasKey(InOrder(m), k) && k < m.key
    ensures m.left.Node? && Ordered(m.left) && HasKey(InOrder(m.left), k)
  {
    SplitLeft(m, k);
    LookupFinds(InOrder(m), k);
    LookupFinds(InOrder(m.left), k);
  }

  /** The right child's key is above, and the left spine's keys below, the vertex's. */
  lemma ChildKeys<V>(h: Tree<V>)
    requires h.Node? && Ordered(h)
    ensures h.right.Node? ==> h.right.key > h.key
    ensures h.left.Node? && h.left.right.Node? ==> h.left.right.key < h.key
  {
    OrderedNode(h);
    if h.right.Node? {
      var b := InOrder(h.right);
      assert b[|InOrder(h.right.left)|] == Entry(h.right.key, h.right.value);
    }
    if h.left.Node? && h.left.right.Node? {
      var l, lr := h.left, h.left.right;
      var a := InOrder(l);
      assert a[|InOrder(l.left)| + 1 + |InOrder(lr.left)|] == Entry(lr.key, lr.value);
    }
  }

  /** Descending right for a larger key `k` is safe, and the vertex never leans left. */
  lemma RightStepSafe<V>(k: int, h: Tree<V>)
    requires RemoveDescent(k, h) && More(k, h.key)
    ensures MaxDescent(h) && h.right.Node? && (!IsBlue(h.right) ==> h.left.Node?)
  {
    KeyInRight(h, k);
    MoveRightSafe(h);
  }

  lemma RightStepKeys<V>(k: int, h: Tree<V>, m: Tree<V>)
    requires RemoveDescent(k, h) && More(k, h.key)
    requires MaxDescent(h) && h.right.Node? && (!IsBlue(h.right) ==> h.left.Node?)
    requires m == if !IsBlue(h.right) && !IsBlue(h.right.right) then MoveBlueRight(h) else h
    ensures InOrder(m) == InOrder(h)
    ensures RemoveDescent(k, m.right) && More(k, m.key)
  {
    MaxStep(h, m);
    ChildKeys(h);
    KeyInRight(m, k);
  }

  /** Descending left: the key is at most the current vertex's key; it is equal only
      where the left subtree is a valid `removeMax` vertex (or empty, and then so is
      the right one); otherwise the left subtree is a valid `remove` vertex. */
  lemma LeftStepKeys<V>(k: int, h: Tree<V>, t: Tree<V>, m: Tree<V>)
    requires RemoveDescent(k, h) && !More(k, h.key)
    requires t == if IsBlue(h.right) then RotateLeft(h) else h
    requires Descent(t) && !IsBlue(t.right)
    requires t.left.Leaf? ==> t.right.Leaf?
    requires t.left.Node? && !IsBlue(t.left) ==> t.right.Node?
    requires m == if !IsBlue(t.left) && t.left.Node? && !IsBlue(t.left.right) then MoveBlueLeft(t) else t
    ensures m.Node? && InOrder(m) == InOrder(h) && Ordered(m) && k <= m.key
    ensures m.left.Leaf? ==> m == t && m.right.Leaf?
    ensures m.key == k && m.left.Node? ==> MaxDescent(m.left)
    ensures m.key > k ==> RemoveDescent(k, m.left)
  {
    LeanLeft(h, t);
    ChildKeys(h);
    if t.left.Node? {
      MinStep(t, m);
      ChildKeys(t);
      if m.key > k {
        KeyInLeft(m, k);
      }
    } else {
      assert m == t;
      if t.key > k {
        KeyInLeft(t, k);
      }
    }
  }
}
