/**
 * What the recursive mutators do: to the in-order contents of the subtree
 * (the map it represents), and to its balance.
 */
module MutatorLaws {
  import opened Entries
  import opened Nodes
  import opened Restructure
  import opened Balance
  import opened DeleteShape
  import opened Queries
  import opened Mutators

  // ---------------------------------------------------------------------
  // put

  /** `put` inserts or overwrites exactly one entry and keeps the key order. */
  lemma {:induction false} PutContents<V>(h: Tree<V>, k: int, v: V)
    requires Ordered(h)
    ensures InOrder(Put(h, k, v)) == Insert(InOrder(h), k, v)
    ensures Ordered(Put(h, k, v))
  {
    if h.Node? {
      var a, e, b := InOrder(h.left), Entry(h.key, h.value), InOrder(h.right);
      OrderedNode(h);
      if k > h.key {
        PutContents(h.right, k, v);
        InsertAfter(a, e, b, k, v);
      } else if k < h.key {
        PutContents(h.left, k, v);
        InsertBefore(a, e, b, k, v);
      } else {
        InsertOn(a, e, b, v);
      }
    }
    InsertAscending(InOrder(h), k, v);
  }

  /** `put` returns a subtree of the same black height, balanced, with at most a
      blue link followed by another blue link at its top, and only there where
      the link into it was blue. */
  lemma {:induction false} PutShape<V>(h: Tree<V>, k: int, v: V)
    requires Balanced(h) && TwoThree(h)
    ensures InsertResult(h, Put(h, k, v))
  {
    if h.Node? {
      if More(k, h.key) {
        PutShape(h.right, k, v);
        FixUpAfterInsertRight(h, Put(h.right, k, v));
      } else if More(h.key, k) {
        PutShape(h.left, k, v);
        FixUpAfterInsertLeft(h, Put(h.left, k, v));
      } else {
        var x := h.(value := v);
        assert FixUp(x) == x.(size := Size(x.left) + Size(x.right) + 1);
      }
    }
  }

  // ---------------------------------------------------------------------
  // removeMax

  /** `removeMax` drops exactly the last entry. */
  lemma {:induction false} RemoveMaxContents<V>(h: Tree<V>)
    requires MaxDescent(h)
    ensures |InOrder(h)| > 0
    ensures InOrder(RemoveMax(h)) == InOrder(h)[..|InOrder(h)| - 1]
    decreases |InOrder(h)|
  {
    if h.right.Leaf? {
      EmptySibling(h);
    } else {
      MoveRightSafe(h);
      var m := if !IsBlue(h.right) && !IsBlue(h.right.right) then MoveBlueRight(h) else h;
      MaxStepDescends(h, m);
      RemoveMaxContents(m.right);
      DropsLast(m, RemoveMax(m.right));
    }
  }

  /** Replacing the right subtree by one without its last entry drops the last entry. */
  lemma DropsLast<V>(m: Tree<V>, r: Tree<V>)
    requires m.Node? && |InOrder(m.right)| > 0
    requires InOrder(r) == InOrder(m.right)[..|InOrder(m.right)| - 1]
    ensures |InOrder(m)| > 0
    ensures InOrder(FixUp(m.(right := r))) == InOrder(m)[..|InOrder(m)| - 1]
  {
    DropLastJoin(InOrder(m.left), Entry(m.key, m.value), InOrder(m.right));
  }

  /** `removeMax` leaves a balanced 2-3 tree; from inside a 3-node, of the same height. */
  lemma {:induction false} RemoveMaxShape<V>(h: Tree<V>)
    requires MaxDescent(h)
    ensures Repaired(h, RemoveMax(h))
    decreases |InOrder(h)|
  {
    if h.right.Leaf? {
      EmptySibling(h);
    } else {
      MoveRightSafe(h);
      var m := if !IsBlue(h.right) && !IsBlue(h.right.right) then MoveBlueRight(h) else h;
      MaxStep(h, m);
      RemoveMaxShape(m.right);
      FixUpRight(h, m, RemoveMax(m.right));
    }
  }

  // ---------------------------------------------------------------------
  // removeMin

  /** `removeMin` drops exactly the first entry. */
  lemma {:induction false} RemoveMinContents<V>(h: Tree<V>)
    requires Descent(h)
    ensures |InOrder(h)| > 0
    ensures InOrder(RemoveMin(h)) == InOrder(h)[1..]
    decreases |InOrder(h)|
  {
    var t := if IsBlue(h.right) then RotateLeft(h) else h;
    LeanLeft(h, t);
    LeftStepSafe(t);
    if t.left.Node? {
      var m := if !IsBlue(t.left) && !IsBlue(t.left.right) then MoveBlueLeft(t) else t;
      MinStep(t, m);
      RemoveMinContents(m.left);
      var x := m.(left := RemoveMin(m.left));
      assert RemoveMin(h) == FixUp(x);
      var a, e, b := InOrder(m.left), Entry(m.key, m.value), InOrder(m.right);
      assert InOrder(m) == InOrder(h) == a + [e] + b;
      assert InOrder(RemoveMin(h)) == InOrder(x) == a[1..] + [e] + b;
      DropFirstJoin(a, e, b);
    }
  }

  /** `removeMin` leaves a balanced 2-3 tree; from inside a 3-node, of the same height. */
  lemma {:induction false} RemoveMinShape<V>(h: Tree<V>)
    requires Descent(h)
    ensures Repaired(h, RemoveMin(h))
    decreases |InOrder(h)|
  {
    var t := if IsBlue(h.right) then RotateLeft(h) else h;
    LeanLeft(h, t);
    LeftStepSafe(t);
    if t.left.Node? {
      var m := if !IsBlue(t.left) && !IsBlue(t.left.right) then MoveBlueLeft(t) else t;
      MinStep(t, m);
      RemoveMinShape(m.left);
      var x := FixUp(m.(left := RemoveMin(m.left)));
      FixUpLeft(t, m, RemoveMin(m.left));
      RepairedFrom(h, t, x);
    }
  }

  // ---------------------------------------------------------------------
  // remove

  /** `remove` drops exactly the entry of `k`. */
  lemma {:induction false} RemoveContents<V>(k: int, h: Tree<V>)
    requires RemoveDescent(k, h)
    ensures InOrder(Remove(k, h)) == Delete(InOrder(h), k)
    decreases |InOrder(h)|, 1
  {
    if More(k, h.key) {
      RemoveRightContents(k, h);
    } else {
      RemoveLeftContents(k, h);
    }
  }

  /** The descent to the right for a key above the vertex's. */
  lemma {:induction false} RemoveRightContents<V>(k: int, h: Tree<V>)
    requires RemoveDescent(k, h) && More(k, h.key)
    ensures InOrder(Remove(k, h)) == Delete(InOrder(h), k)
    decreases |InOrder(h)|, 0
  {
    RightStepSafe(k, h);
    var m := if !IsBlue(h.right) && !IsBlue(h.right.right) then MoveBlueRight(h) else h;
    RightStepKeys(k, h, m);
    RemoveContents(k, m.right);
    DeletesRight(m, Remove(k, m.right), k);
  }

  /** The descent to the left, ending where the key is found. */
  lemma {:induction false} RemoveLeftContents<V>(k: int, h: Tree<V>)
    requires RemoveDescent(k, h) && !More(k, h.key)
    ensures InOrder(Remove(k, h)) == Delete(InOrder(h), k)
    decreases |InOrder(h)|, 0
  {
    var t := if IsBlue(h.right) then RotateLeft(h) else h;
    LeanLeft(h, t);
    LeftStepSafe(t);
    var m := if !IsBlue(t.left) && t.left.Node? && !IsBlue(t.left.right) then MoveBlueLeft(t) else t;
    LeftStepKeys(k, h, t, m);
    if !More(m.key, k) {
      if m.left.Node? {
        RemoveMaxContents(m.left);
        DeletesHere(m, RemoveMax(m.left));
      } else {
        DeletesOnly(m);
      }
    } else {
      RemoveContents(k, m.left);
      DeletesLeft(m, Remove(k, m.left), k);
    }
  }

  /** Deleting a key above the vertex's is deleting it in the right subtree. */
  lemma DeletesRight<V>(m: Tree<V>, r: Tree<V>, k: int)
    requires m.Node? && Ordered(m) && k > m.key
    requires InOrder(r) == Delete(InOrder(m.right), k)
    ensures InOrder(FixUp(m.(right := r))) == Delete(InOrder(m), k)
  {
    OrderedNode(m);
    var a, e, b := InOrder(m.left), Entry(m.key, m.value), InOrder(m.right);
    InsertAfter(a, e, b, k, m.value);
    assert InOrder(FixUp(m.(right := r))) == a + [e] + InOrder(r);
  }

  /** Deleting a key below the vertex's is deleting it in the left subtree. */
  lemma DeletesLeft<V>(m: Tree<V>, l: Tree<V>, k: int)
    requires m.Node? && Ordered(m) && k < m.key
    requires InOrder(l) == Delete(InOrder(m.left), k)
    ensures InOrder(FixUp(m.(left := l))) == Delete(InOrder(m), k)
  {
    OrderedNode(m);
    var a, e, b := InOrder(m.left), Entry(m.key, m.value), InOrder(m.right);
    InsertBefore(a, e, b, k, m.value);
    assert InOrder(FixUp(m.(left := l))) == InOrder(l) + [e] + b;
  }

  /** The vertex's own entry is replaced by the last entry of its left subtree,
      which that subtree gives up. */
  lemma DeletesHere<V>(m: Tree<V>, l: Tree<V>)
    requires m.Node? && Ordered(m) && m.left.Node?
    requires InOrder(l) == InOrder(m.left)[..|InOrder(m.left)| - 1]
    ensures InOrder(FixUp(m.(key := Max(m.left).key, value := Max(m.left).value, left := l)))
      == Delete(InOrder(m), m.key)
  {
    var a := InOrder(m.left);
    OrderedNode(m);
    SplitOn(a, Entry(m.key, m.value), InOrder(m.right));
    MaxIsLast(m.left);
    assert a[..|a| - 1] + [a[|a| - 1]] == a;
  }

  /** A lone vertex leaves nothing behind. */
  lemma DeletesOnly<V>(m: Tree<V>)
    requires m.Node? && Ordered(m) && m.left.Leaf? && m.right.Leaf?
    ensures Delete(InOrder(m), m.key) == []
  {
    SplitOn([], Entry(m.key, m.value), []);
  }

  /** `remove` leaves a balanced 2-3 tree; from inside a 3-node, of the same height. */
  lemma {:induction false} RemoveShape<V>(k: int, h: Tree<V>)
    requires RemoveDescent(k, h)
    ensures Repaired(h, Remove(k, h))
    decreases |InOrder(h)|
  {
    if More(k, h.key) {
      RightStepSafe(k, h);
      var m := if !IsBlue(h.right) && !IsBlue(h.right.right) then MoveBlueRight(h) else h;
      RightStepKeys(k, h, m);
      MaxStep(h, m);
      RemoveShape(k, m.right);
      FixUpRight(h, m, Remove(k, m.right));
    } else {
      var t := if IsBlue(h.right) then RotateLeft(h) else h;
      LeanLeft(h, t);
      LeftStepSafe(t);
      var m := if !IsBlue(t.left) && t.left.Node? && !IsBlue(t.left.right) then MoveBlueLeft(t) else t;
      LeftStepKeys(k, h, t, m);
      if t.left.Node? {
        MinStep(t, m);
      }
      if !More(m.key, k) {
        if m.left.Node? {
          var e := Max(m.left);
          var n := m.(key := e.key, value := e.value);
          RemoveMaxShape(m.left);
          assert LeftFrame(t, n);
          FixUpLeft(t, n, RemoveMax(m.left));
          RepairedFrom(h, t, Remove(k, h));
        }
      } else {
        RemoveShape(k, m.left);
        FixUpLeft(t, m, Remove(k, m.left));
        RepairedFrom(h, t, Remove(k, h));
      }
    }
  }
}
