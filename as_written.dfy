/**
 * The deletions exactly as the facade and the recursive routines write them,
 * with every read or write through an empty link made visible: where the
 * program would dereference nil, these functions return `None`.
 *
 * The lemmas show where that happens.  On every tree the model's deletions
 * are run on, the recursive routines never reach an empty link and agree with
 * Mutators; the failures left are the unguarded root recolouring after the
 * last entry is removed, and `remove` of a key the tree does not hold (which
 * includes every `Remove` on an empty tree).
 */
module AsWritten {
  import opened Entries
  import opened Nodes
  import opened Restructure
  import opened Balance
  import opened DeleteShape
  import opened Queries
  import opened Mutators
  import opened MutatorLaws
  import opened BBTrees

  // ---------------------------------------------------------------------
  // The recursive routines with their nil reads

  /** `removeMax`: reading `right` of the empty link, or flipping a vertex whose
      left child is missing, stops the program. */
  function RemoveMaxAt<V>(h: Tree<V>): Option<Tree<V>>
    decreases |InOrder(h)|
  {
    if h.Leaf? then None
    else if h.right.Leaf? then Some(Leaf)
    else if !IsBlue(h.right) && !IsBlue(h.right.right) && h.left.Leaf? then None
    else
      var m := if !IsBlue(h.right) && !IsBlue(h.right.right) then MoveBlueRight(h) else h;
      match RemoveMaxAt(m.right)
      case None => None
      case Some(r) => Some(FixUp(m.(right := r)))
  }

  /** `removeMin`: reading `right` of the empty link, or flipping a vertex whose
      right child is missing, stops the program. */
  function RemoveMinAt<V>(h: Tree<V>): Option<Tree<V>>
    decreases |InOrder(h)|
  {
    if h.Leaf? then None
    else
      var t := if IsBlue(h.right) then RotateLeft(h) else h;
      if t.left.Leaf? then Some(Leaf)
      else if !IsBlue(t.left) && !IsBlue(t.left.right) && t.right.Leaf? then None
      else
        var m := if !IsBlue(t.left) && !IsBlue(t.left.right) then MoveBlueLeft(t) else t;
        match RemoveMinAt(m.left)
        case None => None
        case Some(l) => Some(FixUp(m.(left := l)))
  }

  /** `remove`: reading the key of the empty link, reading `right` of an empty right
      child before descending right, or a flip against a missing child stops the
      program. */
  function RemoveAt<V>(k: int, h: Tree<V>): Option<Tree<V>>
    decreases |InOrder(h)|
  {
    if h.Leaf? then None
    else if More(k, h.key) then
      if !IsBlue(h.right) && h.right.Leaf? then None
      else if !IsBlue(h.right) && !IsBlue(h.right.right) && h.left.Leaf? then None
      else
        var m := if !IsBlue(h.right) && !IsBlue(h.right.right) then MoveBlueRight(h) else h;
        match RemoveAt(k, m.right)
        case None => None
        case Some(r) => Some(FixUp(m.(right := r)))
    else
      var t := if IsBlue(h.right) then RotateLeft(h) else h;
      var borrow := !IsBlue(t.left) && t.left.Node? && !IsBlue(t.left.right);
      if borrow && t.right.Leaf? then None
      else
        var m := if borrow then MoveBlueLeft(t) else t;
        if !More(m.key, k) then
          if m.left.Leaf? then Some(Leaf)
          else
            var e := Max(m.left);
            match RemoveMaxAt(m.left)
            case None => None
            case Some(l) => Some(FixUp(m.(key := e.key, value := e.value, left := l)))
        else
          match RemoveAt(k, m.left)
          case None => None
          case Some(l) => Some(FixUp(m.(left := l)))
  }

  // ---------------------------------------------------------------------
  // The facade as written

  /** `bb.root.parentColor = black` as the facade writes it: unguarded, so on an
      empty root it is a write through nil. */
  function PaintRootAsWritten<V>(t: Tree<V>): (r: Option<Tree<V>>)
    ensures r.None? <==> t.Leaf?
    ensures r.Some? ==> r.value == PaintRoot(t)
  {
    if t.Leaf? then None else Some(t.(blue := Black))
  }

  /** `RemoveMax` as written: the empty-tree guard, then the unguarded recolouring. */
  function RemoveMaxAsWritten<V>(t: Tree<V>): Option<Tree<V>> {
    if t.Leaf? then Some(t)
    else
      match RemoveMaxAt(t)
      case None => None
      case Some(r) => PaintRootAsWritten(r)
  }

  /** `RemoveMin` as written: the empty-tree guard, then the unguarded recolouring. */
  function RemoveMinAsWritten<V>(t: Tree<V>): Option<Tree<V>> {
    if t.Leaf? then Some(t)
    else
      match RemoveMinAt(t)
      case None => None
      case Some(r) => PaintRootAsWritten(r)
  }

  /** `Remove` as written: no guard at all before `remove` and the recolouring. */
  function RemoveAsWritten<V>(k: int, t: Tree<V>): Option<Tree<V>> {
    match RemoveAt(k, t)
    case None => None
    case Some(r) => PaintRootAsWritten(r)
  }

  // ---------------------------------------------------------------------
  // Where the written routines agree with the model

  /** From every vertex the model's `removeMax` may start at, the written one
      reads no empty link and computes the same subtree. */
  lemma {:induction false} RemoveMaxAtAgrees<V>(h: Tree<V>)
    requires MaxDescent(h)
    ensures RemoveMaxAt(h) == Some(Mutators.RemoveMax(h))
    decreases |InOrder(h)|
  {
    if h.right.Node? {
      MoveRightSafe(h);
      var m := if !IsBlue(h.right) && !IsBlue(h.right.right) then MoveBlueRight(h) else h;
      MaxStepDescends(h, m);
      RemoveMaxAtAgrees(m.right);
    }
  }

  /** The same for `removeMin`. */
  lemma {:induction false} RemoveMinAtAgrees<V>(h: Tree<V>)
    requires Descent(h)
    ensures RemoveMinAt(h) == Some(Mutators.RemoveMin(h))
    decreases |InOrder(h)|
  {
    var t := if IsBlue(h.right) then RotateLeft(h) else h;
    LeanLeft(h, t);
    LeftStepSafe(t);
    if t.left.Node? {
      var m := if !IsBlue(t.left) && !IsBlue(t.left.right) then MoveBlueLeft(t) else t;
      MinStep(t, m);
      RemoveMinAtAgrees(m.left);
    }
  }

  /** The same for `remove` of a key the subtree holds. */
  lemma {:induction false} RemoveAtAgrees<V>(k: int, h: Tree<V>)
    requires RemoveDescent(k, h)
    ensures RemoveAt(k, h) == Some(Mutators.Remove(k, h))
    decreases |InOrder(h)|
  {
    if More(k, h.key) {
      RightStepSafe(k, h);
      var m := if !IsBlue(h.right) && !IsBlue(h.right.right) then MoveBlueRight(h) else h;
      RightStepKeys(k, h, m);
      RemoveAtAgrees(k, m.right);
    } else {
      var t := if IsBlue(h.right) then RotateLeft(h) else h;
      LeanLeft(h, t);
      LeftStepSafe(t);
      var m := if !IsBlue(t.left) && t.left.Node? && !IsBlue(t.left.right) then MoveBlueLeft(t) else t;
      LeftStepKeys(k, h, t, m);
      if !More(m.key, k) {
        if m.left.Node? {
          RemoveMaxAtAgrees(m.left);
        }
      } else {
        RemoveAtAgrees(k, m.left);
      }
    }
  }

  /** `remove` of a key an ordered subtree does not hold always ends at an empty
      link: the descent never meets the key, so it never takes the splice branch. */
  lemma {:induction false} RemoveAtAbsent<V>(k: int, h: Tree<V>)
    requires Ordered(h) && !HasKey(InOrder(h), k)
    ensures RemoveAt(k, h).None?
    decreases |InOrder(h)|
  {
    if h.Node? {
      if More(k, h.key) {
        if !(!IsBlue(h.right) && h.right.Leaf?) && !(!IsBlue(h.right) && !IsBlue(h.right.right) && h.left.Leaf?) {
          var m := if !IsBlue(h.right) && !IsBlue(h.right.right) then MoveBlueRight(h) else h;
          PartKeys(m, k);
          RemoveAtAbsent(k, m.right);
        }
      } else {
        var t := if IsBlue(h.right) then RotateLeft(h) else h;
        ChildKeys(h);
        if IsBlue(h.right) {
          RotateLeftFacts(h);
        }
        var borrow := !IsBlue(t.left) && t.left.Node? && !IsBlue(t.left.right);
        if !(borrow && t.right.Leaf?) {
          var m := if borrow then MoveBlueLeft(t) else t;
          if borrow {
            ChildKeys(t);
            MoveBlueLeftKey(t);
          }
          PartKeys(m, k);
          RemoveAtAbsent(k, m.left);
        }
      }
    }
  }

  /** The keys of a vertex's subtrees, and its own key, are keys of the vertex. */
  lemma PartKeys<V>(t: Tree<V>, k: int)
    requires t.Node? && Ordered(t)
    ensures Ordered(t.left) && Ordered(t.right)
    ensures HasKey(InOrder(t.left), k) || HasKey(InOrder(t.right), k) || t.key == k ==> HasKey(InOrder(t), k)
  {
    OrderedNode(t);
    var a, b := InOrder(t.left), InOrder(t.right);
    assert InOrder(t) == a + [Entry(t.key, t.value)] + b;
    if i :| 0 <= i < |a| && a[i].key == k {
      assert InOrder(t)[i] == a[i];
    } else if i :| 0 <= i < |b| && b[i].key == k {
      assert InOrder(t)[|a| + 1 + i] == b[i];
    } else if t.key == k {
      assert InOrder(t)[|a|].key == k;
    }
  }

  /** The borrow to the left keeps the vertex's key or promotes its right child's. */
  lemma MoveBlueLeftKey<V>(t: Tree<V>)
    requires t.Node? && t.left.Node? && t.right.Node?
    ensures MoveBlueLeft(t).key == t.key || MoveBlueLeft(t).key == t.right.key
  {
  }

  // ---------------------------------------------------------------------
  // Where the written facade fails

  /** The written `RemoveMax` fails exactly when it removes the last entry, and
      otherwise leaves what the guarded recolouring leaves. */
  lemma RemoveMaxAsWrittenFails<V>(t: Tree<V>)
    requires ValidRoot(t)
    ensures RemoveMaxAsWritten(t).None? <==> |InOrder(t)| == 1
    ensures RemoveMaxAsWritten(t).Some? ==>
      InOrder(RemoveMaxAsWritten(t).value) == if t.Leaf? then [] else InOrder(t)[..|InOrder(t)| - 1]
  {
    EmptyIsLeaf(t);
    if t.Node? {
      RootDescends(t);
      RemoveMaxAtAgrees(t);
      RemoveMaxContents(t);
      EmptyIsLeaf(Mutators.RemoveMax(t));
    }
  }

  /** The written `RemoveMin` fails exactly when it removes the last entry. */
  lemma RemoveMinAsWrittenFails<V>(t: Tree<V>)
    requires ValidRoot(t)
    ensures RemoveMinAsWritten(t).None? <==> |InOrder(t)| == 1
    ensures RemoveMinAsWritten(t).Some? ==>
      InOrder(RemoveMinAsWritten(t).value) == if t.Leaf? then [] else InOrder(t)[1..]
  {
    EmptyIsLeaf(t);
    if t.Node? {
      RootDescends(t);
      RemoveMinAtAgrees(t);
      RemoveMinContents(t);
      EmptyIsLeaf(Mutators.RemoveMin(t));
    }
  }

  /** The written `Remove` fails exactly when the key is absent (the empty tree
      included) or when it removes the last entry; otherwise it deletes the key. */
  lemma RemoveAsWrittenFails<V>(k: int, t: Tree<V>)
    requires ValidRoot(t)
    ensures RemoveAsWritten(k, t).None? <==> !HasKey(InOrder(t), k) || |InOrder(t)| == 1
    ensures RemoveAsWritten(k, t).Some? ==> InOrder(RemoveAsWritten(k, t).value) == Delete(InOrder(t), k)
  {
    if HasKey(InOrder(t), k) {
      RemoveEntry(t, k);
      RemoveAtAgrees(k, t);
      RemoveContents(k, t);
      DeleteLength(InOrder(t), k);
      EmptyIsLeaf(Mutators.Remove(k, t));
    } else {
      RemoveAtAbsent(k, t);
    }
  }

  /** Concrete failing inputs: the one-entry black tree for each removal of its
      entry and for the removal of a larger key, and the empty tree for `Remove`. */
  lemma LastRemovalFails<V>(k: int, v: V)
    ensures var one := Node(k, v, Leaf, Leaf, 1, Black);
      InOrder(one) == [Entry(k, v)] && ValidRoot(one) &&
      RemoveMaxAsWritten(one).None? && RemoveMinAsWritten(one).None? &&
      RemoveAsWritten(k, one).None? && RemoveAsWritten(k + 1, one).None? &&
      RemoveAsWritten<V>(k, Leaf).None?
  {
    var one := Node(k, v, Leaf, Leaf, 1, Black);
    assert InOrder(one) == [Entry(k, v)] && InOrder(one)[0].key == k;
    assert Balanced(one) && TwoThreeRoot(one) && SizesOk(one) && Ordered(one);
    RemoveMaxAsWrittenFails(one);
    RemoveMinAsWrittenFails(one);
    RemoveAsWrittenFails(k, one);
  }
}
