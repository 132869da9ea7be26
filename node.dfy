/**
 * The tree vertex and its nil-safe accessors.
 *
 * A vertex records the colour of the link that enters it from its parent:
 * a blue link glues the vertex to its parent as one multi-key node of the
 * underlying 2-3 tree, a black link is a genuine binary split.  The empty
 * link (Go's nil) is `Leaf`.
 */
module Nodes {
  import opened Entries

  const Blue: bool := true
  const Black: bool := false

  datatype Tree<V> =
    | Leaf
    | Node(key: int, value: V, left: Tree<V>, right: Tree<V>, size: nat, blue: bool)

  /** The key order the tree is built on: `a.More(b)`, a strict "greater than". */
  predicate More(a: int, b: int) {
    a > b
  }

  /** `a.more(b)`: compares the keys of two present nodes. */
  predicate MoreNode<V>(a: Tree<V>, b: Tree<V>)
    requires a.Node? && b.Node?
  {
    More(a.key, b.key)
  }

  /** The recorded subtree size, 0 for the empty link. */
  function Size<V>(t: Tree<V>): nat {
    if t.Leaf? then 0 else t.size
  }

  /** Is the link into `t` blue?  The empty link is never blue. */
  predicate IsBlue<V>(t: Tree<V>) {
    t.Node? && t.blue
  }

  /** A fresh node: no children, size 1, entering by a blue link. */
  function NewNode<V>(k: int, v: V): Tree<V> {
    Node(k, v, Leaf, Leaf, 1, Blue)
  }

  /** The entries of `t` in left-to-right order: the abstract value of a subtree. */
  function InOrder<V>(t: Tree<V>): seq<Entry<V>> {
    match t
    case Leaf => []
    case Node(k, v, l, r, _, _) => InOrder(l) + [Entry(k, v)] + InOrder(r)
  }

  /** Search-tree order: the in-order walk is strictly ascending. */
  ghost predicate Ordered<V>(t: Tree<V>) {
    Ascending(InOrder(t))
  }

  /** Every node records the number of nodes below and including it. */
  ghost predicate SizesOk<V>(t: Tree<V>) {
    match t
    case Leaf => true
    case Node(_, _, l, r, n, _) => n == Size(l) + Size(r) + 1 && SizesOk(l) && SizesOk(r)
  }

  // ---------------------------------------------------------------------
  // Facts about the accessors

  /** `size` is consistent with the in-order contents wherever the size invariant holds. */
  lemma {:induction false} SizeCounts<V>(t: Tree<V>)
    requires SizesOk(t)
    ensures Size(t) == |InOrder(t)|
  {
    if t.Node? {
      SizeCounts(t.left);
      SizeCounts(t.right);
    }
  }

  /** A fresh node holds exactly its one entry, with a consistent size, and is blue. */
  lemma NewNodeIsSingleton<V>(k: int, v: V)
    ensures InOrder(NewNode(k, v)) == [Entry(k, v)]
    ensures SizesOk(NewNode(k, v)) && Ordered(NewNode(k, v))
    ensures Size(NewNode(k, v)) == 1 && IsBlue(NewNode(k, v))
  {
  }

  /** Under the strict order on keys, exactly one of a > b, b > a, a == b holds. */
  lemma MoreTrichotomy<V>(a: Tree<V>, b: Tree<V>)
    requires a.Node? && b.Node?
    ensures MoreNode(a, b) || MoreNode(b, a) || a.key == b.key
    ensures !(MoreNode(a, b) && MoreNode(b, a))
    ensures a.key == b.key ==> !MoreNode(a, b) && !MoreNode(b, a)
  {
  }

  /** The in-order walk of a node splits at its key. */
  lemma OrderedNode<V>(t: Tree<V>)
    requires t.Node?
    ensures Ordered(t) <==>
      Ordered(t.left) && Ordered(t.right) &&
      AllBelow(InOrder(t.left), t.key) && AllAbove(InOrder(t.right), t.key)
  {
    AscendingSplit(InOrder(t.left), Entry(t.key, t.value), InOrder(t.right));
  }
}
