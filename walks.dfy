/**
 * The two traversals that collect entries into a slice owned by the caller.
 * The slice is threaded through as an accumulator: each call hands back what
 * it was given with the entries it visited appended, in visiting order.
 */
module Walks {
  import opened Entries
  import opened Nodes

  /** `rangeSearch`: append the entries of `t` with `low < key < high`, visiting the
      left subtree only when the vertex's key is above `low` and the right subtree
      only when it is below `high`. */
  method RangeSearch<V>(acc: seq<Entry<V>>, low: int, high: int, t: Tree<V>) returns (out: seq<Entry<V>>)
    requires Ordered(t)
    ensures out == acc + Between(InOrder(t), low, high)
    decreases t
  {
    out := acc;
    if t.Leaf? {
      return;
    }
    OrderedChildren(t);
    if More(t.key, low) {
      out := RangeSearch(out, low, high, t.left);
    }
    ghost var afterLeft := out;
    if More(t.key, low) && More(high, t.key) {
      out := out + [Entry(t.key, t.value)];
    }
    ghost var afterHere := out;
    if More(high, t.key) {
      out := RangeSearch(out, low, high, t.right);
    }
    RangeAssemble(t, low, high, acc, afterLeft, afterHere, out);
  }

  lemma OrderedChildren<V>(t: Tree<V>)
    requires t.Node? && Ordered(t)
    ensures Ordered(t.left) && Ordered(t.right)
  {
    OrderedNode(t);
  }

  /** What the three stages of `rangeSearch` at a vertex append adds up to the open
      range of the whole subtree: skipping a side is safe because no key on it can
      lie inside the range. */
  lemma RangeAssemble<V>(t: Tree<V>, low: int, high: int, acc: seq<Entry<V>>,
                         afterLeft: seq<Entry<V>>, afterHere: seq<Entry<V>>, out: seq<Entry<V>>)
    requires t.Node? && Ordered(t)
    requires afterLeft == if t.key > low then acc + Between(InOrder(t.left), low, high) else acc
    requires afterHere == if low < t.key < high then afterLeft + [Entry(t.key, t.value)] else afterLeft
    requires out == if high > t.key then afterHere + Between(InOrder(t.right), low, high) else afterHere
    ensures out == acc + Between(InOrder(t), low, high)
  {
    var a, e, b := InOrder(t.left), Entry(t.key, t.value), InOrder(t.right);
    assert InOrder(t) == a + [e] + b;
    BetweenAt(a, e, b, low, high);
    var x := if t.key > low then Between(a, low, high) else [];
    var y := if low < t.key < high then [e] else [];
    var z := if high > t.key then Between(b, low, high) else [];
    Concat3(acc, x, y, z, afterLeft, afterHere, out);
  }

  lemma Concat3<T>(acc: seq<T>, x: seq<T>, y: seq<T>, z: seq<T>, l: seq<T>, m: seq<T>, out: seq<T>)
    requires l == acc + x && m == l + y && out == m + z
    ensures out == acc + (x + y + z)
  {
  }

  /** `inOrder`: append every entry of `t`, left subtree first, then the vertex,
      then the right subtree. */
  method InOrderWalk<V>(acc: seq<Entry<V>>, t: Tree<V>) returns (out: seq<Entry<V>>)
    ensures out == acc + InOrder(t)
    decreases t
  {
    out := acc;
    if t.Node? {
      out := InOrderWalk(out, t.left);
      out := out + [Entry(t.key, t.value)];
      out := InOrderWalk(out, t.right);
    }
  }
}
