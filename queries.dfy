/**
 * The read-only traversals: point lookup, the two extremes, and the order
 * statistics that use each vertex's recorded subtree size.
 *
 * Each routine is written the way the source computes it (a walk down one
 * path of the tree); the lemmas after it state what it means for the
 * in-order contents of the tree.
 */
module Queries {
  import opened Entries
  import opened Nodes

  /** Binary search by the key order. */
  function Find<V>(k: int, t: Tree<V>): Option<Entry<V>> {
    if t.Leaf? then None
    else if More(k, t.key) then Find(k, t.right)
    else if More(t.key, k) then Find(k, t.left)
    else Some(Entry(t.key, t.value))
  }

  /** Follow the left spine to its end. */
  function Min<V>(t: Tree<V>): Entry<V>
    requires t.Node?
  {
    if t.left.Leaf? then Entry(t.key, t.value) else Min(t.left)
  }

  /** Follow the right spine to its end. */
  function Max<V>(t: Tree<V>): Entry<V>
    requires t.Node?
  {
    if t.right.Leaf? then Entry(t.key, t.value) else Max(t.right)
  }

  /** The number of keys below `k`, from the left-subtree sizes along the search path. */
  function Rank<V>(k: int, t: Tree<V>): int {
    if t.Leaf? then 0
    else if More(t.key, k) then Rank(k, t.left)
    else if More(k, t.key) then Size(t.left) + 1 + Rank(k, t.right)
    else Size(t.left)
  }

  /** The entry of 0-based rank `i`, or nothing when `i` is out of range. */
  function Select<V>(i: int, t: Tree<V>): Option<Entry<V>> {
    if t.Leaf? then None
    else if i < Size(t.left) then Select(i, t.left)
    else if i > Size(t.left) then Select(i - Size(t.left) - 1, t.right)
    else Some(Entry(t.key, t.value))
  }

  /** The number of keys in the inclusive range [low, high]: rank difference, plus
      one if `high` itself is present; a malformed range counts nothing. */
  function CountRange<V>(low: int, high: int, t: Tree<V>): int {
    if More(low, high) then 0
    else Rank(high, t) - Rank(low, t) + (if Find(high, t).Some? then 1 else 0)
  }

  // ---------------------------------------------------------------------
  // Splitting the in-order walk at a vertex

  /** Searching right of a vertex skips its left subtree and the vertex itself. */
  lemma SplitRight<V>(t: Tree<V>, k: int)
    requires t.Node? && Ordered(t) && k > t.key
    ensures Ordered(t.right)
    ensures Lookup(InOrder(t), k) == Lookup(InOrder(t.right), k)
    ensures Below(InOrder(t), k) == InOrder(t.left) + [Entry(t.key, t.value)] + Below(InOrder(t.right), k)
  {
    OrderedNode(t);
    SplitAfter(InOrder(t.left), Entry(t.key, t.value), InOrder(t.right), k);
  }

  /** Searching left of a vertex never needs the vertex or its right subtree. */
  lemma SplitLeft<V>(t: Tree<V>, k: int)
    requires t.Node? && Ordered(t) && k < t.key
    ensures Ordered(t.left)
    ensures Lookup(InOrder(t), k) == Lookup(InOrder(t.left), k)
    ensures Below(InOrder(t), k) == Below(InOrder(t.left), k)
  {
    OrderedNode(t);
    SplitBefore(InOrder(t.left), Entry(t.key, t.value), InOrder(t.right), k);
  }

  /** At the vertex carrying the key, the search ends and the rank is the left part. */
  lemma SplitHere<V>(t: Tree<V>)
    requires t.Node? && Ordered(t)
    ensures Lookup(InOrder(t), t.key) == Some(Entry(t.key, t.value))
    ensures Below(InOrder(t), t.key) == InOrder(t.left)
  {
    SplitOn(InOrder(t.left), Entry(t.key, t.value), InOrder(t.right));
  }

  // ---------------------------------------------------------------------
  // What the queries compute

  /** `Find` returns exactly the entry stored for `k`, or nothing when `k` is absent. */
  lemma {:induction false} FindIsLookup<V>(k: int, t: Tree<V>)
    requires Ordered(t)
    ensures Find(k, t) == Lookup(InOrder(t), k)
  {
    if t.Node? {
      if k > t.key {
        SplitRight(t, k);
        FindIsLookup(k, t.right);
      } else if k < t.key {
        SplitLeft(t, k);
        FindIsLookup(k, t.left);
      } else {
        SplitHere(t);
      }
    }
  }

  lemma {:induction false} MinIsFirst<V>(t: Tree<V>)
    requires t.Node?
    ensures |InOrder(t)| > 0 && Min(t) == InOrder(t)[0]
  {
    if t.left.Node? {
      MinIsFirst(t.left);
    }
  }

  lemma {:induction false} MaxIsLast<V>(t: Tree<V>)
    requires t.Node?
    ensures |InOrder(t)| > 0 && Max(t) == InOrder(t)[|InOrder(t)| - 1]
  {
    if t.right.Node? {
      MaxIsLast(t.right);
    }
  }

  /** `Rank(k)` is the number of keys strictly less than `k`. */
  lemma {:induction false} RankCountsBelow<V>(k: int, t: Tree<V>)
    requires Ordered(t) && SizesOk(t)
    ensures Rank(k, t) == |Below(InOrder(t), k)|
  {
    if t.Node? {
      SizeCounts(t.left);
      if k > t.key {
        SplitRight(t, k);
        RankCountsBelow(k, t.right);
      } else if k < t.key {
        SplitLeft(t, k);
        RankCountsBelow(k, t.left);
      } else {
        SplitHere(t);
      }
    }
  }

  /** `Select(i)` is the entry at position `i` of the in-order walk; out of range, nothing. */
  lemma {:induction false} SelectIsIndex<V>(i: int, t: Tree<V>)
    requires SizesOk(t)
    ensures Select(i, t) == if 0 <= i < |InOrder(t)| then Some(InOrder(t)[i]) else None
  {
    if t.Node? {
      SizeCounts(t.left);
      SizeCounts(t.right);
      var a, e, b := InOrder(t.left), Entry(t.key, t.value), InOrder(t.right);
      assert InOrder(t) == a + [e] + b;
      if i < |a| {
        SelectIsIndex(i, t.left);
      } else if i > |a| {
        SelectIsIndex(i - |a| - 1, t.right);
      }
    }
  }

  /** Select inverts Rank on the keys that are present. */
  lemma SelectOfRank<V>(k: int, t: Tree<V>)
    requires Ordered(t) && SizesOk(t) && HasKey(InOrder(t), k)
    ensures Select(Rank(k, t), t) == Find(k, t)
    ensures Find(k, t).Some? && Find(k, t).value.key == k
  {
    var s := InOrder(t);
    RankCountsBelow(k, t);
    FindIsLookup(k, t);
    LookupFinds(s, k);
    var i :| 0 <= i < |s| && s[i].key == k;
    BelowPrefix(s, k, i);
    SelectIsIndex(i, t);
    LookupAscending(s, k, s[i]);
  }

  /** In an ascending sequence the entries below the key of position `i` are the first `i`. */
  lemma BelowPrefix<V>(s: seq<Entry<V>>, k: int, i: int)
    requires Ascending(s) && 0 <= i < |s| && s[i].key == k
    ensures |Below(s, k)| == i
  {
    assert s == s[..i] + s[i..];
    FilterConcat(s[..i], s[i..], x => x < k);
    FilterAll(s[..i], x => x < k);
    FilterNone(s[i..], x => x < k);
  }

  /** `Count(low, high)` is the number of keys in [low, high], 0 when low > high. */
  lemma CountIsWithin<V>(low: int, high: int, t: Tree<V>)
    requires Ordered(t) && SizesOk(t)
    ensures CountRange(low, high, t) == |Within(InOrder(t), low, high)|
    ensures low > high ==> CountRange(low, high, t) == 0
  {
    var s := InOrder(t);
    if low > high {
      FilterNone(s, x => low <= x <= high);
    } else {
      RankCountsBelow(high, t);
      RankCountsBelow(low, t);
      FindIsLookup(high, t);
      LookupFinds(s, high);
      WithinByRanks(s, low, high);
    }
  }

  lemma {:induction false} WithinByRanks<V>(s: seq<Entry<V>>, low: int, high: int)
    requires Ascending(s) && low <= high
    ensures |Within(s, low, high)| ==
      |Below(s, high)| - |Below(s, low)| + (if HasKey(s, high) then 1 else 0)
  {
    if s != [] {
      var rest := s[1..];
      assert Ascending(rest);
      WithinByRanks(rest, low, high);
      if s[0].key == high {
        NoKeyAbove(rest, high, high);
        assert HasKey(s, high);
      } else if HasKey(rest, high) {
        var i :| 0 <= i < |rest| && rest[i].key == high;
        assert s[i + 1] == rest[i];
        assert HasKey(s, high);
      }
    }
  }
}
