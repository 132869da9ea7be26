/**
 * The public face of the tree: a `BBTree` object owning a root link, whose
 * methods run the recursive routines on the root, store the new root and
 * force the root's link black.
 *
 * Between public operations the root satisfies `ValidRoot`: its in-order walk
 * is strictly ascending, every recorded size is right, it is a balanced 2-3
 * tree and its own link is black.  The lemmas of the first part show that every
 * mutation keeps this and what it does to the in-order contents; the class
 * then states each operation against `Contents()`, the ascending sequence of
 * entries the tree represents.
 */
module BBTrees {
  import opened Entries
  import opened Nodes
  import opened Balance
  import opened DeleteShape
  import opened Queries
  import opened Mutators
  import opened MutatorLaws
  import opened Walks

  /** The invariant kept between public operations. */
  ghost predicate ValidRoot<V>(t: Tree<V>) {
    Ordered(t) && SizesOk(t) && WellShaped(t) && !IsBlue(t)
  }

  /** The facade's `root.parentColor = black`, skipping the empty tree. */
  function PaintRoot<V>(t: Tree<V>): (r: Tree<V>)
    ensures InOrder(r) == InOrder(t) && !IsBlue(r) && (r.Leaf? <==> t.Leaf?)
    ensures SizesOk(t) ==> SizesOk(r)
    ensures WellShaped(t) ==> WellShaped(r)
  {
    if t.Leaf? then t
    else
      Recolour(t, Black);
      t.(blue := Black)
  }

  /** An empty in-order walk is exactly the empty link. */
  lemma EmptyIsLeaf<V>(t: Tree<V>)
    ensures InOrder(t) == [] <==> t.Leaf?
  {
    if t.Node? {
      assert InOrder(t)[|InOrder(t.left)|] == Entry(t.key, t.value);
    }
  }

  /** A non-empty valid root is a vertex every deletion may start from. */
  lemma RootDescends<V>(t: Tree<V>)
    requires ValidRoot(t) && t.Node?
    ensures MaxDescent(t) && Descent(t)
  {
  }

  /** A valid tree is logarithmically high: with `b` black links on every path,
      it is at most `2 * b` vertices high and holds at least `2^b - 1` entries. */
  lemma HeightIsLogarithmic<V>(t: Tree<V>)
    requires ValidRoot(t)
    ensures Height(t) <= 2 * BlackLinks(t)
    ensures Pow2(BlackLinks(t)) <= Size(t) + 1
  {
    if t.Node? {
      Recolour(t, Black);
      assert t.(blue := Black) == t;
    }
    HeightByBlackLinks(t);
    SizeByBlackLinks(t);
  }

  // ---------------------------------------------------------------------
  // Each public mutation keeps the invariant

  lemma PutKeepsValid<V>(t: Tree<V>, k: int, v: V)
    requires ValidRoot(t)
    ensures ValidRoot(PaintRoot(Mutators.Put(t, k, v)))
    ensures InOrder(PaintRoot(Mutators.Put(t, k, v))) == Insert(InOrder(t), k, v)
  {
    PutContents(t, k, v);
    PutShape(t, k, v);
  }

  lemma RemoveMaxKeepsValid<V>(t: Tree<V>)
    requires ValidRoot(t) && t.Node?
    ensures ValidRoot(PaintRoot(Mutators.RemoveMax(t)))
    ensures InOrder(PaintRoot(Mutators.RemoveMax(t))) == InOrder(t)[..|InOrder(t)| - 1]
  {
    RootDescends(t);
    RemoveMaxContents(t);
    RemoveMaxShape(t);
    AscendingPrefix(InOrder(t), |InOrder(t)| - 1);
  }

  lemma RemoveMinKeepsValid<V>(t: Tree<V>)
    requires ValidRoot(t) && t.Node?
    ensures ValidRoot(PaintRoot(Mutators.RemoveMin(t)))
    ensures InOrder(PaintRoot(Mutators.RemoveMin(t))) == InOrder(t)[1..]
  {
    RootDescends(t);
    RemoveMinContents(t);
    RemoveMinShape(t);
    AscendingSuffix(InOrder(t));
  }

  lemma RemoveKeepsValid<V>(t: Tree<V>, k: int)
    requires ValidRoot(t) && HasKey(InOrder(t), k)
    ensures ValidRoot(PaintRoot(Mutators.Remove(k, t)))
    ensures InOrder(PaintRoot(Mutators.Remove(k, t))) == Delete(InOrder(t), k)
  {
    RemoveEntry(t, k);
    RemoveContents(k, t);
    RemoveShape(k, t);
    DeleteAscending(InOrder(t), k);
  }

  /** A valid root holding `k` is where `remove(k, ·)` may start. */
  lemma RemoveEntry<V>(t: Tree<V>, k: int)
    requires ValidRoot(t) && HasKey(InOrder(t), k)
    ensures RemoveDescent(k, t)
  {
    EmptyIsLeaf(t);
  }

  lemma AscendingPrefix<V>(s: seq<Entry<V>>, n: nat)
    requires Ascending(s) && n <= |s|
    ensures Ascending(s[..n])
  {
  }

  lemma AscendingSuffix<V>(s: seq<Entry<V>>)
    requires Ascending(s) && |s| > 0
    ensures Ascending(s[1..])
  {
  }

  // ---------------------------------------------------------------------
  // The tree object

  class BBTree<V> {
    var root: Tree<V>

    ghost predicate Valid()
      reads this
    {
      ValidRoot(root)
    }

    /** The entries the tree holds, in ascending key order. */
    ghost function Contents(): seq<Entry<V>>
      reads this
    {
      Nodes.InOrder(root)
    }

    /** A new tree is empty. */
    constructor ()
      ensures Valid() && Contents() == []
    {
      root := Leaf;
    }

    function IsEmpty(): (b: bool)
      reads this
      ensures b <==> Contents() == []
    {
      EmptyIsLeaf(root);
      root.Leaf?
    }

    /** Insert `k` with value `v`, or overwrite the value of `k`. */
    method Put(k: int, v: V)
      requires Valid()
      modifies this
      ensures Valid() && Contents() == Insert(old(Contents()), k, v)
      ensures Lookup(Contents(), k) == Some(Entry(k, v))
      ensures forall j :: j != k ==> Lookup(Contents(), j) == Lookup(old(Contents()), j)
      ensures |Contents()| == if HasKey(old(Contents()), k) then |old(Contents())| else |old(Contents())| + 1
    {
      ghost var s := Contents();
      PutKeepsValid(root, k, v);
      root := PaintRoot(Mutators.Put(root, k, v));
      forall j ensures Lookup(Contents(), j) == if j == k then Some(Entry(k, v)) else Lookup(s, j) {
        InsertLookup(s, k, v, j);
      }
      InsertLength(s, k, v);
    }

    /** Remove the entry of largest key; nothing happens to an empty tree. */
    method RemoveMax()
      requires Valid()
      modifies this
      ensures Valid()
      ensures Contents() == if old(Contents()) == [] then [] else old(Contents())[..|old(Contents())| - 1]
    {
      if IsEmpty() {
        return;
      }
      RemoveMaxKeepsValid(root);
      root := PaintRoot(Mutators.RemoveMax(root));
    }

    /** Remove the entry of smallest key; nothing happens to an empty tree. */
    method RemoveMin()
      requires Valid()
      modifies this
      ensures Valid()
      ensures Contents() == if old(Contents()) == [] then [] else old(Contents())[1..]
    {
      if IsEmpty() {
        return;
      }
      RemoveMinKeepsValid(root);
      root := PaintRoot(Mutators.RemoveMin(root));
    }

    /** Remove the entry of `k`; nothing happens when `k` is absent. */
    method Remove(k: int)
      requires Valid()
      modifies this
      ensures Valid() && Contents() == Delete(old(Contents()), k)
      ensures Lookup(Contents(), k) == None
      ensures forall j :: j != k ==> Lookup(Contents(), j) == Lookup(old(Contents()), j)
      ensures |Contents()| == if HasKey(old(Contents()), k) then |old(Contents())| - 1 else |old(Contents())|
    {
      ghost var s := Contents();
      FindIsLookup(k, root);
      LookupFinds(s, k);
      if Queries.Find(k, root).Some? {
        RemoveKeepsValid(root, k);
        root := PaintRoot(Mutators.Remove(k, root));
      } else {
        DeleteAbsent(s, k);
      }
      forall j ensures Lookup(Contents(), j) == if j == k then None else Lookup(s, j) {
        DeleteLookup(s, k, j);
      }
      DeleteLength(s, k);
    }

    /** The entry stored for `k`, if any. */
    function Find(k: int): (r: Option<Entry<V>>)
      requires Valid()
      reads this
      ensures r == Lookup(Contents(), k)
      ensures r.Some? <==> HasKey(Contents(), k)
      ensures r.Some? ==> r.value in Contents() && r.value.key == k
    {
      FindIsLookup(k, root);
      LookupFinds(Contents(), k);
      Queries.Find(k, root)
    }

    /** The entry of smallest key, or nothing on an empty tree. */
    function Min(): (r: Option<Entry<V>>)
      requires Valid()
      reads this
      ensures r.None? <==> Contents() == []
      ensures r.Some? ==> r.value == Contents()[0]
      ensures r.Some? ==> forall i :: 0 < i < |Contents()| ==> r.value.key < Contents()[i].key
    {
      if root.Leaf? then None
      else
        MinIsFirst(root);
        Some(Queries.Min(root))
    }

    /** The entry of largest key, or nothing on an empty tree. */
    function Max(): (r: Option<Entry<V>>)
      requires Valid()
      reads this
      ensures r.None? <==> Contents() == []
      ensures r.Some? ==> r.value == Contents()[|Contents()| - 1]
      ensures r.Some? ==> forall i :: 0 <= i < |Contents()| - 1 ==> Contents()[i].key < r.value.key
    {
      if root.Leaf? then None
      else
        MaxIsLast(root);
        Some(Queries.Max(root))
    }

    /** The number of entries. */
    function Size(): (n: int)
      requires Valid()
      reads this
      ensures n == |Contents()|
    {
      SizeCounts(root);
      Nodes.Size(root)
    }

    /** The number of keys strictly less than `k`. */
    function Rank(k: int): (r: int)
      requires Valid()
      reads this
      ensures r == |Below(Contents(), k)|
    {
      RankCountsBelow(k, root);
      Queries.Rank(k, root)
    }

    /** The entry of 0-based rank `i`, or nothing when `i` is out of range. */
    function Select(i: int): (r: Option<Entry<V>>)
      requires Valid()
      reads this
      ensures r == if 0 <= i < |Contents()| then Some(Contents()[i]) else None
    {
      SelectIsIndex(i, root);
      Queries.Select(i, root)
    }

    /** The number of keys in the inclusive range [low, high]. */
    function Count(low: int, high: int): (r: int)
      requires Valid()
      reads this
      ensures r == |Within(Contents(), low, high)|
      ensures low > high ==> r == 0
    {
      CountIsWithin(low, high, root);
      CountRange(low, high, root)
    }

    /** The entries with keys in the open range (low, high), ascending. */
    method Range(low: int, high: int) returns (out: seq<Entry<V>>)
      requires Valid()
      ensures out == Between(Contents(), low, high)
      ensures Ascending(out)
      ensures forall e :: e in out <==> e in Contents() && low < e.key < high
    {
      out := RangeSearch([], low, high, root);
      BetweenMeans(Contents(), low, high);
    }

    /** Every entry, ascending. */
    method InOrder() returns (out: seq<Entry<V>>)
      requires Valid()
      ensures out == Contents() && Ascending(out)
    {
      out := [];
      if IsEmpty() {
        return;
      }
      out := InOrderWalk(out, root);
    }
  }
}
