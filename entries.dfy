/**
 * Key/value entries as the tree hands them out to its clients, and the
 * ascending sequences of entries that give every tree its abstract meaning.
 *
 * Keys are modelled as `int` under their natural strict order; the tree only
 * ever asks one question of a key, "is a greater than b?" (see Nodes.More).
 */
module Entries {

  /** The client-facing pair of a key and its value (the exported `Node` struct). */
  datatype Entry<V> = Entry(key: int, value: V)

  datatype Option<T> = None | Some(value: T)

  /** Strictly ascending by key: the shape of every in-order walk of a search tree. */
  ghost predicate Ascending<V>(s: seq<Entry<V>>) {
    forall i, j :: 0 <= i < j < |s| ==> s[i].key < s[j].key
  }

  ghost predicate AllBelow<V>(s: seq<Entry<V>>, k: int) {
    forall i :: 0 <= i < |s| ==> s[i].key < k
  }

  ghost predicate AllAbove<V>(s: seq<Entry<V>>, k: int) {
    forall i :: 0 <= i < |s| ==> s[i].key > k
  }

  /** Does some entry of `s` carry key `k`? */
  ghost predicate HasKey<V>(s: seq<Entry<V>>, k: int) {
    exists i :: 0 <= i < |s| && s[i].key == k
  }

  /** The entries of `s` whose keys satisfy `p`, in their original order. */
  function Filter<V>(s: seq<Entry<V>>, p: int -> bool): seq<Entry<V>> {
    if s == [] then []
    else (if p(s[0].key) then [s[0]] else []) + Filter(s[1..], p)
  }

  /** Entries with key strictly less than `k`. */
  function Below<V>(s: seq<Entry<V>>, k: int): seq<Entry<V>> {
    Filter(s, x => x < k)
  }

  /** Entries with key strictly greater than `k`. */
  function Above<V>(s: seq<Entry<V>>, k: int): seq<Entry<V>> {
    Filter(s, x => x > k)
  }

  /** Entries with `low < key < high` (both bounds excluded). */
  function Between<V>(s: seq<Entry<V>>, low: int, high: int): seq<Entry<V>> {
    Filter(s, x => low < x < high)
  }

  /** Entries with `low <= key <= high` (both bounds included). */
  function Within<V>(s: seq<Entry<V>>, low: int, high: int): seq<Entry<V>> {
    Filter(s, x => low <= x <= high)
  }

  /** The first entry of `s` with key `k`, if any. */
  function Lookup<V>(s: seq<Entry<V>>, k: int): Option<Entry<V>> {
    if s == [] then None
    else if s[0].key == k then Some(s[0])
    else Lookup(s[1..], k)
  }

  /** `s` with `Entry(k, v)` in place of any entry for `k`, kept in key order. */
  function Insert<V>(s: seq<Entry<V>>, k: int, v: V): seq<Entry<V>> {
    Below(s, k) + [Entry(k, v)] + Above(s, k)
  }

  /** `s` without its entries for `k`. */
  function Delete<V>(s: seq<Entry<V>>, k: int): seq<Entry<V>> {
    Below(s, k) + Above(s, k)
  }

  // ---------------------------------------------------------------------
  // Filters

  lemma {:induction false} FilterConcat<V>(a: seq<Entry<V>>, b: seq<Entry<V>>, p: int -> bool)
    ensures Filter(a + b, p) == Filter(a, p) + Filter(b, p)
  {
    if a == [] {
      assert a + b == b;
    } else {
      var head := if p(a[0].key) then [a[0]] else [];
      assert (a + b)[0] == a[0];
      assert (a + b)[1..] == a[1..] + b;
      FilterConcat(a[1..], b, p);
      assert Filter(a + b, p) == head + (Filter(a[1..], p) + Filter(b, p));
      assert Filter(a, p) == head + Filter(a[1..], p);
    }
  }

  lemma {:induction false} FilterAll<V>(s: seq<Entry<V>>, p: int -> bool)
    requires forall i :: 0 <= i < |s| ==> p(s[i].key)
    ensures Filter(s, p) == s
  {
    if s != [] {
      FilterAll(s[1..], p);
    }
  }

  lemma {:induction false} FilterNone<V>(s: seq<Entry<V>>, p: int -> bool)
    requires forall i :: 0 <= i < |s| ==> !p(s[i].key)
    ensures Filter(s, p) == []
  {
    if s != [] {
      FilterNone(s[1..], p);
    }
  }

  /** A filter keeps exactly the entries that pass it, in order: it is a subsequence. */
  lemma {:induction false} FilterMembers<V>(s: seq<Entry<V>>, p: int -> bool, e: Entry<V>)
    ensures e in Filter(s, p) <==> e in s && p(e.key)
  {
    if s != [] {
      FilterMembers(s[1..], p, e);
      assert s == [s[0]] + s[1..];
    }
  }

  lemma {:induction false} FilterAscending<V>(s: seq<Entry<V>>, p: int -> bool)
    requires Ascending(s)
    ensures Ascending(Filter(s, p))
  {
    if s != [] {
      FilterAscending(s[1..], p);
      var f := Filter(s[1..], p);
      forall e | e in f ensures e.key > s[0].key {
        FilterMembers(s[1..], p, e);
      }
    }
  }

  // ---------------------------------------------------------------------
  // Ascending sequences

  lemma AscendingJoin<V>(a: seq<Entry<V>>, e: Entry<V>, b: seq<Entry<V>>)
    requires Ascending(a) && Ascending(b) && AllBelow(a, e.key) && AllAbove(b, e.key)
    ensures Ascending(a + [e] + b)
  {
    var s := a + [e] + b;
    forall i, j | 0 <= i < j < |s| ensures s[i].key < s[j].key {
      if j < |a| {
        assert s[i] == a[i] && s[j] == a[j];
      } else if i > |a| {
        assert s[i] == b[i - |a| - 1] && s[j] == b[j - |a| - 1];
      } else if i == |a| {
        assert s[j] == b[j - |a| - 1];
      } else if j == |a| {
        assert s[i] == a[i];
      } else {
        assert s[i] == a[i] && s[j] == b[j - |a| - 1];
      }
    }
  }

  lemma AscendingParts<V>(a: seq<Entry<V>>, e: Entry<V>, b: seq<Entry<V>>)
    requires Ascending(a + [e] + b)
    ensures Ascending(a) && Ascending(b) && AllBelow(a, e.key) && AllAbove(b, e.key)
  {
    var s := a + [e] + b;
    assert forall i :: 0 <= i < |a| ==> a[i] == s[i];
    assert forall i :: 0 <= i < |b| ==> b[i] == s[|a| + 1 + i];
    assert s[|a|] == e;
  }

  lemma AscendingSplit<V>(a: seq<Entry<V>>, e: Entry<V>, b: seq<Entry<V>>)
    ensures Ascending(a + [e] + b) <==>
      Ascending(a) && Ascending(b) && AllBelow(a, e.key) && AllAbove(b, e.key)
  {
    if Ascending(a + [e] + b) {
      AscendingParts(a, e, b);
    }
    if Ascending(a) && Ascending(b) && AllBelow(a, e.key) && AllAbove(b, e.key) {
      AscendingJoin(a, e, b);
    }
  }

  // ---------------------------------------------------------------------
  // Lookup

  lemma {:induction false} LookupConcat<V>(a: seq<Entry<V>>, b: seq<Entry<V>>, k: int)
    ensures Lookup(a + b, k) == if Lookup(a, k).Some? then Lookup(a, k) else Lookup(b, k)
  {
    if a == [] {
      assert a + b == b;
    } else {
      assert (a + b)[0] == a[0];
      assert (a + b)[1..] == a[1..] + b;
      LookupConcat(a[1..], b, k);
    }
  }

  /** Lookup finds an entry exactly when one carries the key, and what it finds is such an entry. */
  lemma {:induction false} LookupFinds<V>(s: seq<Entry<V>>, k: int)
    ensures Lookup(s, k).Some? <==> HasKey(s, k)
    ensures Lookup(s, k).Some? ==> Lookup(s, k).value in s && Lookup(s, k).value.key == k
  {
    if s != [] {
      LookupFinds(s[1..], k);
      if s[0].key != k && HasKey(s, k) {
        var i :| 0 <= i < |s| && s[i].key == k;
        assert s[1..][i - 1] == s[i];
      }
    }
  }

  /** In an ascending sequence at most one entry carries a key, so Lookup is exact. */
  lemma LookupAscending<V>(s: seq<Entry<V>>, k: int, e: Entry<V>)
    requires Ascending(s)
    ensures Lookup(s, k) == Some(e) <==> e in s && e.key == k
  {
    LookupFinds(s, k);
    if e in s && e.key == k {
      var f := Lookup(s, k).value;
      var i :| 0 <= i < |s| && s[i] == e;
      var j :| 0 <= j < |s| && s[j] == f;
      assert i == j;
    }
  }

  lemma NoKeyBelow<V>(s: seq<Entry<V>>, k: int, bound: int)
    requires AllBelow(s, bound) && bound <= k
    ensures !HasKey(s, k) && Lookup(s, k) == None
  {
    LookupFinds(s, k);
  }

  lemma NoKeyAbove<V>(s: seq<Entry<V>>, k: int, bound: int)
    requires AllAbove(s, bound) && k <= bound
    ensures !HasKey(s, k) && Lookup(s, k) == None
  {
    LookupFinds(s, k);
  }

  // ---------------------------------------------------------------------
  // An ascending sequence split around one of its entries

  /** A key below the splitting entry is found, and counted, in the left part only. */
  lemma SplitBefore<V>(a: seq<Entry<V>>, e: Entry<V>, b: seq<Entry<V>>, k: int)
    requires Ascending(a + [e] + b) && k < e.key
    ensures Lookup(a + [e] + b, k) == Lookup(a, k)
    ensures Below(a + [e] + b, k) == Below(a, k)
    ensures Above(a + [e] + b, k) == Above(a, k) + [e] + b
  {
    AscendingParts(a, e, b);
    var c := [e] + b;
    assert a + [e] + b == a + c;
    assert AllAbove(c, k) by {
      forall i | 0 <= i < |c| ensures c[i].key > k {
        if i > 0 { assert c[i] == b[i - 1]; }
      }
    }
    NoKeyAbove(c, k, k);
    LookupConcat(a, c, k);
    LookupFinds(a, k);
    FilterConcat(a, c, x => x < k);
    FilterNone(c, x => x < k);
    FilterConcat(a, c, x => x > k);
    FilterAll(c, x => x > k);
  }

  /** A key above the splitting entry is found, and counted, in the right part only. */
  lemma SplitAfter<V>(a: seq<Entry<V>>, e: Entry<V>, b: seq<Entry<V>>, k: int)
    requires Ascending(a + [e] + b) && k > e.key
    ensures Lookup(a + [e] + b, k) == Lookup(b, k)
    ensures Below(a + [e] + b, k) == a + [e] + Below(b, k)
    ensures Above(a + [e] + b, k) == Above(b, k)
  {
    AscendingParts(a, e, b);
    var c := a + [e];
    assert AllBelow(c, k) by {
      forall i | 0 <= i < |c| ensures c[i].key < k {
        if i < |a| { assert c[i] == a[i]; }
      }
    }
    NoKeyBelow(c, k, k);
    LookupConcat(c, b, k);
    FilterConcat(c, b, x => x < k);
    FilterAll(c, x => x < k);
    FilterConcat(c, b, x => x > k);
    FilterNone(c, x => x > k);
  }

  /** At the splitting entry's own key, the entry is what is found and it separates
      the keys below from the keys above. */
  lemma SplitOn<V>(a: seq<Entry<V>>, e: Entry<V>, b: seq<Entry<V>>)
    requires Ascending(a + [e] + b)
    ensures Lookup(a + [e] + b, e.key) == Some(e)
    ensures Below(a + [e] + b, e.key) == a
    ensures Above(a + [e] + b, e.key) == b
  {
    AscendingParts(a, e, b);
    var k := e.key;
    assert a + [e] + b == a + ([e] + b);
    assert Lookup(a + [e] + b, k) == Some(e) by {
      NoKeyBelow(a, k, k);
      LookupConcat(a, [e] + b, k);
    }
    assert Below(a + [e] + b, k) == a by {
      FilterConcat(a, [e] + b, x => x < k);
      FilterAll(a, x => x < k);
      FilterNone([e] + b, x => x < k);
    }
    assert Above(a + [e] + b, k) == b by {
      FilterConcat(a + [e], b, x => x > k);
      FilterNone(a + [e], x => x > k);
      FilterAll(b, x => x > k);
    }
  }

  // ---------------------------------------------------------------------
  // What insertion and deletion do to the map

  /** A lookup through a filter sees exactly the keys the filter lets pass. */
  lemma {:induction false} LookupFilter<V>(s: seq<Entry<V>>, p: int -> bool, j: int)
    ensures Lookup(Filter(s, p), j) == if p(j) then Lookup(s, j) else None
  {
    if s != [] {
      LookupFilter(s[1..], p, j);
      var head := if p(s[0].key) then [s[0]] else [];
      LookupConcat(head, Filter(s[1..], p), j);
    }
  }

  /** After inserting `k`, looking up `k` gives the new entry and every other key
      gives what it gave before. */
  lemma InsertLookup<V>(s: seq<Entry<V>>, k: int, v: V, j: int)
    ensures Lookup(Insert(s, k, v), j) == if j == k then Some(Entry(k, v)) else Lookup(s, j)
  {
    LookupConcat(Below(s, k) + [Entry(k, v)], Above(s, k), j);
    LookupConcat(Below(s, k), [Entry(k, v)], j);
    LookupFilter(s, x => x < k, j);
    LookupFilter(s, x => x > k, j);
    if j != k {
      LookupAllOrNone(s, j, k);
    }
  }

  /** After deleting `k`, `k` is not found and every other key gives what it gave before. */
  lemma DeleteLookup<V>(s: seq<Entry<V>>, k: int, j: int)
    ensures Lookup(Delete(s, k), j) == if j == k then None else Lookup(s, j)
  {
    LookupConcat(Below(s, k), Above(s, k), j);
    LookupFilter(s, x => x < k, j);
    LookupFilter(s, x => x > k, j);
    if j != k {
      LookupAllOrNone(s, j, k);
    }
  }

  /** A key other than `k` lies on one side of `k`, and is found there or nowhere. */
  lemma LookupAllOrNone<V>(s: seq<Entry<V>>, j: int, k: int)
    requires j != k
    ensures j < k ==> Lookup(Filter(s, x => x < k), j) == Lookup(s, j) && Lookup(Filter(s, x => x > k), j) == None
    ensures j > k ==> Lookup(Filter(s, x => x > k), j) == Lookup(s, j) && Lookup(Filter(s, x => x < k), j) == None
  {
    LookupFilter(s, x => x < k, j);
    LookupFilter(s, x => x > k, j);
  }

  /** Every entry falls below, above or on `k`. */
  lemma {:induction false} FilterThreeWay<V>(s: seq<Entry<V>>, k: int)
    ensures |Below(s, k)| + |Above(s, k)| + |Filter(s, x => x == k)| == |s|
  {
    if s != [] {
      FilterThreeWay(s[1..], k);
    }
  }

  /** An ascending sequence holds each key at most once. */
  lemma {:induction false} KeyOnce<V>(s: seq<Entry<V>>, k: int)
    requires Ascending(s)
    ensures |Filter(s, x => x == k)| == if HasKey(s, k) then 1 else 0
  {
    if s != [] {
      var rest := s[1..];
      assert Ascending(rest);
      KeyOnce(rest, k);
      if s[0].key == k {
        assert AllAbove(rest, k);
        FilterNone(rest, x => x == k);
      } else if HasKey(rest, k) {
        var i :| 0 <= i < |rest| && rest[i].key == k;
        assert s[i + 1] == rest[i];
      }
    }
  }

  /** Insertion grows the map by one entry exactly when the key was absent. */
  lemma InsertLength<V>(s: seq<Entry<V>>, k: int, v: V)
    requires Ascending(s)
    ensures |Insert(s, k, v)| == if HasKey(s, k) then |s| else |s| + 1
  {
    FilterThreeWay(s, k);
    KeyOnce(s, k);
  }

  /** Deletion shrinks the map by one entry exactly when the key was present. */
  lemma DeleteLength<V>(s: seq<Entry<V>>, k: int)
    requires Ascending(s)
    ensures |Delete(s, k)| == if HasKey(s, k) then |s| - 1 else |s|
  {
    FilterThreeWay(s, k);
    KeyOnce(s, k);
  }

  /** The parts of an ascending sequence on either side of `k` are ascending and separated by `k`. */
  lemma SidesAscending<V>(s: seq<Entry<V>>, k: int)
    requires Ascending(s)
    ensures Ascending(Below(s, k)) && Ascending(Above(s, k))
    ensures AllBelow(Below(s, k), k) && AllAbove(Above(s, k), k)
  {
    FilterAscending(s, x => x < k);
    FilterAscending(s, x => x > k);
    var b, a := Below(s, k), Above(s, k);
    forall i | 0 <= i < |b| ensures b[i].key < k {
      FilterMembers(s, x => x < k, b[i]);
    }
    forall i | 0 <= i < |a| ensures a[i].key > k {
      FilterMembers(s, x => x > k, a[i]);
    }
  }

  lemma InsertAscending<V>(s: seq<Entry<V>>, k: int, v: V)
    requires Ascending(s)
    ensures Ascending(Insert(s, k, v))
  {
    SidesAscending(s, k);
    AscendingJoin(Below(s, k), Entry(k, v), Above(s, k));
  }

  lemma DeleteAscending<V>(s: seq<Entry<V>>, k: int)
    requires Ascending(s)
    ensures Ascending(Delete(s, k))
  {
    SidesAscending(s, k);
    var b, a := Below(s, k), Above(s, k);
    var d := b + a;
    forall i, j | 0 <= i < j < |d| ensures d[i].key < d[j].key {
      if j < |b| {
        assert d[i] == b[i] && d[j] == b[j];
      } else if i >= |b| {
        assert d[i] == a[i - |b|] && d[j] == a[j - |b|];
      } else {
        assert d[i] == b[i] && d[j] == a[j - |b|];
      }
    }
  }

  // ---------------------------------------------------------------------
  // Insertion and deletion in an ascending sequence split around one entry

  lemma InsertAfter<V>(a: seq<Entry<V>>, e: Entry<V>, b: seq<Entry<V>>, k: int, v: V)
    requires Ascending(a + [e] + b) && k > e.key
    ensures Insert(a + [e] + b, k, v) == a + [e] + Insert(b, k, v)
    ensures Delete(a + [e] + b, k) == a + [e] + Delete(b, k)
  {
    SplitAfter(a, e, b, k);
  }

  lemma InsertBefore<V>(a: seq<Entry<V>>, e: Entry<V>, b: seq<Entry<V>>, k: int, v: V)
    requires Ascending(a + [e] + b) && k < e.key
    ensures Insert(a + [e] + b, k, v) == Insert(a, k, v) + [e] + b
    ensures Delete(a + [e] + b, k) == Delete(a, k) + [e] + b
  {
    SplitBefore(a, e, b, k);
  }

  lemma InsertOn<V>(a: seq<Entry<V>>, e: Entry<V>, b: seq<Entry<V>>, v: V)
    requires Ascending(a + [e] + b)
    ensures Insert(a + [e] + b, e.key, v) == a + [Entry(e.key, v)] + b
    ensures Delete(a + [e] + b, e.key) == a + b
  {
    SplitOn(a, e, b);
  }

  /** Dropping the last entry of a split sequence drops it from the right part. */
  lemma DropLastJoin<V>(a: seq<Entry<V>>, e: Entry<V>, b: seq<Entry<V>>)
    requires |b| > 0
    ensures (a + [e] + b)[..|a + [e] + b| - 1] == a + [e] + b[..|b| - 1]
  {
    assert b == b[..|b| - 1] + [b[|b| - 1]];
    assert a + [e] + b == (a + [e] + b[..|b| - 1]) + [b[|b| - 1]];
  }

  /** Dropping the first entry of a split sequence drops it from the left part. */
  lemma DropFirstJoin<V>(a: seq<Entry<V>>, e: Entry<V>, b: seq<Entry<V>>)
    requires |a| > 0
    ensures (a + [e] + b)[1..] == a[1..] + [e] + b
  {
    assert a == [a[0]] + a[1..];
    assert a + [e] + b == [a[0]] + (a[1..] + [e] + b);
  }
  // ---------------------------------------------------------------------
  // Ranges and absent keys

  /** The open range `(low, high)` of a split sequence: the left part only when the
      splitting key is above `low`, the splitting entry when it is inside, the right
      part only when the splitting key is below `high`. */
  lemma BetweenAt<V>(a: seq<Entry<V>>, e: Entry<V>, b: seq<Entry<V>>, low: int, high: int)
    requires Ascending(a + [e] + b)
    ensures Between(a + [e] + b, low, high) ==
      (if e.key > low then Between(a, low, high) else []) +
      (if low < e.key < high then [e] else []) +
      (if high > e.key then Between(b, low, high) else [])
  {
    AscendingParts(a, e, b);
    var p := x => low < x < high;
    FilterConcat(a + [e], b, p);
    FilterConcat(a, [e], p);
    assert Filter([e], p) == if p(e.key) then [e] else [];
    if e.key <= low {
      FilterNone(a, p);
    }
    if high <= e.key {
      FilterNone(b, p);
    }
  }

  /** The open range of an ascending sequence is ascending and holds exactly the
      entries whose keys lie strictly between the bounds. */
  lemma BetweenMeans<V>(s: seq<Entry<V>>, low: int, high: int)
    requires Ascending(s)
    ensures Ascending(Between(s, low, high))
    ensures forall e :: e in Between(s, low, high) <==> e in s && low < e.key < high
  {
    FilterAscending(s, x => low < x < high);
    forall e ensures e in Between(s, low, high) <==> e in s && low < e.key < high {
      FilterMembers(s, x => low < x < high, e);
    }
  }

  /** Deleting a key that is not there changes nothing. */
  lemma DeleteAbsent<V>(s: seq<Entry<V>>, k: int)
    requires Ascending(s) && !HasKey(s, k)
    ensures Delete(s, k) == s
  {
    KeyMissing(s, k);
  }

  /** An ascending sequence without key `k` is its part below `k` followed by its part above. */
  lemma KeyMissing<V>(s: seq<Entry<V>>, k: int)
    requires Ascending(s) && forall i :: 0 <= i < |s| ==> s[i].key != k
    ensures Below(s, k) + Above(s, k) == s
  {
    var n := SplitPoint(s, k);
    var lo, hi := s[..n], s[n..];
    assert s == lo + hi;
    SidesConcat(lo, hi, k);
    SideBelow(lo, k);
    SideAbove(hi, k);
  }

  /** Where an ascending sequence without key `k` passes from below `k` to above it. */
  lemma SplitPoint<V>(s: seq<Entry<V>>, k: int) returns (n: nat)
    requires Ascending(s) && forall i :: 0 <= i < |s| ==> s[i].key != k
    ensures n <= |s| && AllBelow(s[..n], k) && AllAbove(s[n..], k)
  {
    n := 0;
    while n < |s| && s[n].key < k
      invariant 0 <= n <= |s|
      invariant forall i :: 0 <= i < n ==> s[i].key < k
    {
      n := n + 1;
    }
    var hi := s[n..];
    forall i | 0 <= i < |hi| ensures hi[i].key > k {
      assert hi[i] == s[n + i];
    }
  }

  lemma SidesConcat<V>(a: seq<Entry<V>>, b: seq<Entry<V>>, k: int)
    ensures Below(a + b, k) == Below(a, k) + Below(b, k)
    ensures Above(a + b, k) == Above(a, k) + Above(b, k)
  {
    FilterConcat(a, b, x => x < k);
    FilterConcat(a, b, x => x > k);
  }

  lemma SideBelow<V>(s: seq<Entry<V>>, k: int)
    requires AllBelow(s, k)
    ensures Below(s, k) == s && Above(s, k) == []
  {
    FilterAll(s, x => x < k);
    FilterNone(s, x => x > k);
  }

  lemma SideAbove<V>(s: seq<Entry<V>>, k: int)
    requires AllAbove(s, k)
    ensures Below(s, k) == [] && Above(s, k) == s
  {
    FilterNone(s, x => x < k);
    FilterAll(s, x => x > k);
  }
}
