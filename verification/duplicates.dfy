/**
 * Duplicate detection with in-place removal: a container scans an array
 * once, records one `DuplicateItem` for every position whose key occurs
 * more than once, and lets a caller splice recorded items out of the
 * array one at a time while every other record keeps pointing at its
 * element.
 *
 * The scan over values and the scan over one field of the items are the
 * same algorithm with a different key: the value scan is the item scan
 * with the identity key.
 */
module Duplicates {
  import opened DuplicateScan

  function Identity<T>(x: T): T {
    x
  }

  /** `s` without its element at position `t`: `s.splice(t, 1)`. */
  function Drop<T>(s: seq<T>, t: int): (r: seq<T>)
    requires 0 <= t < |s|
    ensures |r| == |s| - 1
    ensures forall p :: 0 <= p < t ==> r[p] == s[p]
    ensures forall p :: t <= p < |r| ==> r[p] == s[p + 1]
  {
    s[..t] + s[t + 1..]
  }

  /** Dropping an element of a strictly ascending sequence keeps it ascending and loses exactly that element. */
  lemma DropAscending(s: seq<int>, t: int)
    requires 0 <= t < |s|
    requires forall p, q :: 0 <= p < q < |s| ==> s[p] < s[q]
    ensures forall p, q :: 0 <= p < q < |Drop(s, t)| ==> Drop(s, t)[p] < Drop(s, t)[q]
    ensures forall v :: v in Drop(s, t) <==> v in s && v != s[t]
  {
    var r := Drop(s, t);
    forall v ensures v in r <==> v in s && v != s[t] {
      if v in r {
        var p :| 0 <= p < |r| && r[p] == v;
        if p < t {
          assert s[p] == v;
        } else {
          assert s[p + 1] == v;
        }
      }
      if v in s && v != s[t] {
        var p :| 0 <= p < |s| && s[p] == v;
        if p < t {
          assert r[p] == v;
        } else {
          assert r[p - 1] == v;
        }
      }
    }
  }

  /** The positions `0 .. n-1`, in order. */
  function Positions(n: nat): (r: seq<int>)
    ensures |r| == n && forall p :: 0 <= p < n ==> r[p] == p
  {
    if n == 0 then [] else Positions(n - 1) + [n - 1]
  }

  /**
   * Where a record's index moves when the element at `t` is spliced out:
   * one place down for a live record behind it, nowhere otherwise.
   */
  function Shifted(index: int, removed: bool, t: int): (r: int)
    ensures index - 1 <= r <= index
    ensures r < index <==> t < index && !removed
    ensures t < index ==> t <= r
  {
    if t < index && !removed then index - 1 else index
  }

  /** The mutable part of a record: its current index and its three flags. */
  datatype Flags = Flags(index: int, first: bool, last: bool, removed: bool)

  /**
   * The record scanned at `origin`, with flags `f`, agrees with the scan and
   * with the removals so far: its flags say whether that position is the
   * first or last of its key, and a live record's index is where its element
   * sits now, while a removed record's element is gone.
   */
  ghost predicate RecordConsistent<K(!new)>(keys: seq<K>, survivors: seq<int>, origin: int, f: Flags) {
    && 0 <= origin < |keys|
    && f.first == IsFirst(keys, origin)
    && f.last == IsLast(keys, origin)
    && if f.removed then origin !in survivors
       else 0 <= f.index < |survivors| && survivors[f.index] == origin
  }

  /**
   * The state of a container, as values: the records were made for exactly
   * the duplicated positions of the scanned array `original`, ascending; the
   * array `elements` is `original` with some elements removed, in their
   * original order (`survivors[p]` is where `elements[p]` was scanned); only
   * elements of removed records are gone; and every record is consistent.
   */
  ghost predicate Consistent<T, K(!new)>(original: seq<T>, keys: seq<K>, elements: seq<T>, survivors: seq<int>,
                                         origins: seq<int>, flags: seq<Flags>) {
    && |keys| == |original|
    && origins == DuplicatePositions(keys)
    && |flags| == |origins|
    && |survivors| == |elements|
    && (forall p :: 0 <= p < |survivors| ==> 0 <= survivors[p] < |original| && elements[p] == original[survivors[p]])
    && (forall p, q :: 0 <= p < q < |survivors| ==> survivors[p] < survivors[q])
    && (forall q :: 0 <= q < |original| && q !in survivors ==>
          exists k :: 0 <= k < |origins| && origins[k] == q && flags[k].removed)
    && (forall k :: 0 <= k < |flags| ==> RecordConsistent(keys, survivors, origins[k], flags[k]))
  }

  /** In a consistent state a live record's index is a position of the array. */
  lemma ConsistentLive<T, K(!new)>(original: seq<T>, keys: seq<K>, elements: seq<T>, survivors: seq<int>,
                                   origins: seq<int>, flags: seq<Flags>)
    requires Consistent(original, keys, elements, survivors, origins, flags)
    ensures forall k :: 0 <= k < |flags| && !flags[k].removed ==> 0 <= flags[k].index < |elements|
  {
    forall k | 0 <= k < |flags| && !flags[k].removed ensures 0 <= flags[k].index < |elements| {
      assert RecordConsistent(keys, survivors, origins[k], flags[k]);
    }
  }

  /** How many members of `s` lie below `o`. */
  function CountBelow(s: seq<int>, o: int): (r: nat)
    ensures r <= |s|
  {
    if s == [] then 0 else (if s[0] < o then 1 else 0) + CountBelow(s[1..], o)
  }

  /** How many removed records were scanned at a position below `o`. */
  function RemovedBelow(origins: seq<int>, flags: seq<Flags>, o: int): (r: nat)
    requires |origins| == |flags|
    ensures r <= |flags|
  {
    if origins == [] then 0
    else (if flags[0].removed && origins[0] < o then 1 else 0) + RemovedBelow(origins[1..], flags[1..], o)
  }

  /** Some removed record was scanned at position `q`. */
  ghost predicate RemovedAt(origins: seq<int>, flags: seq<Flags>, q: int)
    requires |origins| == |flags|
  {
    exists k :: 0 <= k < |origins| && origins[k] == q && flags[k].removed
  }

  /** When `s` is below `o` exactly on its first `j` members, `j` of them lie below `o`. */
  lemma {:induction false} CountBelowSplit(s: seq<int>, o: int, j: nat)
    requires j <= |s|
    requires forall i :: 0 <= i < j ==> s[i] < o
    requires forall i :: j <= i < |s| ==> o <= s[i]
    ensures CountBelow(s, o) == j
  {
    if s != [] {
      CountBelowSplit(s[1..], o, if j == 0 then 0 else j - 1);
    }
  }

  /** Raising the bound from `q` to `q + 1` counts `q` itself, once at most for distinct members. */
  lemma {:induction false} CountBelowStep(s: seq<int>, q: int)
    requires forall i, j :: 0 <= i < j < |s| ==> s[i] != s[j]
    ensures CountBelow(s, q + 1) == CountBelow(s, q) + (if q in s then 1 else 0)
  {
    if s != [] {
      CountBelowStep(s[1..], q);
      assert q in s <==> s[0] == q || q in s[1..];
    }
  }

  /** Removed records scanned below `o`: none when every record was scanned at or above `o`. */
  lemma {:induction false} RemovedBelowNone(origins: seq<int>, flags: seq<Flags>, o: int)
    requires |origins| == |flags|
    requires forall k :: 0 <= k < |origins| ==> o <= origins[k]
    ensures RemovedBelow(origins, flags, o) == 0
  {
    if origins != [] {
      RemovedBelowNone(origins[1..], flags[1..], o);
    }
  }

  /** Raising the bound from `q` to `q + 1` counts the removed record scanned at `q`, if any. */
  lemma {:induction false} RemovedBelowStep(origins: seq<int>, flags: seq<Flags>, q: int)
    requires |origins| == |flags|
    requires forall i, j :: 0 <= i < j < |origins| ==> origins[i] != origins[j]
    ensures RemovedBelow(origins, flags, q + 1) ==
            RemovedBelow(origins, flags, q) + (if RemovedAt(origins, flags, q) then 1 else 0)
  {
    if origins != [] {
      var o', f' := origins[1..], flags[1..];
      RemovedBelowStep(o', f', q);
      if RemovedAt(origins, flags, q) {
        var k :| 0 <= k < |origins| && origins[k] == q && flags[k].removed;
        if k > 0 {
          assert o'[k - 1] == q && f'[k - 1].removed;
        }
      }
      if RemovedAt(o', f', q) {
        var k :| 0 <= k < |o'| && o'[k] == q && f'[k].removed;
        assert origins[k + 1] == q && flags[k + 1].removed;
      }
    }
  }

  /**
   * Every scanned position below `o` either still survives or belongs to a
   * removed record, and never both, so the two counts add up to `o`.
   */
  lemma {:induction false} SurvivorsAndRemoved(survivors: seq<int>, origins: seq<int>, flags: seq<Flags>, o: nat)
    requires |origins| == |flags|
    requires forall i, j :: 0 <= i < j < |survivors| ==> survivors[i] != survivors[j]
    requires forall i, j :: 0 <= i < j < |origins| ==> origins[i] != origins[j]
    requires forall p :: 0 <= p < |survivors| ==> 0 <= survivors[p]
    requires forall k :: 0 <= k < |origins| ==> 0 <= origins[k]
    requires forall q :: 0 <= q < o && q !in survivors ==> RemovedAt(origins, flags, q)
    requires forall k :: 0 <= k < |flags| && flags[k].removed ==> origins[k] !in survivors
    ensures CountBelow(survivors, o) + RemovedBelow(origins, flags, o) == o
  {
    if o == 0 {
      CountBelowSplit(survivors, 0, 0);
      RemovedBelowNone(origins, flags, 0);
    } else {
      var q := o - 1;
      SurvivorsAndRemoved(survivors, origins, flags, q);
      CountBelowStep(survivors, q);
      RemovedBelowStep(origins, flags, q);
    }
  }

  /**
   * A live record's index is its scanned position minus the number of
   * removed records that were scanned before it.
   */
  lemma LiveIndexFormula<T, K(!new)>(original: seq<T>, keys: seq<K>, elements: seq<T>, survivors: seq<int>,
                                     origins: seq<int>, flags: seq<Flags>, k: int)
    requires Consistent(original, keys, elements, survivors, origins, flags)
    requires 0 <= k < |flags| && !flags[k].removed
    ensures flags[k].index == origins[k] - RemovedBelow(origins, flags, origins[k])
  {
    assert RecordConsistent(keys, survivors, origins[k], flags[k]);
    CountBelowSplit(survivors, origins[k], flags[k].index);
    forall j | 0 <= j < |flags| ensures 0 <= origins[j] && (flags[j].removed ==> origins[j] !in survivors) {
      assert RecordConsistent(keys, survivors, origins[j], flags[j]);
    }
    SurvivorsAndRemoved(survivors, origins, flags, origins[k]);
  }

  /**
   * What `remove` does to the records when record `jt` is the target: every
   * live record behind the target's index moves one place down, and the
   * target is marked removed.
   */
  function RemoveFlags(flags: seq<Flags>, jt: int): (r: seq<Flags>)
    requires 0 <= jt < |flags|
    ensures |r| == |flags|
    ensures forall k :: 0 <= k < |r| ==>
              && r[k].index == Shifted(flags[k].index, flags[k].removed, flags[jt].index)
              && r[k].first == flags[k].first && r[k].last == flags[k].last
              && r[k].removed == (flags[k].removed || k == jt)
  {
    seq(|flags|, k requires 0 <= k < |flags| =>
      flags[k].(index := Shifted(flags[k].index, flags[k].removed, flags[jt].index),
                removed := flags[k].removed || k == jt))
  }

  /**
   * The records of `['a', 'b', 'c', 'a', 'd', 'c']` after removing the one at
   * index 0: the later `'a'` moves to 2 and the later `'c'` to 4.
   */
  lemma RemoveFlagsExample()
    ensures RemoveFlags([Flags(0, true, false, false), Flags(2, true, false, false),
                         Flags(3, false, true, false), Flags(5, false, true, false)], 0)
         == [Flags(0, true, false, true), Flags(1, true, false, false),
             Flags(2, false, true, false), Flags(4, false, true, false)]
  {
  }

  /** One record stays consistent when the element at `t` is spliced out. */
  lemma RecordAfterRemove<K(!new)>(keys: seq<K>, survivors: seq<int>, t: int, origin: int, f: Flags, isTarget: bool)
    requires 0 <= t < |survivors|
    requires forall p, q :: 0 <= p < q < |survivors| ==> survivors[p] < survivors[q]
    requires RecordConsistent(keys, survivors, origin, f)
    requires isTarget ==> !f.removed && f.index == t
    requires !isTarget ==> origin != survivors[t]
    ensures RecordConsistent(keys, Drop(survivors, t), origin,
                             f.(index := Shifted(f.index, f.removed, t), removed := f.removed || isTarget))
  {
    DropAscending(survivors, t);
    var r := Drop(survivors, t);
    if !f.removed && !isTarget {
      if f.index < t {
        assert r[f.index] == origin;
      } else {
        assert f.index != t;
        assert r[f.index - 1] == origin;
      }
    }
  }

  /** Every element missing after the splice still belongs to a removed record. */
  lemma GoneAfterRemove(n: int, survivors: seq<int>, t: int, origins: seq<int>, flags: seq<Flags>, jt: int)
    requires 0 <= t < |survivors| && 0 <= jt < |flags| == |origins| && origins[jt] == survivors[t]
    requires forall v :: v in Drop(survivors, t) <==> v in survivors && v != survivors[t]
    requires forall q :: 0 <= q < n && q !in survivors ==>
               exists k :: 0 <= k < |origins| && origins[k] == q && flags[k].removed
    ensures forall q :: 0 <= q < n && q !in Drop(survivors, t) ==>
              exists k :: 0 <= k < |origins| && origins[k] == q && RemoveFlags(flags, jt)[k].removed
  {
    var r := RemoveFlags(flags, jt);
    forall q | 0 <= q < n && q !in Drop(survivors, t)
      ensures exists k :: 0 <= k < |origins| && origins[k] == q && r[k].removed
    {
      if q == survivors[t] {
        assert origins[jt] == q && r[jt].removed;
      } else {
        var k :| 0 <= k < |origins| && origins[k] == q && flags[k].removed;
        assert r[k].removed;
      }
    }
  }

  /**
   * `remove` keeps a consistent container consistent: splicing out the
   * target's element and shifting the records behind it leaves every other
   * record pointing at its element.
   */
  lemma RemoveKeepsConsistent<T, K(!new)>(original: seq<T>, keys: seq<K>, elements: seq<T>, survivors: seq<int>,
                                          origins: seq<int>, flags: seq<Flags>, jt: int)
    requires Consistent(original, keys, elements, survivors, origins, flags)
    requires 0 <= jt < |flags| && !flags[jt].removed
    ensures 0 <= flags[jt].index < |elements|
    ensures Consistent(original, keys, Drop(elements, flags[jt].index), Drop(survivors, flags[jt].index),
                       origins, RemoveFlags(flags, jt))
  {
    var t := flags[jt].index;
    assert RecordConsistent(keys, survivors, origins[jt], flags[jt]);
    DropAscending(survivors, t);
    var r := RemoveFlags(flags, jt);
    forall k | 0 <= k < |flags| ensures RecordConsistent(keys, Drop(survivors, t), origins[k], r[k]) {
      assert RecordConsistent(keys, survivors, origins[k], flags[k]);
      assert k != jt ==> origins[k] != origins[jt];
      RecordAfterRemove(keys, survivors, t, origins[k], flags[k], k == jt);
    }
    GoneAfterRemove(|original|, survivors, t, origins, flags, jt);
  }

  /**
   * One reported position. `index` is where the element sits in the
   * container's array now; it moves down as earlier records are removed.
   * `origin` is where it sat when the array was scanned.
   */
  class DuplicateItem<T, K(==,!new)> {
    const container: DuplicateContainer<T, K>
    const value: T
    var index: int
    var first: bool
    var last: bool
    var removed: bool
    ghost const origin: int

    constructor (container: DuplicateContainer<T, K>, value: T, index: int)
      ensures this.container == container && this.value == value && this.index == index
      ensures origin == index && !first && !last && !removed
    {
      this.container := container;
      this.value := value;
      this.index := index;
      origin := index;
      first := false;
      last := false;
      removed := false;
    }

    /** `item.remove()`: removes this record's element through its container. */
    method Remove()
      requires container.Valid() && this in container.duplicates && !removed
      modifies container, container.duplicates
      ensures container.Valid() && removed && index == old(index)
      ensures container.duplicates == old(container.duplicates)
      ensures container.elements == old(Drop(container.elements, index))
      ensures forall d :: d in container.duplicates && d != this ==> d.removed == old(d.removed)
      ensures forall d :: d in container.duplicates ==> d.first == old(d.first) && d.last == old(d.last)
      ensures forall d :: d in container.duplicates ==> d.index == Shifted(old(d.index), old(d.removed), old(index))
    {
      container.Remove(this);
    }
  }

  /** The scan positions of the records, in record order. */
  ghost function Origins<T, K(!new)>(items: seq<DuplicateItem<T, K>>): (r: seq<int>)
    ensures |r| == |items|
    ensures forall k :: 0 <= k < |items| ==> r[k] == items[k].origin
  {
    seq(|items|, k requires 0 <= k < |items| => items[k].origin)
  }

  /** The mutable part of each record, in record order. */
  ghost function AllFlags<T, K(!new)>(items: seq<DuplicateItem<T, K>>): (r: seq<Flags>)
    reads items
    ensures |r| == |items|
    ensures forall k :: 0 <= k < |items| ==>
              r[k] == Flags(items[k].index, items[k].first, items[k].last, items[k].removed)
  {
    seq(|items|, k requires 0 <= k < |items| reads items =>
      Flags(items[k].index, items[k].first, items[k].last, items[k].removed))
  }

  /** Indices strictly ascend along `items`. */
  ghost predicate AscendingIndex<T, K(!new)>(items: seq<DuplicateItem<T, K>>)
    reads items
  {
    forall i, j :: 0 <= i < j < |items| ==> items[i].index < items[j].index
  }

  /** A record placed between the records below and above its index keeps the order. */
  lemma AscendingInsert<T, K(!new)>(below: seq<DuplicateItem<T, K>>, x: DuplicateItem<T, K>, above: seq<DuplicateItem<T, K>>)
    requires AscendingIndex(below + above)
    requires forall k :: 0 <= k < |below| ==> below[k].index < x.index
    requires forall k :: 0 <= k < |above| ==> above[k].index > x.index
    ensures AscendingIndex(below + [x] + above)
  {
    var s, r := below + above, below + [x] + above;
    var i := |below|;
    forall p, q | 0 <= p < q < |r| ensures r[p].index < r[q].index {
      if q < i {
        assert r[p] == s[p] && r[q] == s[q];
      } else if p > i {
        assert r[p] == s[p - 1] && r[q] == s[q - 1];
      } else if p < i && q > i {
        assert r[p] == s[p] && r[q] == s[q - 1];
      }
    }
  }

  /** Puts `x` into its place among records ascending by index. */
  method InsertByIndex<T, K(==,!new)>(sorted: seq<DuplicateItem<T, K>>, x: DuplicateItem<T, K>)
    returns (r: seq<DuplicateItem<T, K>>)
    requires AscendingIndex(sorted)
    requires forall y :: y in sorted ==> y.index != x.index
    ensures multiset(r) == multiset(sorted) + multiset{x}
    ensures AscendingIndex(r)
  {
    var i := 0;
    while i < |sorted| && sorted[i].index < x.index
      invariant 0 <= i <= |sorted|
      invariant forall k :: 0 <= k < i ==> sorted[k].index < x.index
    {
      i := i + 1;
    }
    if i < |sorted| {
      assert sorted[i] in sorted;
    }
    var below, above := sorted[..i], sorted[i..];
    assert sorted == below + above;
    AscendingInsert(below, x, above);
    r := below + [x] + above;
  }

  /**
   * `duplicates.sort(...)` with a comparator by index, as an insertion sort:
   * the same records, ascending by index.
   */
  method SortByIndex<T, K(==,!new)>(items: seq<DuplicateItem<T, K>>) returns (sorted: seq<DuplicateItem<T, K>>)
    requires forall i, j :: 0 <= i < j < |items| ==> items[i].index != items[j].index
    ensures multiset(sorted) == multiset(items)
    ensures AscendingIndex(sorted)
  {
    sorted := [];
    for n := 0 to |items|
      invariant multiset(sorted) == multiset(items[..n])
      invariant AscendingIndex(sorted)
    {
      forall y | y in sorted ensures y.index != items[n].index {
        assert y in multiset(items[..n]);
        var j :| 0 <= j < n && items[j] == y;
      }
      assert items[..n + 1] == items[..n] + [items[n]];
      sorted := InsertByIndex(sorted, items[n]);
    }
    assert items[..|items|] == items;
  }

  /**
   * Records made for exactly the duplicated positions, one each, and then
   * sorted by index, list the duplicated positions in ascending order.
   */
  lemma SortedOrigins<T, K(!new)>(unsorted: seq<DuplicateItem<T, K>>, recorded: seq<int>,
                                  sorted: seq<DuplicateItem<T, K>>, values: seq<K>)
    requires |recorded| == |unsorted|
    requires forall k :: 0 <= k < |unsorted| ==> unsorted[k].origin == unsorted[k].index == recorded[k]
    requires Covers(values, DuplicateValues(values), recorded)
    requires multiset(sorted) == multiset(unsorted)
    requires AscendingIndex(sorted)
    ensures Origins(sorted) == DuplicatePositions(values)
  {
    var origins := Origins(sorted);
    forall k | 0 <= k < |sorted| ensures sorted[k].origin == sorted[k].index && IsDuplicate(values, sorted[k].index) {
      assert sorted[k] in multiset(unsorted);
      var m :| 0 <= m < |unsorted| && unsorted[m] == sorted[k];
      var v := sorted[k].index;
      DuplicateValuesAreRepeated(values, values[v]);
      var i :| IsDuplicate(values, i) && values[i] == values[v];
      DuplicateByKey(values, i, v);
    }
    forall v | v in DuplicatePositions(values) ensures v in origins {
      DuplicateValuesAreRepeated(values, values[v]);
      assert v in recorded;
      var m :| 0 <= m < |unsorted| && recorded[m] == v;
      assert unsorted[m] in multiset(sorted);
      var k :| 0 <= k < |sorted| && sorted[k] == unsorted[m];
      assert origins[k] == v;
    }
    AscendingUnique(origins, DuplicatePositions(values));
  }

  /**
   * The container behind `findDuplicateValues` and `findDuplicateItems`.
   * `elements` is its array, which `Remove` splices. The ghost state
   * remembers the scanned array (`original`) and, for every element still in
   * the array, the position it was scanned at (`survivors`).
   */
  class DuplicateContainer<T, K(==,!new)> {
    const key: T -> K
    var elements: seq<T>
    var duplicates: seq<DuplicateItem<T, K>>
    ghost const original: seq<T>
    ghost var survivors: seq<int>

    /**
     * The container agrees with its scan: every record belongs to it and
     * holds the element scanned at its origin, and the state is consistent.
     */
    ghost predicate Valid()
      reads this, duplicates
    {
      && (forall k :: 0 <= k < |duplicates| ==>
            && duplicates[k].container == this && 0 <= duplicates[k].origin < |original|
            && duplicates[k].value == original[duplicates[k].origin]
            && (!duplicates[k].removed ==> 0 <= duplicates[k].index < |elements|))
      && Consistent(original, Keys(original, key), elements, survivors, Origins(duplicates), AllFlags(duplicates))
    }

    /** A record built by the scan for group `keys[d.index]`, flags already set. */
    ghost predicate Built(d: DuplicateItem<T, K>, a: seq<T>, keys: seq<K>)
      reads d
    {
      && d.container == this
      && |keys| == |a|
      && 0 <= d.index < |a|
      && d.origin == d.index
      && d.value == a[d.index]
      && !d.removed
      && d.first == IsFirst(keys, d.index)
      && d.last == IsLast(keys, d.index)
    }

    /** `items` are records built by the scan, the `k`th for position `recorded[k]`. */
    ghost predicate AllBuilt(items: seq<DuplicateItem<T, K>>, a: seq<T>, keys: seq<K>, recorded: seq<int>)
      reads items
    {
      && |items| == |recorded|
      && forall k :: 0 <= k < |items| ==> Built(items[k], a, keys) && items[k].index == recorded[k]
    }

    /** Appending the records of one more group, built for its occurrences. */
    lemma AllBuiltAppend(before: seq<DuplicateItem<T, K>>, mine: seq<DuplicateItem<T, K>>,
                         a: seq<T>, keys: seq<K>, recorded: seq<int>, occ: seq<int>)
      requires AllBuilt(before, a, keys, recorded) && |mine| == |occ|
      requires forall k :: 0 <= k < |mine| ==> Built(mine[k], a, keys) && mine[k].index == occ[k]
      ensures AllBuilt(before + mine, a, keys, recorded + occ)
    {
    }

    /** A record the scan of the current group has just built, flags still clear. */
    ghost predicate Pending(d: DuplicateItem<T, K>, a: seq<T>)
      reads d
    {
      && d.container == this
      && 0 <= d.index < |a|
      && d.origin == d.index
      && d.value == a[d.index]
      && !d.removed && !d.first && !d.last
    }

    /**
     * The `do … while (fromIndex >= 0)` loop: records every position holding
     * `duplicateValue`, searching from the left, flags still clear.
     */
    method FindGroup(values: seq<K>, duplicateValue: K) returns (myDuplicates: seq<DuplicateItem<T, K>>)
      requires |values| == |elements|
      modifies this
      ensures elements == old(elements) && duplicates == old(duplicates) + myDuplicates
      ensures |myDuplicates| == |Occurrences(values, duplicateValue, |values|)|
      ensures forall k :: 0 <= k < |myDuplicates| ==>
                && myDuplicates[k].index == Occurrences(values, duplicateValue, |values|)[k]
                && fresh(myDuplicates[k]) && Pending(myDuplicates[k], elements)
    {
      myDuplicates := [];
      ghost var scanned := 0;
      var fromIndex := 0;
      while fromIndex >= 0
        invariant elements == old(elements)
        invariant 0 <= scanned <= |values|
        invariant fromIndex >= 0 ==> fromIndex == scanned
        invariant fromIndex < 0 ==> forall j :: scanned <= j < |values| ==> values[j] != duplicateValue
        invariant duplicates == old(duplicates) + myDuplicates
        invariant |myDuplicates| == |Occurrences(values, duplicateValue, scanned)|
        invariant forall k :: 0 <= k < |myDuplicates| ==>
                    && myDuplicates[k].index == Occurrences(values, duplicateValue, scanned)[k]
                    && fresh(myDuplicates[k]) && Pending(myDuplicates[k], elements)
        decreases if fromIndex < 0 then 0 else |values| + 1 - fromIndex
      {
        fromIndex := IndexOf(values, duplicateValue, fromIndex);
        if fromIndex >= 0 {
          OccurrencesSkip(values, duplicateValue, scanned, fromIndex);
          var duplicateItem := new DuplicateItem(this, elements[fromIndex], fromIndex);
          myDuplicates := myDuplicates + [duplicateItem];
          duplicates := duplicates + [duplicateItem];
          fromIndex := fromIndex + 1;
          scanned := fromIndex;
        }
      }
      OccurrencesSkip(values, duplicateValue, scanned, |values|);
    }

    /**
     * One pass of the outer loop for one duplicated key: finds its records,
     * then flags the leftmost `first` and the rightmost `last`.
     */
    method ScanGroup(values: seq<K>, duplicateValue: K) returns (myDuplicates: seq<DuplicateItem<T, K>>)
      requires |values| == |elements| && duplicateValue in DuplicateValues(values)
      modifies this
      ensures elements == old(elements) && duplicates == old(duplicates) + myDuplicates
      ensures |myDuplicates| == |Occurrences(values, duplicateValue, |values|)|
      ensures forall k :: 0 <= k < |myDuplicates| ==>
                && myDuplicates[k].index == Occurrences(values, duplicateValue, |values|)[k]
                && fresh(myDuplicates[k]) && Built(myDuplicates[k], elements, values)
    {
      myDuplicates := FindGroup(values, duplicateValue);
      DuplicateValueOccurs(values, duplicateValue);
      ghost var occ := Occurrences(values, duplicateValue, |values|);
      ghost var n := |myDuplicates|;
      assert forall k :: 0 < k < n ==> myDuplicates[k] != myDuplicates[0] by {
        forall k | 0 < k < n ensures myDuplicates[k] != myDuplicates[0] {
          assert occ[0] < occ[k];
        }
      }
      assert forall k :: 0 <= k < n - 1 ==> myDuplicates[k] != myDuplicates[n - 1] by {
        forall k | 0 <= k < n - 1 ensures myDuplicates[k] != myDuplicates[n - 1] {
          assert occ[k] < occ[n - 1];
        }
      }

      myDuplicates[0].first := true;
      myDuplicates[|myDuplicates| - 1].last := true;

      forall k | 0 <= k < n ensures Built(myDuplicates[k], elements, values) {
        OccurrencesFirstLast(values, duplicateValue, k);
        assert myDuplicates[k].first == (k == 0) && myDuplicates[k].last == (k == n - 1);
      }
    }

    /**
     * The outer loop over the distinct repeated keys: records every
     * position of every duplicated key. The order of the keys is not
     * stated, because `SortRecords` sorts the records by index afterwards.
     * `recorded` lists the positions recorded, record by record.
     */
    method ScanAll(values: seq<K>) returns (ghost recorded: seq<int>)
      requires |values| == |elements| && duplicates == []
      modifies this
      ensures elements == old(elements)
      ensures forall d :: d in duplicates ==> fresh(d)
      ensures AllBuilt(duplicates, elements, values, recorded)
      ensures Covers(values, DuplicateValues(values), recorded)
    {
      var duplicateValues := Distinct(RepeatedValues(values, |values|));
      recorded := [];
      for g := 0 to |duplicateValues|
        invariant elements == old(elements)
        invariant forall d :: d in duplicates ==> fresh(d)
        invariant AllBuilt(duplicates, elements, values, recorded)
        invariant Covers(values, duplicateValues[..g], recorded)
      {
        var duplicateValue := duplicateValues[g];
        ghost var before := duplicates;
        var myDuplicates := ScanGroup(values, duplicateValue);
        ghost var occ := Occurrences(values, duplicateValue, |values|);
        AllBuiltAppend(before, myDuplicates, elements, values, recorded, occ);
        CoversStep(values, duplicateValues, g, recorded);
        recorded := recorded + occ;
      }
      assert duplicateValues[..|duplicateValues|] == duplicateValues;
    }

    /**
     * Scans `a`: for every key that occurs more than once, finds each of its
     * positions from left to right, records them, flags the leftmost as
     * `first` and the rightmost as `last`; then orders all records by index.
     */
    constructor (a: seq<T>, key: T -> K)
      ensures Valid() && this.key == key && elements == a && original == a
      ensures |duplicates| == |DuplicatePositions(Keys(a, key))|
      ensures forall k :: 0 <= k < |duplicates| ==>
                && duplicates[k].index == DuplicatePositions(Keys(a, key))[k]
                && duplicates[k].value == a[duplicates[k].index]
                && duplicates[k].first == IsFirst(Keys(a, key), duplicates[k].index)
                && duplicates[k].last == IsLast(Keys(a, key), duplicates[k].index)
                && !duplicates[k].removed
                && fresh(duplicates[k])
    {
      this.key := key;
      elements := a;
      duplicates := [];
      original := a;
      new;
      var values := Keys(elements, key);
      ghost var recorded := ScanAll(values);
      SortRecords(values, recorded);
    }

    /**
     * The end of the constructor: orders the records by index. The ghost
     * state starts out with nothing removed.
     */
    method SortRecords(values: seq<K>, ghost recorded: seq<int>)
      requires values == Keys(elements, key) && original == elements
      requires AllBuilt(duplicates, elements, values, recorded)
      requires Covers(values, DuplicateValues(values), recorded)
      modifies this
      ensures Valid() && elements == old(elements)
      ensures |duplicates| == |DuplicatePositions(values)|
      ensures forall k :: 0 <= k < |duplicates| ==>
                && duplicates[k].index == DuplicatePositions(values)[k]
                && duplicates[k].value == elements[duplicates[k].index]
                && duplicates[k].first == IsFirst(values, duplicates[k].index)
                && duplicates[k].last == IsLast(values, duplicates[k].index)
                && !duplicates[k].removed
                && duplicates[k] in old(duplicates)
    {
      ghost var a := elements;
      ghost var unsorted := duplicates;
      RecordedDistinct(unsorted, a, values, recorded, DuplicateValues(values));
      survivors := Positions(|a|);
      duplicates := SortByIndex(duplicates);
      ScanComplete(unsorted, recorded, a, values);
    }

    /** Records built for distinct positions have distinct indices. */
    lemma RecordedDistinct(items: seq<DuplicateItem<T, K>>, a: seq<T>, keys: seq<K>, recorded: seq<int>, values: seq<K>)
      requires AllBuilt(items, a, keys, recorded) && Covers(keys, values, recorded)
      ensures forall i, j :: 0 <= i < j < |items| ==> items[i].index != items[j].index
    {
    }

    /**
     * After the scan and the sort the records are exactly the duplicated
     * positions, ascending.
     */
    lemma ScanComplete(unsorted: seq<DuplicateItem<T, K>>, recorded: seq<int>, a: seq<T>, values: seq<K>)
      requires values == Keys(original, key) && original == a
      requires |survivors| == |a| == |elements| && forall p :: 0 <= p < |a| ==> survivors[p] == p && elements[p] == a[p]
      requires |recorded| == |unsorted|
      requires AllBuilt(unsorted, a, values, recorded)
      requires Covers(values, DuplicateValues(values), recorded)
      requires multiset(duplicates) == multiset(unsorted)
      requires AscendingIndex(duplicates)
      ensures Valid()
      ensures forall k :: 0 <= k < |duplicates| ==> Built(duplicates[k], a, values) && duplicates[k] in unsorted
      ensures |duplicates| == |DuplicatePositions(values)|
      ensures forall k :: 0 <= k < |duplicates| ==> duplicates[k].index == DuplicatePositions(values)[k]
    {
      forall k | 0 <= k < |duplicates| ensures Built(duplicates[k], a, values) && duplicates[k] in unsorted {
        assert duplicates[k] in multiset(unsorted);
      }
      SortedOrigins(unsorted, recorded, duplicates, values);
      forall q | 0 <= q < |a| ensures q in survivors {
        assert survivors[q] == q;
      }
      var origins, flags := Origins(duplicates), AllFlags(duplicates);
      forall k | 0 <= k < |duplicates| ensures RecordConsistent(values, survivors, origins[k], flags[k]) {
        assert Built(duplicates[k], a, values);
      }
    }

    /**
     * `container.remove(target)`: splices the target's element out of the
     * array, moves every live record behind it one place down and marks the
     * target removed.
     */
    method Remove(target: DuplicateItem<T, K>)
      requires Valid() && target in duplicates && !target.removed
      modifies this, duplicates
      ensures Valid() && target.removed && target.index == old(target.index)
      ensures duplicates == old(duplicates)
      ensures elements == old(Drop(elements, target.index))
      ensures forall d :: d in duplicates && d != target ==> d.removed == old(d.removed)
      ensures forall d :: d in duplicates ==> d.first == old(d.first) && d.last == old(d.last)
      ensures forall d :: d in duplicates ==> d.index == Shifted(old(d.index), old(d.removed), old(target.index))
    {
      ghost var jt :| 0 <= jt < |duplicates| && duplicates[jt] == target;
      ghost var flags, origins, keys := AllFlags(duplicates), Origins(duplicates), Keys(original, key);
      RecordsDistinct();
      RemoveKeepsConsistent(original, keys, elements, survivors, origins, flags, jt);
      ConsistentLive(original, keys, Drop(elements, target.index), Drop(survivors, target.index), origins, RemoveFlags(flags, jt));
      RemoveAt(target, jt, keys, origins, RemoveFlags(flags, jt));
    }

    /**
     * The state changes of `remove`, given the records' flags after it
     * (`after`), which are consistent with the spliced array.
     */
    method RemoveAt(target: DuplicateItem<T, K>, ghost jt: int, ghost keys: seq<K>, ghost origins: seq<int>, ghost after: seq<Flags>)
      requires 0 <= jt < |duplicates| && duplicates[jt] == target && !target.removed
      requires forall i, j :: 0 <= i < j < |duplicates| ==> duplicates[i] != duplicates[j]
      requires forall k :: 0 <= k < |duplicates| ==>
                 && duplicates[k].container == this && 0 <= duplicates[k].origin < |original|
                 && duplicates[k].value == original[duplicates[k].origin]
      requires keys == Keys(original, key) && origins == Origins(duplicates) && after == RemoveFlags(AllFlags(duplicates), jt)
      requires 0 <= target.index < |elements| == |survivors|
      requires Consistent(original, keys, Drop(elements, target.index), Drop(survivors, target.index), origins, after)
      requires forall k :: 0 <= k < |after| && !after[k].removed ==> 0 <= after[k].index < |elements| - 1
      modifies this, duplicates
      ensures Valid() && target.removed && target.index == old(target.index)
      ensures duplicates == old(duplicates)
      ensures elements == old(Drop(elements, target.index))
      ensures forall d :: d in duplicates && d != target ==> d.removed == old(d.removed)
      ensures forall d :: d in duplicates ==> d.first == old(d.first) && d.last == old(d.last)
      ensures forall d :: d in duplicates ==> d.index == Shifted(old(d.index), old(d.removed), old(target.index))
    {
      elements := Drop(elements, target.index);
      survivors := Drop(survivors, target.index);
      UpdateRecords(target, jt);
      ValidAfter(keys, origins, after);
    }

    /** The container is valid once its records' flags and origins satisfy `Consistent`. */
    lemma ValidAfter(keys: seq<K>, origins: seq<int>, flags: seq<Flags>)
      requires forall k :: 0 <= k < |duplicates| ==>
                 && duplicates[k].container == this && 0 <= duplicates[k].origin < |original|
                 && duplicates[k].value == original[duplicates[k].origin]
      requires keys == Keys(original, key) && AllFlags(duplicates) == flags && Origins(duplicates) == origins
      requires Consistent(original, keys, elements, survivors, origins, flags)
      requires forall k :: 0 <= k < |flags| && !flags[k].removed ==> 0 <= flags[k].index < |elements|
      ensures Valid()
    {
      forall k | 0 <= k < |duplicates| && !duplicates[k].removed ensures 0 <= duplicates[k].index < |elements| {
        assert flags[k] == AllFlags(duplicates)[k];
      }
    }

    /**
     * The part of `remove` after the splice: the loop that moves the live
     * records behind the target down, then marking the target removed. On
     * the records' flags this is `RemoveFlags`.
     */
    method UpdateRecords(target: DuplicateItem<T, K>, ghost jt: int)
      requires 0 <= jt < |duplicates| && duplicates[jt] == target && !target.removed
      requires forall i, j :: 0 <= i < j < |duplicates| ==> duplicates[i] != duplicates[j]
      modifies duplicates
      ensures AllFlags(duplicates) == RemoveFlags(old(AllFlags(duplicates)), jt)
      ensures target.removed && target.index == old(target.index)
      ensures forall d :: d in duplicates && d != target ==> d.removed == old(d.removed)
      ensures forall d :: d in duplicates ==> d.first == old(d.first) && d.last == old(d.last)
      ensures forall d :: d in duplicates ==> d.index == Shifted(old(d.index), old(d.removed), old(target.index))
    {
      ghost var flags := AllFlags(duplicates);
      ShiftBehind(target);
      target.removed := true;
      forall k | 0 <= k < |duplicates| ensures AllFlags(duplicates)[k] == RemoveFlags(flags, jt)[k] {
        assert duplicates[k] in duplicates;
      }
    }

    /**
     * The `for … of` loop of `remove`: every live record whose index is
     * behind the target's moves one place down; the target and the records
     * before it stay where they are.
     */
    method ShiftBehind(target: DuplicateItem<T, K>)
      requires target in duplicates
      requires forall i, j :: 0 <= i < j < |duplicates| ==> duplicates[i] != duplicates[j]
      modifies duplicates
      ensures target.index == old(target.index)
      ensures forall d :: d in duplicates ==> d.removed == old(d.removed) && d.first == old(d.first) && d.last == old(d.last)
      ensures forall d :: d in duplicates ==> d.index == Shifted(old(d.index), old(d.removed), old(target.index))
    {
      ghost var t := target.index;
      for k := 0 to |duplicates|
        invariant target.index == t
        invariant forall d :: d in duplicates ==> d.removed == old(d.removed) && d.first == old(d.first) && d.last == old(d.last)
        invariant forall j :: 0 <= j < k ==> duplicates[j].index == Shifted(old(duplicates[j].index), old(duplicates[j].removed), t)
        invariant forall j :: k <= j < |duplicates| ==> duplicates[j].index == old(duplicates[j].index)
      {
        var item := duplicates[k];
        if target.index < item.index && !item.removed {
          item.index := item.index - 1;
        }
      }
    }

    /** Every live record's index points at its own value in the live array. */
    lemma LiveRecordsHoldValues()
      requires Valid()
      ensures forall k :: 0 <= k < |duplicates| && !duplicates[k].removed ==>
                0 <= duplicates[k].index < |elements| && elements[duplicates[k].index] == duplicates[k].value
    {
      var origins, flags := Origins(duplicates), AllFlags(duplicates);
      forall k | 0 <= k < |duplicates| && !duplicates[k].removed
        ensures 0 <= duplicates[k].index < |elements| && elements[duplicates[k].index] == duplicates[k].value
      {
        assert RecordConsistent(Keys(original, key), survivors, origins[k], flags[k]);
      }
    }

    /**
     * After any removals, a live record's index is the position it was
     * scanned at minus the number of removed records scanned before it.
     */
    lemma LiveRecordsIndex()
      requires Valid()
      ensures forall k :: 0 <= k < |duplicates| && !duplicates[k].removed ==>
                duplicates[k].index ==
                duplicates[k].origin - RemovedBelow(Origins(duplicates), AllFlags(duplicates), duplicates[k].origin)
    {
      var origins, flags := Origins(duplicates), AllFlags(duplicates);
      forall k | 0 <= k < |duplicates| && !duplicates[k].removed
        ensures duplicates[k].index == duplicates[k].origin - RemovedBelow(origins, flags, duplicates[k].origin)
      {
        LiveIndexFormula(original, Keys(original, key), elements, survivors, origins, flags, k);
      }
    }

    /** Distinct positions of the record list hold distinct records. */
    lemma RecordsDistinct()
      requires Valid()
      ensures forall i, j :: 0 <= i < j < |duplicates| ==> duplicates[i] != duplicates[j]
    {
      var origins := Origins(duplicates);
      forall i, j | 0 <= i < j < |duplicates| ensures duplicates[i] != duplicates[j] {
        assert origins[i] < origins[j];
      }
    }
  }

  /** `findDuplicateValues(array)`: the records of the positions whose value occurs more than once. */
  method FindDuplicateValues<T(==,!new)>(a: seq<T>) returns (r: seq<DuplicateItem<T, T>>)
    ensures |r| == |DuplicatePositions(a)|
    ensures forall k :: 0 <= k < |r| ==>
              && r[k].index == DuplicatePositions(a)[k]
              && r[k].value == a[r[k].index]
              && r[k].first == IsFirst(a, r[k].index)
              && r[k].last == IsLast(a, r[k].index)
              && !r[k].removed
    ensures forall d :: d in r ==> d.container.Valid() && d.container.duplicates == r && d.container.elements == a
    ensures forall d :: d in r ==> fresh(d) && fresh(d.container)
  {
    var container := new DuplicateContainer(a, Identity);
    assert Keys(a, Identity) == a;
    r := container.duplicates;
  }

  /**
   * `findDuplicateItems(array, field)`: the records of the items whose
   * `field` value occurs in another item too; `field` is the function that
   * reads that property.
   */
  method FindDuplicateItems<T, K(==,!new)>(a: seq<T>, field: T -> K) returns (r: seq<DuplicateItem<T, K>>)
    ensures |r| == |DuplicatePositions(Keys(a, field))|
    ensures forall k :: 0 <= k < |r| ==>
              && r[k].index == DuplicatePositions(Keys(a, field))[k]
              && r[k].value == a[r[k].index]
              && r[k].first == IsFirst(Keys(a, field), r[k].index)
              && r[k].last == IsLast(Keys(a, field), r[k].index)
              && !r[k].removed
    ensures forall d :: d in r ==> d.container.Valid() && d.container.duplicates == r && d.container.elements == a
    ensures forall d :: d in r ==> fresh(d) && fresh(d.container)
  {
    var container := new DuplicateContainer(a, field);
    r := container.duplicates;
  }
}
