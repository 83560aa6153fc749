/**
 * What the duplicate scan computes, as functions over the sequence of
 * comparison keys (`item` itself when scanning values, `item[field]` when
 * scanning items by a field), together with the array built-ins the scan
 * calls: `indexOf`, `filter` and de-duplication through a `Set`.
 */
module DuplicateScan {

  /** The comparison keys of `a`, in order: `array.map(item => item[field])`. */
  function Keys<T, K>(a: seq<T>, key: T -> K): (keys: seq<K>)
    ensures |keys| == |a|
    ensures forall i :: 0 <= i < |a| ==> keys[i] == key(a[i])
  {
    seq(|a|, i requires 0 <= i < |a| => key(a[i]))
  }

  /** Position `i` holds a key that some other position holds too. */
  predicate IsDuplicate<K(==,!new)>(keys: seq<K>, i: int) {
    0 <= i < |keys| && exists j :: 0 <= j < |keys| && j != i && keys[j] == keys[i]
  }

  /** No earlier position holds the key at `i`. */
  predicate IsFirst<K(==,!new)>(keys: seq<K>, i: int) {
    0 <= i < |keys| && forall j :: 0 <= j < i ==> keys[j] != keys[i]
  }

  /** No later position holds the key at `i`. */
  predicate IsLast<K(==,!new)>(keys: seq<K>, i: int) {
    0 <= i < |keys| && forall j :: i < j < |keys| ==> keys[j] != keys[i]
  }

  /**
   * `s.indexOf(x, from)`: the first position at or after `from` that holds
   * `x`, or -1. The item scan's `findIndex` that skips positions below
   * `fromIndex` computes the same.
   */
  function IndexOf<K(==,!new)>(s: seq<K>, x: K, from: nat): (r: int)
    ensures -1 <= r < |s|
    ensures r == -1 <==> forall j :: from <= j < |s| ==> s[j] != x
    ensures r >= 0 ==> from <= r && s[r] == x && forall j :: from <= j < r ==> s[j] != x
    decreases |s| - from
  {
    if from >= |s| then -1
    else if s[from] == x then from
    else IndexOf(s, x, from + 1)
  }

  /** Searching from the start finds the key at `i` exactly when `i` is its first position. */
  lemma IndexOfFirst<K(!new)>(keys: seq<K>, i: int)
    requires 0 <= i < |keys|
    ensures IndexOf(keys, keys[i], 0) == i <==> IsFirst(keys, i)
  {
  }

  /**
   * `keys.filter((item, index) => keys.indexOf(item) != index)` applied to
   * the first `n` keys: every key again at each of its repeat positions.
   */
  function RepeatedValues<K(==,!new)>(keys: seq<K>, n: nat): (r: seq<K>)
    requires n <= |keys|
    ensures forall x :: x in r <==> exists i :: 0 <= i < n && keys[i] == x && !IsFirst(keys, i)
  {
    if n == 0 then []
    else
      var r := RepeatedValues(keys, n - 1);
      IndexOfFirst(keys, n - 1);
      if IndexOf(keys, keys[n - 1], 0) != n - 1 then r + [keys[n - 1]] else r
  }

  /**
   * `Array.from(new Set(s))`: each value once. The order of the values is
   * not stated: the records are sorted by index afterwards, so it does not
   * show in any result.
   */
  function Distinct<K(==,!new)>(s: seq<K>): (r: seq<K>)
    ensures forall x :: x in r <==> x in s
    ensures forall i, j :: 0 <= i < j < |r| ==> r[i] != r[j]
  {
    if s == [] then []
    else
      var r := Distinct(s[..|s| - 1]);
      assert forall x :: x in s <==> x in s[..|s| - 1] || x == s[|s| - 1] by {
        assert s == s[..|s| - 1] + [s[|s| - 1]];
      }
      if s[|s| - 1] in r then r else r + [s[|s| - 1]]
  }

  /** The values the scan goes through: exactly the keys that occur more than once. */
  function DuplicateValues<K(==,!new)>(keys: seq<K>): (r: seq<K>)
    ensures forall x :: x in r ==> x in keys
    ensures forall i, j :: 0 <= i < j < |r| ==> r[i] != r[j]
  {
    Distinct(RepeatedValues(keys, |keys|))
  }

  lemma DuplicateValuesAreRepeated<K(!new)>(keys: seq<K>, x: K)
    ensures x in DuplicateValues(keys) <==> exists i :: IsDuplicate(keys, i) && keys[i] == x
  {
    if x in DuplicateValues(keys) {
      var i :| 0 <= i < |keys| && keys[i] == x && !IsFirst(keys, i);
      assert IsDuplicate(keys, i);
    }
    if i :| IsDuplicate(keys, i) && keys[i] == x {
      var j :| 0 <= j < |keys| && j != i && keys[j] == x;
      var later := if i < j then j else i;
      assert !IsFirst(keys, later);
    }
  }

  /** A value the scan goes through occurs somewhere. */
  lemma DuplicateValueOccurs<K(!new)>(keys: seq<K>, x: K)
    requires x in DuplicateValues(keys)
    ensures |Occurrences(keys, x, |keys|)| > 0
  {
    DuplicateValuesAreRepeated(keys, x);
    var i :| IsDuplicate(keys, i) && keys[i] == x;
    OccurrencesComplete(keys, x, |keys|, i);
  }

  /**
   * `recorded` lists, each once, exactly the positions whose key is one of
   * `values`: what the scan has recorded after going through `values`.
   */
  ghost predicate Covers<K(!new)>(keys: seq<K>, values: seq<K>, recorded: seq<int>) {
    && (forall k :: 0 <= k < |recorded| ==> 0 <= recorded[k] < |keys| && keys[recorded[k]] in values)
    && (forall k, m :: 0 <= k < m < |recorded| ==> recorded[k] != recorded[m])
    && (forall p :: 0 <= p < |keys| && keys[p] in values ==> p in recorded)
  }

  /** The outer loop's step: going through the next of a list of distinct values extends the cover. */
  lemma CoversStep<K(!new)>(keys: seq<K>, values: seq<K>, g: int, recorded: seq<int>)
    requires 0 <= g < |values| && Covers(keys, values[..g], recorded)
    requires forall i, j :: 0 <= i < j < |values| ==> values[i] != values[j]
    ensures Covers(keys, values[..g + 1], recorded + Occurrences(keys, values[g], |keys|))
  {
    assert values[..g + 1] == values[..g] + [values[g]];
    assert forall i :: 0 <= i < g ==> values[..g][i] != values[g];
    CoversExtend(keys, values[..g], recorded, values[g]);
  }

  /** Recording the occurrences of one more value extends the cover by that value. */
  lemma CoversExtend<K(!new)>(keys: seq<K>, values: seq<K>, recorded: seq<int>, x: K)
    requires Covers(keys, values, recorded) && x !in values
    ensures Covers(keys, values + [x], recorded + Occurrences(keys, x, |keys|))
  {
    var occ := Occurrences(keys, x, |keys|);
    var r := recorded + occ;
    forall k, m | 0 <= k < m < |r| ensures r[k] != r[m] {
      if m >= |recorded| && k < |recorded| {
        assert keys[r[k]] in values && keys[r[m]] == x;
      }
    }
    forall p | 0 <= p < |keys| && keys[p] in values + [x] ensures p in r {
      if keys[p] == x {
        OccurrencesComplete(keys, x, |keys|, p);
      } else {
        assert p in recorded;
      }
    }
  }

  /** Being a duplicate depends only on the key. */
  lemma DuplicateByKey<K(!new)>(keys: seq<K>, i: int, p: int)
    requires IsDuplicate(keys, i) && 0 <= p < |keys| && keys[p] == keys[i]
    ensures IsDuplicate(keys, p)
  {
    if p == i {
    } else {
      assert keys[i] == keys[p];
    }
  }

  /** The positions below `n` that hold `x`, ascending. */
  function Occurrences<K(==,!new)>(keys: seq<K>, x: K, n: nat): (r: seq<int>)
    requires n <= |keys|
    ensures forall k :: 0 <= k < |r| ==> 0 <= r[k] < n && keys[r[k]] == x
    ensures forall i, j :: 0 <= i < j < |r| ==> r[i] < r[j]
  {
    if n == 0 then []
    else
      var r := Occurrences(keys, x, n - 1);
      assert forall i :: 0 <= i < |r| ==> r[i] in r;
      if keys[n - 1] == x then r + [n - 1] else r
  }

  /** Every position below `n` that holds `x` is among its occurrences. */
  lemma {:induction false} OccurrencesComplete<K(!new)>(keys: seq<K>, x: K, n: nat, p: int)
    requires 0 <= p < n <= |keys|
    ensures keys[p] == x ==> p in Occurrences(keys, x, n)
  {
    if p < n - 1 {
      OccurrencesComplete(keys, x, n - 1, p);
    }
  }

  /** Positions that do not hold `x` add nothing to its occurrences. */
  lemma {:induction false} OccurrencesSkip<K(!new)>(keys: seq<K>, x: K, lo: nat, hi: nat)
    requires lo <= hi <= |keys|
    requires forall j :: lo <= j < hi ==> keys[j] != x
    ensures Occurrences(keys, x, hi) == Occurrences(keys, x, lo)
  {
    if lo < hi {
      OccurrencesSkip(keys, x, lo, hi - 1);
    }
  }

  /**
   * Among all occurrences of `x`, the earliest is the only first one and the
   * latest the only last one.
   */
  lemma OccurrencesFirstLast<K(!new)>(keys: seq<K>, x: K, k: int)
    requires 0 <= k < |Occurrences(keys, x, |keys|)|
    ensures var occ := Occurrences(keys, x, |keys|);
            (IsFirst(keys, occ[k]) <==> k == 0) && (IsLast(keys, occ[k]) <==> k == |occ| - 1)
  {
    var occ := Occurrences(keys, x, |keys|);
    assert occ[k] in occ;
    if k > 0 {
      assert occ[0] in occ;
    }
    if k < |occ| - 1 {
      assert occ[|occ| - 1] in occ;
    }
    if k == 0 {
      forall j | 0 <= j < occ[0] ensures keys[j] != x {
        OccurrencesComplete(keys, x, |keys|, j);
      }
    }
    if k == |occ| - 1 {
      forall j | occ[k] < j < |keys| ensures keys[j] != x {
        OccurrencesComplete(keys, x, |keys|, j);
      }
    }
  }

  /** The positions below `n` whose key occurs elsewhere too, ascending. */
  function DuplicatesBelow<K(==,!new)>(keys: seq<K>, n: nat): (r: seq<int>)
    requires n <= |keys|
    ensures forall p :: p in r <==> 0 <= p < n && IsDuplicate(keys, p)
    ensures forall k :: 0 <= k < |r| ==> IsDuplicate(keys, r[k])
    ensures forall i, j :: 0 <= i < j < |r| ==> r[i] < r[j]
  {
    if n == 0 then []
    else
      var r := DuplicatesBelow(keys, n - 1);
      assert forall i :: 0 <= i < |r| ==> r[i] in r;
      if IsDuplicate(keys, n - 1) then r + [n - 1] else r
  }

  /**
   * The positions the scan reports, in the order it reports them: every
   * position whose key occurs at another position, ascending.
   */
  function DuplicatePositions<K(==,!new)>(keys: seq<K>): seq<int> {
    DuplicatesBelow(keys, |keys|)
  }

  /** Two strictly ascending sequences with the same members are the same sequence. */
  lemma {:induction false} AscendingUnique(x: seq<int>, y: seq<int>)
    requires forall i, j :: 0 <= i < j < |x| ==> x[i] < x[j]
    requires forall i, j :: 0 <= i < j < |y| ==> y[i] < y[j]
    requires forall v :: v in x <==> v in y
    ensures x == y
  {
    assert x != [] ==> x[0] in x;
    assert y != [] ==> y[0] in y;
    if x != [] && y != [] {
      assert x[0] in y && y[0] in x;
      assert x[0] == y[0];
      forall v ensures v in x[1..] <==> v in y[1..] {
        if v in x[1..] {
          assert v in y && v != y[0];
        }
        if v in y[1..] {
          assert v in x && v != x[0];
        }
      }
      AscendingUnique(x[1..], y[1..]);
    }
  }

  /**
   * Every duplicated key has exactly one first position and exactly one
   * last position, and since it occurs at least twice they differ.
   */
  lemma GroupFirstLast<K(!new)>(keys: seq<K>, i: int)
    requires IsDuplicate(keys, i)
    ensures exists f :: IsFirst(keys, f) && keys[f] == keys[i]
    ensures exists l :: IsLast(keys, l) && keys[l] == keys[i]
    ensures forall f, g :: IsFirst(keys, f) && IsFirst(keys, g) && keys[f] == keys[i] && keys[g] == keys[i] ==> f == g
    ensures forall l, m :: IsLast(keys, l) && IsLast(keys, m) && keys[l] == keys[i] && keys[m] == keys[i] ==> l == m
    ensures forall f :: IsFirst(keys, f) && keys[f] == keys[i] ==> !IsLast(keys, f)
  {
    var occ := Occurrences(keys, keys[i], |keys|);
    OccurrencesComplete(keys, keys[i], |keys|, i);
    OccurrencesFirstLast(keys, keys[i], 0);
    OccurrencesFirstLast(keys, keys[i], |occ| - 1);
    forall f | IsFirst(keys, f) && keys[f] == keys[i]
      ensures !IsLast(keys, f)
    {
      var j :| 0 <= j < |keys| && j != i && keys[j] == keys[i];
      assert j > f || i > f;
    }
  }

  /** Nothing is reported when no key repeats, in particular for an empty array. */
  lemma NoRepeatsNoPositions<K(!new)>(keys: seq<K>)
    requires forall i, j :: 0 <= i < j < |keys| ==> keys[i] != keys[j]
    ensures DuplicatePositions(keys) == []
  {
    forall p | 0 <= p < |keys| ensures !IsDuplicate(keys, p) {
      forall j | 0 <= j < |keys| && j != p ensures keys[j] != keys[p] {
        if j < p {
          assert keys[j] != keys[p];
        } else {
          assert keys[p] != keys[j];
        }
      }
    }
    AscendingUnique(DuplicatePositions(keys), []);
  }

  /** The documented example: `['a', 'b', 'c', 'a', 'd', 'c']` reports positions 0, 2, 3 and 5. */
  lemma DocumentedExample()
    ensures DuplicatePositions(['a', 'b', 'c', 'a', 'd', 'c']) == [0, 2, 3, 5]
    ensures IsFirst(['a', 'b', 'c', 'a', 'd', 'c'], 0) && !IsLast(['a', 'b', 'c', 'a', 'd', 'c'], 0)
    ensures IsFirst(['a', 'b', 'c', 'a', 'd', 'c'], 2) && !IsLast(['a', 'b', 'c', 'a', 'd', 'c'], 2)
    ensures !IsFirst(['a', 'b', 'c', 'a', 'd', 'c'], 3) && IsLast(['a', 'b', 'c', 'a', 'd', 'c'], 3)
    ensures !IsFirst(['a', 'b', 'c', 'a', 'd', 'c'], 5) && IsLast(['a', 'b', 'c', 'a', 'd', 'c'], 5)
  {
    var keys := ['a', 'b', 'c', 'a', 'd', 'c'];
    assert IsDuplicate(keys, 0) by { assert keys[3] == keys[0]; }
    assert IsDuplicate(keys, 2) by { assert keys[5] == keys[2]; }
    assert IsDuplicate(keys, 3) by { assert keys[0] == keys[3]; }
    assert IsDuplicate(keys, 5) by { assert keys[2] == keys[5]; }
    assert !IsDuplicate(keys, 1);
    assert !IsDuplicate(keys, 4);
    assert !IsFirst(keys, 3) by { assert keys[0] == keys[3]; }
    assert !IsFirst(keys, 5) by { assert keys[2] == keys[5]; }
    assert !IsLast(keys, 0) by { assert keys[3] == keys[0]; }
    assert !IsLast(keys, 2) by { assert keys[5] == keys[2]; }
    AscendingUnique(DuplicatePositions(keys), [0, 2, 3, 5]);
  }
}
