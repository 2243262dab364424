/** Python's `list.sort` with a comparison function, used by `FilterData` to order the
    positions `range(n)` by a key: a stable sort, so positions with equal keys keep their
    order. */
module StableSort {
  import opened PyCore

  /** Position `a` sorts before position `b`: a smaller key, or an equal key and an
      earlier position. */
  predicate Before(keys: seq<int>, a: nat, b: nat)
    requires a < |keys| && b < |keys|
  {
    keys[a] < keys[b] || (keys[a] == keys[b] && a < b)
  }

  /** `so` lists positions of `keys` in sorted, stable order. */
  predicate Sorted(so: seq<nat>, keys: seq<int>) {
    (forall k :: 0 <= k < |so| ==> so[k] < |keys|)
    && forall a, b :: 0 <= a < b < |so| ==> Before(keys, so[a], so[b])
  }

  /** Inserting position `i` into a sorted list of earlier positions: behind every
      position whose key is not larger. */
  function Insert(so: seq<nat>, i: nat, keys: seq<int>): (r: seq<nat>)
    requires i < |keys| && forall k :: 0 <= k < |so| ==> so[k] < |keys|
    ensures |r| == |so| + 1
  {
    if so == [] then [i]
    else
      var last := so[|so| - 1];
      if keys[last] <= keys[i] then so + [i]
      else Insert(so[..|so| - 1], i, keys) + [last]
  }

  /** The first `n` positions of `keys`, sorted. */
  function SortOrder(keys: seq<int>, n: nat): (r: seq<nat>)
    requires n <= |keys|
    ensures |r| == n && forall k :: 0 <= k < |r| ==> r[k] < n
  {
    if n == 0 then []
    else
      var front := SortOrder(keys, n - 1);
      var r := Insert(front, n - 1, keys);
      InsertElements(front, n - 1, keys);
      assert forall k :: 0 <= k < |r| ==> r[k] in r;
      r
  }

  /** Inserting adds the position and nothing else. */
  lemma {:induction false} InsertElements(so: seq<nat>, i: nat, keys: seq<int>)
    requires i < |keys| && forall k :: 0 <= k < |so| ==> so[k] < |keys|
    ensures multiset(Insert(so, i, keys)) == multiset(so) + multiset{i}
    ensures forall x :: x in Insert(so, i, keys) <==> x in so || x == i
  {
    if so != [] {
      var front := so[..|so| - 1];
      var last := so[|so| - 1];
      assert so == front + [last];
      if keys[last] > keys[i] {
        InsertElements(front, i, keys);
      }
    }
  }

  /** Inserting a later position into a sorted list keeps it sorted. */
  lemma {:induction false} InsertSorted(so: seq<nat>, i: nat, keys: seq<int>)
    requires i < |keys| && Sorted(so, keys) && forall k :: 0 <= k < |so| ==> so[k] < i
    ensures Sorted(Insert(so, i, keys), keys)
  {
    if so != [] {
      var front := so[..|so| - 1];
      var last := so[|so| - 1];
      if keys[last] <= keys[i] {
        AppendSorted(so, i, keys);
      } else {
        assert Sorted(front, keys);
        InsertSorted(front, i, keys);
        InsertElements(front, i, keys);
        LastSorted(so, Insert(front, i, keys), i, keys);
      }
    }
  }

  /** A later position whose key is not below the last one goes at the end. */
  lemma AppendSorted(so: seq<nat>, i: nat, keys: seq<int>)
    requires i < |keys| && Sorted(so, keys) && forall k :: 0 <= k < |so| ==> so[k] < i
    requires so != [] && keys[so[|so| - 1]] <= keys[i]
    ensures Sorted(so + [i], keys)
  {
    var r := so + [i];
    forall a, b | 0 <= a < b < |r| ensures Before(keys, r[a], r[b]) {
      if b == |so| && a < |so| - 1 {
        assert Before(keys, so[a], so[|so| - 1]);
      }
    }
  }

  /** The last position of a sorted list, with a larger key than `i`, stays last once `i`
      is inserted into the rest. */
  lemma LastSorted(so: seq<nat>, ins: seq<nat>, i: nat, keys: seq<int>)
    requires i < |keys| && Sorted(so, keys) && so != [] && keys[so[|so| - 1]] > keys[i]
    requires Sorted(ins, keys) && forall x :: x in ins <==> x in so[..|so| - 1] || x == i
    ensures Sorted(ins + [so[|so| - 1]], keys)
  {
    var front := so[..|so| - 1];
    var r := ins + [so[|so| - 1]];
    forall a, b | 0 <= a < b < |r| ensures Before(keys, r[a], r[b]) {
      if b == |ins| {
        assert r[a] in ins;
        if r[a] != i {
          var k :| 0 <= k < |front| && front[k] == r[a];
          assert Before(keys, so[k], so[|so| - 1]);
        }
      }
    }
  }

  /** The sort order lists every position once, in sorted, stable order. */
  lemma {:induction false} SortOrderMeaning(keys: seq<int>, n: nat)
    requires n <= |keys|
    ensures Sorted(SortOrder(keys, n), keys)
    ensures multiset(SortOrder(keys, n)) == multiset(Range(n))
    ensures IsPermutation(SortOrder(keys, n), n)
  {
    if n > 0 {
      var front := SortOrder(keys, n - 1);
      SortOrderMeaning(keys, n - 1);
      InsertSorted(front, n - 1, keys);
      InsertElements(front, n - 1, keys);
      RangeSnoc(n);
    }
    SortedDistinct(SortOrder(keys, n), keys);
  }

  lemma RangeSnoc(n: nat)
    requires n > 0
    ensures Range(n) == Range(n - 1) + [n - 1]
  {
  }

  /** A sorted list has no repeats. */
  lemma SortedDistinct(so: seq<nat>, keys: seq<int>)
    requires Sorted(so, keys)
    ensures Distinct(so)
  {
    forall a, b | 0 <= a < b < |so| ensures so[a] != so[b] {
      assert Before(keys, so[a], so[b]);
    }
  }

  /** The keys in sort order never decrease, and equal keys keep their positions' order. */
  lemma SortedKeys(keys: seq<int>, n: nat)
    requires n <= |keys|
    ensures forall a, b :: 0 <= a < b < n ==>
      keys[SortOrder(keys, n)[a]] <= keys[SortOrder(keys, n)[b]]
      && (keys[SortOrder(keys, n)[a]] == keys[SortOrder(keys, n)[b]] ==> SortOrder(keys, n)[a] < SortOrder(keys, n)[b])
  {
    SortOrderMeaning(keys, n);
    var so := SortOrder(keys, n);
    forall a, b | 0 <= a < b < n ensures Before(keys, so[a], so[b]) {
    }
  }
}
