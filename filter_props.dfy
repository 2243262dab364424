/** What `FilterData` promises about its result: when it fails and why, that `res` and
    `rej` together hold every row (or index) once, and how many rows of each kind `res`
    keeps. */
module FilterProps {
  import opened PyCore
  import opened Filter
  import StableSort

  // Selecting by a list of positions

  /** Every position of `p` is below `n`. */
  predicate Within(p: seq<nat>, n: nat) {
    forall k :: 0 <= k < |p| ==> p[k] < n
  }

  lemma SelectSnoc<T>(e: seq<T>, p: seq<nat>, i: nat)
    requires i < |e| && Within(p, |e|)
    ensures Within(p + [i], |e|) && Select(e, p + [i]) == Select(e, p) + [e[i]]
  {
  }

  lemma SelectConcat<T>(e: seq<T>, a: seq<nat>, b: seq<nat>)
    requires Within(a, |e|) && Within(b, |e|)
    ensures Within(a + b, |e|) && Select(e, a + b) == Select(e, a) + Select(e, b)
  {
  }

  /** A position where `x` occurs in `q`. */
  lemma Find(q: seq<nat>, x: nat) returns (j: nat)
    requires x in multiset(q)
    ensures j < |q| && q[j] == x
  {
    j :| 0 <= j < |q| && q[j] == x;
  }

  /** `q` with position `j` taken out. */
  lemma RemoveAt(q: seq<nat>, j: nat, n: nat)
    requires j < |q| && Within(q, n)
    ensures q == q[..j] + [q[j]] + q[j + 1..]
    ensures multiset(q[..j] + q[j + 1..]) == multiset(q) - multiset{q[j]}
    ensures Within(q[..j], n) && Within(q[j + 1..], n) && Within(q[..j] + q[j + 1..], n)
  {
    assert q == q[..j] + [q[j]] + q[j + 1..];
  }

  /** `p` with its last position taken out. */
  lemma RemoveLast(p: seq<nat>, n: nat)
    requires p != [] && Within(p, n)
    ensures p == p[..|p| - 1] + [p[|p| - 1]]
    ensures multiset(p[..|p| - 1]) == multiset(p) - multiset{p[|p| - 1]}
    ensures Within(p[..|p| - 1], n)
  {
    assert p == p[..|p| - 1] + [p[|p| - 1]];
  }

  lemma Reassemble<T>(sp: multiset<T>, sq: multiset<T>, sf: multiset<T>, sb: multiset<T>, sa: multiset<T>, ex: multiset<T>)
    requires sp == sf + ex && sq == sb + ex + sa && sf == sb + sa
    ensures sp == sq
  {
  }

  /** What is selected depends only on the multiset of the positions. */
  lemma {:induction false} SelectMultiset<T>(e: seq<T>, p: seq<nat>, q: seq<nat>)
    requires Within(p, |e|) && Within(q, |e|) && multiset(p) == multiset(q)
    ensures multiset(Select(e, p)) == multiset(Select(e, q))
    decreases |p|
  {
    if p == [] {
      assert |q| == |multiset(q)| == 0;
      assert Select(e, p) == [] == Select(e, q);
    } else {
      var x := p[|p| - 1];
      var j := Find(q, x);
      RemoveLast(p, |e|);
      RemoveAt(q, j, |e|);
      var front, before, after := p[..|p| - 1], q[..j], q[j + 1..];
      SelectMultiset(e, front, before + after);
      SelectSnoc(e, front, x);
      SelectConcat(e, before, after);
      SelectSnoc(e, before, x);
      SelectConcat(e, before + [x], after);
      Reassemble(multiset(Select(e, p)), multiset(Select(e, q)), multiset(Select(e, front)),
                 multiset(Select(e, before)), multiset(Select(e, after)), multiset{e[x]});
    }
  }

  /** A permutation of `range(n)` has the multiset of `range(n)`. */
  lemma PermutationMultiset(p: seq<nat>, n: nat)
    requires IsPermutation(p, n)
    ensures multiset(p) == multiset(Range(n))
  {
    forall x: nat ensures multiset(p)[x] == multiset(Range(n))[x] {
      DistinctOnce(p, x);
      DistinctOnce(Range(n), x);
      if x < n {
        PermutationCovers(p, n, x);
        assert Range(n)[x] == x;
      }
    }
  }

  /** Selecting by a permutation rearranges the sequence. */
  lemma SelectPermutation<T>(e: seq<T>, p: seq<nat>)
    requires IsPermutation(p, |e|)
    ensures multiset(Select(e, p)) == multiset(e)
  {
    PermutationMultiset(p, |e|);
    SelectMultiset(e, p, Range(|e|));
    assert Select(e, Range(|e|)) == e;
  }

  // Dealing the positions of the last permutation

  lemma DealtSnoc(order: seq<nat>, i: nat, keep: seq<nat>, kept: bool)
    ensures Dealt(order + [i], keep, kept) == if (i in keep) == kept then Dealt(order, keep, kept) + [i] else Dealt(order, keep, kept)
  {
    assert (order + [i])[..|order|] == order;
  }

  /** Every position of `order` goes to exactly one of the two sides. */
  lemma {:induction false} DealtPartition<T>(e: seq<T>, order: seq<nat>, keep: seq<nat>)
    requires forall k :: 0 <= k < |order| ==> order[k] < |e|
    ensures forall k :: 0 <= k < |Dealt(order, keep, true)| ==> Dealt(order, keep, true)[k] < |e|
    ensures forall k :: 0 <= k < |Dealt(order, keep, false)| ==> Dealt(order, keep, false)[k] < |e|
    ensures multiset(Select(e, Dealt(order, keep, true))) + multiset(Select(e, Dealt(order, keep, false)))
         == multiset(Select(e, order))
  {
    if order != [] {
      var front := order[..|order| - 1];
      var i := order[|order| - 1];
      assert order == front + [i];
      DealtPartition(e, front, keep);
      DealtSnoc(front, i, keep, true);
      DealtSnoc(front, i, keep, false);
      SelectSnoc(e, front, i);
      if i in keep {
        SelectSnoc(e, Dealt(front, keep, true), i);
      } else {
        SelectSnoc(e, Dealt(front, keep, false), i);
      }
    }
  }

  /** A side holds the positions of `order` that are (or are not) kept, each once. */
  lemma {:induction false} DealtMembers(order: seq<nat>, keep: seq<nat>, kept: bool)
    requires Distinct(order)
    ensures Distinct(Dealt(order, keep, kept))
    ensures forall x :: x in Dealt(order, keep, kept) <==> x in order && (x in keep) == kept
  {
    if order != [] {
      var front := order[..|order| - 1];
      var i := order[|order| - 1];
      assert order == front + [i];
      assert Distinct(front);
      DealtMembers(front, keep, kept);
      DealtSnoc(front, i, keep, kept);
      assert i !in front by {
        forall k | 0 <= k < |front| ensures front[k] != i {
          assert order[k] == front[k];
        }
      }
    }
  }

  // The run of the target value in the sorted keys

  /** In keys that never decrease, the run found holds exactly the positions of `val`. */
  lemma RunExact(ks: seq<int>, val: int)
    requires forall a, b :: 0 <= a < b < |ks| ==> ks[a] <= ks[b]
    requires RunStart(ks, val) < |ks|
    ensures forall k :: 0 <= k < |ks| ==>
      (RunStart(ks, val) <= k < RunEnd(ks, val, RunStart(ks, val) + 1) <==> ks[k] == val)
  {
    var s := RunStart(ks, val);
    var f := RunEnd(ks, val, s + 1);
    if f < |ks| {
      assert ks[f - 1] == val;
      assert ks[f] > val;
      forall k | f <= k < |ks| ensures ks[k] != val {
        assert ks[f] <= ks[k];
      }
    }
  }

  /** A sequence of copies of `v` holds `v` as often as it is long. */
  lemma {:induction false} AllCount(t: seq<int>, v: int)
    requires forall k :: 0 <= k < |t| ==> t[k] == v
    ensures multiset(t)[v] == |t|
  {
    if t != [] {
      assert t == [t[0]] + t[1..];
      AllCount(t[1..], v);
    }
  }

  /** The length of the run is the number of times `val` occurs. */
  lemma RunCount(ks: seq<int>, val: int, s: nat, f: nat)
    requires s <= f <= |ks| && forall k :: 0 <= k < |ks| ==> (s <= k < f <==> ks[k] == val)
    ensures multiset(ks)[val] == f - s
  {
    assert ks == ks[..s] + ks[s..f] + ks[f..];
    AllCount(ks[s..f], val);
    assert val !in ks[..s];
    assert val !in ks[f..];
  }

  /** A value occurs after selecting by a permutation exactly when it occurs before. */
  lemma SelectIn(ks: seq<int>, p: seq<nat>, val: int)
    requires IsPermutation(p, |ks|)
    ensures multiset(Select(ks, p))[val] == multiset(ks)[val]
    ensures val in Select(ks, p) <==> val in ks
  {
    SelectPermutation(ks, p);
    assert val in Select(ks, p) <==> val in multiset(Select(ks, p));
  }

  // The positions kept

  /** Drawing from a distinct sequence gives distinct elements of it. */
  lemma DrawShape(s: seq<nat>, p: seq<nat>, m: nat)
    requires IsPermutation(p, |s|) && Distinct(s)
    ensures |Draw(s, p, m)| == (if m <= |s| then m else |s|) && Distinct(Draw(s, p, m))
    ensures forall k :: 0 <= k < |Draw(s, p, m)| ==> Draw(s, p, m)[k] in s
  {
    var t := Take(p, m);
    forall a, b | 0 <= a < b < |t| ensures Draw(s, p, m)[a] != Draw(s, p, m)[b] {
      assert t[a] == p[a] && t[b] == p[b];
    }
  }

  /** `indicesToKeep`: first `min(nTgtFinal, finish - start)` distinct run positions, then
      `min(nOthersFinal, n - (finish - start))` distinct positions outside the run. */
  lemma KeptShape(start: nat, finish: nat, n: nat, nTgtFinal: nat, nOthersFinal: nat, shuffle: (nat, nat) -> seq<nat>)
    requires start <= finish <= n && Shuffles(shuffle)
    ensures var keep := Kept(start, finish, n, nTgtFinal, nOthersFinal, shuffle);
      var t := if nTgtFinal <= finish - start then nTgtFinal else finish - start;
      var o := if nOthersFinal <= n - (finish - start) then nOthersFinal else n - (finish - start);
      |keep| == t + o && Distinct(keep)
      && (forall k :: 0 <= k < t ==> start <= keep[k] < finish)
      && (forall k :: t <= k < |keep| ==> keep[k] < start || finish <= keep[k] < n)
  {
    var others := Others(start, finish, n);
    var targets := Targets(start, finish);
    assert IsPermutation(shuffle(0, |others|), |others|) && IsPermutation(shuffle(1, |targets|), |targets|);
    RunParts(start, finish, n);
    DrawShape(targets, shuffle(1, |targets|), nTgtFinal);
    DrawShape(others, shuffle(0, |others|), nOthersFinal);
    KeptParts(start, finish, n, nTgtFinal, nOthersFinal, shuffle);
  }

  /** The positions of the run and those outside it are distinct and where they should be. */
  lemma RunParts(start: nat, finish: nat, n: nat)
    requires start <= finish <= n
    ensures Distinct(Targets(start, finish)) && Distinct(Others(start, finish, n))
    ensures forall x :: x in Targets(start, finish) ==> start <= x < finish
    ensures forall x :: x in Others(start, finish, n) ==> x < start || finish <= x < n
  {
    var others := Others(start, finish, n);
    forall a, b | 0 <= a < b < |others| ensures others[a] != others[b] {
    }
  }

  /** `Kept` is the run positions drawn, then the others drawn. */
  lemma KeptParts(start: nat, finish: nat, n: nat, nTgtFinal: nat, nOthersFinal: nat, shuffle: (nat, nat) -> seq<nat>)
    requires start <= finish <= n && Shuffles(shuffle)
    ensures IsPermutation(shuffle(0, n - (finish - start)), n - (finish - start))
    ensures IsPermutation(shuffle(1, finish - start), finish - start)
    ensures Kept(start, finish, n, nTgtFinal, nOthersFinal, shuffle)
         == Draw(Targets(start, finish), shuffle(1, finish - start), nTgtFinal)
          + Draw(Others(start, finish, n), shuffle(0, n - (finish - start)), nOthersFinal)
  {
  }

  // What is reported

  /** The entry each input row stands for, before sorting: the row, or its index. */
  function Unsorted(rows: seq<seq<int>>, indicesToUse: seq<int>, indicesOnly: bool): (r: seq<Entry>)
    requires indicesToUse != [] ==> |indicesToUse| == |rows|
    ensures |r| == |rows|
  {
    seq(|rows|, i requires 0 <= i < |rows| =>
      if !indicesOnly then Row(rows[i]) else if indicesToUse == [] then Index(i) else Index(indicesToUse[i]))
  }

  /** The entries by sorted position are the input entries selected by the sort order. */
  lemma EntriesSorted(rows: seq<seq<int>>, sortOrder: seq<nat>, indicesToUse: seq<int>, indicesOnly: bool)
    requires IsPermutation(sortOrder, |rows|) && (indicesToUse != [] ==> |indicesToUse| == |rows|)
    ensures Entries(Select(rows, sortOrder), sortOrder, indicesToUse, indicesOnly)
         == Select(Unsorted(rows, indicesToUse, indicesOnly), sortOrder)
  {
  }

  /** A row entry whose column `col` holds `val`. */
  predicate HasVal(e: Entry, col: int, val: int) {
    e.Row? && InRange(|e.row|, col) && At(e.row, col) == val
  }

  /** The number of row entries whose column `col` holds `val`. */
  function Matching(es: seq<Entry>, col: int, val: int): nat {
    if es == [] then 0
    else Matching(es[..|es| - 1], col, val) + if HasVal(es[|es| - 1], col, val) then 1 else 0
  }

  /** The positions of `p` whose key is `val`. */
  function Hits(p: seq<nat>, ks: seq<int>, val: int): set<nat> {
    set x | x in p && x < |ks| && ks[x] == val
  }

  lemma MatchingSnoc(es: seq<Entry>, e: Entry, col: int, val: int)
    ensures Matching(es + [e], col, val) == Matching(es, col, val) + if HasVal(e, col, val) then 1 else 0
  {
    assert (es + [e])[..|es|] == es;
  }

  lemma HitsSnoc(p: seq<nat>, i: nat, ks: seq<int>, val: int)
    requires i !in p && i < |ks|
    ensures |Hits(p + [i], ks, val)| == |Hits(p, ks, val)| + if ks[i] == val then 1 else 0
  {
    if ks[i] == val {
      assert Hits(p + [i], ks, val) == Hits(p, ks, val) + {i};
    } else {
      assert Hits(p + [i], ks, val) == Hits(p, ks, val);
    }
  }

  /** Selecting distinct positions selects as many matching entries as there are
      positions whose key is `val`. */
  lemma {:induction false} MatchingSelect(es: seq<Entry>, p: seq<nat>, ks: seq<int>, col: int, val: int)
    requires |ks| == |es| && Within(p, |es|) && Distinct(p)
    requires forall i :: 0 <= i < |es| ==> (HasVal(es[i], col, val) <==> ks[i] == val)
    ensures Matching(Select(es, p), col, val) == |Hits(p, ks, val)|
  {
    if p != [] {
      var front := p[..|p| - 1];
      var i := p[|p| - 1];
      RemoveLast(p, |es|);
      assert Distinct(front);
      MatchingSelect(es, front, ks, col, val);
      SelectSnoc(es, front, i);
      assert i !in front by {
        forall k | 0 <= k < |front| ensures front[k] != i {
          assert p[k] == front[k];
        }
      }
      MatchingSnoc(Select(es, front), es[i], col, val);
      HitsSnoc(front, i, ks, val);
    }
  }

  /** The kept side gets one position per kept index, and as many positions whose key is
      `val` as there are run positions among the kept indices. */
  lemma KeptCounts(ks: seq<int>, val: int, start: nat, finish: nat, keep: seq<nat>, order: seq<nat>, t: nat)
    requires start <= finish <= |ks| && forall k :: 0 <= k < |ks| ==> (start <= k < finish <==> ks[k] == val)
    requires t <= |keep| && Distinct(keep)
    requires (forall k :: 0 <= k < t ==> start <= keep[k] < finish)
    requires forall k :: t <= k < |keep| ==> keep[k] < start || finish <= keep[k] < |ks|
    requires IsPermutation(order, |ks|)
    ensures |Dealt(order, keep, true)| == |keep|
    ensures |Hits(Dealt(order, keep, true), ks, val)| == t
  {
    var dealt := Dealt(order, keep, true);
    DealtMembers(order, keep, true);
    forall x | x in keep ensures x in order {
      PermutationCovers(order, |ks|, x);
    }
    SameElements(dealt, keep);
    var front := keep[..t];
    forall x ensures x in Hits(dealt, ks, val) <==> x in front {
      if x in Hits(dealt, ks, val) {
        var k :| 0 <= k < |keep| && keep[k] == x;
        assert k < t;
      }
      if x in front {
        var k :| 0 <= k < t && front[k] == x;
        assert keep[k] == x;
      }
    }
    assert Distinct(front);
    DistinctCard(front);
    assert Hits(dealt, ks, val) == set x: nat | x in front;
  }

  /** Two distinct sequences with the same elements are equally long. */
  lemma SameElements(a: seq<nat>, b: seq<nat>)
    requires Distinct(a) && Distinct(b) && forall x :: x in a <==> x in b
    ensures |a| == |b|
  {
    DistinctCard(a);
    DistinctCard(b);
    assert (set x: nat | x in a) == (set x: nat | x in b);
  }

  // FilterData's result

  function Min(a: int, b: int): int {
    if a <= b then a else b
  }

  /** The keys in sort order: a rearrangement of the keys that never decreases. */
  lemma SortedKeyFacts(rows: seq<seq<int>>, col: int)
    requires HasCol(rows, col)
    ensures var sortOrder := StableSort.SortOrder(Keys(rows, col), |rows|);
      var ks := Select(Keys(rows, col), sortOrder);
      IsPermutation(sortOrder, |rows|) && multiset(ks) == multiset(Keys(rows, col))
      && forall a, b :: 0 <= a < b < |ks| ==> ks[a] <= ks[b]
  {
    var keys := Keys(rows, col);
    StableSort.SortOrderMeaning(keys, |rows|);
    StableSort.SortedKeys(keys, |rows|);
    SelectPermutation(keys, StableSort.SortOrder(keys, |rows|));
  }

  /** The run is found exactly when `val` occurs. */
  lemma FoundRun(ks: seq<int>, val: int)
    ensures RunStart(ks, val) < |ks| <==> val in ks
  {
    if val in ks {
      var k :| 0 <= k < |ks| && ks[k] == val;
      assert !(RunStart(ks, val) > k);
    }
  }

  /** After the sort, `FilterData` fails exactly when `val` is not in column `col`, with a
      ValueError. */
  lemma SortedSplitFails(rows: seq<seq<int>>, val: int, col: int, indicesToUse: seq<int>,
                         indicesOnly: bool, nTgtFinal: nat, nOthersFinal: nat, shuffle: (nat, nat) -> seq<nat>)
    requires Shuffles(shuffle) && HasCol(rows, col) && (indicesToUse != [] ==> |indicesToUse| == |rows|)
    ensures SortedSplit(rows, val, col, indicesToUse, indicesOnly, nTgtFinal, nOthersFinal, shuffle).Ok?
        <==> val in Keys(rows, col)
    ensures SortedSplit(rows, val, col, indicesToUse, indicesOnly, nTgtFinal, nOthersFinal, shuffle).Fail?
        ==> SortedSplit(rows, val, col, indicesToUse, indicesOnly, nTgtFinal, nOthersFinal, shuffle).error == ValueError
  {
    SortedKeyFacts(rows, col);
    var ks := Select(Keys(rows, col), StableSort.SortOrder(Keys(rows, col), |rows|));
    FoundRun(ks, val);
    assert val in ks <==> val in multiset(ks);
  }

  /** Both sides together hold each entry of `unsorted` once, whatever is kept. */
  lemma DealtAll(unsorted: seq<Entry>, sortOrder: seq<nat>, order: seq<nat>, keep: seq<nat>)
    requires IsPermutation(sortOrder, |unsorted|) && IsPermutation(order, |unsorted|)
    ensures Within(Dealt(order, keep, true), |unsorted|) && Within(Dealt(order, keep, false), |unsorted|)
    ensures multiset(Select(Select(unsorted, sortOrder), Dealt(order, keep, true)))
          + multiset(Select(Select(unsorted, sortOrder), Dealt(order, keep, false)))
         == multiset(unsorted)
  {
    var entries := Select(unsorted, sortOrder);
    SelectPermutation(unsorted, sortOrder);
    DealtPartition(entries, order, keep);
    SelectPermutation(entries, order);
  }

  /** In sorted keys holding `val`, the run found holds every `val` and nothing else. */
  lemma RunFacts(ks: seq<int>, val: int)
    requires (forall a, b :: 0 <= a < b < |ks| ==> ks[a] <= ks[b]) && val in ks
    ensures RunStart(ks, val) < |ks|
    ensures forall k :: 0 <= k < |ks| ==>
      (RunStart(ks, val) <= k < RunEnd(ks, val, RunStart(ks, val) + 1) <==> ks[k] == val)
    ensures multiset(ks)[val] == RunEnd(ks, val, RunStart(ks, val) + 1) - RunStart(ks, val)
  {
    FoundRun(ks, val);
    RunExact(ks, val);
    RunCount(ks, val, RunStart(ks, val), RunEnd(ks, val, RunStart(ks, val) + 1));
  }

  /** The sizes of the kept side, and in row mode the number of its rows with `val`. */
  lemma KeptSide(tmp: seq<seq<int>>, col: int, ks: seq<int>, val: int, start: nat, finish: nat,
                 nTgtFinal: nat, nOthersFinal: nat, shuffle: (nat, nat) -> seq<nat>, entries: seq<Entry>, rowMode: bool)
    requires Shuffles(shuffle) && |tmp| == |ks| == |entries| && HasCol(tmp, col)
    requires forall k :: 0 <= k < |tmp| ==> At(tmp[k], col) == ks[k]
    requires rowMode ==> forall k :: 0 <= k < |tmp| ==> entries[k] == Row(tmp[k])
    requires start <= finish <= |ks| && forall k :: 0 <= k < |ks| ==> (start <= k < finish <==> ks[k] == val)
    ensures var n := |ks|;
      var dealt := Dealt(shuffle(2, n), Kept(start, finish, n, nTgtFinal, nOthersFinal, shuffle), true);
      Within(dealt, n)
      && |dealt| == Min(nTgtFinal, finish - start) + Min(nOthersFinal, n - (finish - start))
      && (rowMode ==> Matching(Select(entries, dealt), col, val) == Min(nTgtFinal, finish - start))
  {
    var n := |ks|;
    var order := shuffle(2, n);
    assert IsPermutation(order, n);
    var keep := Kept(start, finish, n, nTgtFinal, nOthersFinal, shuffle);
    KeptShape(start, finish, n, nTgtFinal, nOthersFinal, shuffle);
    KeptCounts(ks, val, start, finish, keep, order, Min(nTgtFinal, finish - start));
    var dealt := Dealt(order, keep, true);
    DealtMembers(order, keep, true);
    assert Within(dealt, n) by {
      forall k | 0 <= k < |dealt| ensures dealt[k] < n {
        assert dealt[k] in order;
      }
    }
    if rowMode {
      assert forall i :: 0 <= i < n ==> (HasVal(entries[i], col, val) <==> ks[i] == val);
      MatchingSelect(entries, dealt, ks, col, val);
    }
  }

  /** The values `SortedSplit` is made of when `val` occurs. */
  lemma SortedSplitParts(rows: seq<seq<int>>, val: int, col: int, indicesToUse: seq<int>,
                         indicesOnly: bool, nTgtFinal: nat, nOthersFinal: nat, shuffle: (nat, nat) -> seq<nat>)
    returns (sortOrder: seq<nat>, ks: seq<int>, start: nat, finish: nat, res: seq<Entry>, rej: seq<Entry>)
    requires Shuffles(shuffle) && HasCol(rows, col) && (indicesToUse != [] ==> |indicesToUse| == |rows|)
    requires val in Keys(rows, col)
    ensures IsPermutation(sortOrder, |rows|) && IsPermutation(shuffle(2, |rows|), |rows|) && |ks| == |rows|
    ensures HasCol(Select(rows, sortOrder), col)
    ensures forall k :: 0 <= k < |rows| ==> At(Select(rows, sortOrder)[k], col) == ks[k]
    ensures start <= finish <= |ks| && forall k :: 0 <= k < |ks| ==> (start <= k < finish <==> ks[k] == val)
    ensures multiset(Keys(rows, col))[val] == finish - start
    ensures res == Select(Entries(Select(rows, sortOrder), sortOrder, indicesToUse, indicesOnly),
                          Dealt(shuffle(2, |rows|), Kept(start, finish, |rows|, nTgtFinal, nOthersFinal, shuffle), true))
    ensures rej == Select(Entries(Select(rows, sortOrder), sortOrder, indicesToUse, indicesOnly),
                          Dealt(shuffle(2, |rows|), Kept(start, finish, |rows|, nTgtFinal, nOthersFinal, shuffle), false))
    ensures SortedSplit(rows, val, col, indicesToUse, indicesOnly, nTgtFinal, nOthersFinal, shuffle) == Ok((res, rej))
  {
    var n := |rows|;
    var keys := Keys(rows, col);
    sortOrder := StableSort.SortOrder(keys, n);
    ks := Select(keys, sortOrder);
    SortedKeyFacts(rows, col);
    assert val in multiset(ks);
    RunFacts(ks, val);
    start := RunStart(ks, val);
    finish := RunEnd(ks, val, start + 1);
    var keep := Kept(start, finish, n, nTgtFinal, nOthersFinal, shuffle);
    var tmp := Select(rows, sortOrder);
    SortedSplitFound(rows, val, col, indicesToUse, indicesOnly, nTgtFinal, nOthersFinal, shuffle, sortOrder, start, finish);
    var order := shuffle(2, n);
    assert IsPermutation(order, n);
    SplitIs(tmp, sortOrder, keep, indicesToUse, indicesOnly, shuffle, order);
    var entries := Entries(tmp, sortOrder, indicesToUse, indicesOnly);
    res := Select(entries, Dealt(order, keep, true));
    rej := Select(entries, Dealt(order, keep, false));
    SelectKeys(rows, col, sortOrder);
  }

  /** When `val` occurs, `res` and `rej` together hold each input entry once, `res` holds
      `min(nTgtFinal, w) + min(nOthersFinal, n - w)` entries where `w` is the number of rows
      with `val`, and of the rows in `res` exactly `min(nTgtFinal, w)` have `val`. */
  lemma SortedSplitResult(rows: seq<seq<int>>, val: int, col: int, indicesToUse: seq<int>,
                          indicesOnly: bool, nTgtFinal: nat, nOthersFinal: nat, shuffle: (nat, nat) -> seq<nat>)
    requires Shuffles(shuffle) && HasCol(rows, col) && (indicesToUse != [] ==> |indicesToUse| == |rows|)
    requires val in Keys(rows, col)
    ensures SortedSplit(rows, val, col, indicesToUse, indicesOnly, nTgtFinal, nOthersFinal, shuffle).Ok?
    ensures var r := SortedSplit(rows, val, col, indicesToUse, indicesOnly, nTgtFinal, nOthersFinal, shuffle).value;
      var w := multiset(Keys(rows, col))[val];
      multiset(r.0) + multiset(r.1) == multiset(Unsorted(rows, indicesToUse, indicesOnly))
      && |r.0| == Min(nTgtFinal, w) + Min(nOthersFinal, |rows| - w)
      && (!indicesOnly ==> Matching(r.0, col, val) == Min(nTgtFinal, w))
  {
    var sortOrder, ks, start, finish, res, rej :=
      SortedSplitParts(rows, val, col, indicesToUse, indicesOnly, nTgtFinal, nOthersFinal, shuffle);
    var n := |rows|;
    var keep := Kept(start, finish, n, nTgtFinal, nOthersFinal, shuffle);
    var tmp := Select(rows, sortOrder);
    var entries := Entries(tmp, sortOrder, indicesToUse, indicesOnly);
    EntriesSorted(rows, sortOrder, indicesToUse, indicesOnly);
    DealtAll(Unsorted(rows, indicesToUse, indicesOnly), sortOrder, shuffle(2, n), keep);
    assert !indicesOnly ==> forall k :: 0 <= k < n ==> entries[k] == Row(tmp[k]);
    KeptSide(tmp, col, ks, val, start, finish, nTgtFinal, nOthersFinal, shuffle, entries, !indicesOnly);
  }

  /** The rows worked on: all of `inData` for `None`, else the rows at `indicesToUse`, and
      an IndexError when one of those is out of range. */
  lemma RowsMeaning(inData: seq<seq<int>>, indicesToUse: seq<int>)
    ensures Rows(inData, indicesToUse).Ok? <==> forall k :: 0 <= k < |indicesToUse| ==> InRange(|inData|, indicesToUse[k])
    ensures Rows(inData, indicesToUse).Fail? ==> Rows(inData, indicesToUse).error == IndexError
    ensures indicesToUse == [] ==> Rows(inData, indicesToUse) == Ok(inData)
    ensures Rows(inData, indicesToUse).Ok? && indicesToUse != [] ==>
      forall k :: 0 <= k < |indicesToUse| ==> Rows(inData, indicesToUse).value[k] == At(inData, indicesToUse[k])
  {
    Ensemble.PickMeaning(inData, indicesToUse);
  }

  /** `FilterData` raises ValueError for a fraction outside `[0, 1]`, for no data, for a
      column the first row lacks, or for a value the column never holds; IndexError for
      an index out of range or a row without the column; and succeeds otherwise. */
  lemma FilterErrors(inData: seq<seq<int>>, val: int, frac: real, col: int, indicesToUse: seq<int>,
                     indicesOnly: bool, nTgtFinal: nat, nOthersFinal: nat, shuffle: (nat, nat) -> seq<nat>)
    requires Shuffles(shuffle)
    ensures var r := FilterSpec(inData, val, frac, col, indicesToUse, indicesOnly, nTgtFinal, nOthersFinal, shuffle);
      var rows := Rows(inData, indicesToUse);
      var checked := 0.0 <= frac <= 1.0 && inData != [] && InRange(|inData[0]|, col);
      (r.Ok? <==> checked && rows.Ok? && HasCol(rows.value, col) && val in Keys(rows.value, col))
      && (r == Fail(IndexError) <==> checked && (rows.Fail? || !HasCol(rows.value, col)))
      && (r.Fail? ==> r.error == ValueError || r.error == IndexError)
  {
    RowsMeaning(inData, indicesToUse);
    var rows := Rows(inData, indicesToUse);
    if 0.0 <= frac <= 1.0 && inData != [] && InRange(|inData[0]|, col) && rows.Ok? && HasCol(rows.value, col) {
      SortedSplitFails(rows.value, val, col, indicesToUse, indicesOnly, nTgtFinal, nOthersFinal, shuffle);
    }
  }

  /** A successful `FilterData`: `res` and `rej` together hold each row (or index) once;
      `res` holds `min(nTgtFinal, w) + min(nOthersFinal, n - w)` of them, where `n` is the
      number of rows worked on and `w` the number holding `val`; and with rows returned,
      exactly `min(nTgtFinal, w)` rows of `res` hold `val`. */
  lemma FilterResult(inData: seq<seq<int>>, val: int, frac: real, col: int, indicesToUse: seq<int>,
                     indicesOnly: bool, nTgtFinal: nat, nOthersFinal: nat, shuffle: (nat, nat) -> seq<nat>)
    requires Shuffles(shuffle)
    requires FilterSpec(inData, val, frac, col, indicesToUse, indicesOnly, nTgtFinal, nOthersFinal, shuffle).Ok?
    ensures Rows(inData, indicesToUse).Ok? && HasCol(Rows(inData, indicesToUse).value, col)
    ensures var rows := Rows(inData, indicesToUse).value;
      var r := FilterSpec(inData, val, frac, col, indicesToUse, indicesOnly, nTgtFinal, nOthersFinal, shuffle).value;
      var w := multiset(Keys(rows, col))[val];
      multiset(r.0) + multiset(r.1) == multiset(Unsorted(rows, indicesToUse, indicesOnly))
      && 0 < w <= |rows|
      && |r.0| == Min(nTgtFinal, w) + Min(nOthersFinal, |rows| - w)
      && |r.0| + |r.1| == |rows|
      && (!indicesOnly ==> Matching(r.0, col, val) == Min(nTgtFinal, w))
  {
    FilterErrors(inData, val, frac, col, indicesToUse, indicesOnly, nTgtFinal, nOthersFinal, shuffle);
    var rows := Rows(inData, indicesToUse).value;
    SortedSplitResult(rows, val, col, indicesToUse, indicesOnly, nTgtFinal, nOthersFinal, shuffle);
    var keys := Keys(rows, col);
    assert val in multiset(keys);
    assert multiset(keys)[val] <= |multiset(keys)|;
    var r := FilterSpec(inData, val, frac, col, indicesToUse, indicesOnly, nTgtFinal, nOthersFinal, shuffle).value;
    assert |multiset(r.0) + multiset(r.1)| == |Unsorted(rows, indicesToUse, indicesOnly)|;
  }
}
