/** `FilterData`: splitting a data set into the rows kept and the rows rejected so that the
    kept rows have a given fraction of rows with a target value in one column. The random
    permutations it draws and the float arithmetic that sizes the two groups are inputs. */
module Filter {
  import opened PyCore
  import Ensemble
  import StableSort

  /** An entry of `res` or `rej`: a row, or with `indicesOnly` the row's index. */
  datatype Entry = Row(row: seq<int>) | Index(i: int)

  /** `s[:k]` for `k >= 0`. */
  function Take(s: seq<nat>, k: nat): (r: seq<nat>)
    ensures |r| == (if k <= |s| then k else |s|) && r == s[..|r|]
  {
    if k <= |s| then s[..k] else s
  }

  /** `[s[x] for x in ids]` for indices known to be in range. */
  function Select<T>(s: seq<T>, ids: seq<nat>): (r: seq<T>)
    requires forall k :: 0 <= k < |ids| ==> ids[k] < |s|
    ensures |r| == |ids|
  {
    seq(|ids|, k requires 0 <= k < |ids| => s[ids[k]])
  }

  /** The rows `FilterData` works on: the rows at `indicesToUse`, or all of `inData` when
      `indicesToUse` is empty (standing for `None`). */
  function Rows(inData: seq<seq<int>>, indicesToUse: seq<int>): (r: Result<seq<seq<int>>>)
    ensures r.Ok? && indicesToUse != [] ==> |r.value| == |indicesToUse|
  {
    Ensemble.PickMeaning(inData, indicesToUse);
    if indicesToUse == [] then Ok(inData) else Ensemble.Pick(inData, indicesToUse)
  }

  /** Every row has column `col`. */
  predicate HasCol(rows: seq<seq<int>>, col: int) {
    forall k :: 0 <= k < |rows| ==> InRange(|rows[k]|, col)
  }

  /** The `col` entries of the rows. */
  function Keys(rows: seq<seq<int>>, col: int): (r: seq<int>)
    requires HasCol(rows, col)
    ensures |r| == |rows|
  {
    seq(|rows|, k requires 0 <= k < |rows| && InRange(|rows[k]|, col) => At(rows[k], col))
  }

  /** The first position holding `val`, or `|ks|`. */
  function RunStart(ks: seq<int>, val: int): (s: nat)
    ensures s <= |ks| && (forall k :: 0 <= k < s ==> ks[k] != val) && (s < |ks| ==> ks[s] == val)
  {
    if ks == [] then 0
    else if ks[0] == val then 0
    else 1 + RunStart(ks[1..], val)
  }

  /** The end of the run of `val` that continues at `f`. */
  function RunEnd(ks: seq<int>, val: int, f: nat): (e: nat)
    requires f <= |ks|
    ensures f <= e <= |ks| && (forall k :: f <= k < e ==> ks[k] == val) && (e < |ks| ==> ks[e] != val)
    decreases |ks| - f
  {
    if f < |ks| && ks[f] == val then RunEnd(ks, val, f + 1) else f
  }

  /** `range(start) + range(finish, n)`: the positions outside the run. */
  function Others(start: nat, finish: nat, n: nat): (r: seq<nat>)
    requires start <= finish <= n
    ensures |r| == n - (finish - start)
  {
    seq(start, k requires 0 <= k < start => k) + seq(n - finish, k requires 0 <= k < n - finish => finish + k)
  }

  /** `range(start, finish)`: the positions of the run. */
  function Targets(start: nat, finish: nat): (r: seq<nat>)
    requires start <= finish
    ensures |r| == finish - start
  {
    seq(finish - start, k requires 0 <= k < finish - start => start + k)
  }

  /** The random draws, in order: `permutation(nOthers)`, `permutation(nWithVal)` and
      `permutation(nOrig)` are `shuffle(0, ..)`, `shuffle(1, ..)` and `shuffle(2, ..)`. */
  ghost predicate Shuffles(shuffle: (nat, nat) -> seq<nat>) {
    forall d, n :: IsPermutation(shuffle(d, n), n)
  }

  /** `[s[x] for x in p[:m]]` for a permutation `p` of the positions of `s`. */
  function Draw(s: seq<nat>, p: seq<nat>, m: nat): (r: seq<nat>)
    requires IsPermutation(p, |s|)
  {
    Select(s, Take(p, m))
  }

  /** `indicesToKeep`: the first `nTgtFinal` of the shuffled run positions, then the first
      `nOthersFinal` of the shuffled positions outside the run. */
  function Kept(start: nat, finish: nat, n: nat, nTgtFinal: nat, nOthersFinal: nat, shuffle: (nat, nat) -> seq<nat>): seq<nat>
    requires start <= finish <= n && Shuffles(shuffle)
  {
    var others := Others(start, finish, n);
    var targets := Targets(start, finish);
    assert IsPermutation(shuffle(0, |others|), |others|) && IsPermutation(shuffle(1, |targets|), |targets|);
    Draw(targets, shuffle(1, |targets|), nTgtFinal) + Draw(others, shuffle(0, |others|), nOthersFinal)
  }

  /** The positions of `order` that are (or are not) kept, in the order of `order`. */
  function Dealt(order: seq<nat>, keep: seq<nat>, kept: bool): (r: seq<nat>)
    ensures forall k :: 0 <= k < |r| ==> r[k] in order
  {
    if order == [] then []
    else
      var front := Dealt(order[..|order| - 1], keep, kept);
      var i := order[|order| - 1];
      assert forall k :: 0 <= k < |front| ==> front[k] in order;
      if (i in keep) == kept then front + [i] else front
  }

  /** The entry `FilterData` reports for sorted position `i`. */
  function EntryAt(tmp: seq<seq<int>>, sortOrder: seq<nat>, indicesToUse: seq<int>, indicesOnly: bool, i: nat): Entry
    requires i < |tmp| == |sortOrder| && (indicesToUse != [] ==> |indicesToUse| == |tmp|)
    requires forall k :: 0 <= k < |sortOrder| ==> sortOrder[k] < |tmp|
  {
    if !indicesOnly then Row(tmp[i])
    else if indicesToUse == [] then Index(sortOrder[i])
    else Index(indicesToUse[sortOrder[i]])
  }

  /** The entries `FilterData` reports, by sorted position. */
  function Entries(tmp: seq<seq<int>>, sortOrder: seq<nat>, indicesToUse: seq<int>, indicesOnly: bool): (r: seq<Entry>)
    requires |tmp| == |sortOrder| && (indicesToUse != [] ==> |indicesToUse| == |tmp|)
    requires forall k :: 0 <= k < |sortOrder| ==> sortOrder[k] < |tmp|
    ensures |r| == |tmp|
  {
    seq(|tmp|, i requires 0 <= i < |tmp| => EntryAt(tmp, sortOrder, indicesToUse, indicesOnly, i))
  }

  /** What `FilterData(inData, val, frac, col, indicesToUse, indicesOnly)` returns as
      `(res, rej)`, with the group sizes and the permutations given. */
  function FilterSpec(inData: seq<seq<int>>, val: int, frac: real, col: int, indicesToUse: seq<int>,
                      indicesOnly: bool, nTgtFinal: nat, nOthersFinal: nat, shuffle: (nat, nat) -> seq<nat>)
    : Result<(seq<Entry>, seq<Entry>)>
    requires Shuffles(shuffle)
  {
    if frac < 0.0 || frac > 1.0 then Fail(ValueError)
    else if inData == [] || !InRange(|inData[0]|, col) then Fail(ValueError)
    else
      var rows := Rows(inData, indicesToUse);
      if rows.Fail? then Fail(rows.error)
      else if !HasCol(rows.value, col) then Fail(IndexError)
      else SortedSplit(rows.value, val, col, indicesToUse, indicesOnly, nTgtFinal, nOthersFinal, shuffle)
  }

  /** `FilterData` from the sort on: the rows sorted by column `col`, the run of `val` in
      them, and the split. */
  function SortedSplit(rows: seq<seq<int>>, val: int, col: int, indicesToUse: seq<int>,
                       indicesOnly: bool, nTgtFinal: nat, nOthersFinal: nat, shuffle: (nat, nat) -> seq<nat>)
    : Result<(seq<Entry>, seq<Entry>)>
    requires Shuffles(shuffle) && HasCol(rows, col) && (indicesToUse != [] ==> |indicesToUse| == |rows|)
  {
    var n := |rows|;
    var sortOrder := StableSort.SortOrder(Keys(rows, col), n);
    var ks := Select(Keys(rows, col), sortOrder);
    var start := RunStart(ks, val);
    if start >= n then Fail(ValueError)
    else
      var finish := RunEnd(ks, val, start + 1);
      Ok(Split(Select(rows, sortOrder), sortOrder, Kept(start, finish, n, nTgtFinal, nOthersFinal, shuffle),
               indicesToUse, indicesOnly, shuffle))
  }

  /** `(res, rej)`: the entries in the order of the last permutation drawn, split into
      those at kept positions and the rest. */
  function Split(tmp: seq<seq<int>>, sortOrder: seq<nat>, keep: seq<nat>, indicesToUse: seq<int>,
                 indicesOnly: bool, shuffle: (nat, nat) -> seq<nat>): (seq<Entry>, seq<Entry>)
    requires Shuffles(shuffle) && |tmp| == |sortOrder| && (indicesToUse != [] ==> |indicesToUse| == |tmp|)
    requires forall k :: 0 <= k < |sortOrder| ==> sortOrder[k] < |tmp|
  {
    var order := shuffle(2, |tmp|);
    var entries := Entries(tmp, sortOrder, indicesToUse, indicesOnly);
    assert IsPermutation(order, |tmp|);
    (Select(entries, Dealt(order, keep, true)), Select(entries, Dealt(order, keep, false)))
  }

  /** `FilterData(inData, val, frac, col, indicesToUse, indicesOnly)`. An empty
      `indicesToUse` stands for `None`; `nTgtFinal` and `nOthersFinal` are the group sizes
      the float arithmetic would compute, and `shuffle` gives the permutations drawn. */
  method FilterData(inData: seq<seq<int>>, val: int, frac: real, col: int, indicesToUse: seq<int>,
                    indicesOnly: bool, nTgtFinal: nat, nOthersFinal: nat, shuffle: (nat, nat) -> seq<nat>)
    returns (r: Result<(seq<Entry>, seq<Entry>)>)
    requires Shuffles(shuffle)
    ensures r == FilterSpec(inData, val, frac, col, indicesToUse, indicesOnly, nTgtFinal, nOthersFinal, shuffle)
  {
    if frac < 0.0 || frac > 1.0 {
      return Fail(ValueError);
    }
    if |inData| == 0 || !InRange(|inData[0]|, col) {
      return Fail(ValueError);
    }
    var rows := Rows(inData, indicesToUse);
    if rows.Fail? {
      return Fail(rows.error);
    }
    if !HasCol(rows.value, col) {
      return Fail(IndexError);
    }
    r := FilterSorted(rows.value, val, col, indicesToUse, indicesOnly, nTgtFinal, nOthersFinal, shuffle);
  }

  /** `FilterData` from the sort on. */
  method FilterSorted(rows: seq<seq<int>>, val: int, col: int, indicesToUse: seq<int>,
                      indicesOnly: bool, nTgtFinal: nat, nOthersFinal: nat, shuffle: (nat, nat) -> seq<nat>)
    returns (r: Result<(seq<Entry>, seq<Entry>)>)
    requires Shuffles(shuffle) && HasCol(rows, col) && (indicesToUse != [] ==> |indicesToUse| == |rows|)
    ensures r == SortedSplit(rows, val, col, indicesToUse, indicesOnly, nTgtFinal, nOthersFinal, shuffle)
  {
    var nOrig := |rows|;
    var sortOrder := StableSort.SortOrder(Keys(rows, col), nOrig);
    var tmp := Select(rows, sortOrder);
    ghost var ks := Select(Keys(rows, col), sortOrder);
    SelectKeys(rows, col, sortOrder);
    var start, finish := FindRun(tmp, col, val, ks);
    if start >= nOrig {
      return Fail(ValueError);
    }
    var indicesToKeep := KeepIndices(start, finish, nOrig, nTgtFinal, nOthersFinal, shuffle);
    var order := shuffle(2, nOrig);
    assert IsPermutation(order, nOrig);
    var res, rej := PullPoints(order, indicesToKeep, tmp, sortOrder, indicesToUse, indicesOnly);
    SortedSplitFound(rows, val, col, indicesToUse, indicesOnly, nTgtFinal, nOthersFinal, shuffle, sortOrder, start, finish);
    SplitIs(tmp, sortOrder, indicesToKeep, indicesToUse, indicesOnly, shuffle, order);
    return Ok((res, rej));
  }

  /** The `col` entries of the rows picked by `ids` are the picked `col` entries. */
  lemma SelectKeys(rows: seq<seq<int>>, col: int, ids: seq<nat>)
    requires HasCol(rows, col) && forall k :: 0 <= k < |ids| ==> ids[k] < |rows|
    ensures HasCol(Select(rows, ids), col)
    ensures forall k :: 0 <= k < |ids| ==> At(Select(rows, ids)[k], col) == Select(Keys(rows, col), ids)[k]
  {
  }

  /** `SortedSplit` when the run is found. */
  lemma SortedSplitFound(rows: seq<seq<int>>, val: int, col: int, indicesToUse: seq<int>,
                         indicesOnly: bool, nTgtFinal: nat, nOthersFinal: nat, shuffle: (nat, nat) -> seq<nat>,
                         sortOrder: seq<nat>, start: nat, finish: nat)
    requires Shuffles(shuffle) && HasCol(rows, col) && (indicesToUse != [] ==> |indicesToUse| == |rows|)
    requires sortOrder == StableSort.SortOrder(Keys(rows, col), |rows|)
    requires start == RunStart(Select(Keys(rows, col), sortOrder), val) < |rows|
    requires finish == RunEnd(Select(Keys(rows, col), sortOrder), val, start + 1)
    ensures SortedSplit(rows, val, col, indicesToUse, indicesOnly, nTgtFinal, nOthersFinal, shuffle)
         == Ok(Split(Select(rows, sortOrder), sortOrder, Kept(start, finish, |rows|, nTgtFinal, nOthersFinal, shuffle),
                     indicesToUse, indicesOnly, shuffle))
  {
  }

  /** `Split`, with the last permutation drawn named. */
  lemma SplitIs(tmp: seq<seq<int>>, sortOrder: seq<nat>, keep: seq<nat>, indicesToUse: seq<int>,
                indicesOnly: bool, shuffle: (nat, nat) -> seq<nat>, order: seq<nat>)
    requires Shuffles(shuffle) && |tmp| == |sortOrder| && (indicesToUse != [] ==> |indicesToUse| == |tmp|)
    requires forall k :: 0 <= k < |sortOrder| ==> sortOrder[k] < |tmp|
    requires order == shuffle(2, |tmp|) && IsPermutation(order, |tmp|)
    ensures Split(tmp, sortOrder, keep, indicesToUse, indicesOnly, shuffle)
         == (Select(Entries(tmp, sortOrder, indicesToUse, indicesOnly), Dealt(order, keep, true)),
             Select(Entries(tmp, sortOrder, indicesToUse, indicesOnly), Dealt(order, keep, false)))
  {
  }

  /** The `indicesToKeep` of `FilterData`: the first `nTgtFinal` of the shuffled run
      positions, then the first `nOthersFinal` of the shuffled positions outside it. */
  method KeepIndices(start: nat, finish: nat, nOrig: nat, nTgtFinal: nat, nOthersFinal: nat,
                     shuffle: (nat, nat) -> seq<nat>) returns (indicesToKeep: seq<nat>)
    requires start <= finish <= nOrig && Shuffles(shuffle)
    ensures indicesToKeep == Kept(start, finish, nOrig, nTgtFinal, nOthersFinal, shuffle)
  {
    var nWithVal := finish - start;
    var nOthers := nOrig - nWithVal;
    var othersTake := shuffle(0, nOthers);
    assert IsPermutation(othersTake, nOthers);
    var others := Draw(Others(start, finish, nOrig), othersTake, nOthersFinal);
    var targetsTake := shuffle(1, nWithVal);
    assert IsPermutation(targetsTake, nWithVal);
    var targets := Draw(Targets(start, finish), targetsTake, nTgtFinal);
    indicesToKeep := targets + others;
  }

  /** The last loop of `FilterData`: the entries in the order of `order`, split into those
      at kept positions and the rest. */
  method PullPoints(order: seq<nat>, indicesToKeep: seq<nat>, tmp: seq<seq<int>>, sortOrder: seq<nat>,
                    indicesToUse: seq<int>, indicesOnly: bool) returns (res: seq<Entry>, rej: seq<Entry>)
    requires |tmp| == |sortOrder| && (indicesToUse != [] ==> |indicesToUse| == |tmp|)
    requires (forall k :: 0 <= k < |sortOrder| ==> sortOrder[k] < |tmp|) && forall k :: 0 <= k < |order| ==> order[k] < |tmp|
    ensures res == Select(Entries(tmp, sortOrder, indicesToUse, indicesOnly), Dealt(order, indicesToKeep, true))
    ensures rej == Select(Entries(tmp, sortOrder, indicesToUse, indicesOnly), Dealt(order, indicesToKeep, false))
  {
    ghost var entries := Entries(tmp, sortOrder, indicesToUse, indicesOnly);
    res := [];
    rej := [];
    for j := 0 to |order|
      invariant res == Select(entries, Dealt(order[..j], indicesToKeep, true))
      invariant rej == Select(entries, Dealt(order[..j], indicesToKeep, false))
    {
      var i := order[j];
      var entry;
      if !indicesOnly {
        entry := Row(tmp[i]);
      } else if |indicesToUse| == 0 {
        entry := Index(sortOrder[i]);
      } else {
        entry := Index(indicesToUse[sortOrder[i]]);
      }
      assert order[..j + 1][..j] == order[..j];
      assert entry == entries[i];
      if i in indicesToKeep {
        res := res + [entry];
      } else {
        rej := rej + [entry];
      }
    }
    assert order[..|order|] == order;
  }

  /** The two `while` loops of `FilterData` finding the run of `val` in the sorted rows. */
  method FindRun(tmp: seq<seq<int>>, col: int, val: int, ghost ks: seq<int>) returns (start: nat, finish: nat)
    requires HasCol(tmp, col) && |ks| == |tmp| && forall k :: 0 <= k < |tmp| ==> At(tmp[k], col) == ks[k]
    ensures start == RunStart(ks, val)
    ensures start < |tmp| ==> finish == RunEnd(ks, val, start + 1)
  {
    var nOrig := |tmp|;
    start := 0;
    while start < nOrig && At(tmp[start], col) != val
      invariant start <= nOrig && forall k :: 0 <= k < start ==> ks[k] != val
    {
      start := start + 1;
    }
    RunStartUnique(ks, val, start);
    finish := start + 1;
    if start < nOrig {
      while finish < nOrig && At(tmp[finish], col) == val
        invariant start < finish <= nOrig && RunEnd(ks, val, finish) == RunEnd(ks, val, start + 1)
      {
        finish := finish + 1;
      }
    }
  }

  /** The first position holding `val` is determined by its properties. */
  lemma {:induction false} RunStartUnique(ks: seq<int>, val: int, s: nat)
    requires s <= |ks| && (forall k :: 0 <= k < s ==> ks[k] != val) && (s < |ks| ==> ks[s] == val)
    ensures s == RunStart(ks, val)
  {
    if ks != [] && s > 0 {
      RunStartUnique(ks[1..], val, s - 1);
    }
  }
}
