/** `CountResults`: a histogram of one column of a data set, either of its raw values or
    of the bins a list of bounds cuts the values into. Values and bounds are numbers,
    ints and floats alike, as reals: Python's `1 == 1.0` makes them the same dict key,
    and bin `b` is counted under the key `b`. */
module Counting {
  import opened PyCore

  /** The bin a value falls in: the first bound it is below, or `|bounds|` when it is
      below none. */
  function Bin(act: real, bounds: seq<real>): (b: nat)
    ensures b <= |bounds|
    ensures forall k :: 0 <= k < b ==> bounds[k] <= act
    ensures b < |bounds| ==> act < bounds[b]
  {
    if bounds == [] then 0
    else if act < bounds[0] then 0
    else 1 + Bin(act, bounds[1..])
  }

  /** A position with those properties is the bin. */
  lemma BinUnique(act: real, bounds: seq<real>, b: nat)
    requires b <= |bounds|
    requires forall k :: 0 <= k < b ==> bounds[k] <= act
    requires b < |bounds| ==> act < bounds[b]
    ensures b == Bin(act, bounds)
  {
  }

  /** The key a row is counted under: its `col` entry, or that entry's bin. */
  function Key(row: seq<real>, col: int, bounds: seq<real>): Result<real> {
    if !InRange(|row|, col) then Fail(IndexError)
    else if bounds == [] then Ok(At(row, col))
    else Ok(Bin(At(row, col), bounds) as real)
  }

  /** The keys of the rows in order, or IndexError at the first row without column `col`. */
  function RowKeys(rows: seq<seq<real>>, col: int, bounds: seq<real>): Result<seq<real>> {
    if rows == [] then Ok([])
    else
      var front := RowKeys(rows[..|rows| - 1], col, bounds);
      var last := Key(rows[|rows| - 1], col, bounds);
      if front.Fail? then front
      else if last.Fail? then Fail(last.error)
      else Ok(front.value + [last.value])
  }

  /** How often each key occurs, built one key at a time as `counts.get(r, 0) + 1`. */
  function Histogram(ks: seq<real>): map<real, nat> {
    if ks == [] then map[]
    else
      var m := Histogram(ks[..|ks| - 1]);
      var k := ks[|ks| - 1];
      m[k := (if k in m then m[k] else 0) + 1]
  }

  /** One more key adds one to its count. */
  lemma HistogramStep(ks: seq<real>, k: real)
    ensures var m := Histogram(ks); Histogram(ks + [k]) == m[k := (if k in m then m[k] else 0) + 1]
  {
    assert (ks + [k])[..|ks|] == ks;
  }

  /** What `CountResults(inData, col, bounds)` returns. */
  function CountSpec(rows: seq<seq<real>>, col: int, bounds: seq<real>): Result<map<real, nat>> {
    match RowKeys(rows, col, bounds)
    case Fail(e) => Fail(e)
    case Ok(ks) => Ok(Histogram(ks))
  }

  /** `CountResults(inData, col, bounds)`; an empty `bounds` stands for `None`. */
  method CountResults(inData: seq<seq<real>>, col: int, bounds: seq<real>) returns (r: Result<map<real, nat>>)
    ensures r == CountSpec(inData, col, bounds)
  {
    var counts: map<real, nat> := map[];
    for i := 0 to |inData|
      invariant RowKeys(inData[..i], col, bounds).Ok?
      invariant counts == Histogram(RowKeys(inData[..i], col, bounds).value)
    {
      RowKeysStep(inData, col, bounds, i);
      var p := inData[i];
      if !InRange(|p|, col) {
        RowKeysFailPersists(inData, col, bounds, i + 1);
        return Fail(IndexError);
      }
      var key: real;
      if bounds == [] {
        key := At(p, col);
      } else {
        var b := FindBin(At(p, col), bounds);
        key := b as real;
      }
      HistogramStep(RowKeys(inData[..i], col, bounds).value, key);
      counts := counts[key := (if key in counts then counts[key] else 0) + 1];
    }
    assert inData[..|inData|] == inData;
    return Ok(counts);
  }

  /** The inner loop of `CountResults`: the first bound `act` is below. */
  method FindBin(act: real, bounds: seq<real>) returns (key: nat)
    ensures key == Bin(act, bounds)
  {
    key := 0;
    var bound := 0;
    var placed := false;
    while !placed && bound < |bounds|
      invariant 0 <= bound <= |bounds|
      invariant forall k :: 0 <= k < bound ==> bounds[k] <= act
      invariant placed ==> bound < |bounds| && act < bounds[bound] && key == bound
      decreases (if placed then 0 else 1), |bounds| - bound
    {
      if act < bounds[bound] {
        key := bound;
        placed := true;
      } else {
        bound := bound + 1;
      }
    }
    if !placed {
      key := bound;
    }
    BinUnique(act, bounds, bound);
  }

  /** One more row extends the keys by that row's key. */
  lemma RowKeysStep(rows: seq<seq<real>>, col: int, bounds: seq<real>, i: nat)
    requires i < |rows| && RowKeys(rows[..i], col, bounds).Ok?
    ensures Key(rows[i], col, bounds).Fail? ==> RowKeys(rows[..i + 1], col, bounds).Fail?
    ensures Key(rows[i], col, bounds).Ok? ==>
      RowKeys(rows[..i + 1], col, bounds) == Ok(RowKeys(rows[..i], col, bounds).value + [Key(rows[i], col, bounds).value])
  {
    assert rows[..i + 1][..i] == rows[..i];
  }

  /** Once a prefix of the rows fails, so do all rows. */
  lemma {:induction false} RowKeysFailPersists(rows: seq<seq<real>>, col: int, bounds: seq<real>, n: nat)
    requires n <= |rows| && RowKeys(rows[..n], col, bounds).Fail?
    ensures RowKeys(rows, col, bounds) == Fail(IndexError)
    decreases |rows| - n
  {
    if n == |rows| {
      assert rows[..n] == rows;
      RowKeysMeaning(rows, col, bounds);
    } else {
      assert rows[..n + 1][..n] == rows[..n];
      RowKeysFailPersists(rows, col, bounds, n + 1);
    }
  }

  /** The keys exist exactly when every row has column `col`; then there is one per row,
      in order: the row's `col` entry, or the bin of that entry. */
  lemma {:induction false} RowKeysMeaning(rows: seq<seq<real>>, col: int, bounds: seq<real>)
    ensures RowKeys(rows, col, bounds).Ok? <==> forall i :: 0 <= i < |rows| ==> InRange(|rows[i]|, col)
    ensures RowKeys(rows, col, bounds).Fail? ==> RowKeys(rows, col, bounds).error == IndexError
    ensures RowKeys(rows, col, bounds).Ok? ==>
      |RowKeys(rows, col, bounds).value| == |rows|
      && forall i :: 0 <= i < |rows| ==> Key(rows[i], col, bounds) == Ok(RowKeys(rows, col, bounds).value[i])
  {
    if rows != [] {
      var init := rows[..|rows| - 1];
      RowKeysMeaning(init, col, bounds);
      assert forall i :: 0 <= i < |init| ==> init[i] == rows[i];
    }
  }

  /** Each key of the histogram occurs among the keys, as often as the histogram says, and
      every key occurs in the histogram. */
  lemma {:induction false} HistogramCounts(ks: seq<real>)
    ensures forall v :: v in Histogram(ks) <==> v in ks
    ensures forall v :: v in Histogram(ks) ==> Histogram(ks)[v] == multiset(ks)[v]
  {
    if ks != [] {
      var init := ks[..|ks| - 1];
      HistogramCounts(init);
      assert ks == init + [ks[|ks| - 1]];
    }
  }

  /** With bounds, every key is a bin: a whole number between 0 and `|bounds|`. */
  lemma BinnedKeys(rows: seq<seq<real>>, col: int, bounds: seq<real>)
    requires bounds != [] && CountSpec(rows, col, bounds).Ok?
    ensures forall v :: v in CountSpec(rows, col, bounds).value ==>
      v.Floor as real == v && 0.0 <= v <= |bounds| as real
  {
    var ks := RowKeys(rows, col, bounds).value;
    RowKeysMeaning(rows, col, bounds);
    HistogramCounts(ks);
    forall v | v in CountSpec(rows, col, bounds).value ensures v.Floor as real == v && 0.0 <= v <= |bounds| as real {
      var i :| 0 <= i < |ks| && ks[i] == v;
      assert Key(rows[i], col, bounds) == Ok(v);
    }
  }

  /** The column `col` of the rows, as far as every row has it. */
  function Column(rows: seq<seq<real>>, col: int): (r: seq<real>)
    requires forall i :: 0 <= i < |rows| ==> InRange(|rows[i]|, col)
    ensures |r| == |rows|
  {
    seq(|rows|, i requires 0 <= i < |rows| && InRange(|rows[i]|, col) => At(rows[i], col))
  }

  /** The bins of the column `col` of the rows. */
  function BinnedColumn(rows: seq<seq<real>>, col: int, bounds: seq<real>): (r: seq<real>)
    requires forall i :: 0 <= i < |rows| ==> InRange(|rows[i]|, col)
    ensures |r| == |rows|
  {
    seq(|rows|, i requires 0 <= i < |rows| && InRange(|rows[i]|, col) => Bin(At(rows[i], col), bounds) as real)
  }

  /** Without bounds, `counts[v]` is the number of rows whose `col` entry is `v`, and every
      value of the column has a count; a row without column `col` raises IndexError. */
  lemma RawCounts(rows: seq<seq<real>>, col: int)
    ensures CountSpec(rows, col, []).Ok? <==> forall i :: 0 <= i < |rows| ==> InRange(|rows[i]|, col)
    ensures CountSpec(rows, col, []).Fail? ==> CountSpec(rows, col, []).error == IndexError
    ensures CountSpec(rows, col, []).Ok? ==>
      var counts := CountSpec(rows, col, []).value;
      forall v :: (v in counts <==> v in Column(rows, col))
               && (v in counts ==> counts[v] == multiset(Column(rows, col))[v])
  {
    RowKeysMeaning(rows, col, []);
    if RowKeys(rows, col, []).Ok? {
      var ks := RowKeys(rows, col, []).value;
      assert forall i :: 0 <= i < |rows| ==> Key(rows[i], col, []) == Ok(ks[i]);
      assert ks == Column(rows, col);
      HistogramCounts(ks);
    }
  }

  /** With bounds, `counts[b]` is the number of rows whose `col` entry falls in bin `b`, and
      every bin some row falls in has a count; a row without column `col` raises IndexError. */
  lemma BinnedCounts(rows: seq<seq<real>>, col: int, bounds: seq<real>)
    requires bounds != []
    ensures CountSpec(rows, col, bounds).Ok? <==> forall i :: 0 <= i < |rows| ==> InRange(|rows[i]|, col)
    ensures CountSpec(rows, col, bounds).Fail? ==> CountSpec(rows, col, bounds).error == IndexError
    ensures CountSpec(rows, col, bounds).Ok? ==>
      var counts := CountSpec(rows, col, bounds).value;
      forall v :: (v in counts <==> v in BinnedColumn(rows, col, bounds))
               && (v in counts ==> counts[v] == multiset(BinnedColumn(rows, col, bounds))[v])
  {
    RowKeysMeaning(rows, col, bounds);
    if RowKeys(rows, col, bounds).Ok? {
      var ks := RowKeys(rows, col, bounds).value;
      assert forall i :: 0 <= i < |rows| ==> Key(rows[i], col, bounds) == Ok(ks[i]);
      assert ks == BinnedColumn(rows, col, bounds);
      HistogramCounts(ks);
    }
  }

  /** The sum of the counts of the keys listed. */
  function SumCounts(m: map<real, nat>, keys: seq<real>): nat {
    if keys == [] then 0
    else
      var k := keys[|keys| - 1];
      SumCounts(m, keys[..|keys| - 1]) + if k in m then m[k] else 0
  }

  /** Setting the count of one listed key changes the sum by the difference. */
  lemma {:induction false} SumUpdate(m: map<real, nat>, keys: seq<real>, k: real, c: nat)
    requires Distinct(keys)
    ensures SumCounts(m[k := c], keys) + (if k in keys && k in m then m[k] else 0)
         == SumCounts(m, keys) + (if k in keys then c else 0)
  {
    if keys != [] {
      var init := keys[..|keys| - 1];
      assert Distinct(init);
      SumUpdate(m, init, k, c);
      assert k in keys <==> k in init || k == keys[|keys| - 1];
      if k == keys[|keys| - 1] {
        assert k !in init by {
          forall i | 0 <= i < |init| ensures init[i] != k {
            assert keys[i] == init[i];
          }
        }
      }
    }
  }

  /** Summed over a list of keys without repeats that lists every key, the histogram adds
      up to the number of keys counted. */
  lemma {:induction false} HistogramSum(ks: seq<real>, keys: seq<real>)
    requires Distinct(keys) && forall v :: v in ks ==> v in keys
    ensures SumCounts(Histogram(ks), keys) == |ks|
  {
    if ks == [] {
      SumEmpty(keys);
    } else {
      var init := ks[..|ks| - 1];
      var k := ks[|ks| - 1];
      assert ks == init + [k];
      HistogramSum(init, keys);
      HistogramStep(init, k);
      var m := Histogram(init);
      SumUpdate(m, keys, k, (if k in m then m[k] else 0) + 1);
    }
  }

  lemma {:induction false} SumEmpty(keys: seq<real>)
    ensures SumCounts(map[], keys) == 0
  {
    if keys != [] {
      SumEmpty(keys[..|keys| - 1]);
    }
  }

  /** In both modes the counts add up to the number of rows: summed over any listing of
      the keys of `counts` without repeats, they give `len(inData)`. */
  lemma CountsTotal(rows: seq<seq<real>>, col: int, bounds: seq<real>, keys: seq<real>)
    requires CountSpec(rows, col, bounds).Ok?
    requires Distinct(keys) && forall v :: v in CountSpec(rows, col, bounds).value <==> v in keys
    ensures SumCounts(CountSpec(rows, col, bounds).value, keys) == |rows|
  {
    RowKeysMeaning(rows, col, bounds);
    var ks := RowKeys(rows, col, bounds).value;
    HistogramCounts(ks);
    HistogramSum(ks, keys);
  }
}
