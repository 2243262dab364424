/** `TextToData`: a table of text fields, as a csv reader yields it, turned into variable
    names, point names and value rows, keeping either the columns not ignored or the
    columns named in `onlyCols`. */
module TextData {
  import opened PyCore
  import opened Text
  import Ensemble

  /** A field as `TextToData` stores it: an int when `int()` accepts it, else the text. */
  function Convert(field: string): Value {
    match ParseInt(field)
    case Some(v) => IntV(v)
    case None => StrV(field)
  }

  /** Python's `l.index(x)` for an `x` in `l`: its first position. */
  function FirstIndex(s: seq<string>, x: string): (i: nat)
    requires x in s
    ensures i < |s| && s[i] == x && x !in s[..i]
  {
    if s[0] == x then 0
    else
      var i := 1 + FirstIndex(s[1..], x);
      assert s[..i] == [s[0]] + s[1..][..i - 1];
      i
  }

  /** The columns among the first `n` of the header whose names are not ignored. */
  function KeptUpTo(header: seq<string>, ignoreCols: seq<string>, n: nat): seq<int>
    requires n <= |header|
  {
    if n == 0 then []
    else KeptUpTo(header, ignoreCols, n - 1) + (if header[n - 1] !in ignoreCols then [n - 1] else [])
  }

  /** The last of the first `n` header columns named `name`, or -1 if there is none. */
  function LastIndex(header: seq<string>, name: string, n: nat): (i: int)
    requires n <= |header|
    ensures -1 <= i < n
  {
    if n == 0 then -1
    else if header[n - 1] == name then n - 1
    else LastIndex(header, name, n - 1)
  }

  /** `keepCols` for `onlyCols` once the first `n` header columns are seen: the entry of a
      name's first position in `onlyCols` is the last column so far with that name; every
      other entry is still -1. */
  function OnlyUpTo(header: seq<string>, onlyCols: seq<string>, n: nat): (r: seq<int>)
    requires n <= |header|
    ensures |r| == |onlyCols|
  {
    seq(|onlyCols|, k requires 0 <= k < |onlyCols| =>
      if FirstIndex(onlyCols, onlyCols[k]) == k then LastIndex(header, onlyCols[k], n) else -1)
  }

  /** `keepCols`; an empty `onlyCols` stands for `None`. */
  function KeepCols(header: seq<string>, ignoreCols: seq<string>, onlyCols: seq<string>): seq<int> {
    if onlyCols == [] then KeptUpTo(header, ignoreCols, |header|) else OnlyUpTo(header, onlyCols, |header|)
  }

  /** The point a row's kept fields make: every kept field but the first, converted. */
  function Point(tmp: seq<string>): (pt: seq<Value>)
    requires tmp != []
    ensures |pt| == |tmp| - 1
  {
    seq(|tmp| - 1, j requires 0 <= j < |tmp| - 1 => Convert(tmp[j + 1]))
  }

  /** The point names and points of the data rows; empty rows are skipped, a row of the
      wrong length raises ValueError and a row with no kept field IndexError. */
  function Lines(rows: seq<seq<string>>, nCols: nat, keep: seq<int>): Result<(seq<string>, seq<seq<Value>>)> {
    if rows == [] then Ok(([], []))
    else
      var front := Lines(rows[..|rows| - 1], nCols, keep);
      var line := rows[|rows| - 1];
      if front.Fail? || |line| == 0 then front
      else if |line| != nCols then Fail(ValueError)
      else
        var tmp := Ensemble.Pick(line, keep);
        if tmp.Fail? then Fail(tmp.error)
        else if tmp.value == [] then Fail(IndexError)
        else Ok((front.value.0 + [tmp.value[0]], front.value.1 + [Point(tmp.value)]))
  }

  /** What `TextToData(reader, ignoreCols, onlyCols)` returns, as the triple of variable
      names, point names and points; an empty reader raises StopIteration. */
  function TextToDataSpec(reader: seq<seq<string>>, ignoreCols: seq<string>, onlyCols: seq<string>)
    : Result<(seq<string>, seq<string>, seq<seq<Value>>)>
  {
    if reader == [] then Fail(StopIteration)
    else
      var keep := KeepCols(reader[0], ignoreCols, onlyCols);
      var names := Ensemble.Pick(reader[0], keep);
      if names.Fail? then Fail(names.error)
      else
        var lines := Lines(reader[1..], |reader[0]|, keep);
        if lines.Fail? then Fail(lines.error)
        else Ok((names.value, lines.value.0, lines.value.1))
  }

  /** `TextToData(reader, ignoreCols, onlyCols)`, returning the triple instead of the data
      set built from it; an empty `onlyCols` stands for `None`. */
  method TextToData(reader: seq<seq<string>>, ignoreCols: seq<string>, onlyCols: seq<string>)
    returns (r: Result<(seq<string>, seq<string>, seq<seq<Value>>)>)
    ensures r == TextToDataSpec(reader, ignoreCols, onlyCols)
  {
    if |reader| == 0 {
      return Fail(StopIteration);
    }
    var header := reader[0];
    var keepCols := SelectColumns(header, ignoreCols, onlyCols);
    var nCols := |header|;
    var names := Ensemble.Pick(header, keepCols);
    if names.Fail? {
      return Fail(names.error);
    }
    var nVars := |keepCols|;
    var vals: seq<seq<Value>> := [];
    var ptNames: seq<string> := [];
    var rows := reader[1..];
    for n := 0 to |rows|
      invariant Lines(rows[..n], nCols, keepCols) == Ok((ptNames, vals))
    {
      assert rows[..n + 1][..n] == rows[..n];
      var splitLine := rows[n];
      if |splitLine| > 0 {
        if |splitLine| != nCols {
          LinesFail(rows, nCols, keepCols, n + 1);
          return Fail(ValueError);
        }
        var tmp := Ensemble.Pick(splitLine, keepCols);
        if tmp.Fail? {
          LinesFail(rows, nCols, keepCols, n + 1);
          return Fail(tmp.error);
        }
        if |tmp.value| == 0 {
          LinesFail(rows, nCols, keepCols, n + 1);
          return Fail(IndexError);
        }
        ptNames := ptNames + [tmp.value[0]];
        var pt := ConvertFields(tmp.value);
        vals := vals + [pt];
      }
    }
    assert rows[..|rows|] == rows;
    assert keepCols == KeepCols(reader[0], ignoreCols, onlyCols);
    assert Lines(reader[1..], |reader[0]|, keepCols) == Ok((ptNames, vals));
    return Ok((names.value, ptNames, vals));
  }

  /** The loop filling `keepCols`. */
  method SelectColumns(header: seq<string>, ignoreCols: seq<string>, onlyCols: seq<string>) returns (keepCols: seq<int>)
    ensures keepCols == KeepCols(header, ignoreCols, onlyCols)
  {
    if |onlyCols| == 0 {
      keepCols := [];
      for i := 0 to |header|
        invariant keepCols == KeptUpTo(header, ignoreCols, i)
      {
        if header[i] !in ignoreCols {
          keepCols := keepCols + [i];
        }
      }
    } else {
      var keep := new int[|onlyCols|](_ => -1);
      assert keep[..] == OnlyUpTo(header, onlyCols, 0);
      for i := 0 to |header|
        invariant keep[..] == OnlyUpTo(header, onlyCols, i)
      {
        if header[i] in onlyCols {
          var k := FirstIndex(onlyCols, header[i]);
          OnlyStepHit(header, onlyCols, i);
          keep[k] := i;
        } else {
          OnlyStepMiss(header, onlyCols, i);
        }
      }
      keepCols := keep[..];
    }
  }

  /** The inner loop converting the kept fields of one row. */
  method ConvertFields(tmp: seq<string>) returns (pt: seq<Value>)
    requires tmp != []
    ensures pt == Point(tmp)
  {
    var a := new Value[|tmp| - 1](_ => StrV(""));
    for j := 0 to |tmp| - 1
      invariant forall k :: 0 <= k < j ==> a[k] == Convert(tmp[k + 1])
    {
      a[j] := Convert(tmp[j + 1]);
    }
    pt := a[..];
  }

  /** A header column named in `onlyCols` lands at the name's first position there. */
  lemma OnlyStepHit(header: seq<string>, onlyCols: seq<string>, i: nat)
    requires i < |header| && header[i] in onlyCols
    ensures OnlyUpTo(header, onlyCols, i + 1) == OnlyUpTo(header, onlyCols, i)[FirstIndex(onlyCols, header[i]) := i]
  {
  }

  /** A header column not named in `onlyCols` changes nothing. */
  lemma OnlyStepMiss(header: seq<string>, onlyCols: seq<string>, i: nat)
    requires i < |header| && header[i] !in onlyCols
    ensures OnlyUpTo(header, onlyCols, i + 1) == OnlyUpTo(header, onlyCols, i)
  {
    forall k | 0 <= k < |onlyCols| ensures onlyCols[k] != header[i] {
    }
  }

  /** A row that fails makes the whole table fail the same way. */
  lemma {:induction false} LinesFail(rows: seq<seq<string>>, nCols: nat, keep: seq<int>, n: nat)
    requires n <= |rows| && Lines(rows[..n], nCols, keep).Fail?
    ensures Lines(rows, nCols, keep) == Lines(rows[..n], nCols, keep)
    decreases |rows| - n
  {
    if n == |rows| {
      assert rows[..n] == rows;
    } else {
      assert rows[..n + 1][..n] == rows[..n];
      LinesFail(rows, nCols, keep, n + 1);
    }
  }

  /** Without `onlyCols`, exactly the columns whose names are not ignored are kept, in
      header order. */
  lemma {:induction false} KeptMeaning(header: seq<string>, ignoreCols: seq<string>, n: nat)
    requires n <= |header|
    ensures forall x :: x in KeptUpTo(header, ignoreCols, n) <==> 0 <= x < n && header[x] !in ignoreCols
    ensures forall a, b :: 0 <= a < b < |KeptUpTo(header, ignoreCols, n)| ==>
      KeptUpTo(header, ignoreCols, n)[a] < KeptUpTo(header, ignoreCols, n)[b]
  {
    if n > 0 {
      KeptMeaning(header, ignoreCols, n - 1);
      var front := KeptUpTo(header, ignoreCols, n - 1);
      assert forall i :: 0 <= i < |front| ==> front[i] in front;
    }
  }

  /** The last column with a name is that name's column. */
  lemma {:induction false} LastIndexMeaning(header: seq<string>, name: string, n: nat)
    requires n <= |header|
    ensures LastIndex(header, name, n) == -1 <==> name !in header[..n]
    ensures LastIndex(header, name, n) >= 0 ==>
      header[LastIndex(header, name, n)] == name
      && forall i :: LastIndex(header, name, n) < i < n ==> header[i] != name
  {
    if n > 0 {
      LastIndexMeaning(header, name, n - 1);
      assert header[..n] == header[..n - 1] + [header[n - 1]];
    }
  }

  /** A name's first position in a list is where it does not occur before. */
  lemma FirstIndexAt(s: seq<string>, k: nat)
    requires k < |s|
    ensures FirstIndex(s, s[k]) == k <==> s[k] !in s[..k]
  {
    var f := FirstIndex(s, s[k]);
    assert forall i :: 0 <= i < f ==> s[..f][i] == s[i];
    assert forall i :: 0 <= i < k ==> s[..k][i] == s[i];
  }

  /** With `onlyCols`, the kept columns follow `onlyCols`: entry `k` is the (last) header
      column named `onlyCols[k]`. A name missing from the header, or repeated in
      `onlyCols` after its first position, leaves -1, which selects the last column. */
  lemma OnlyMeaning(header: seq<string>, onlyCols: seq<string>, k: nat)
    requires k < |onlyCols|
    ensures var keep := OnlyUpTo(header, onlyCols, |header|);
      (onlyCols[k] in header && onlyCols[k] !in onlyCols[..k] ==>
         0 <= keep[k] < |header| && header[keep[k]] == onlyCols[k]
         && forall i :: keep[k] < i < |header| ==> header[i] != onlyCols[k])
      && (onlyCols[k] !in header || onlyCols[k] in onlyCols[..k] ==>
         keep[k] == -1 && (header != [] ==> At(header, keep[k]) == header[|header| - 1]))
  {
    assert header[..|header|] == header;
    LastIndexMeaning(header, onlyCols[k], |header|);
    FirstIndexAt(onlyCols, k);
  }

  /** No row of the data is other than empty or as long as the header. */
  predicate RowsFit(rows: seq<seq<string>>, nCols: nat) {
    forall i :: 0 <= i < |rows| ==> |rows[i]| == 0 || |rows[i]| == nCols
  }

  /** The non-empty rows, in order. */
  function NonEmpty(rows: seq<seq<string>>): seq<seq<string>> {
    if rows == [] then []
    else NonEmpty(rows[..|rows| - 1]) + (if |rows[|rows| - 1]| == 0 then [] else [rows[|rows| - 1]])
  }

  /** The rows' point names and points exist exactly when every row fits and, if no column
      is kept, every row is empty; with columns kept a row that does not fit raises
      ValueError. Then there is one point name and one point per non-empty row: its first
      kept field, and its other kept fields converted. */
  lemma {:induction false} LinesMeaning(rows: seq<seq<string>>, nCols: nat, keep: seq<int>)
    requires forall k :: 0 <= k < |keep| ==> InRange(nCols, keep[k])
    ensures Lines(rows, nCols, keep).Ok? <==> RowsFit(rows, nCols) && (keep == [] ==> NonEmpty(rows) == [])
    ensures keep != [] && Lines(rows, nCols, keep).Fail? ==> Lines(rows, nCols, keep).error == ValueError
    ensures keep == [] && Lines(rows, nCols, keep).Fail? ==> Lines(rows, nCols, keep).error in {ValueError, IndexError}
    ensures Lines(rows, nCols, keep).Ok? ==>
      var ns := NonEmpty(rows);
      var (ptNames, vals) := Lines(rows, nCols, keep).value;
      |ptNames| == |ns| && |vals| == |ns|
      && forall i :: 0 <= i < |ns| ==>
           |ns[i]| == nCols && ptNames[i] == At(ns[i], keep[0]) && |vals[i]| == |keep| - 1
           && forall j :: 0 <= j < |keep| - 1 ==> vals[i][j] == Convert(At(ns[i], keep[j + 1]))
  {
    if rows != [] {
      var init := rows[..|rows| - 1];
      var line := rows[|rows| - 1];
      LinesMeaning(init, nCols, keep);
      assert forall i :: 0 <= i < |init| ==> init[i] == rows[i];
      if |line| == nCols {
        Ensemble.PickMeaning(line, keep);
      }
    }
  }

  /** Every kept column is a column of a table `nCols` wide. */
  predicate KeepFits(keep: seq<int>, nCols: nat) {
    forall k :: 0 <= k < |keep| ==> InRange(nCols, keep[k])
  }

  /** `TextToData` raises StopIteration exactly on an empty reader. Otherwise, with `keep`
      the kept columns, it succeeds exactly when the header has every kept column, every row
      fits and, if no column is kept, every row is empty; a kept column the header lacks
      raises IndexError, a row that does not fit while columns are kept ValueError. */
  lemma TextToDataMeaning(reader: seq<seq<string>>, ignoreCols: seq<string>, onlyCols: seq<string>)
    ensures TextToDataSpec(reader, ignoreCols, onlyCols) == Fail(StopIteration) <==> reader == []
    ensures reader != [] ==>
      var keep := KeepCols(reader[0], ignoreCols, onlyCols);
      var r := TextToDataSpec(reader, ignoreCols, onlyCols);
      (r.Ok? <==> KeepFits(keep, |reader[0]|) && RowsFit(reader[1..], |reader[0]|) && (keep == [] ==> NonEmpty(reader[1..]) == []))
      && (!KeepFits(keep, |reader[0]|) ==> r == Fail(IndexError))
      && (KeepFits(keep, |reader[0]|) && keep != [] && !RowsFit(reader[1..], |reader[0]|) ==> r == Fail(ValueError))
  {
    if reader != [] {
      var keep := KeepCols(reader[0], ignoreCols, onlyCols);
      Ensemble.PickMeaning(reader[0], keep);
      if Ensemble.Pick(reader[0], keep).Ok? {
        LinesMeaning(reader[1..], |reader[0]|, keep);
      }
    }
  }

  /** The variable names are the kept header fields, and each non-empty row gives its
      first kept field as point name and its other kept fields, converted, as point. */
  lemma TextToDataContents(reader: seq<seq<string>>, ignoreCols: seq<string>, onlyCols: seq<string>)
    requires TextToDataSpec(reader, ignoreCols, onlyCols).Ok?
    ensures reader != [] && KeepFits(KeepCols(reader[0], ignoreCols, onlyCols), |reader[0]|)
    ensures NonEmpty(reader[1..]) != [] ==> KeepCols(reader[0], ignoreCols, onlyCols) != []
    ensures var keep := KeepCols(reader[0], ignoreCols, onlyCols);
      var ns := NonEmpty(reader[1..]);
      var (varNames, ptNames, vals) := TextToDataSpec(reader, ignoreCols, onlyCols).value;
      |varNames| == |keep| && (forall k :: 0 <= k < |keep| ==> varNames[k] == At(reader[0], keep[k]))
      && |ptNames| == |ns| && |vals| == |ns|
      && forall i :: 0 <= i < |ns| ==>
           |ns[i]| == |reader[0]| && ptNames[i] == At(ns[i], keep[0]) && |vals[i]| == |keep| - 1
           && forall j :: 0 <= j < |keep| - 1 ==> vals[i][j] == Convert(At(ns[i], keep[j + 1]))
  {
    var keep := KeepCols(reader[0], ignoreCols, onlyCols);
    Ensemble.PickMeaning(reader[0], keep);
    LinesMeaning(reader[1..], |reader[0]|, keep);
  }
}
