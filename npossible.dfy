/** `CalcNPossibleUsingMap`: the number of possible values of each variable of a data
    set, read from the quantization bounds where there are any and otherwise found by
    scanning the data for the largest integer value. */
module NPossible {
  import opened PyCore

  /** What the scan knows about one variable: either the variable has left `cols` and its
      `nPossible` entry is final, or it is still in `cols` and `max` is its entry so far. */
  datatype ColState = Fixed(n: int) | Active(max: int)

  /** The variable's entry of `nPossible`. */
  function Count(s: ColState): int {
    match s
    case Fixed(n) => n
    case Active(m) => m
  }

  /** The `nPossible` list for the states of all variables. */
  function Counts(st: seq<ColState>): (r: seq<int>)
    ensures |r| == |st|
  {
    seq(|st|, c requires 0 <= c < |st| => Count(st[c]))
  }

  /** An entry counts when it is an int, or a float that `int()` leaves unchanged. */
  predicate Integral(d: Value) {
    d.IntV? || (d.FloatV? && d.x.Floor as real == d.x)
  }

  /** `int(d)` of an integral entry. */
  function IntOf(d: Value): int
    requires Integral(d)
  {
    if d.IntV? then d.i else d.x.Floor
  }

  function Max(a: int, b: int): (m: int)
    ensures m >= a && m >= b && (m == a || m == b)
  {
    if a >= b then a else b
  }

  /** What one data entry does to a variable: one still in `cols` keeps the larger of its
      entry and an integral value, and leaves `cols` with -1 at any other value; a row too
      short for the variable's column `j` raises IndexError. A variable not in `cols` is
      not looked at. */
  function Observe(s: ColState, row: seq<Value>, j: int): Result<ColState> {
    if s.Fixed? then Ok(s)
    else if !InRange(|row|, j) then Fail(IndexError)
    else
      var d := At(row, j);
      if Integral(d) then Ok(Active(Max(IntOf(d), s.max))) else Ok(Fixed(-1))
  }

  /** The first loop, for variable `i`: a nonzero `nQBounds[i]` or a non-empty `qBounds[i]`
      takes the variable out of `cols`. An empty `nQBounds` stands for `None`. */
  function InitCol(i: nat, qBounds: seq<seq<int>>, nQBounds: seq<int>): Result<ColState> {
    if nQBounds != [] && i >= |nQBounds| then Fail(IndexError)
    else if nQBounds != [] && nQBounds[i] != 0 then Ok(Fixed(-1))
    else if i >= |qBounds| then Fail(IndexError)
    else if |qBounds[i]| > 0 then Ok(Fixed(|qBounds[i]|))
    else Ok(Active(-1))
  }

  /** The states the first loop gives variables `0 .. k-1`. */
  function Initial(k: nat, qBounds: seq<seq<int>>, nQBounds: seq<int>): (r: Result<seq<ColState>>)
    ensures r.Ok? ==> |r.value| == k
  {
    if k == 0 then Ok([])
    else
      var front := Initial(k - 1, qBounds, nQBounds);
      var s := InitCol(k - 1, qBounds, nQBounds);
      if front.Fail? then front
      else if s.Fail? then Fail(s.error)
      else Ok(front.value + [s.value])
  }

  /** The variables from `k` on that are still in `cols`, in increasing order. */
  function ActiveFrom(st: seq<ColState>, k: nat): (r: seq<nat>)
    requires k <= |st|
    ensures forall i :: 0 <= i < |r| ==> k <= r[i] < |st|
    decreases |st| - k
  {
    if k == |st| then [] else (if st[k].Active? then [k] else []) + ActiveFrom(st, k + 1)
  }

  /** The inner loop: one row seen by the variables of the snapshot `S` of `cols`. */
  function UpdateCols(st: seq<ColState>, row: seq<Value>, order: seq<int>, S: seq<nat>): (r: Result<seq<ColState>>)
    requires |st| == |order| && forall k :: 0 <= k < |S| ==> S[k] < |st|
    ensures r.Ok? ==> |r.value| == |st|
  {
    if S == [] then Ok(st)
    else
      var front := UpdateCols(st, row, order, S[..|S| - 1]);
      var c := S[|S| - 1];
      if front.Fail? then front
      else
        var s := Observe(front.value[c], row, order[c]);
        if s.Fail? then Fail(s.error) else Ok(front.value[c := s.value])
  }

  /** One pass of the outer loop, over a snapshot of `cols`. */
  function RowStep(st: seq<ColState>, row: seq<Value>, order: seq<int>): (r: Result<seq<ColState>>)
    requires |st| == |order|
    ensures r.Ok? ==> |r.value| == |st|
  {
    UpdateCols(st, row, order, ActiveFrom(st, 0))
  }

  /** The outer loop over the data points. */
  function Scan(st: seq<ColState>, data: seq<seq<Value>>, order: seq<int>): (r: Result<seq<ColState>>)
    requires |st| == |order|
    ensures r.Ok? ==> |r.value| == |st|
  {
    if data == [] then Ok(st)
    else
      var front := Scan(st, data[..|data| - 1], order);
      if front.Fail? then front else RowStep(front.value, data[|data| - 1], order)
  }

  /** What `CalcNPossibleUsingMap(data, order, qBounds, nQBounds)` returns. */
  function NPossibleSpec(data: seq<seq<Value>>, order: seq<int>, qBounds: seq<seq<int>>, nQBounds: seq<int>): Result<seq<int>> {
    var init := Initial(|order|, qBounds, nQBounds);
    if init.Fail? then Fail(init.error)
    else
      var st := Scan(init.value, data, order);
      if st.Fail? then Fail(st.error)
      else Ok(seq(|order|, c requires 0 <= c < |order| => Count(st.value[c]) + 1))
  }

  /** Python's `l.remove(x)` for an `x` that occurs in `l`: drops its first occurrence. */
  function Remove(s: seq<nat>, x: nat): seq<nat> {
    if s == [] then []
    else if s[0] == x then s[1..]
    else [s[0]] + Remove(s[1..], x)
  }

  /** `CalcNPossibleUsingMap(data, order, qBounds, nQBounds)`; an empty `nQBounds` stands
      for `None`. The assertion that `order` matches one of the bound lists is required. */
  method CalcNPossibleUsingMap(data: seq<seq<Value>>, order: seq<int>, qBounds: seq<seq<int>>, nQBounds: seq<int>)
    returns (r: Result<seq<int>>)
    requires (|qBounds| > 0 && |order| == |qBounds|) || (|nQBounds| > 0 && |order| == |nQBounds|)
    ensures r == NPossibleSpec(data, order, qBounds, nQBounds)
  {
    var nVars := |order|;
    var failed, nPossible, cols, init := InitialPass(order, qBounds, nQBounds);
    if failed {
      return Fail(IndexError);
    }
    ghost var st := init;
    for i := 0 to |data|
      invariant Scan(init, data[..i], order) == Ok(st)
      invariant |st| == nVars == nPossible.Length && nPossible[..] == Counts(st) && cols == ActiveFrom(st, 0)
    {
      ScanStep(init, data, order, i);
      var rowFailed;
      rowFailed, cols, st := ObserveRow(nPossible, cols, data[i], order, st);
      if rowFailed {
        ScanFails(init, data, order, i + 1);
        return Fail(IndexError);
      }
    }
    assert data[..|data|] == data;
    var np := nPossible[..];
    r := Ok(seq(nVars, c requires 0 <= c < nVars => np[c] + 1));
    assert r.value == NPossibleSpec(data, order, qBounds, nQBounds).value;
  }

  /** The first loop of `CalcNPossibleUsingMap`: `nPossible` and `cols` for the states the
      bounds give the variables. */
  method InitialPass(order: seq<int>, qBounds: seq<seq<int>>, nQBounds: seq<int>)
    returns (failed: bool, nPossible: array<int>, cols: seq<nat>, ghost st: seq<ColState>)
    ensures fresh(nPossible)
    ensures failed <==> Initial(|order|, qBounds, nQBounds).Fail?
    ensures failed ==> Initial(|order|, qBounds, nQBounds).error == IndexError
    ensures !failed ==> (Initial(|order|, qBounds, nQBounds) == Ok(st)
      && nPossible.Length == |st| && nPossible[..] == Counts(st) && cols == ActiveFrom(st, 0))
  {
    var nVars := |order|;
    nPossible := new int[nVars](_ => -1);
    cols := Range(nVars);
    st := seq(nVars, _ => Active(-1));
    AllActive(nVars, 0);
    failed := false;
    for i := 0 to nVars
      invariant Initial(i, qBounds, nQBounds).Ok?
      invariant st == Initial(i, qBounds, nQBounds).value + seq(nVars - i, _ => Active(-1))
      invariant nPossible.Length == nVars && nPossible[..] == Counts(st)
      invariant cols == ActiveFrom(st, 0)
    {
      ghost var pre := Initial(i, qBounds, nQBounds).value;
      if nQBounds != [] && i >= |nQBounds| {
        InitialFails(i + 1, nVars, qBounds, nQBounds);
        return true, nPossible, cols, st;
      }
      if nQBounds != [] && nQBounds[i] != 0 {
        nPossible[i] := -1;
        CountsUpdate(st, i, Fixed(-1));
        ActiveRemove(st, 0, i, -1);
        cols := Remove(cols, i);
        st := st[i := Fixed(-1)];
      } else if i >= |qBounds| {
        InitialFails(i + 1, nVars, qBounds, nQBounds);
        return true, nPossible, cols, st;
      } else if |qBounds[i]| > 0 {
        nPossible[i] := |qBounds[i]|;
        CountsUpdate(st, i, Fixed(|qBounds[i]|));
        ActiveRemove(st, 0, i, |qBounds[i]|);
        cols := Remove(cols, i);
        st := st[i := Fixed(|qBounds[i]|)];
      }
      SetNext(pre, InitCol(i, qBounds, nQBounds).value, Active(-1), nVars - i - 1);
    }
    assert st == Initial(nVars, qBounds, nQBounds).value + [];
    assert Initial(nVars, qBounds, nQBounds).Ok?;
    assert st == Initial(nVars, qBounds, nQBounds).value;
  }

  /** One pass of the outer loop of `CalcNPossibleUsingMap`: every variable of a snapshot
      of `cols` looks at its entry of `row`. */
  method ObserveRow(nPossible: array<int>, cols: seq<nat>, row: seq<Value>, order: seq<int>, ghost st: seq<ColState>)
    returns (failed: bool, cols': seq<nat>, ghost st': seq<ColState>)
    requires |st| == |order| == nPossible.Length && nPossible[..] == Counts(st) && cols == ActiveFrom(st, 0)
    modifies nPossible
    ensures failed <==> RowStep(st, row, order).Fail?
    ensures failed ==> RowStep(st, row, order).error == IndexError
    ensures !failed ==> (RowStep(st, row, order) == Ok(st')
      && |st'| == |st| && nPossible[..] == Counts(st') && cols' == ActiveFrom(st', 0))
  {
    var snapshot := cols;
    cols' := cols;
    st' := st;
    ProgressStart(st, row, order);
    for j := 0 to |snapshot|
      invariant Progress(st, row, order, snapshot, j, st')
      invariant nPossible.Length == |st'| && nPossible[..] == Counts(st') && cols' == ActiveFrom(st', 0)
    {
      var col := snapshot[j];
      ProgressActive(st, row, order, snapshot, j, st');
      var colFailed;
      ghost var pre := st';
      colFailed, cols', st' := ObserveColumn(nPossible, cols', row, order, col, st');
      if colFailed {
        ProgressFail(st, row, order, snapshot, j, pre);
        return true, cols', st';
      }
      ProgressNext(st, row, order, snapshot, j, pre);
    }
    ProgressEnd(st, row, order, snapshot, st');
    failed := false;
  }

  /** The inner loop has handled the first `j` variables of the snapshot `S`, which the
      states `cur` are the result of, and the rest of `S` is still in `cols`. */
  ghost predicate Progress(st: seq<ColState>, row: seq<Value>, order: seq<int>, S: seq<nat>, j: nat, cur: seq<ColState>) {
    |st| == |order| && j <= |S| && (forall k :: 0 <= k < |S| ==> S[k] < |st|) && Distinct(S)
    && UpdateCols(st, row, order, S[..j]) == Ok(cur)
    && forall k :: j <= k < |S| ==> cur[S[k]].Active?
  }

  lemma ProgressStart(st: seq<ColState>, row: seq<Value>, order: seq<int>)
    requires |st| == |order|
    ensures Progress(st, row, order, ActiveFrom(st, 0), 0, st)
  {
    ActiveFromMeaning(st, 0);
    var S := ActiveFrom(st, 0);
    assert S[..0] == [];
    forall k | 0 <= k < |S| ensures st[S[k]].Active? {
      assert S[k] in S;
    }
  }

  lemma ProgressActive(st: seq<ColState>, row: seq<Value>, order: seq<int>, S: seq<nat>, j: nat, cur: seq<ColState>)
    requires Progress(st, row, order, S, j, cur) && j < |S|
    ensures |cur| == |st| && S[j] < |cur| && cur[S[j]].Active?
  {
  }

  lemma ProgressFail(st: seq<ColState>, row: seq<Value>, order: seq<int>, S: seq<nat>, j: nat, cur: seq<ColState>)
    requires Progress(st, row, order, S, j, cur) && j < |S|
    requires Observe(cur[S[j]], row, order[S[j]]).Fail?
    ensures UpdateCols(st, row, order, S) == Fail(IndexError)
  {
    UpdateSnoc(st, row, order, S, j, cur);
    UpdateFails(st, row, order, S, j + 1);
  }

  lemma ProgressNext(st: seq<ColState>, row: seq<Value>, order: seq<int>, S: seq<nat>, j: nat, cur: seq<ColState>)
    requires Progress(st, row, order, S, j, cur) && j < |S|
    requires Observe(cur[S[j]], row, order[S[j]]).Ok?
    ensures Progress(st, row, order, S, j + 1, cur[S[j] := Observe(cur[S[j]], row, order[S[j]]).value])
  {
    UpdateSnoc(st, row, order, S, j, cur);
    var next := cur[S[j] := Observe(cur[S[j]], row, order[S[j]]).value];
    forall k | j + 1 <= k < |S| ensures next[S[k]].Active? {
      assert S[k] != S[j];
    }
  }

  lemma ProgressEnd(st: seq<ColState>, row: seq<Value>, order: seq<int>, S: seq<nat>, cur: seq<ColState>)
    requires Progress(st, row, order, S, |S|, cur)
    ensures UpdateCols(st, row, order, S) == Ok(cur)
  {
    assert S[..|S|] == S;
  }

  /** The body of the inner loop: variable `col` looks at its entry of `row`. */
  method ObserveColumn(nPossible: array<int>, cols: seq<nat>, row: seq<Value>, order: seq<int>, col: nat,
                       ghost st: seq<ColState>)
    returns (failed: bool, cols': seq<nat>, ghost st': seq<ColState>)
    requires col < |st| == |order| == nPossible.Length && st[col].Active?
    requires nPossible[..] == Counts(st) && cols == ActiveFrom(st, 0)
    modifies nPossible
    ensures failed <==> Observe(st[col], row, order[col]).Fail?
    ensures !failed ==> (st' == st[col := Observe(st[col], row, order[col]).value]
      && nPossible[..] == Counts(st') && cols' == ActiveFrom(st', 0))
  {
    if !InRange(|row|, order[col]) {
      return true, cols, st;
    }
    var d := At(row, order[col]);
    if (d.IntV? || d.FloatV?) && Integral(d) {
      nPossible[col] := Max(IntOf(d), nPossible[col]);
      CountsUpdate(st, col, Active(Max(IntOf(d), st[col].max)));
      ActiveKeep(st, 0, col, Max(IntOf(d), st[col].max));
      cols' := cols;
      st' := st[col := Active(Max(IntOf(d), st[col].max))];
    } else {
      nPossible[col] := -1;
      CountsUpdate(st, col, Fixed(-1));
      ActiveRemove(st, 0, col, -1);
      cols' := Remove(cols, col);
      st' := st[col := Fixed(-1)];
    }
    failed := false;
  }

  /** Setting one state sets one entry of `nPossible`. */
  lemma CountsUpdate(st: seq<ColState>, c: nat, s: ColState)
    requires c < |st|
    ensures Counts(st[c := s]) == Counts(st)[c := Count(s)]
  {
  }

  /** A first loop that fails stays failed. */
  lemma {:induction false} InitialFails(k: nat, n: nat, qBounds: seq<seq<int>>, nQBounds: seq<int>)
    requires 0 < k <= n && InitCol(k - 1, qBounds, nQBounds).Fail? && Initial(k - 1, qBounds, nQBounds).Ok?
    ensures Initial(n, qBounds, nQBounds) == Fail(IndexError)
    decreases n
  {
    if n > k {
      InitialFails(k, n - 1, qBounds, nQBounds);
    }
  }

  /** Setting the first of the pending variables. */
  lemma SetNext(pre: seq<ColState>, x: ColState, y: ColState, n: nat)
    ensures (pre + seq(n + 1, _ => y))[|pre| := x] == pre + [x] + seq(n, _ => y)
  {
  }

  /** With all variables in `cols`, `cols` is `range`. */
  lemma {:induction false} AllActive(n: nat, k: nat)
    requires k <= n
    ensures ActiveFrom(seq(n, _ => Active(-1)), k) == seq(n - k, i requires 0 <= i < n - k => (k + i) as nat)
    decreases n - k
  {
    if k < n {
      AllActive(n, k + 1);
    }
  }

  /** Taking a variable out of `cols` removes it from the list. */
  lemma {:induction false} ActiveRemove(st: seq<ColState>, k: nat, c: nat, n: int)
    requires k <= c < |st| && st[c].Active?
    ensures Remove(ActiveFrom(st, k), c) == ActiveFrom(st[c := Fixed(n)], k)
    decreases |st| - k
  {
    var rest := ActiveFrom(st, k + 1);
    if k == c {
      ActiveSame(st, st[c := Fixed(n)], c + 1);
      assert ([k] + rest)[1..] == rest;
    } else {
      ActiveRemove(st, k + 1, c, n);
      if st[k].Active? {
        assert ([k] + rest)[1..] == rest;
      } else {
        assert [] + rest == rest;
      }
    }
  }

  /** A new maximum leaves `cols` alone. */
  lemma {:induction false} ActiveKeep(st: seq<ColState>, k: nat, c: nat, m: int)
    requires k <= |st| && c < |st| && st[c].Active?
    ensures ActiveFrom(st, k) == ActiveFrom(st[c := Active(m)], k)
    decreases |st| - k
  {
    if k < |st| {
      ActiveKeep(st, k + 1, c, m);
    }
  }

  /** `cols` from `k` on depends only on the states from `k` on. */
  lemma {:induction false} ActiveSame(st: seq<ColState>, st': seq<ColState>, k: nat)
    requires k <= |st| == |st'| && forall c :: k <= c < |st| ==> st[c] == st'[c]
    ensures ActiveFrom(st, k) == ActiveFrom(st', k)
    decreases |st| - k
  {
    if k < |st| {
      ActiveSame(st, st', k + 1);
    }
  }

  /** `cols` holds exactly the variables still scanned, each once. */
  lemma {:induction false} ActiveFromMeaning(st: seq<ColState>, k: nat)
    requires k <= |st|
    ensures forall c :: c in ActiveFrom(st, k) <==> k <= c < |st| && st[c].Active?
    ensures Distinct(ActiveFrom(st, k))
    decreases |st| - k
  {
    if k < |st| {
      ActiveFromMeaning(st, k + 1);
    }
  }

  /** One more variable of the snapshot. */
  lemma UpdateStep(st: seq<ColState>, row: seq<Value>, order: seq<int>, S: seq<nat>, j: nat)
    requires |st| == |order| && j < |S| && forall k :: 0 <= k < |S| ==> S[k] < |st|
    ensures UpdateCols(st, row, order, S[..j + 1]) ==
      var front := UpdateCols(st, row, order, S[..j]);
      if front.Fail? then front
      else
        var s := Observe(front.value[S[j]], row, order[S[j]]);
        if s.Fail? then Fail(s.error) else Ok(front.value[S[j] := s.value])
  {
    assert S[..j + 1][..j] == S[..j];
  }

  /** One more variable of the snapshot, from the states so far. */
  lemma UpdateSnoc(st: seq<ColState>, row: seq<Value>, order: seq<int>, S: seq<nat>, j: nat, cur: seq<ColState>)
    requires |st| == |order| && j < |S| && forall k :: 0 <= k < |S| ==> S[k] < |st|
    requires UpdateCols(st, row, order, S[..j]) == Ok(cur)
    ensures Observe(cur[S[j]], row, order[S[j]]).Fail? ==> UpdateCols(st, row, order, S[..j + 1]) == Fail(IndexError)
    ensures Observe(cur[S[j]], row, order[S[j]]).Ok? ==>
      UpdateCols(st, row, order, S[..j + 1]) == Ok(cur[S[j] := Observe(cur[S[j]], row, order[S[j]]).value])
  {
    UpdateStep(st, row, order, S, j);
  }

  lemma {:induction false} UpdateFails(st: seq<ColState>, row: seq<Value>, order: seq<int>, S: seq<nat>, j: nat)
    requires |st| == |order| && j <= |S| && forall k :: 0 <= k < |S| ==> S[k] < |st|
    requires UpdateCols(st, row, order, S[..j]).Fail?
    ensures UpdateCols(st, row, order, S) == UpdateCols(st, row, order, S[..j])
    decreases |S| - j
  {
    if j == |S| {
      assert S[..j] == S;
    } else {
      UpdateStep(st, row, order, S, j);
      UpdateFails(st, row, order, S, j + 1);
    }
  }

  /** One more data point. */
  lemma ScanStep(st: seq<ColState>, data: seq<seq<Value>>, order: seq<int>, i: nat)
    requires |st| == |order| && i < |data|
    ensures Scan(st, data[..i + 1], order) ==
      var front := Scan(st, data[..i], order);
      if front.Fail? then front else RowStep(front.value, data[i], order)
  {
    assert data[..i + 1][..i] == data[..i];
  }

  lemma {:induction false} ScanFails(st: seq<ColState>, data: seq<seq<Value>>, order: seq<int>, i: nat)
    requires |st| == |order| && i <= |data| && Scan(st, data[..i], order).Fail?
    ensures Scan(st, data, order) == Scan(st, data[..i], order)
    decreases |data| - i
  {
    if i == |data| {
      assert data[..i] == data;
    } else {
      ScanStep(st, data, order, i);
      ScanFails(st, data, order, i + 1);
    }
  }

  /** One variable followed down the data on its own: what the scan makes of it. */
  function ColumnScan(rows: seq<seq<Value>>, j: int, s: ColState): Result<ColState> {
    if rows == [] then Ok(s)
    else
      var front := ColumnScan(rows[..|rows| - 1], j, s);
      if front.Fail? then front else Observe(front.value, rows[|rows| - 1], j)
  }

  /** Every row has an integral entry at column `j`. */
  ghost predicate IntegralAt(rows: seq<seq<Value>>, j: int) {
    forall i :: 0 <= i < |rows| ==> InRange(|rows[i]|, j) && Integral(At(rows[i], j))
  }

  /** The first loop succeeds exactly when it succeeds for every variable, and then gives
      each variable its own state. */
  lemma {:induction false} InitialMeaning(k: nat, qBounds: seq<seq<int>>, nQBounds: seq<int>)
    ensures Initial(k, qBounds, nQBounds).Ok? <==> forall c :: 0 <= c < k ==> InitCol(c, qBounds, nQBounds).Ok?
    ensures Initial(k, qBounds, nQBounds).Fail? ==> Initial(k, qBounds, nQBounds).error == IndexError
    ensures Initial(k, qBounds, nQBounds).Ok? ==>
      forall c :: 0 <= c < k ==> Initial(k, qBounds, nQBounds).value[c] == InitCol(c, qBounds, nQBounds).value
  {
    if k > 0 {
      InitialMeaning(k - 1, qBounds, nQBounds);
    }
  }

  /** The inner loop over a snapshot with no repeats: it fails exactly when one of its
      variables fails on the row, and otherwise each of its variables has seen the row and
      the others are unchanged. */
  lemma {:induction false} UpdateColsMeaning(st: seq<ColState>, row: seq<Value>, order: seq<int>, S: seq<nat>)
    requires |st| == |order| && (forall k :: 0 <= k < |S| ==> S[k] < |st|) && Distinct(S)
    ensures UpdateCols(st, row, order, S).Ok? <==> forall k :: 0 <= k < |S| ==> Observe(st[S[k]], row, order[S[k]]).Ok?
    ensures UpdateCols(st, row, order, S).Fail? ==> UpdateCols(st, row, order, S).error == IndexError
    ensures UpdateCols(st, row, order, S).Ok? ==>
      (forall k :: 0 <= k < |S| ==> UpdateCols(st, row, order, S).value[S[k]] == Observe(st[S[k]], row, order[S[k]]).value)
      && (forall c :: 0 <= c < |st| && c !in S ==> UpdateCols(st, row, order, S).value[c] == st[c])
  {
    if S != [] {
      var init := S[..|S| - 1];
      var c := S[|S| - 1];
      assert Distinct(init);
      assert forall k :: 0 <= k < |init| ==> init[k] == S[k];
      UpdateColsMeaning(st, row, order, init);
      assert c !in init by {
        forall k | 0 <= k < |init| ensures init[k] != c {
          assert init[k] == S[k];
        }
      }
      forall x | x in S ensures x in init || x == c {
        var k :| 0 <= k < |S| && S[k] == x;
        if k < |init| {
          assert init[k] == x;
        }
      }
    }
  }

  /** One pass of the outer loop fails exactly when some variable fails on the row, and
      otherwise gives every variable what it makes of the row. */
  lemma RowStepMeaning(st: seq<ColState>, row: seq<Value>, order: seq<int>)
    requires |st| == |order|
    ensures RowStep(st, row, order).Ok? <==> forall c :: 0 <= c < |st| ==> Observe(st[c], row, order[c]).Ok?
    ensures RowStep(st, row, order).Fail? ==> RowStep(st, row, order).error == IndexError
    ensures RowStep(st, row, order).Ok? ==>
      forall c :: 0 <= c < |st| ==> RowStep(st, row, order).value[c] == Observe(st[c], row, order[c]).value
  {
    var S := ActiveFrom(st, 0);
    ActiveFromMeaning(st, 0);
    UpdateColsMeaning(st, row, order, S);
    forall c | 0 <= c < |st| && c in S ensures exists k :: 0 <= k < |S| && S[k] == c {
    }
  }

  /** The scan is the same as following every variable down the data on its own: it fails
      exactly when one of those fails, and otherwise gives each variable its own outcome. */
  lemma {:induction false} ScanMeaning(st: seq<ColState>, data: seq<seq<Value>>, order: seq<int>)
    requires |st| == |order|
    ensures Scan(st, data, order).Ok? <==> forall c :: 0 <= c < |st| ==> ColumnScan(data, order[c], st[c]).Ok?
    ensures Scan(st, data, order).Fail? ==> Scan(st, data, order).error == IndexError
    ensures Scan(st, data, order).Ok? ==>
      forall c :: 0 <= c < |st| ==> Scan(st, data, order).value[c] == ColumnScan(data, order[c], st[c]).value
  {
    if data != [] {
      var init := data[..|data| - 1];
      ScanMeaning(st, init, order);
      var front := Scan(st, init, order);
      if front.Ok? {
        RowStepMeaning(front.value, data[|data| - 1], order);
      }
    }
  }

  /** Followed on its own, a variable still in `cols` stays there exactly while every row
      has an integral entry in its column; it then ends with the largest of those entries
      and its starting entry; otherwise it leaves with -1, or a row too short for the
      column comes first and raises IndexError. */
  lemma {:induction false} ColumnScanActive(rows: seq<seq<Value>>, j: int, m0: int)
    ensures ColumnScan(rows, j, Active(m0)).Fail? <==>
      exists i :: 0 <= i < |rows| && !InRange(|rows[i]|, j) && IntegralAt(rows[..i], j)
    ensures ColumnScan(rows, j, Active(m0)).Fail? ==> ColumnScan(rows, j, Active(m0)).error == IndexError
    ensures ColumnScan(rows, j, Active(m0)).Ok? ==>
      (ColumnScan(rows, j, Active(m0)).value.Active? <==> IntegralAt(rows, j))
    ensures ColumnScan(rows, j, Active(m0)).Ok? && ColumnScan(rows, j, Active(m0)).value.Fixed? ==>
      ColumnScan(rows, j, Active(m0)).value == Fixed(-1)
    ensures ColumnScan(rows, j, Active(m0)).Ok? && ColumnScan(rows, j, Active(m0)).value.Active? ==>
      var m := ColumnScan(rows, j, Active(m0)).value.max;
      m >= m0
      && (forall i :: 0 <= i < |rows| ==> InRange(|rows[i]|, j) && Integral(At(rows[i], j)) && IntOf(At(rows[i], j)) <= m)
      && (m == m0 || exists i :: 0 <= i < |rows| && InRange(|rows[i]|, j) && Integral(At(rows[i], j)) && IntOf(At(rows[i], j)) == m)
  {
    if rows != [] {
      var n := |rows| - 1;
      var init := rows[..n];
      ColumnScanActive(init, j, m0);
      assert forall i :: 0 <= i < n ==> init[i] == rows[i];
      assert rows[..n] == init;
      assert forall i :: 0 <= i < n ==> rows[..i] == init[..i];
    }
  }

  /** The result exists exactly when the first loop succeeds for every variable and no
      variable, followed down the data on its own, meets a row too short for its column;
      then it has one entry per variable: one more than the variable's final count. */
  lemma NPossibleMeaning(data: seq<seq<Value>>, order: seq<int>, qBounds: seq<seq<int>>, nQBounds: seq<int>)
    ensures NPossibleSpec(data, order, qBounds, nQBounds).Ok? <==>
      forall c :: 0 <= c < |order| ==>
        InitCol(c, qBounds, nQBounds).Ok? && ColumnScan(data, order[c], InitCol(c, qBounds, nQBounds).value).Ok?
    ensures NPossibleSpec(data, order, qBounds, nQBounds).Fail? ==>
      NPossibleSpec(data, order, qBounds, nQBounds).error == IndexError
    ensures NPossibleSpec(data, order, qBounds, nQBounds).Ok? ==>
      var r := NPossibleSpec(data, order, qBounds, nQBounds).value;
      |r| == |order|
      && forall c :: 0 <= c < |order| ==>
           r[c] == Count(ColumnScan(data, order[c], InitCol(c, qBounds, nQBounds).value).value) + 1
  {
    InitialMeaning(|order|, qBounds, nQBounds);
    var init := Initial(|order|, qBounds, nQBounds);
    if init.Ok? {
      ScanMeaning(init.value, data, order);
    }
  }

  /** The entry of one variable: 0 when `nQBounds` marks it, one more than the number of
      its bounds when it has any, and otherwise, when all its data entries are integral,
      one more than the largest of them (and at least 0), else 0. */
  lemma VariableCount(data: seq<seq<Value>>, order: seq<int>, qBounds: seq<seq<int>>, nQBounds: seq<int>, c: nat)
    requires NPossibleSpec(data, order, qBounds, nQBounds).Ok? && c < |order|
    ensures nQBounds != [] ==> c < |nQBounds|
    ensures (nQBounds == [] || nQBounds[c] == 0) ==> c < |qBounds|
    ensures var r := NPossibleSpec(data, order, qBounds, nQBounds).value;
      |r| == |order|
      && (nQBounds != [] && nQBounds[c] != 0 ==> r[c] == 0)
      && ((nQBounds == [] || nQBounds[c] == 0) && |qBounds[c]| > 0 ==> r[c] == |qBounds[c]| + 1)
      && ((nQBounds == [] || nQBounds[c] == 0) && |qBounds[c]| == 0 ==>
            r[c] >= 0
            && (IntegralAt(data, order[c]) ==>
                  (forall i :: 0 <= i < |data| ==> IntOf(At(data[i], order[c])) < r[c])
                  && (r[c] == 0 || exists i :: 0 <= i < |data| && IntOf(At(data[i], order[c])) == r[c] - 1))
            && (!IntegralAt(data, order[c]) ==> r[c] == 0))
  {
    NPossibleMeaning(data, order, qBounds, nQBounds);
    var s := InitCol(c, qBounds, nQBounds).value;
    if s.Active? {
      ColumnScanActive(data, order[c], -1);
    } else {
      FixedScan(data, order[c], s);
    }
  }

  /** A variable that has left `cols` is not looked at again. */
  lemma {:induction false} FixedScan(rows: seq<seq<Value>>, j: int, s: ColState)
    requires s.Fixed?
    ensures ColumnScan(rows, j, s) == Ok(s)
  {
    if rows != [] {
      FixedScan(rows[..|rows| - 1], j, s);
    }
  }
}
