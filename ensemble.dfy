/** `TakeEnsemble`: picking the members of an ensemble out of a vector by their
    indices, either from a plain vector or from a data vector, whose first entry (the
    point's name) and last entry (its result) always stay. */
module Ensemble {
  import opened PyCore

  /** `[vect[x] for x in ids]`: IndexError as soon as one index is out of range. */
  function Pick<T>(vect: seq<T>, ids: seq<int>): (r: Result<seq<T>>)
    ensures r.Ok? ==> |r.value| == |ids|
    ensures r.Fail? ==> r.error == IndexError
  {
    if ids == [] then Ok([])
    else
      var front := Pick(vect, ids[..|ids| - 1]);
      var x := ids[|ids| - 1];
      if front.Fail? then front
      else if !InRange(|vect|, x) then Fail(IndexError)
      else Ok(front.value + [At(vect, x)])
  }

  /** `[x + 1 for x in ids]`. */
  function Shift(ids: seq<int>): (r: seq<int>)
    ensures |r| == |ids|
  {
    seq(|ids|, k requires 0 <= k < |ids| => ids[k] + 1)
  }

  /** `TakeEnsemble(vect, ensembleIds, isDataVect)`. In a data vector the indices count
      from the first entry after the name, and `vect[0]` and `vect[-1]` are kept. */
  function TakeEnsemble<T>(vect: seq<T>, ids: seq<int>, isDataVect: bool): (r: Result<seq<T>>)
    ensures r.Ok? ==> |r.value| == |ids| + (if isDataVect then 2 else 0)
    ensures r.Ok? && isDataVect ==> vect != [] && r.value[0] == vect[0] && r.value[|r.value| - 1] == vect[|vect| - 1]
    ensures r.Fail? ==> r.error == IndexError
  {
    if isDataVect then
      var inner := Pick(vect, Shift(ids));
      if vect == [] then Fail(IndexError)
      else if inner.Fail? then inner
      else Ok([vect[0]] + inner.value + [vect[|vect| - 1]])
    else Pick(vect, ids)
  }

  /** Picking succeeds exactly when every index is in range, and then gives the entry at
      each index, in the order of the indices. */
  lemma {:induction false} PickMeaning<T>(vect: seq<T>, ids: seq<int>)
    ensures Pick(vect, ids).Ok? <==> forall k :: 0 <= k < |ids| ==> InRange(|vect|, ids[k])
    ensures Pick(vect, ids).Ok? ==> |Pick(vect, ids).value| == |ids|
    ensures Pick(vect, ids).Ok? ==>
      forall k :: 0 <= k < |ids| ==> Pick(vect, ids).value[k] == At(vect, ids[k])
    ensures Pick(vect, ids).Fail? ==> Pick(vect, ids).error == IndexError
  {
    if ids != [] {
      var init := ids[..|ids| - 1];
      PickMeaning(vect, init);
      assert forall k :: 0 <= k < |init| ==> init[k] == ids[k];
    }
  }

  /** A plain vector: the result has one entry per index, `vect[ids[k]]` at position
      `k`; an index out of range raises IndexError. */
  lemma PlainEnsemble<T>(vect: seq<T>, ids: seq<int>)
    ensures TakeEnsemble(vect, ids, false).Ok? <==> forall k :: 0 <= k < |ids| ==> InRange(|vect|, ids[k])
    ensures TakeEnsemble(vect, ids, false).Fail? ==> TakeEnsemble(vect, ids, false).error == IndexError
    ensures TakeEnsemble(vect, ids, false).Ok? ==>
      var r := TakeEnsemble(vect, ids, false).value;
      |r| == |ids| && forall k :: 0 <= k < |ids| ==> r[k] == At(vect, ids[k])
  {
    PickMeaning(vect, ids);
  }

  /** A data vector: the name first, then `vect[ids[k] + 1]` for every index, then the
      last entry, so two more entries than indices; an empty vector or an index out of
      range raises IndexError. */
  lemma DataEnsemble<T>(vect: seq<T>, ids: seq<int>)
    ensures TakeEnsemble(vect, ids, true).Ok?
        <==> vect != [] && forall k :: 0 <= k < |ids| ==> InRange(|vect|, ids[k] + 1)
    ensures TakeEnsemble(vect, ids, true).Fail? ==> TakeEnsemble(vect, ids, true).error == IndexError
    ensures TakeEnsemble(vect, ids, true).Ok? ==>
      var r := TakeEnsemble(vect, ids, true).value;
      |r| == |ids| + 2 && r[0] == vect[0] && r[|r| - 1] == vect[|vect| - 1]
      && forall k :: 0 <= k < |ids| ==> r[k + 1] == At(vect, ids[k] + 1)
  {
    var sh := Shift(ids);
    PickMeaning(vect, sh);
    assert forall k :: 0 <= k < |ids| ==> sh[k] == ids[k] + 1;
    if TakeEnsemble(vect, ids, true).Ok? {
      var inner := Pick(vect, sh).value;
      var r := [vect[0]] + inner + [vect[|vect| - 1]];
      assert forall k :: 0 <= k < |ids| ==> r[k + 1] == inner[k];
    }
  }

  /** The first doctest: `TakeEnsemble([10,20,30,40,50], (1,2,3))` is `[20, 30, 40]`. */
  lemma PlainExample()
    ensures TakeEnsemble([10, 20, 30, 40, 50], [1, 2, 3], false) == Ok([20, 30, 40])
  {
    var v := [10, 20, 30, 40, 50];
    var ids := [1, 2, 3];
    PlainEnsemble(v, ids);
    var r := TakeEnsemble(v, ids, false).value;
    assert r[0] == At(v, ids[0]) && r[1] == At(v, ids[1]) && r[2] == At(v, ids[2]);
    assert r == [20, 30, 40];
  }

  /** The second doctest: `TakeEnsemble(['foo',10,20,30,40,50,1], (1,2,3), isDataVect=True)`
      is `['foo', 20, 30, 40, 1]`. */
  lemma DataExample()
    ensures TakeEnsemble([StrV("foo"), IntV(10), IntV(20), IntV(30), IntV(40), IntV(50), IntV(1)], [1, 2, 3], true)
         == Ok([StrV("foo"), IntV(20), IntV(30), IntV(40), IntV(1)])
  {
    var v := [StrV("foo"), IntV(10), IntV(20), IntV(30), IntV(40), IntV(50), IntV(1)];
    var ids := [1, 2, 3];
    DataEnsemble(v, ids);
    var r := TakeEnsemble(v, ids, true).value;
    assert r[1] == At(v, ids[0] + 1) && r[2] == At(v, ids[1] + 1) && r[3] == At(v, ids[2] + 1);
    assert r == [StrV("foo"), IntV(20), IntV(30), IntV(40), IntV(1)];
  }
}
