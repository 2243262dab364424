/** Python's runtime behaviour that the data utilities rely on: the exceptions they
    let escape, list indexing with negative indices, and the helper `permutation`. */
module PyCore {

  /** The exceptions that escape from the modelled operations. */
  datatype PyError = IndexError | ValueError | StopIteration

  datatype Option<T> = None | Some(value: T)

  /** The values a data row holds: Python ints, floats and strings. */
  datatype Value = IntV(i: int) | FloatV(x: real) | StrV(s: string)

  /** A call either returns a value or raises one of the exceptions above. */
  datatype Result<T> = Ok(value: T) | Fail(error: PyError)

  /** `l[i]` is defined for `-len(l) <= i < len(l)`; anything else raises IndexError. */
  predicate InRange(len: nat, i: int) {
    -(len as int) <= i < len
  }

  /** The position `l[i]` reads: negative indices count from the end. */
  function Norm(len: nat, i: int): (p: nat)
    requires InRange(len, i)
    ensures p < len
    ensures i >= 0 ==> p == i
    ensures i < 0 ==> p + (-i) == len
  {
    if i < 0 then len + i else i
  }

  /** Python's `l[i]`. */
  function At<T>(s: seq<T>, i: int): T
    requires InRange(|s|, i)
  {
    s[Norm(|s|, i)]
  }

  /** Python's `range(n)`. */
  function Range(n: nat): (r: seq<nat>)
    ensures |r| == n
    ensures forall k :: 0 <= k < n ==> r[k] == k
  {
    seq(n, k => k)
  }

  /** No value occurs twice in `s`. */
  predicate Distinct<T(==)>(s: seq<T>) {
    forall i, j :: 0 <= i < j < |s| ==> s[i] != s[j]
  }

  /** What the source's `permutation(n)` (a shuffled `range(n)`) may return. */
  predicate IsPermutation(p: seq<nat>, n: nat) {
    |p| == n && Distinct(p) && forall k :: 0 <= k < |p| ==> p[k] < n
  }

  /** A distinct sequence never has more elements than its set. */
  lemma {:induction false} DistinctCard<T>(s: seq<T>)
    requires Distinct(s)
    ensures |set x | x in s| == |s|
  {
    if s != [] {
      var t := s[..|s| - 1];
      assert Distinct(t);
      DistinctCard(t);
      var last := s[|s| - 1];
      assert (set x | x in s) == (set x | x in t) + {last};
      assert last !in t by {
        forall k | 0 <= k < |t| ensures t[k] != last {
          assert s[k] == t[k];
        }
      }
    }
  }

  /** The set `{0, ..., n-1}`. */
  function Below(n: nat): (r: set<nat>)
    ensures forall x: int :: x in r <==> 0 <= x < n
    ensures |r| == n
  {
    if n == 0 then {} else Below(n - 1) + {n - 1}
  }

  /** A subset is never larger than its superset. */
  lemma {:induction false} SubsetCard<T>(a: set<T>, b: set<T>)
    requires a <= b
    ensures |a| <= |b|
    decreases |b|
  {
    if a != {} {
      var x :| x in a;
      SubsetCard(a - {x}, b - {x});
    }
  }

  /** A permutation of `range(n)` takes every value below `n`. */
  lemma PermutationCovers(p: seq<nat>, n: nat, k: nat)
    requires IsPermutation(p, n) && k < n
    ensures k in p
  {
    var have := set x | x in p;
    DistinctCard(p);
    if k !in have {
      assert have <= Below(n) - {k};
      SubsetCard(have, Below(n) - {k});
      assert false;
    }
  }

  /** In a distinct sequence every element occurs exactly once. */
  lemma {:induction false} DistinctOnce<T>(s: seq<T>, x: T)
    requires Distinct(s)
    ensures multiset(s)[x] == if x in s then 1 else 0
  {
    if s != [] {
      var t := s[..|s| - 1];
      assert s == t + [s[|s| - 1]];
      assert Distinct(t);
      DistinctOnce(t, x);
      if x == s[|s| - 1] {
        assert x !in t by {
          forall k | 0 <= k < |t| ensures t[k] != x {
            assert s[k] == t[k];
          }
        }
      }
    }
  }
}
