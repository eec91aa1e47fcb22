/** `numpy.argmax` over a one-dimensional vector of probabilities. */
module Numpy {
  import opened Python

  /** `k` is the first position holding the largest entry of `v`. */
  ghost predicate IsFirstMax(v: seq<real>, k: int)
  {
    && 0 <= k < |v|
    && (forall j :: 0 <= j < |v| ==> v[j] <= v[k])
    && (forall j :: 0 <= j < k ==> v[j] < v[k])
  }

  /** The position of a largest entry, the first one on ties. */
  function ArgMax(v: seq<real>): (k: nat)
    requires |v| > 0
    ensures IsFirstMax(v, k)
  {
    if |v| == 1 then 0
    else
      var k := ArgMax(v[..|v| - 1]);
      assert forall j :: 0 <= j < |v| - 1 ==> v[..|v| - 1][j] == v[j];
      if v[|v| - 1] > v[k] then |v| - 1 else k
  }

  /** At most one position is the first largest one, so `ArgMax` is the only
      answer its contract allows. */
  lemma FirstMaxUnique(v: seq<real>, k1: int, k2: int)
    requires IsFirstMax(v, k1) && IsFirstMax(v, k2)
    ensures k1 == k2
  {
    assert v[k1] == v[k2];
  }

  const EmptyArgMaxMessage: string := "attempt to get argmax of an empty sequence"

  /** `np.argmax(v)`: raises `ValueError` on an empty vector. */
  function NpArgMax(v: seq<real>): (r: Outcome<nat>)
    ensures r.Raised? <==> |v| == 0
    ensures r.Raised? ==> r.exc == ValueError(EmptyArgMaxMessage)
    ensures r.Returned? ==> IsFirstMax(v, r.value)
  {
    if |v| == 0 then Raised(ValueError(EmptyArgMaxMessage)) else Returned(ArgMax(v))
  }
}
