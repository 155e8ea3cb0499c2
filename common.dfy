/** Small value-level helpers shared by the chapter arithmetic: failure-carrying
    results, Python-style list indexing and running sums (itertools.accumulate). */
module Common {

  datatype Option<+T> = None | Some(value: T)

  datatype Result<+T, +E> = Success(value: T) | Failure(error: E)

  /** The last element of a non-empty list (Python's `xs[-1]`). */
  function Last<T>(xs: seq<T>): T
    requires xs != []
  {
    xs[|xs| - 1]
  }

  /** Python list indexing: negative indices count from the end, and an index
      outside [-len, len) raises IndexError (None here). */
  function PyIndex<T>(xs: seq<T>, i: int): (r: Option<T>)
    ensures r.Some? <==> -|xs| <= i < |xs|
    ensures 0 <= i < |xs| ==> r == Some(xs[i])
    ensures -|xs| <= i < 0 ==> r == Some(xs[|xs| + i])
  {
    if 0 <= i < |xs| then Some(xs[i])
    else if -|xs| <= i < 0 then Some(xs[|xs| + i])
    else None
  }

  function Sum(xs: seq<int>): int
  {
    if xs == [] then 0 else Sum(xs[..|xs| - 1]) + Last(xs)
  }

  /** `list(accumulate([0] + xs))`: the running sums of `xs`, starting at 0. */
  function Accumulate(xs: seq<int>): (r: seq<int>)
    ensures |r| == |xs| + 1 && r[0] == 0
    ensures forall i :: 0 <= i < |xs| ==> r[i + 1] == r[i] + xs[i]
  {
    if xs == [] then [0]
    else
      var p := Accumulate(xs[..|xs| - 1]);
      p + [Last(p) + Last(xs)]
  }

  /** Every entry of the running sums is the sum of the prefix before it. */
  lemma {:induction false} AccumulateIsPrefixSum(xs: seq<int>, i: nat)
    requires i <= |xs|
    ensures Accumulate(xs)[i] == Sum(xs[..i])
  {
    if i > 0 {
      AccumulateIsPrefixSum(xs, i - 1);
      assert xs[..i][..i - 1] == xs[..i - 1];
    }
  }

  /** The last running sum is the total. */
  lemma AccumulateEndsAtSum(xs: seq<int>)
    ensures Last(Accumulate(xs)) == Sum(xs)
  {
    AccumulateIsPrefixSum(xs, |xs|);
    assert xs[..|xs|] == xs;
  }

  /** Running sums of non-negative steps never decrease. */
  lemma {:induction false} AccumulateMonotone(xs: seq<int>, i: nat, j: nat)
    requires forall k :: 0 <= k < |xs| ==> xs[k] >= 0
    requires i <= j <= |xs|
    ensures Accumulate(xs)[i] <= Accumulate(xs)[j]
  {
    if i < j {
      AccumulateMonotone(xs, i, j - 1);
    }
  }

  ghost predicate NonDecreasing(xs: seq<int>)
  {
    forall i, j :: 0 <= i <= j < |xs| ==> xs[i] <= xs[j]
  }

  lemma AccumulateNonDecreasing(xs: seq<int>)
    requires forall k :: 0 <= k < |xs| ==> xs[k] >= 0
    ensures NonDecreasing(Accumulate(xs))
  {
    forall i, j | 0 <= i <= j < |Accumulate(xs)|
      ensures Accumulate(xs)[i] <= Accumulate(xs)[j]
    {
      AccumulateMonotone(xs, i, j);
    }
  }
}
