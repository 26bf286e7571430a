/** `shuffleArray`: the backward Fisher-Yates shuffle that reorders the
    uploaded images before every session. */
module Shuffle {

  /** One value of `Math.random()`: a real number in [0, 1). The shuffle
      takes its randomness from an oracle `draws: nat -> Draw`, where
      `draws(k)` is the result of the k-th call. */
  type Draw = r: real | 0.0 <= r < 1.0 witness 0.0

  /** `Math.floor(Math.random() * (i + 1))`: the partner index for position `i`. */
  function Pick(d: Draw, i: nat): (j: nat)
    ensures j <= i
  {
    var n := (i + 1) as real;
    var gap := 1.0 - d;
    assert gap * n > 0.0;
    var x := d * n;
    assert x == n - gap * n;
    x.Floor
  }

  /** Exchanges the elements at positions `i` and `j`. */
  function Swap<T>(a: seq<T>, i: nat, j: nat): (r: seq<T>)
    requires i < |a| && j < |a|
    ensures |r| == |a| && r[i] == a[j] && r[j] == a[i]
    ensures forall k :: 0 <= k < |a| && k != i && k != j ==> r[k] == a[k]
  {
    a[i := a[j]][j := a[i]]
  }

  lemma SwapPermutes<T>(a: seq<T>, i: nat, j: nat)
    requires i < |a| && j < |a|
    ensures multiset(Swap(a, i, j)) == multiset(a)
  {
  }

  /** Every recorded swap names two positions of `a`. */
  predicate SwapsInBounds<T>(a: seq<T>, swaps: seq<(nat, nat)>) {
    forall k :: 0 <= k < |swaps| ==> swaps[k].0 < |a| && swaps[k].1 < |a|
  }

  /** The result of performing `swaps` on `a`, first to last. */
  function ApplySwaps<T>(a: seq<T>, swaps: seq<(nat, nat)>): (r: seq<T>)
    requires SwapsInBounds(a, swaps)
    ensures |r| == |a|
    decreases |swaps|
  {
    if |swaps| == 0 then a
    else ApplySwaps(Swap(a, swaps[0].0, swaps[0].1), swaps[1..])
  }

  /** Any list of in-bounds swaps only rearranges the elements. */
  lemma {:induction false} ApplySwapsPermutes<T>(a: seq<T>, swaps: seq<(nat, nat)>)
    requires SwapsInBounds(a, swaps)
    ensures multiset(ApplySwaps(a, swaps)) == multiset(a)
    decreases |swaps|
  {
    if |swaps| > 0 {
      var b := Swap(a, swaps[0].0, swaps[0].1);
      SwapPermutes(a, swaps[0].0, swaps[0].1);
      ApplySwapsPermutes(b, swaps[1..]);
    }
  }

  /** Performing one more swap after a list of swaps is the same as
      performing the extended list. */
  lemma {:induction false} ApplySwapsSnoc<T>(a: seq<T>, swaps: seq<(nat, nat)>, i: nat, j: nat)
    requires SwapsInBounds(a, swaps) && i < |a| && j < |a|
    ensures SwapsInBounds(a, swaps + [(i, j)])
    ensures ApplySwaps(a, swaps + [(i, j)]) == Swap(ApplySwaps(a, swaps), i, j)
    decreases |swaps|
  {
    if |swaps| == 0 {
      assert swaps + [(i, j)] == [(i, j)];
    } else {
      var b := Swap(a, swaps[0].0, swaps[0].1);
      assert (swaps + [(i, j)])[1..] == swaps[1..] + [(i, j)];
      ApplySwapsSnoc(b, swaps[1..], i, j);
    }
  }

  /** The iterations of the loop of `shuffleArray` from position `i` down to
      position 1. The iteration at `i` uses the (|a| - 1 - i)-th random draw. */
  function Passes<T>(a: seq<T>, i: nat, draws: nat -> Draw): (r: seq<T>)
    requires i < |a|
    ensures |r| == |a|
    decreases i
  {
    if i == 0 then a
    else Passes(Swap(a, i, Pick(draws(|a| - 1 - i), i)), i - 1, draws)
  }

  /** The iterations leave the elements above position `i` where they are and
      only rearrange the rest. */
  lemma {:induction false} PassesPermutes<T>(a: seq<T>, i: nat, draws: nat -> Draw)
    requires i < |a|
    ensures multiset(Passes(a, i, draws)) == multiset(a)
    ensures forall k :: i < k < |a| ==> Passes(a, i, draws)[k] == a[k]
    decreases i
  {
    if i > 0 {
      var j := Pick(draws(|a| - 1 - i), i);
      SwapPermutes(a, i, j);
      PassesPermutes(Swap(a, i, j), i - 1, draws);
    }
  }

  /** The permutation `shuffleArray` leaves in its argument for the given
      random draws. */
  function FisherYates<T>(a: seq<T>, draws: nat -> Draw): (r: seq<T>)
    ensures |r| == |a|
    ensures multiset(r) == multiset(a)
    ensures |a| <= 1 ==> r == a
  {
    if |a| == 0 then a
    else
      PassesPermutes(a, |a| - 1, draws);
      Passes(a, |a| - 1, draws)
  }

  /** `swaps` is the log of the first |swaps| iterations of the backward loop
      over a sequence of length n: the k-th entry swaps position n - 1 - k
      with a position at or below it. */
  predicate BackwardLog(n: nat, swaps: seq<(nat, nat)>) {
    forall k :: 0 <= k < |swaps| ==> swaps[k].0 == n - 1 - k && swaps[k].1 <= swaps[k].0
  }

  /** `shuffleArray` as the loop the source runs. Besides the result it
      returns the swaps it performed, as (i, j) pairs in order. */
  method ShuffleArray<T>(a: seq<T>, draws: nat -> Draw) returns (r: seq<T>, swaps: seq<(nat, nat)>)
    ensures |r| == |a| && multiset(r) == multiset(a)
    ensures |a| <= 1 ==> r == a
    ensures |swaps| == if |a| == 0 then 0 else |a| - 1
    ensures BackwardLog(|a|, swaps)
    ensures SwapsInBounds(a, swaps) && r == ApplySwaps(a, swaps)
    ensures r == FisherYates(a, draws)
  {
    r := a;
    swaps := [];
    if |a| == 0 {
      return;
    }
    var i: nat := |a| - 1;
    while i > 0
      invariant i < |a| && |r| == |a|
      invariant |swaps| == |a| - 1 - i
      invariant BackwardLog(|a|, swaps)
      invariant SwapsInBounds(a, swaps) && r == ApplySwaps(a, swaps)
      invariant Passes(r, i, draws) == FisherYates(a, draws)
    {
      var j := Pick(draws(|a| - 1 - i), i);
      ApplySwapsSnoc(a, swaps, i, j);
      r := Swap(r, i, j);
      swaps := swaps + [(i, j)];
      i := i - 1;
    }
  }
}
