/**
 * The source shuffles with `sort(() => Math.random() - 0.5)`, which yields some
 * permutation of its input that nothing pins down. Here the random draws are a
 * parameter: `Shuffle(xs, draws)` takes the element at `draws[0] % |xs|` first
 * and shuffles the rest with the remaining draws. Every result is a
 * permutation of `xs`, and every permutation of `xs` is the result for some
 * draws, so quantifying over draws is quantifying over permutations.
 */
module Permutations {

  /** No value occurs twice. */
  ghost predicate Distinct<T(!new)>(xs: seq<T>) {
    forall x :: multiset(xs)[x] <= 1
  }

  /** `xs` without its element at `k`. */
  function RemoveAt<T>(xs: seq<T>, k: nat): (r: seq<T>)
    requires k < |xs|
    ensures |r| == |xs| - 1
    ensures multiset(r) + multiset{xs[k]} == multiset(xs)
  {
    assert xs == xs[..k] + [xs[k]] + xs[k + 1..];
    xs[..k] + xs[k + 1..]
  }

  /** The next draw, 0 when the draws are used up. */
  function Draw(draws: seq<nat>): nat {
    if |draws| == 0 then 0 else draws[0]
  }

  /** The draws after the next one. */
  function LaterDraws(draws: seq<nat>): seq<nat> {
    if |draws| == 0 then [] else draws[1..]
  }

  /** A permutation of `xs` chosen by `draws`. */
  function Shuffle<T>(xs: seq<T>, draws: seq<nat>): (r: seq<T>)
    ensures multiset(r) == multiset(xs)
    ensures |r| == |xs|
    decreases |xs|
  {
    if |xs| == 0 then []
    else
      var k := Draw(draws) % |xs|;
      [xs[k]] + Shuffle(RemoveAt(xs, k), LaterDraws(draws))
  }

  /** Removing the same element from two equal multisets leaves equal multisets. */
  lemma MultisetCancel<T>(xs: seq<T>, ys: seq<T>, x: T)
    requires multiset(xs) + multiset{x} == multiset(ys) + multiset{x}
    ensures multiset(xs) == multiset(ys)
  {
    assert multiset(xs) == multiset(xs) + multiset{x} - multiset{x};
  }

  /** An index of `xs` holding `y`, for a `y` that occurs in `xs`. */
  function IndexOf<T(==)>(xs: seq<T>, y: T): (k: nat)
    requires y in xs
    ensures k < |xs| && xs[k] == y
  {
    if xs[0] == y then 0 else 1 + IndexOf(xs[1..], y)
  }

  /** Draws that make `Shuffle` produce the permutation `ys` of `xs`. */
  function DrawsFor<T(==)>(xs: seq<T>, ys: seq<T>): (draws: seq<nat>)
    requires multiset(ys) == multiset(xs)
    ensures Shuffle(xs, draws) == ys
    decreases |xs|
  {
    assert |ys| == |xs| by {
      assert |multiset(ys)| == |multiset(xs)|;
    }
    if |xs| == 0 then []
    else
      assert ys == [ys[0]] + ys[1..];
      assert multiset(ys) == multiset{ys[0]} + multiset(ys[1..]);
      assert ys[0] in multiset(xs);
      var k := IndexOf(xs, ys[0]);
      var rest := RemoveAt(xs, k);
      MultisetCancel(rest, ys[1..], ys[0]);
      var later := DrawsFor(rest, ys[1..]);
      ShuffleFirstDraw(xs, k, later);
      [k] + later
  }

  /** A first draw of `k` below the length puts `xs[k]` first. */
  lemma ShuffleFirstDraw<T>(xs: seq<T>, k: nat, later: seq<nat>)
    requires k < |xs|
    ensures Shuffle(xs, [k] + later) == [xs[k]] + Shuffle(RemoveAt(xs, k), later)
  {
    var draws := [k] + later;
    assert Draw(draws) == k;
    ModSmall(k, |xs|);
    assert LaterDraws(draws) == later;
  }

  /** A draw below the length picks the element at that index. */
  lemma ModSmall(k: nat, n: nat)
    requires k < n
    ensures k % n == k
  {
  }

  /** Every permutation of `xs` is produced by some draws. */
  lemma ShuffleReachesEveryPermutation<T>(xs: seq<T>, ys: seq<T>)
    requires multiset(ys) == multiset(xs)
    ensures exists draws :: Shuffle(xs, draws) == ys
  {
    var draws := DrawsFor(xs, ys);
  }

  /** The first `n` elements, or all of them when there are fewer (`slice(0, n)`). */
  function Take<T>(xs: seq<T>, n: nat): (r: seq<T>)
    ensures |r| == if n < |xs| then n else |xs|
    ensures r == xs[..|r|]
    ensures multiset(r) <= multiset(xs)
  {
    var r := if n < |xs| then xs[..n] else xs;
    assert xs == r + xs[|r|..];
    r
  }

  /** A sub-multiset of a distinct sequence is distinct. */
  lemma DistinctSub<T(!new)>(xs: seq<T>, ys: seq<T>)
    requires Distinct(ys) && multiset(xs) <= multiset(ys)
    ensures Distinct(xs)
  {
    forall x
      ensures multiset(xs)[x] <= 1
    {
      assert multiset(xs)[x] <= multiset(ys)[x];
    }
  }

  /** Two distinct sequences with no common element concatenate to a distinct one. */
  lemma DistinctConcat<T(!new)>(xs: seq<T>, ys: seq<T>)
    requires Distinct(xs) && Distinct(ys)
    requires forall x :: x in xs ==> x !in ys
    ensures Distinct(xs + ys)
  {
    forall x
      ensures multiset(xs + ys)[x] <= 1
    {
      assert multiset(xs + ys)[x] == multiset(xs)[x] + multiset(ys)[x];
      if x in xs {
        assert x !in ys;
      }
    }
  }
}
