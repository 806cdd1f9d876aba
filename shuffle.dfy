/**
 * The Fisher–Yates shuffle of logic.js (`shuffleArray`). The random source is
 * an injected stream of natural numbers: the step for position `i` takes the
 * next number of the stream as its choice `j` in `0..i`, in place of
 * `Math.floor(rand() * (i + 1))`.
 */
module Shuffle {

  /**
   * The choice for a step whose bound is `i`. A stream entry that already lies
   * in `0..i` is taken as it is; a larger one is reduced modulo `i + 1`, and an
   * exhausted stream yields 0, so that every stream drives the shuffle.
   */
  function Pick(src: seq<nat>, i: nat): (j: nat)
    ensures j <= i
    ensures src != [] && src[0] <= i ==> j == src[0]
  {
    if src == [] then 0 else src[0] % (i + 1)
  }

  /** The stream after one choice has been drawn from it. */
  function Advance(src: seq<nat>): (r: seq<nat>)
    ensures src != [] ==> r == src[1..]
  {
    if src == [] then [] else src[1..]
  }

  /** `[s[i], s[j]] = [s[j], s[i]]` on a sequence. */
  function Swap<T>(s: seq<T>, i: nat, j: nat): (r: seq<T>)
    requires i < |s| && j < |s|
    ensures |r| == |s| && r[i] == s[j] && r[j] == s[i]
    ensures forall k :: 0 <= k < |s| && k != i && k != j ==> r[k] == s[k]
  {
    s[i := s[j]][j := s[i]]
  }

  lemma SwapPermutes<T>(s: seq<T>, i: nat, j: nat)
    requires i < |s| && j < |s|
    ensures multiset(Swap(s, i, j)) == multiset(s)
  {
    var t := s[i := s[j]];
    assert multiset(t) == multiset(s) - multiset{s[i]} + multiset{s[j]};
    assert multiset(t[j := s[i]]) == multiset(t) - multiset{t[j]} + multiset{s[i]};
  }

  /** The countdown loop from position `i` down to 1, one choice per step. */
  function ShuffleDown<T>(s: seq<T>, i: int, src: seq<nat>): (seq<T>, seq<nat>)
    requires i < |s|
    decreases i
  {
    if i <= 0 then (s, src)
    else ShuffleDown(Swap(s, i, Pick(src, i)), i - 1, Advance(src))
  }

  /** The shuffled sequence and what is left of the stream afterwards. */
  function FisherYates<T>(s: seq<T>, src: seq<nat>): (seq<T>, seq<nat>)
  {
    ShuffleDown(s, |s| - 1, src)
  }

  lemma {:induction false} ShuffleDownPermutes<T>(s: seq<T>, i: int, src: seq<nat>)
    requires i < |s|
    ensures |ShuffleDown(s, i, src).0| == |s|
    ensures multiset(ShuffleDown(s, i, src).0) == multiset(s)
    decreases i
  {
    if i > 0 {
      SwapPermutes(s, i, Pick(src, i));
      ShuffleDownPermutes(Swap(s, i, Pick(src, i)), i - 1, Advance(src));
    }
  }

  /** For every choice stream, the shuffle yields a permutation of its input. */
  lemma FisherYatesPermutes<T>(s: seq<T>, src: seq<nat>)
    ensures |FisherYates(s, src).0| == |s|
    ensures multiset(FisherYates(s, src).0) == multiset(s)
  {
    ShuffleDownPermutes(s, |s| - 1, src);
  }

  /** A shuffle of `n` elements draws `n - 1` choices from a long enough stream. */
  lemma {:induction false} ShuffleDownConsumes<T>(s: seq<T>, i: int, src: seq<nat>)
    requires i < |s|
    requires i <= |src|
    ensures ShuffleDown(s, i, src).1 == src[if i <= 0 then 0 else i..]
    decreases i
  {
    if i > 0 {
      ShuffleDownConsumes(Swap(s, i, Pick(src, i)), i - 1, Advance(src));
      assert Advance(src)[i - 1..] == src[i..];
    }
  }

  /** `shuffleArray(array, rng)`: shuffles the array in place and returns the rest of the stream. */
  method ShuffleArray<T>(a: array<T>, src: seq<nat>) returns (rest: seq<nat>)
    modifies a
    ensures (a[..], rest) == FisherYates(old(a[..]), src)
    ensures multiset(a[..]) == multiset(old(a[..]))
  {
    ghost var init := a[..];
    rest := src;
    var i := a.Length - 1;
    while i > 0
      invariant i < a.Length
      invariant ShuffleDown(a[..], i, rest) == FisherYates(init, src)
      decreases i
    {
      var j := Pick(rest, i);
      ghost var before := a[..];
      assert ShuffleDown(before, i, rest) == ShuffleDown(Swap(before, i, j), i - 1, Advance(rest));
      rest := Advance(rest);
      a[i], a[j] := a[j], a[i];
      assert a[..] == Swap(before, i, j);
      i := i - 1;
    }
    FisherYatesPermutes(init, src);
  }
}
