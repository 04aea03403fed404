/**
 * The in-place Fisher-Yates shuffle of `shuffleArray`. The random draw
 * `Math.floor(Math.random() * (i + 1))` is an input: `js[i]` is the index
 * drawn when the loop stands at position `i`, so it lies in `0..i`
 * (`js[0]` is never used, because the loop stops before position 0).
 */
module Shuffle {

  /** `js` supplies one in-range draw for each position of an array of length `n`. */
  predicate ValidChoices(js: seq<int>, n: nat) {
    |js| == n && forall i :: 0 <= i < n ==> 0 <= js[i] <= i
  }

  /** Exchanging two cells: the destructuring assignment of the loop body. */
  function Swap<T>(s: seq<T>, i: nat, j: nat): (r: seq<T>)
    requires i < |s| && j < |s|
    ensures |r| == |s|
  {
    s[i := s[j]][j := s[i]]
  }

  /** A swap exchanges the two cells and keeps every other one. */
  lemma SwapExchanges<T>(s: seq<T>, i: nat, j: nat)
    requires i < |s| && j < |s|
    ensures Swap(s, i, j)[i] == s[j] && Swap(s, i, j)[j] == s[i]
    ensures forall k :: 0 <= k < |s| && k != i && k != j ==> Swap(s, i, j)[k] == s[k]
  {
  }

  /** A swap keeps every element's multiplicity. */
  lemma SwapPermutes<T>(s: seq<T>, i: nat, j: nat)
    requires i < |s| && j < |s|
    ensures multiset(Swap(s, i, j)) == multiset(s)
  {
  }

  /**
   * What the loop still does when it stands at position `i`: swap cell `i`
   * with cell `js[i]`, then go on at `i - 1`, stopping once `i` is not positive.
   */
  function Shuffled<T>(s: seq<T>, js: seq<int>, i: int): (r: seq<T>)
    requires ValidChoices(js, |s|) && i < |s|
    ensures |r| == |s|
    decreases i
  {
    if i <= 0 then s else Shuffled(Swap(s, i, js[i]), js, i - 1)
  }

  /** The whole shuffle of `s` under the draws `js`. */
  function FisherYates<T>(s: seq<T>, js: seq<int>): seq<T>
    requires ValidChoices(js, |s|)
  {
    Shuffled(s, js, |s| - 1)
  }

  /** Whatever the draws, the shuffle only rearranges: every element keeps its multiplicity. */
  lemma {:induction false} ShuffledPermutes<T>(s: seq<T>, js: seq<int>, i: int)
    requires ValidChoices(js, |s|) && i < |s|
    ensures multiset(Shuffled(s, js, i)) == multiset(s)
    decreases i
  {
    if i > 0 {
      SwapPermutes(s, i, js[i]);
      ShuffledPermutes(Swap(s, i, js[i]), js, i - 1);
    }
  }

  /** The shuffled sequence is a permutation of its input. */
  lemma FisherYatesPermutes<T>(s: seq<T>, js: seq<int>)
    requires ValidChoices(js, |s|)
    ensures |FisherYates(s, js)| == |s|
    ensures multiset(FisherYates(s, js)) == multiset(s)
  {
    ShuffledPermutes(s, js, |s| - 1);
  }

  /** `shuffleArray`: rearranges `a` in place, walking from the last cell down to cell 1. */
  method ShuffleArray<T>(a: array<T>, js: seq<int>)
    requires ValidChoices(js, a.Length)
    modifies a
    ensures a[..] == FisherYates(old(a[..]), js)
    ensures multiset(a[..]) == multiset(old(a[..]))
  {
    ghost var target := FisherYates(a[..], js);
    FisherYatesPermutes(a[..], js);
    var i := a.Length - 1;
    while i > 0
      invariant -1 <= i < a.Length
      invariant Shuffled(a[..], js, i) == target
    {
      var j := js[i];
      ghost var cur := a[..];
      assert Shuffled(cur, js, i) == Shuffled(Swap(cur, i, j), js, i - 1);
      a[i], a[j] := a[j], a[i];
      assert a[..] == Swap(cur, i, j);
      i := i - 1;
    }
  }
}
