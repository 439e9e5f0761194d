/**
 * Generation of the secret code. The random engine is replaced by a supplied
 * sequence of draws, each a palette index in 0..5; the loop keeps a draw only
 * if it has not been kept before, until four are kept.
 */
module SecretCode {
  import opened Sequences

  /** Every draw is an index the uniform distribution over 0..5 can produce. */
  predicate DrawsInRange(draws: seq<int>) {
    forall d :: d in draws ==> 0 <= d <= 5
  }

  /** The draws with every repeat dropped, in order of first occurrence. */
  function FirstOccurrences(s: seq<int>): (r: seq<int>)
    ensures Distinct(r)
    decreases |s|
  {
    if s == [] then []
    else
      var p := FirstOccurrences(s[..|s| - 1]);
      if s[|s| - 1] in p then p else p + [s[|s| - 1]]
  }

  /** Dropping repeats keeps every value that occurs, and adds none. */
  lemma {:induction false} FirstOccurrencesElements(s: seq<int>)
    ensures Elements(FirstOccurrences(s)) == Elements(s)
    decreases |s|
  {
    if s != [] {
      var p := s[..|s| - 1];
      FirstOccurrencesElements(p);
      assert s == p + [s[|s| - 1]];
      assert Elements(s) == Elements(p) + {s[|s| - 1]};
    }
  }

  /** Keeping the repeats of a prefix out gives a prefix of the result for the whole. */
  lemma {:induction false} FirstOccurrencesPrefix(s: seq<int>, i: nat)
    requires i <= |s|
    ensures FirstOccurrences(s[..i]) <= FirstOccurrences(s)
    decreases |s| - i
  {
    if i < |s| {
      FirstOccurrencesPrefix(s, i + 1);
      assert s[..i + 1][..i] == s[..i];
    } else {
      assert s[..i] == s;
    }
  }

  /** As many first occurrences as different values. */
  lemma FirstOccurrencesCount(s: seq<int>)
    ensures |FirstOccurrences(s)| == |Elements(s)|
  {
    DistinctElementsCount(FirstOccurrences(s));
    FirstOccurrencesElements(s);
  }

  /** The palette indices the generator keeps: the first four different draws. */
  function ChosenIndices(draws: seq<int>): (r: seq<int>)
    requires DrawsInRange(draws) && |Elements(draws)| >= 4
    ensures |r| == 4 && Distinct(r)
    ensures forall k :: 0 <= k < 4 ==> 0 <= r[k] <= 5
  {
    FirstOccurrencesCount(draws);
    FirstOccurrencesElements(draws);
    var r := FirstOccurrences(draws)[..4];
    assert forall k :: 0 <= k < 4 ==> r[k] in Elements(draws);
    r
  }

  /**
   * Draws palette indices until four different ones are kept, then spells
   * them with the pegs. The result is four different pegs.
   */
  method GenerateResolutionCode(colorPegs: string, draws: seq<int>) returns (out: string)
    requires |colorPegs| >= 6
    requires DrawsInRange(draws) && |Elements(draws)| >= 4
    ensures |out| == 4
    ensures forall k :: 0 <= k < 4 ==> out[k] == colorPegs[ChosenIndices(draws)[k]]
    ensures forall k :: 0 <= k < 4 ==> out[k] in colorPegs[..6]
    ensures Distinct(colorPegs[..6]) ==> Distinct(out)
  {
    FirstOccurrencesCount(draws);
    assert draws[..|draws|] == draws;
    var idxList: seq<int> := [];
    var i := 0;
    while |idxList| < 4
      invariant 0 <= i <= |draws|
      invariant idxList == FirstOccurrences(draws[..i])
      invariant |idxList| <= 4
      invariant Distinct(idxList)
      invariant forall k :: 0 <= k < |idxList| ==> 0 <= idxList[k] <= 5
      decreases |draws| - i
    {
      var idx := draws[i];
      assert 0 <= idx <= 5 by {
        assert idx in draws;
      }
      assert draws[..i + 1][..i] == draws[..i];
      if idx !in idxList {
        idxList := idxList + [idx];
      }
      i := i + 1;
    }
    FirstOccurrencesPrefix(draws, i);
    assert idxList == ChosenIndices(draws);

    out := "";
    var k := 0;
    while k < |idxList|
      invariant 0 <= k <= |idxList|
      invariant |out| == k
      invariant forall j :: 0 <= j < k ==> out[j] == colorPegs[idxList[j]]
    {
      out := out + [colorPegs[idxList[k]]];
      k := k + 1;
    }
    SpelledCodeDistinct(colorPegs, idxList, out);
  }

  /** Spelling different indices below 6 with six different pegs gives different pegs. */
  lemma SpelledCodeDistinct(pegs: string, indices: seq<int>, code: string)
    requires |pegs| >= 6 && |code| == |indices| && Distinct(indices)
    requires forall k :: 0 <= k < |indices| ==> 0 <= indices[k] <= 5 && code[k] == pegs[indices[k]]
    ensures forall k :: 0 <= k < |code| ==> code[k] in pegs[..6]
    ensures Distinct(pegs[..6]) ==> Distinct(code)
  {
    forall k | 0 <= k < |code|
      ensures code[k] == pegs[..6][indices[k]]
    {
    }
  }
}
