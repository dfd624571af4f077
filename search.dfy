/** Substring search over sequences: Python's `needle in haystack` for `str` and `bytes`. */
module Search {

  /** `needle` occurs in `hay` starting at index `i`. */
  ghost predicate OccursAt<T>(hay: seq<T>, needle: seq<T>, i: int)
  {
    0 <= i && i + |needle| <= |hay| && hay[i..i + |needle|] == needle
  }

  predicate StartsWith<T(==)>(s: seq<T>, prefix: seq<T>)
  {
    |prefix| <= |s| && s[..|prefix|] == prefix
  }

  /** `needle in hay`, searching from the left. */
  predicate Contains<T(==)>(hay: seq<T>, needle: seq<T>)
    decreases |hay|
  {
    StartsWith(hay, needle) || (hay != [] && Contains(hay[1..], needle))
  }

  /** `any(n in hay for n in needles)`. */
  predicate ContainsAny<T(==)>(hay: seq<T>, needles: seq<seq<T>>)
  {
    exists k :: 0 <= k < |needles| && Contains(hay, needles[k])
  }

  /** The search finds a needle exactly when it occurs at some position. */
  lemma {:induction false} ContainsIff<T>(hay: seq<T>, needle: seq<T>)
    ensures Contains(hay, needle) <==> exists i :: OccursAt(hay, needle, i)
    decreases |hay|
  {
    if Contains(hay, needle) {
      if StartsWith(hay, needle) {
        assert OccursAt(hay, needle, 0);
      } else {
        ContainsIff(hay[1..], needle);
        var i :| OccursAt(hay[1..], needle, i);
        assert hay[1..][i..i + |needle|] == hay[i + 1..i + 1 + |needle|];
        assert OccursAt(hay, needle, i + 1);
      }
    }
    if exists i :: OccursAt(hay, needle, i) {
      var i :| OccursAt(hay, needle, i);
      if i == 0 {
        assert StartsWith(hay, needle);
      } else {
        assert hay[1..][i - 1..i - 1 + |needle|] == hay[i..i + |needle|];
        assert OccursAt(hay[1..], needle, i - 1);
        ContainsIff(hay[1..], needle);
      }
    }
  }

  /** A needle longer than the haystack is never found. */
  lemma {:induction false} LongerNotContained<T>(hay: seq<T>, needle: seq<T>)
    requires |hay| < |needle|
    ensures !Contains(hay, needle)
    decreases |hay|
  {
    if hay != [] {
      LongerNotContained(hay[1..], needle);
    }
  }

  /** A needle found in the middle part is found in the whole. */
  lemma ContainsInMiddle<T>(a: seq<T>, needle: seq<T>, c: seq<T>)
    ensures Contains(a + needle + c, needle)
  {
    assert (a + needle + c)[|a|..|a| + |needle|] == needle;
    assert OccursAt(a + needle + c, needle, |a|);
    ContainsIff(a + needle + c, needle);
  }
}
