/**
 * The Python `str` methods the spider relies on, `strip()` and `"&".join(...)`, and a split at
 * `&`: the spider never splits, but the split is the inverse that shows the join loses nothing.
 */
module PyStr {

  /** The 29 code points for which Python's `str.isspace()` holds. */
  const Whitespace: set<char> := {
    '\U{9}', '\U{A}', '\U{B}', '\U{C}', '\U{D}', '\U{1C}', '\U{1D}', '\U{1E}', '\U{1F}', '\U{20}',
    '\U{85}', '\U{A0}', '\U{1680}', '\U{2000}', '\U{2001}', '\U{2002}', '\U{2003}', '\U{2004}',
    '\U{2005}', '\U{2006}', '\U{2007}', '\U{2008}', '\U{2009}', '\U{200A}', '\U{2028}', '\U{2029}',
    '\U{202F}', '\U{205F}', '\U{3000}'
  }

  predicate IsSpace(c: char)
  {
    c in Whitespace
  }

  /** Nothing but whitespace (the empty string included). */
  predicate IsBlank(s: string)
  {
    forall i :: 0 <= i < |s| ==> IsSpace(s[i])
  }

  /** `s[k..k + |r|] == r`, with only whitespace around it. */
  ghost predicate StrippedAt(s: string, r: string, k: int)
  {
    0 <= k && k + |r| <= |s| && s[k..k + |r|] == r && IsBlank(s[..k]) && IsBlank(s[k + |r|..])
  }

  /** `str.strip()`: whitespace removed from both ends. */
  function Strip(s: string): (r: string)
    ensures |r| <= |s|
    ensures r != [] ==> !IsSpace(r[0]) && !IsSpace(r[|r| - 1])
    ensures r == [] <==> IsBlank(s)
    decreases |s|
  {
    if s != [] && IsSpace(s[0]) then
      assert IsBlank(s) <==> IsBlank(s[1..]) by {
        assert forall i :: 1 <= i < |s| ==> s[i] == s[1..][i - 1];
      }
      Strip(s[1..])
    else if s != [] && IsSpace(s[|s| - 1]) then
      assert IsBlank(s) <==> IsBlank(s[..|s| - 1]) by {
        assert forall i :: 0 <= i < |s| - 1 ==> s[i] == s[..|s| - 1][i];
      }
      Strip(s[..|s| - 1])
    else
      assert s != [] ==> !IsBlank(s);
      s
  }

  /** The strip is a slice of `s` with only whitespace before and after it. */
  lemma {:induction false} StripSlice(s: string)
    ensures exists k :: StrippedAt(s, Strip(s), k)
    decreases |s|
  {
    var r := Strip(s);
    if s != [] && IsSpace(s[0]) {
      StripSlice(s[1..]);
      var k :| StrippedAt(s[1..], r, k);
      SliceAfterSpace(s, r, k);
    } else if s != [] && IsSpace(s[|s| - 1]) {
      StripSlice(s[..|s| - 1]);
      var k :| StrippedAt(s[..|s| - 1], r, k);
      SliceBeforeSpace(s, r, k);
    } else {
      assert s[0..|s|] == s && s[..0] == [] && s[|s|..] == [];
      assert StrippedAt(s, r, 0);
    }
  }

  lemma SliceAfterSpace(s: string, r: string, k: int)
    requires s != [] && IsSpace(s[0]) && StrippedAt(s[1..], r, k)
    ensures StrippedAt(s, r, k + 1)
  {
    assert s[1..][k..k + |r|] == s[k + 1..k + 1 + |r|];
    assert s[1..][k + |r|..] == s[k + 1 + |r|..];
    var before := s[..k + 1];
    forall i | 0 <= i < |before| ensures IsSpace(before[i]) {
      if i > 0 {
        assert before[i] == s[1..][..k][i - 1];
      }
    }
  }

  lemma SliceBeforeSpace(s: string, r: string, k: int)
    requires s != [] && IsSpace(s[|s| - 1]) && StrippedAt(s[..|s| - 1], r, k)
    ensures StrippedAt(s, r, k)
  {
    var t := s[..|s| - 1];
    assert t[k..k + |r|] == s[k..k + |r|];
    assert t[..k] == s[..k];
    assert s[k + |r|..] == t[k + |r|..] + [s[|s| - 1]];
  }

  /** Stripping twice changes nothing more. */
  lemma StripIdempotent(s: string)
    ensures Strip(Strip(s)) == Strip(s)
  {
    var r := Strip(s);
    StripUnchanged(r);
  }

  /** A string with no whitespace at either end is its own strip. */
  lemma StripUnchanged(s: string)
    requires s != [] ==> !IsSpace(s[0]) && !IsSpace(s[|s| - 1])
    ensures Strip(s) == s
  {
    assert [] + s + [] == s;
    StripUnique([], s, []);
  }

  /** Whitespace around a core that neither starts nor ends with whitespace: the strip is that core. */
  lemma StripUnique(pre: string, core: string, post: string)
    requires IsBlank(pre) && IsBlank(post)
    requires core != [] ==> !IsSpace(core[0]) && !IsSpace(core[|core| - 1])
    ensures Strip(pre + core + post) == core
  {
    var s := pre + core + post;
    if core == [] {
      assert s == pre + post;
      BlankConcat(pre, post);
    } else {
      assert s[|pre|] == core[0];
      assert !IsBlank(s);
      StripSlice(s);
      var k :| StrippedAt(s, Strip(s), k);
      OnlyCoreBetweenBlanks(pre, core, post, Strip(s), k);
    }
  }

  lemma BlankConcat(a: string, b: string)
    requires IsBlank(a) && IsBlank(b)
    ensures IsBlank(a + b)
  {
    assert forall i :: |a| <= i < |a + b| ==> (a + b)[i] == b[i - |a|];
  }

  /** The only slice of `pre + core + post` with whitespace around it and none at its ends is `core`. */
  lemma OnlyCoreBetweenBlanks(pre: string, core: string, post: string, r: string, k: int)
    requires IsBlank(pre) && IsBlank(post)
    requires core != [] && !IsSpace(core[0]) && !IsSpace(core[|core| - 1])
    requires r != [] && !IsSpace(r[0]) && !IsSpace(r[|r| - 1])
    requires StrippedAt(pre + core + post, r, k)
    ensures r == core
  {
    var s := pre + core + post;
    var m, e := |pre|, |pre| + |core|;
    assert s[m] == core[0] && s[e - 1] == core[|core| - 1];
    assert r[0] == s[k] && r[|r| - 1] == s[k + |r| - 1];
    if k < m {
      assert false;
    }
    if k > m {
      assert false;
    }
    if k + |r| > e {
      assert false;
    }
    if k + |r| < e {
      assert false;
    }
    assert s[m..e] == core;
  }

  /** `"&".join(xs)`. */
  function Join(xs: seq<string>): (r: string)
    decreases |xs|
  {
    if xs == [] then ""
    else if |xs| == 1 then xs[0]
    else xs[0] + "&" + Join(xs[1..])
  }

  /**
   * The pieces between the `&` separators, one more than there are separators, as `split("&")`
   * gives them. Not called by the spider: it is the inverse against which `Join` is checked.
   */
  function Split(s: string): (r: seq<string>)
    ensures |r| >= 1
    decreases |s|
  {
    if s == [] then [""]
    else if s[0] == '&' then [""] + Split(s[1..])
    else var t := Split(s[1..]); [[s[0]] + t[0]] + t[1..]
  }

  /** Joining a non-empty list of non-empty strings gives a non-empty string. */
  lemma {:induction false} JoinNonEmpty(xs: seq<string>)
    requires xs != [] && xs[0] != ""
    ensures Join(xs) != ""
  {
    if |xs| > 1 {
      assert |Join(xs)| >= |xs[0]|;
    }
  }

  /** Joining two non-empty lists joins their joins. */
  lemma {:induction false} JoinAppend(xs: seq<string>, ys: seq<string>)
    requires xs != [] && ys != []
    ensures Join(xs + ys) == Join(xs) + "&" + Join(ys)
    decreases |xs|
  {
    if |xs| == 1 {
      assert (xs + ys)[1..] == ys;
    } else {
      assert (xs + ys)[1..] == xs[1..] + ys;
      JoinAppend(xs[1..], ys);
    }
  }

  lemma {:induction false} SplitNoSeparator(x: string)
    requires forall i :: 0 <= i < |x| ==> x[i] != '&'
    ensures Split(x) == [x]
    decreases |x|
  {
    if x != [] {
      SplitNoSeparator(x[1..]);
      assert [x[0]] + x[1..] == x;
    }
  }

  lemma {:induction false} SplitAfterPiece(x: string, rest: string)
    requires forall i :: 0 <= i < |x| ==> x[i] != '&'
    ensures Split(x + "&" + rest) == [x] + Split(rest)
    decreases |x|
  {
    if x == [] {
      assert x + "&" + rest == "&" + rest;
      assert ("&" + rest)[1..] == rest;
    } else {
      assert (x + "&" + rest)[1..] == x[1..] + "&" + rest;
      SplitAfterPiece(x[1..], rest);
      assert [x[0]] + x[1..] == x;
    }
  }

  /** Splitting a join gives the pieces back, in order, when no piece holds the separator. */
  lemma {:induction false} SplitJoin(xs: seq<string>)
    requires xs != []
    requires forall j, i :: 0 <= j < |xs| && 0 <= i < |xs[j]| ==> xs[j][i] != '&'
    ensures Split(Join(xs)) == xs
    decreases |xs|
  {
    if |xs| == 1 {
      SplitNoSeparator(xs[0]);
    } else {
      SplitAfterPiece(xs[0], Join(xs[1..]));
      SplitJoin(xs[1..]);
      assert [xs[0]] + xs[1..] == xs;
    }
  }
}
