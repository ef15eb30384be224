/** The parts of Python's `str` that the content filter uses: `find`, slicing
    with non-negative bounds, `strip()` and the whitespace test behind it. */
module PyStr {
  import opened Subsequences

  /** Python's `str.isspace` on one character. The same set is what `\s`
      matches in a `str` pattern and what `str.strip()` removes: the ASCII
      controls TAB..CR and FS..US, SPACE, NEL, NO-BREAK SPACE, OGHAM SPACE
      MARK, the spaces EN QUAD..HAIR SPACE, LINE and PARAGRAPH SEPARATOR,
      NARROW NO-BREAK SPACE, MEDIUM MATHEMATICAL SPACE, IDEOGRAPHIC SPACE. */
  predicate IsSpace(c: char) {
    ('\t' <= c <= '\r') || ('\U{1C}' <= c <= '\U{1F}') || c == ' '
    || c == '\U{85}' || c == '\U{A0}' || c == '\U{1680}'
    || ('\U{2000}' <= c <= '\U{200A}') || c == '\U{2028}' || c == '\U{2029}'
    || c == '\U{202F}' || c == '\U{205F}' || c == '\U{3000}'
  }

  predicate AllSpace(s: string) {
    forall k :: 0 <= k < |s| ==> IsSpace(s[k])
  }

  /** The character `c` does not occur in `s`. */
  predicate Lacks(s: string, c: char) {
    forall k :: 0 <= k < |s| ==> s[k] != c
  }

  lemma LacksConcat(u: string, v: string, c: char)
    requires Lacks(u, c) && Lacks(v, c)
    ensures Lacks(u + v, c)
  {
    forall k | 0 <= k < |u + v| ensures (u + v)[k] != c {
      if k >= |u| {
        assert (u + v)[k] == v[k - |u|];
      }
    }
  }

  /** `pat` occurs in `s` starting at index `k`. */
  predicate OccursAt(s: string, pat: string, k: nat) {
    k + |pat| <= |s| && s[k..k + |pat|] == pat
  }

  lemma OccursAtChar(s: string, pat: string, k: nat, i: nat)
    requires OccursAt(s, pat, k) && i < |pat|
    ensures s[k + i] == pat[i]
  {
    assert s[k..k + |pat|][i] == s[k + i];
  }

  ghost predicate Contains(s: string, pat: string) {
    exists k: nat :: OccursAt(s, pat, k)
  }

  /** `s.find(pat)`: the index of the first occurrence, or -1 when there is none. */
  function Find(s: string, pat: string): (r: int)
    ensures r == -1 || (0 <= r && OccursAt(s, pat, r))
    ensures r == -1 <==> !Contains(s, pat)
    ensures forall k: nat :: k < r ==> !OccursAt(s, pat, k)
  {
    FindFrom(s, pat, 0)
  }

  /** The search behind `Find`, started at index `i`. */
  function FindFrom(s: string, pat: string, i: nat): (r: int)
    decreases |s| - i
    ensures r == -1 || (i <= r && OccursAt(s, pat, r))
    ensures r == -1 <==> forall k: nat :: i <= k ==> !OccursAt(s, pat, k)
    ensures forall k: nat :: i <= k < r ==> !OccursAt(s, pat, k)
  {
    if i + |pat| > |s| then -1
    else if s[i..i + |pat|] == pat then i
    else FindFrom(s, pat, i + 1)
  }

  /** A pattern whose first character does not occur in `pre` is first found
      right after `pre`. */
  lemma FindFirstAt(pre: string, pat: string, post: string)
    requires pat != [] && forall k :: 0 <= k < |pre| ==> pre[k] != pat[0]
    ensures Find(pre + pat + post, pat) == |pre|
  {
    var s := pre + pat + post;
    assert s[|pre|..|pre| + |pat|] == pat;
    assert OccursAt(s, pat, |pre|);
    forall k: nat | k < |pre| ensures !OccursAt(s, pat, k) {
      assert s[k] == pre[k];
      assert k + |pat| <= |s| ==> s[k..k + |pat|][0] == s[k];
    }
  }

  /** `s[i:j]` for non-negative bounds: both are clamped to the length, and
      the slice is empty when the end does not lie after the start. */
  function Slice(s: string, i: nat, j: nat): (r: string)
    ensures i <= j <= |s| ==> r == s[i..j]
    ensures j <= i ==> r == []
  {
    var lo := if i <= |s| then i else |s|;
    var hi := if j <= |s| then j else |s|;
    if lo <= hi then s[lo..hi] else []
  }

  /** `s.lstrip()`: drop leading whitespace. */
  function StripLeft(s: string): (r: string)
    decreases |s|
    ensures |r| <= |s| && r == s[|s| - |r|..]
    ensures r == [] || !IsSpace(r[0])
  {
    if s != [] && IsSpace(s[0]) then StripLeft(s[1..]) else s
  }

  /** What `lstrip` drops is whitespace. */
  lemma {:induction false} StripLeftCut(s: string)
    ensures AllSpace(s[..|s| - |StripLeft(s)|])
    decreases |s|
  {
    if s != [] && IsSpace(s[0]) {
      StripLeftCut(s[1..]);
      var d := |s| - |StripLeft(s)|;
      assert s[..d] == [s[0]] + s[1..][..d - 1];
    }
  }

  /** `s.rstrip()`: drop trailing whitespace. */
  function StripRight(s: string): (r: string)
    decreases |s|
    ensures |r| <= |s| && r == s[..|r|]
    ensures r == [] || !IsSpace(r[|r| - 1])
  {
    if s != [] && IsSpace(s[|s| - 1]) then StripRight(s[..|s| - 1]) else s
  }

  /** What `rstrip` drops is whitespace. */
  lemma {:induction false} StripRightCut(s: string)
    ensures AllSpace(s[|StripRight(s)|..])
    decreases |s|
  {
    if s != [] && IsSpace(s[|s| - 1]) {
      StripRightCut(s[..|s| - 1]);
      var d := |StripRight(s)|;
      assert s[d..] == s[..|s| - 1][d..] + [s[|s| - 1]];
    }
  }

  /** `s.strip()`. */
  function Strip(s: string): string {
    StripRight(StripLeft(s))
  }

  /** A prefix of a suffix is a slice, and what follows it is the rest of
      the suffix. */
  lemma SliceOfSuffix(s: string, l: string, r: string, i: nat)
    requires i <= |s| && l == s[i..] && |r| <= |l| && r == l[..|r|]
    ensures r == s[i..i + |r|] && s[i + |r|..] == l[|r|..]
  {
  }

  /** Where `strip` cuts: the bounds of the slice it keeps. */
  lemma StripBounds(s: string) returns (i: nat, j: nat)
    ensures i <= j <= |s| && Strip(s) == s[i..j]
    ensures AllSpace(s[..i]) && AllSpace(s[j..])
  {
    var l := StripLeft(s);
    var r := StripRight(l);
    i := |s| - |l|;
    j := i + |r|;
    assert Strip(s) == r;
    assert r == s[i..j] && s[j..] == l[|r|..] by {
      SliceOfSuffix(s, l, r, i);
    }
    assert AllSpace(s[..i]) by {
      StripLeftCut(s);
    }
    assert AllSpace(s[j..]) by {
      StripRightCut(l);
    }
  }

  /** `strip` removes whitespace at both ends and nothing else: the result is a
      slice of the input, starts and ends with a non-space, and everything cut
      off is whitespace. */
  lemma StripIsTrimmedSlice(s: string)
    ensures exists i: nat, j: nat :: i <= j <= |s| && Strip(s) == s[i..j]
              && AllSpace(s[..i]) && AllSpace(s[j..])
    ensures Strip(s) == [] || (!IsSpace(Strip(s)[0]) && !IsSpace(Strip(s)[|Strip(s)| - 1]))
  {
    var i, j := StripBounds(s);
    var l := StripLeft(s);
    var r := StripRight(l);
    if r != [] {
      assert r[0] == l[0];
    }
  }

  lemma StripIsSubseq(s: string)
    ensures IsSubseq(Strip(s), s)
  {
    StripIsTrimmedSlice(s);
    var i: nat, j: nat :| i <= j <= |s| && Strip(s) == s[i..j];
    SubseqSlice(s, i, j);
  }

  /** Stripping twice is stripping once. */
  lemma StripIdempotent(s: string)
    ensures Strip(Strip(s)) == Strip(s)
  {
    StripIsTrimmedSlice(s);
  }

  /** A string that begins with `m`, whose first and last characters are not
      whitespace, keeps `m` as a prefix when stripped. */
  lemma StripKeepsPrefix(m: string, s: string)
    requires m != [] && m <= s
    requires !IsSpace(m[0]) && !IsSpace(m[|m| - 1])
    ensures m <= Strip(s)
  {
    assert s[0] == m[0];
    assert StripLeft(s) == s;
    var r := StripRight(s);
    assert |m| <= |r| by {
      StripRightCut(s);
    }
  }

  /** Trailing whitespace is exactly what `rstrip` removes: appending some
      changes nothing. */
  lemma {:induction false} StripRightSpaces(a: string, w: string)
    requires AllSpace(w)
    ensures StripRight(a + w) == StripRight(a)
    decreases |w|
  {
    if w == [] {
      assert a + w == a;
    } else {
      var s := a + w;
      assert s[|s| - 1] == w[|w| - 1];
      assert s[..|s| - 1] == a + w[..|w| - 1];
      StripRightSpaces(a, w[..|w| - 1]);
    }
  }

  /** `rstrip` never reaches back past a non-space. */
  lemma {:induction false} StripRightAfter(a: string, b: string)
    requires a != [] && !IsSpace(a[|a| - 1])
    ensures StripRight(a + b) == a + StripRight(b)
    decreases |b|
  {
    var s := a + b;
    if b == [] {
      assert s == a;
    } else if IsSpace(b[|b| - 1]) {
      assert s[|s| - 1] == b[|b| - 1];
      assert s[..|s| - 1] == a + b[..|b| - 1];
      StripRightAfter(a, b[..|b| - 1]);
    } else {
      assert s[|s| - 1] == b[|b| - 1];
    }
  }

  /** A text that begins and ends with a non-space, then any text `b`, then
      whitespace, strips to the first text followed by `b.rstrip()`. */
  lemma StripAfterNonSpace(a: string, b: string, w: string)
    requires a != [] && !IsSpace(a[0]) && !IsSpace(a[|a| - 1]) && AllSpace(w)
    ensures Strip(a + b + w) == a + StripRight(b)
  {
    assert (a + b + w)[0] == a[0];
    assert StripLeft(a + b + w) == a + b + w;
    StripRightSpaces(a + b, w);
    StripRightAfter(a, b);
  }
}
