/** Subsequences: what is left of a sequence after deleting some of its elements.
    The content filter only ever deletes characters (or keeps two of the many it
    matched), and these lemmas let the filter's steps be chained. */
module Subsequences {

  /** `a` is obtained from `b` by deleting zero or more elements. */
  predicate IsSubseq<T(==)>(a: seq<T>, b: seq<T>)
    decreases |b|
  {
    a == [] || (b != [] && ((a[0] == b[0] && IsSubseq(a[1..], b[1..])) || IsSubseq(a, b[1..])))
  }

  lemma {:induction false} SubseqLength<T>(a: seq<T>, b: seq<T>)
    requires IsSubseq(a, b)
    ensures |a| <= |b|
    decreases |b|
  {
    if a != [] {
      if a[0] == b[0] && IsSubseq(a[1..], b[1..]) {
        SubseqLength(a[1..], b[1..]);
      } else {
        SubseqLength(a, b[1..]);
      }
    }
  }

  lemma {:induction false} SubseqRefl<T>(a: seq<T>)
    ensures IsSubseq(a, a)
    decreases |a|
  {
    if a != [] {
      SubseqRefl(a[1..]);
    }
  }

  /** Deletions in two adjacent pieces combine into deletions in the whole. */
  lemma {:induction false} SubseqConcat<T>(a1: seq<T>, b1: seq<T>, a2: seq<T>, b2: seq<T>)
    requires IsSubseq(a1, b1) && IsSubseq(a2, b2)
    ensures IsSubseq(a1 + a2, b1 + b2)
    decreases |b1|
  {
    if b1 == [] {
      assert a1 == [];
      assert a1 + a2 == a2 && b1 + b2 == b2;
    } else if a1 == [] {
      SubseqConcat(a1, b1[1..], a2, b2);
      assert (b1 + b2)[1..] == b1[1..] + b2;
      assert a1 + a2 == a2;
    } else {
      assert (b1 + b2)[1..] == b1[1..] + b2;
      assert (a1 + a2)[1..] == a1[1..] + a2;
      if a1[0] == b1[0] && IsSubseq(a1[1..], b1[1..]) {
        SubseqConcat(a1[1..], b1[1..], a2, b2);
      } else {
        SubseqConcat(a1, b1[1..], a2, b2);
      }
    }
  }

  lemma {:induction false} SubseqTrans<T>(a: seq<T>, b: seq<T>, c: seq<T>)
    requires IsSubseq(a, b) && IsSubseq(b, c)
    ensures IsSubseq(a, c)
    decreases |c|
  {
    if a != [] {
      assert b != [] && c != [];
      if IsSubseq(b, c[1..]) {
        SubseqTrans(a, b, c[1..]);
      } else if a[0] == b[0] && IsSubseq(a[1..], b[1..]) {
        SubseqTrans(a[1..], b[1..], c[1..]);
      } else {
        SubseqTrans(a, b[1..], c[1..]);
      }
    }
  }

  /** Dropping a prefix leaves a subsequence. */
  lemma {:induction false} SubseqDrop<T>(s: seq<T>, i: nat)
    requires i <= |s|
    ensures IsSubseq(s[i..], s)
    decreases i
  {
    if i == 0 {
      assert s[0..] == s;
      SubseqRefl(s);
    } else {
      SubseqDrop(s[1..], i - 1);
      assert s[1..][i - 1..] == s[i..];
    }
  }

  /** Keeping a prefix leaves a subsequence. */
  lemma {:induction false} SubseqTake<T>(s: seq<T>, j: nat)
    requires j <= |s|
    ensures IsSubseq(s[..j], s)
    decreases j
  {
    if j > 0 {
      SubseqTake(s[1..], j - 1);
      assert s[..j][0] == s[0];
      assert s[..j][1..] == s[1..][..j - 1];
    }
  }

  /** A contiguous slice is a subsequence. */
  lemma SubseqSlice<T>(s: seq<T>, i: nat, j: nat)
    requires i <= j <= |s|
    ensures IsSubseq(s[i..j], s)
  {
    SubseqTake(s[i..], j - i);
    assert s[i..][..j - i] == s[i..j];
    SubseqDrop(s, i);
    SubseqTrans(s[i..j], s[i..], s);
  }

  /** The last element alone is a subsequence. */
  lemma {:induction false} LastSubseq<T>(m: seq<T>)
    requires m != []
    ensures IsSubseq([m[|m| - 1]], m)
    decreases |m|
  {
    if |m| == 1 {
      assert [m[0]][1..] == [];
    } else {
      LastSubseq(m[1..]);
      assert m[1..][|m| - 2] == m[|m| - 1];
    }
  }

  /** The first and the last element of a sequence of length at least two
      form a subsequence of it. */
  lemma EndsSubseq<T>(m: seq<T>)
    requires |m| >= 2
    ensures IsSubseq([m[0], m[|m| - 1]], m)
  {
    LastSubseq(m[1..]);
    assert m[1..][|m| - 2] == m[|m| - 1];
    assert [m[0], m[|m| - 1]][1..] == [m[|m| - 1]];
  }
}
