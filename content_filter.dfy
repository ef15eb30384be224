/** `CryptoAnalyzer.filter_content`: cut the fetched page down to the section
    between the first "# Latest Crypto News" and the first "ABOUT", strip it,
    delete markdown images and links, and collapse runs of blank lines. */
module ContentFilter {
  import opened Subsequences
  import opened PyStr
  import opened PyRe
  import opened Wrappers

  const StartMarker: string := "# Latest Crypto News"
  const EndMarker: string := "ABOUT"

  /** `\]\(.*?\)`: the part of a link after its label. */
  const LinkTarget: Pattern :=
    Then(One(Exact(']')), Then(One(Exact('(')), Then(Lazy(AnyButNewline),
    Then(One(Exact(')')), Empty))))

  /** `\]\(.*?\)\]`: the part of a linked image after its label. It ends in
      `]`, not `)`, so the link target after it survives. */
  const LinkedImageTarget: Pattern :=
    Then(One(Exact(']')), Then(One(Exact('(')), Then(Lazy(AnyButNewline),
    Then(One(Exact(')')), Then(One(Exact(']')), Empty)))))

  /** `\[!\[.*?\]\(.*?\)\]`: a linked image. */
  const LinkedImage: Pattern :=
    Then(One(Exact('[')), Then(One(Exact('!')), Then(One(Exact('[')),
    Then(Lazy(AnyButNewline), LinkedImageTarget))))

  /** `\[.*?\]\(.*?\)`: a link. */
  const Link: Pattern := Then(One(Exact('[')), Then(Lazy(AnyButNewline), LinkTarget))

  /** `!\[.*?\]\(.*?\)`: a bare image, that is a `!` followed by a link. */
  const Image: Pattern := Then(One(Exact('!')), Link)

  /** `\s*\n+`: the part of `BlankLines` after its first newline. */
  const BlankTail: Pattern :=
    Then(Greedy(Space), Then(One(Exact('\n')), Then(Greedy(Exact('\n')), Empty)))

  /** `\n\s*\n+`. */
  const BlankLines: Pattern := Then(One(Exact('\n')), BlankTail)

  /** The three deletion passes, in the source's order. */
  function RemoveMarkdown(s: string): string {
    var afterLinkedImages := Sub(LinkedImage, "", s);
    var afterLinks := Sub(Link, "", afterLinkedImages);
    Sub(Image, "", afterLinks)
  }

  /** The blank-line pass: `re.sub(r'\n\s*\n+', '\n\n', s)`. */
  function CollapseBlankLines(s: string): string {
    Sub(BlankLines, "\n\n", s)
  }

  /** `filter_content`: when both markers occur, the stripped slice from the
      first start marker up to the first end marker, after the deletion and
      blank-line passes; otherwise the input itself. */
  function FilterContent(content: string): string {
    var startIdx := Find(content, StartMarker);
    var endIdx := Find(content, EndMarker);
    if startIdx != -1 && endIdx != -1 then
      CollapseBlankLines(RemoveMarkdown(Strip(Slice(content, startIdx, endIdx))))
    else
      content
  }

  // ---------------------------------------------------------------------------
  // The blank-line pattern, characterised

  /** The whitespace run at the start of `s` holds no newline. */
  predicate NoNewlineInLeadingSpace(s: string)
    decreases |s|
  {
    s == [] || !IsSpace(s[0]) || (s[0] != '\n' && NoNewlineInLeadingSpace(s[1..]))
  }

  lemma {:induction false} NoNewlineQuiet(s: string)
    requires Lacks(s, '\n')
    ensures NoNewlineInLeadingSpace(s)
    decreases |s|
  {
    if s != [] {
      assert Lacks(s[1..], '\n') by {
        forall k | 0 <= k < |s| - 1 ensures s[1..][k] != '\n' {
          assert s[1..][k] == s[k + 1];
        }
      }
      NoNewlineQuiet(s[1..]);
    }
  }

  lemma {:induction false} BlankTailNone(s: string)
    requires NoNewlineInLeadingSpace(s)
    ensures Match(BlankTail, s) == None
    decreases |s|
  {
    if s != [] && IsSpace(s[0]) {
      BlankTailNone(s[1..]);
    }
  }

  /** `\s*\n+` at the start of `s` stops at the last newline of the leading
      whitespace run: everything it takes is whitespace, it ends on a newline,
      and what follows holds no newline before the next non-space. */
  lemma {:induction false} BlankTailSome(s: string)
    requires !NoNewlineInLeadingSpace(s)
    ensures Match(BlankTail, s).Some?
    ensures var n := Match(BlankTail, s).value;
      1 <= n && s[n - 1] == '\n' && AllSpace(s[..n]) && NoNewlineInLeadingSpace(s[n..])
    decreases |s|
  {
    if !NoNewlineInLeadingSpace(s[1..]) {
      BlankTailSome(s[1..]);
      var m := Match(BlankTail, s[1..]).value;
      assert Match(BlankTail, s) == Some(m + 1);
      assert s[1..][..m] == s[1..m + 1];
      assert s[m + 1..] == s[1..][m..];
    } else {
      BlankTailNone(s[1..]);
      assert Match(BlankTail.rest.rest, s[1..]) == Some(0);
      assert Match(BlankTail.rest, s) == Some(1);
      assert Match(BlankTail, s) == Some(1);
    }
  }

  /** When `\n\s*\n+` matches at the start of `s`, and what it takes. */
  lemma BlankLinesMatch(s: string)
    ensures Match(BlankLines, s).Some? <==> (s != [] && s[0] == '\n' && !NoNewlineInLeadingSpace(s[1..]))
    ensures Match(BlankLines, s).Some? ==> var n := Match(BlankLines, s).value;
      2 <= n && s[0] == '\n' && s[n - 1] == '\n' && AllSpace(s[..n]) && NoNewlineInLeadingSpace(s[n..])
  {
    if s != [] && s[0] == '\n' {
      if NoNewlineInLeadingSpace(s[1..]) {
        BlankTailNone(s[1..]);
      } else {
        var t := s[1..];
        BlankTailSome(t);
        var m := Match(BlankTail, t).value;
        assert Match(BlankLines, s) == Some(m + 1);
        assert s[m] == '\n' by {
          assert t[m - 1] == s[m];
        }
        assert AllSpace(s[..m + 1]) by {
          var u := s[..m + 1];
          forall k | 0 <= k < m + 1 ensures IsSpace(u[k]) {
            if k > 0 {
              assert u[k] == t[..m][k - 1];
            }
          }
        }
        assert s[m + 1..] == t[m..];
      }
    }
  }

  /** Inside a leading whitespace run with no newline, no character is a newline. */
  lemma {:induction false} QuietRun(t: string, m: nat)
    requires NoNewlineInLeadingSpace(t) && m <= |t| && AllSpace(t[..m])
    ensures forall k :: 0 <= k < m ==> t[k] != '\n'
    decreases m
  {
    if m > 0 {
      assert IsSpace(t[..m][0]);
      assert t[1..][..m - 1] == t[1..m];
      QuietRun(t[1..], m - 1);
      forall k | 1 <= k < m ensures t[k] != '\n' {
        assert t[k] == t[1..][k - 1];
      }
    }
  }

  // ---------------------------------------------------------------------------
  // The blank-line pass, one step at a time

  lemma CollapseOther(x: char, t: string)
    requires x != '\n'
    ensures CollapseBlankLines([x] + t) == [x] + CollapseBlankLines(t)
  {
    BlankLinesMatch([x] + t);
    assert ([x] + t)[1..] == t;
  }

  lemma CollapseLoneNewline(t: string)
    requires NoNewlineInLeadingSpace(t)
    ensures CollapseBlankLines("\n" + t) == "\n" + CollapseBlankLines(t)
  {
    BlankLinesMatch("\n" + t);
    assert ("\n" + t)[1..] == t;
  }

  lemma CollapseBlankPair(t: string)
    requires NoNewlineInLeadingSpace(t)
    ensures CollapseBlankLines("\n\n" + t) == "\n\n" + CollapseBlankLines(t)
  {
    var s := "\n\n" + t;
    assert s[1..][0] == '\n';
    BlankLinesMatch(s);
    var n := Match(BlankLines, s).value;
    if n > 2 {
      assert AllSpace(t[..n - 2]) by {
        forall k | 0 <= k < n - 2 ensures IsSpace(t[k]) {
          assert t[k] == s[..n][k + 2];
        }
      }
      QuietRun(t, n - 2);
      assert false;
    }
    assert s[2..] == t;
  }

  /** Text without a newline holds no blank line. */
  lemma CollapseNoNewline(s: string)
    requires Lacks(s, '\n')
    ensures CollapseBlankLines(s) == s
  {
    SubKeepsPrefix(BlankLines, "\n\n", s, []);
    assert s + [] == s;
  }

  /** The blank-line pass keeps a quiet start quiet. */
  lemma {:induction false} CollapseKeepsQuietStart(t: string)
    requires NoNewlineInLeadingSpace(t)
    ensures NoNewlineInLeadingSpace(CollapseBlankLines(t))
    decreases |t|
  {
    if t != [] {
      CollapseOther(t[0], t[1..]);
      assert [t[0]] + t[1..] == t;
      if IsSpace(t[0]) {
        CollapseKeepsQuietStart(t[1..]);
        assert ([t[0]] + CollapseBlankLines(t[1..]))[1..] == CollapseBlankLines(t[1..]);
      }
    }
  }

  // ---------------------------------------------------------------------------
  // Properties of the blank-line pass

  /** No three newlines in a row. */
  predicate NoTripleNewline(s: string)
    decreases |s|
  {
    |s| < 3 || (s[..3] != "\n\n\n" && NoTripleNewline(s[1..]))
  }

  predicate NewlinesAt3(s: string, k: int)
    requires 0 <= k && k + 3 <= |s|
  {
    s[k] == '\n' && s[k + 1] == '\n' && s[k + 2] == '\n'
  }

  lemma {:induction false} NoTripleNewlineMeans(s: string)
    requires NoTripleNewline(s)
    ensures forall k :: 0 <= k && k + 3 <= |s| ==> !NewlinesAt3(s, k)
    decreases |s|
  {
    if |s| >= 3 {
      NoTripleNewlineMeans(s[1..]);
      forall k | 1 <= k && k + 3 <= |s| ensures !NewlinesAt3(s, k) {
        assert !NewlinesAt3(s[1..], k - 1);
      }
    }
  }

  lemma ConsNoTriple(x: char, t: string)
    requires NoTripleNewline(t) && x != '\n'
    ensures NoTripleNewline([x] + t)
  {
    assert ([x] + t)[1..] == t;
    assert |t| >= 2 ==> ([x] + t)[..3][0] == x;
  }

  lemma PrependNewlinesNoTriple(w: string, t: string)
    requires NoTripleNewline(t) && (t == [] || t[0] != '\n')
    requires w == "\n" || w == "\n\n"
    ensures NoTripleNewline(w + t)
    decreases |w|
  {
    if w == "\n\n" {
      assert (w + t)[1..] == "\n" + t;
      assert |t| >= 1 ==> (w + t)[..3][2] == t[0];
      PrependNewlinesNoTriple("\n", t);
    } else {
      assert (w + t)[1..] == t;
      assert |t| >= 2 ==> (w + t)[..3][1] == t[0];
    }
  }

  lemma {:induction false} CollapseNoTripleInner(s: string)
    ensures NoTripleNewline(CollapseBlankLines(s))
    decreases |s|
  {
    if s != [] {
      BlankLinesMatch(s);
      match Match(BlankLines, s)
      case Some(n) =>
        CollapseNoTripleInner(s[n..]);
        CollapseKeepsQuietStart(s[n..]);
        var rest := CollapseBlankLines(s[n..]);
        assert rest != [] ==> rest[0] != '\n';
        PrependNewlinesNoTriple("\n\n", rest);
      case None =>
        CollapseNoTripleInner(s[1..]);
        var rest := CollapseBlankLines(s[1..]);
        assert CollapseBlankLines(s) == [s[0]] + rest;
        if s[0] == '\n' {
          CollapseKeepsQuietStart(s[1..]);
          assert rest != [] ==> rest[0] != '\n';
          assert [s[0]] == "\n";
          PrependNewlinesNoTriple("\n", rest);
        } else {
          ConsNoTriple(s[0], rest);
        }
    }
  }

  /** After `re.sub(r'\n\s*\n+', '\n\n', ...)` no three newlines stand together. */
  lemma CollapseNoTriple(s: string)
    ensures forall k :: 0 <= k && k + 3 <= |CollapseBlankLines(s)| ==>
              !NewlinesAt3(CollapseBlankLines(s), k)
  {
    CollapseNoTripleInner(s);
    NoTripleNewlineMeans(CollapseBlankLines(s));
  }

  /** Collapsing blank lines twice is collapsing them once. */
  lemma {:induction false} CollapseIdempotent(s: string)
    ensures CollapseBlankLines(CollapseBlankLines(s)) == CollapseBlankLines(s)
    decreases |s|
  {
    if s != [] {
      BlankLinesMatch(s);
      match Match(BlankLines, s)
      case Some(n) =>
        CollapseIdempotent(s[n..]);
        CollapseKeepsQuietStart(s[n..]);
        CollapseBlankPair(CollapseBlankLines(s[n..]));
      case None =>
        CollapseIdempotent(s[1..]);
        if s[0] == '\n' {
          CollapseKeepsQuietStart(s[1..]);
          CollapseLoneNewline(CollapseBlankLines(s[1..]));
        } else {
          CollapseOther(s[0], CollapseBlankLines(s[1..]));
        }
    }
  }

  /** The blank-line pass keeps the first and last newline of each run it
      replaces, so its output is a subsequence of its input. */
  lemma {:induction false} CollapseIsSubseq(s: string)
    ensures IsSubseq(CollapseBlankLines(s), s)
    decreases |s|
  {
    if s != [] {
      BlankLinesMatch(s);
      match Match(BlankLines, s)
      case Some(n) =>
        var m := s[..n];
        var tail := CollapseBlankLines(s[n..]);
        assert IsSubseq(tail, s[n..]) by {
          CollapseIsSubseq(s[n..]);
        }
        assert IsSubseq("\n\n", m) by {
          EndsSubseq(m);
          assert [m[0], m[n - 1]] == "\n\n";
        }
        assert CollapseBlankLines(s) == "\n\n" + tail;
        SubseqConcat("\n\n", m, tail, s[n..]);
        assert m + s[n..] == s;
      case None =>
        CollapseIsSubseq(s[1..]);
        SubseqRefl([s[0]]);
        SubseqConcat([s[0]], [s[0]], CollapseBlankLines(s[1..]), s[1..]);
        assert [s[0]] + s[1..] == s;
    }
  }

  // ---------------------------------------------------------------------------
  // The deletion passes

  lemma PatternShapes()
    ensures StartsWithOne(LinkedImage) && LinkedImage.node == One(Exact('['))
    ensures LinkedImage.rest.node == One(Exact('!'))
    ensures StartsWithOne(Link) && Link.node == One(Exact('['))
    ensures StartsWithOne(Image) && Image.node == One(Exact('!'))
    ensures Image.rest.node == One(Exact('['))
    ensures StartsWithOne(BlankLines) && BlankLines.node == One(Exact('\n'))
  {
  }

  /** `\]\(y\)` with no `)` or newline in `y` is matched exactly. */
  lemma MatchLinkTarget(y: string, rest: string)
    requires forall k :: 0 <= k < |y| ==> y[k] != ')' && y[k] != '\n'
    ensures Match(LinkTarget, "](" + y + ")" + rest) == Some(|y| + 3)
  {
    var close := Then(One(Exact(')')), Empty);
    OneStep(Exact(')'), Empty, ')', rest);
    LazySkips(close, y, ")" + rest);
    OneStep(Exact('('), Then(Lazy(AnyButNewline), close), '(', y + (")" + rest));
    OneStep(Exact(']'), LinkTarget.rest, ']', "(" + (y + (")" + rest)));
    assert "](" + y + ")" + rest == [']'] + ("(" + (y + (")" + rest)));
    assert "(" + (y + (")" + rest)) == ['('] + (y + (")" + rest));
  }

  /** A plain link `[x](y)`, with no `]` or newline in `x` and no `)` or
      newline in `y`, is matched exactly. */
  lemma MatchPlainLink(x: string, y: string, rest: string)
    requires forall k :: 0 <= k < |x| ==> x[k] != ']' && x[k] != '\n'
    requires forall k :: 0 <= k < |y| ==> y[k] != ')' && y[k] != '\n'
    ensures Match(Link, "[" + x + "](" + y + ")" + rest) == Some(|x| + |y| + 4)
  {
    MatchLinkTarget(y, rest);
    var t := "](" + y + ")" + rest;
    LazySkips(LinkTarget, x, t);
    OneStep(Exact('['), Link.rest, '[', x + t);
    assert "[" + x + "](" + y + ")" + rest == ['['] + (x + t);
  }

  lemma MatchLinkedImageTarget(y: string, rest: string)
    requires forall k :: 0 <= k < |y| ==> y[k] != ')' && y[k] != '\n'
    ensures Match(LinkedImageTarget, "](" + y + ")]" + rest) == Some(|y| + 4)
  {
    var close := Then(One(Exact(')')), Then(One(Exact(']')), Empty));
    OneStep(Exact(']'), Empty, ']', rest);
    OneStep(Exact(')'), close.rest, ')', "]" + rest);
    assert ")]" + rest == [')'] + ("]" + rest);
    assert "]" + rest == [']'] + rest;
    LazySkips(close, y, ")]" + rest);
    OneStep(Exact('('), Then(Lazy(AnyButNewline), close), '(', y + (")]" + rest));
    OneStep(Exact(']'), LinkedImageTarget.rest, ']', "(" + (y + (")]" + rest)));
    assert "](" + y + ")]" + rest == [']'] + ("(" + (y + (")]" + rest)));
    assert "(" + (y + (")]" + rest)) == ['('] + (y + (")]" + rest));
  }

  /** The opening `[![` of a linked image is three single-character steps. */
  lemma MatchLinkedImageOpen(u: string)
    ensures Match(LinkedImage, "[![" + u) == Shift(Shift(Shift(Match(LinkedImage.rest.rest.rest, u))))
  {
    var afterBang := LinkedImage.rest.rest;
    var afterBracket := LinkedImage.rest;
    OneStep(Exact('['), afterBang.rest, '[', u);
    OneStep(Exact('!'), afterBang, '!', ['['] + u);
    OneStep(Exact('['), afterBracket, '[', ['!'] + (['['] + u));
    assert "[![" + u == ['['] + (['!'] + (['['] + u));
  }

  /** A plain linked image `[![x](y)]`, with no `]` or newline in `x` and no
      `)` or newline in `y`, is matched exactly. */
  lemma MatchPlainLinkedImage(x: string, y: string, rest: string)
    requires forall k :: 0 <= k < |x| ==> x[k] != ']' && x[k] != '\n'
    requires forall k :: 0 <= k < |y| ==> y[k] != ')' && y[k] != '\n'
    ensures Match(LinkedImage, "[![" + x + "](" + y + ")]" + rest) == Some(|x| + |y| + 7)
  {
    var t := "](" + y + ")]" + rest;
    assert Match(LinkedImage.rest.rest.rest, x + t) == Some(|x| + |y| + 4) by {
      MatchLinkedImageTarget(y, rest);
      LazySkips(LinkedImageTarget, x, t);
    }
    MatchLinkedImageOpen(x + t);
    assert "[![" + x + "](" + y + ")]" + rest == "[![" + (x + t);
  }

  /** A bare image match needs a `[` right after its `!`. */
  lemma ImageNeedsBracket(t: string)
    requires Match(Image, t).Some?
    ensures |t| >= 2 && t[1] == '['
  {
    PatternShapes();
  }

  /** A linked-image match begins with `[!`. */
  lemma LinkedImageNeedsBang(t: string)
    requires Match(LinkedImage, t).Some?
    ensures |t| >= 2 && t[0] == '[' && t[1] == '!'
  {
    PatternShapes();
  }

  /** Where `[!` never occurs, the linked-image pass changes nothing. */
  lemma LinkedImagePassNoop(s: string)
    requires forall k :: 0 <= k < |s| - 1 ==> !(s[k] == '[' && s[k + 1] == '!')
    ensures Sub(LinkedImage, "", s) == s
  {
    PatternShapes();
    forall k | 0 <= k < |s| ensures Match(LinkedImage, s[k..]).None? {
      if Match(LinkedImage, s[k..]).Some? {
        LinkedImageNeedsBang(s[k..]);
      }
    }
    SubNoMatch(LinkedImage, "", s);
  }

  /** A pattern that begins with `[` finds nothing where there is no `[`. */
  lemma BracketPassNoBracket(p: Pattern, s: string)
    requires StartsWithOne(p) && p.node == One(Exact('[')) && Lacks(s, '[')
    ensures Sub(p, "", s) == s
  {
    forall k | 0 <= k < |s| ensures Match(p, s[k..]).None? {
      assert s[k..][0] == s[k];
    }
    SubNoMatch(p, "", s);
  }

  /** The bare-image pass finds nothing where there is no `[`. */
  lemma ImagePassNoBracket(s: string)
    requires Lacks(s, '[')
    ensures Sub(Image, "", s) == s
  {
    PatternShapes();
    forall k | 0 <= k < |s| ensures Match(Image, s[k..]).None? {
      if Match(Image, s[k..]).Some? {
        ImageNeedsBracket(s[k..]);
      }
    }
    SubNoMatch(Image, "", s);
  }

  /** Without a `[` there is nothing for any of the three passes to delete. */
  lemma RemoveMarkdownNoBracket(s: string)
    requires Lacks(s, '[')
    ensures RemoveMarkdown(s) == s
  {
    PatternShapes();
    BracketPassNoBracket(LinkedImage, s);
    BracketPassNoBracket(Link, s);
    ImagePassNoBracket(s);
  }

  /** A linked-image match has a second `[` two characters in. */
  lemma LinkedImageNeedsSecondBracket(t: string)
    requires Match(LinkedImage, t).Some?
    ensures |t| >= 3 && t[2] == '['
  {
    assert Match(LinkedImage.rest, t[1..]).Some?;
    assert Match(LinkedImage.rest.rest, t[1..][1..]).Some?;
    assert t[1..][1..][0] == t[2];
  }

  /** The linked-image pass leaves alone a text whose only `[` is not
      followed, two characters on, by another. */
  lemma LinkedImagePassSkips(a: string, r: string)
    requires Lacks(a, '[') && Lacks(r, '[') && |r| >= 2
    ensures Sub(LinkedImage, "", a + ("[" + r)) == a + ("[" + r)
  {
    PatternShapes();
    SubKeepsPrefix(LinkedImage, "", a, "[" + r);
    assert ("[" + r)[2] == r[1];
    if Match(LinkedImage, "[" + r).Some? {
      LinkedImageNeedsSecondBracket("[" + r);
    }
    assert ("[" + r)[1..] == r;
    BracketPassNoBracket(LinkedImage, r);
  }

  /** The link pass deletes a plain link and nothing around it. */
  lemma LinkPassDeletes(a: string, x: string, y: string, b: string)
    requires Lacks(a, '[') && Lacks(b, '[')
    requires forall k :: 0 <= k < |x| ==> x[k] != ']' && x[k] != '\n'
    requires forall k :: 0 <= k < |y| ==> y[k] != ')' && y[k] != '\n'
    ensures Sub(Link, "", a + ("[" + x + "](" + y + ")" + b)) == a + b
  {
    var m := "[" + x + "](" + y + ")";
    assert Sub(Link, "", a + (m + b)) == a + Sub(Link, "", m + b) by {
      PatternShapes();
      SubKeepsPrefix(Link, "", a, m + b);
    }
    assert Sub(Link, "", m + b) == Sub(Link, "", b) by {
      PatternShapes();
      MatchPlainLink(x, y, b);
      SubAtMatch(Link, "", m, b);
    }
    assert Sub(Link, "", b) == b by {
      PatternShapes();
      BracketPassNoBracket(Link, b);
    }
  }

  /** A link, with text free of `[` on either side, is deleted and nothing
      else is touched. */
  lemma RemoveLinkBetween(a: string, x: string, y: string, b: string)
    requires Lacks(a, '[') && Lacks(b, '[')
    requires forall k :: 0 <= k < |x| ==> x[k] != ']' && x[k] != '\n' && x[k] != '['
    requires forall k :: 0 <= k < |y| ==> y[k] != ')' && y[k] != '\n' && y[k] != '['
    ensures RemoveMarkdown(a + "[" + x + "](" + y + ")" + b) == a + b
  {
    var r := x + "](" + y + ")" + b;
    assert Lacks(r, '[') by {
      assert Lacks(x, '[') && Lacks(y, '[');
      LacksConcat(x, "](", '[');
      LacksConcat(x + "](", y, '[');
      LacksConcat(x + "](" + y, ")", '[');
      LacksConcat(x + "](" + y + ")", b, '[');
    }
    var s := a + "[" + x + "](" + y + ")" + b;
    assert Sub(LinkedImage, "", s) == s by {
      assert s == a + ("[" + r);
      LinkedImagePassSkips(a, r);
    }
    assert Sub(Link, "", s) == a + b by {
      assert s == a + ("[" + x + "](" + y + ")" + b);
      LinkPassDeletes(a, x, y, b);
    }
    assert Sub(Image, "", a + b) == a + b by {
      LacksConcat(a, b, '[');
      ImagePassNoBracket(a + b);
    }
  }

  /** A bare image loses its `[..](..)` to the link pass, which runs first;
      its `!` stays behind. */
  lemma RemoveImageBetween(a: string, x: string, y: string, b: string)
    requires Lacks(a, '[') && Lacks(b, '[')
    requires forall k :: 0 <= k < |x| ==> x[k] != ']' && x[k] != '\n' && x[k] != '['
    requires forall k :: 0 <= k < |y| ==> y[k] != ')' && y[k] != '\n' && y[k] != '['
    ensures RemoveMarkdown(a + "![" + x + "](" + y + ")" + b) == a + "!" + b
  {
    assert Lacks(a + "!", '[');
    RemoveLinkBetween(a + "!", x, y, b);
    assert a + "![" + x + "](" + y + ")" + b == (a + "!") + "[" + x + "](" + y + ")" + b;
  }

  /** The linked-image pass deletes a plain linked image and nothing around it. */
  lemma LinkedImagePassDeletes(a: string, m: string, t: string)
    requires Lacks(a, '[') && Lacks(t, '[')
    requires Match(LinkedImage, m + t) == Some(|m|)
    ensures Sub(LinkedImage, "", a + (m + t)) == a + t
  {
    assert Sub(LinkedImage, "", a + (m + t)) == a + Sub(LinkedImage, "", m + t) by {
      PatternShapes();
      SubKeepsPrefix(LinkedImage, "", a, m + t);
    }
    assert Sub(LinkedImage, "", m + t) == Sub(LinkedImage, "", t) by {
      PatternShapes();
      SubAtMatch(LinkedImage, "", m, t);
    }
    assert Sub(LinkedImage, "", t) == t by {
      PatternShapes();
      BracketPassNoBracket(LinkedImage, t);
    }
  }

  /** A linked image `[![x](y)](l)` loses the part up to its `]`; the link
      target `(l)` stays. */
  lemma RemoveLinkedImageBetween(a: string, x: string, y: string, l: string, b: string)
    requires Lacks(a, '[') && Lacks(l, '[') && Lacks(b, '[')
    requires forall k :: 0 <= k < |x| ==> x[k] != ']' && x[k] != '\n'
    requires forall k :: 0 <= k < |y| ==> y[k] != ')' && y[k] != '\n'
    ensures RemoveMarkdown(a + "[![" + x + "](" + y + ")](" + l + ")" + b) == a + "(" + l + ")" + b
  {
    var m := "[![" + x + "](" + y + ")]";
    var t := "(" + l + ")" + b;
    var s := a + "[![" + x + "](" + y + ")](" + l + ")" + b;
    var u := a + t;
    assert Lacks(t, '[') && Lacks(u, '[') by {
      LacksConcat("(" + l, ")", '[');
      LacksConcat("(" + l + ")", b, '[');
      LacksConcat(a, t, '[');
    }
    assert Sub(LinkedImage, "", s) == u by {
      assert s == a + (m + t);
      assert Match(LinkedImage, m + t) == Some(|m|) by {
        MatchPlainLinkedImage(x, y, t);
        assert m + t == "[![" + x + "](" + y + ")]" + t;
      }
      LinkedImagePassDeletes(a, m, t);
    }
    assert Sub(Link, "", u) == u by {
      PatternShapes();
      BracketPassNoBracket(Link, u);
    }
    assert Sub(Image, "", u) == u by {
      ImagePassNoBracket(u);
    }
    assert a + "(" + l + ")" + b == u;
  }

  /** The deletion passes only delete. */
  lemma RemoveMarkdownIsSubseq(s: string)
    ensures IsSubseq(RemoveMarkdown(s), s)
  {
    PatternShapes();
    var a := Sub(LinkedImage, "", s);
    var b := Sub(Link, "", a);
    DeletionIsSubseq(LinkedImage, s);
    DeletionIsSubseq(Link, a);
    DeletionIsSubseq(Image, b);
    SubseqTrans(b, a, s);
    SubseqTrans(Sub(Image, "", b), b, s);
  }

  /** The characters of the start marker that the filter's steps react to. */
  lemma StartMarkerChars()
    ensures Lacks(StartMarker, '[') && Lacks(StartMarker, '!') && Lacks(StartMarker, '\n')
    ensures Lacks(StartMarker, 'A')
    ensures StartMarker[0] == '#' && StartMarker[|StartMarker| - 1] == 's'
  {
  }

  /** The start marker begins and ends with a non-space. */
  lemma StartMarkerEnds()
    ensures StartMarker != [] && !IsSpace(StartMarker[0]) && !IsSpace(StartMarker[|StartMarker| - 1])
  {
    StartMarkerChars();
  }

  /** The start marker holds no `[`, `!` or newline, so no pass can begin a
      match inside it and it passes through untouched. */
  lemma PassesKeepStartMarker(rest: string)
    ensures RemoveMarkdown(StartMarker + rest) == StartMarker + RemoveMarkdown(rest)
    ensures CollapseBlankLines(StartMarker + rest) == StartMarker + CollapseBlankLines(rest)
  {
    PatternShapes();
    StartMarkerChars();
    var m := StartMarker;
    SubKeepsPrefix(LinkedImage, "", m, rest);
    var a := Sub(LinkedImage, "", rest);
    SubKeepsPrefix(Link, "", m, a);
    var b := Sub(Link, "", a);
    SubKeepsPrefix(Image, "", m, b);
    SubKeepsPrefix(BlankLines, "\n\n", m, rest);
  }

  // ---------------------------------------------------------------------------
  // Properties of the filter

  /** Either marker missing: the page comes back exactly as it was. */
  lemma FilterMissingMarker(content: string)
    requires !Contains(content, StartMarker) || !Contains(content, EndMarker)
    ensures FilterContent(content) == content
  {
  }

  /** The first "ABOUT" before the first start marker: the slice is empty,
      and so is the result. */
  lemma FilterEndBeforeStart(content: string)
    requires 0 <= Find(content, EndMarker) < Find(content, StartMarker)
    ensures FilterContent(content) == ""
  {
    var e := Find(content, EndMarker);
    var st := Find(content, StartMarker);
    assert Slice(content, st, e) == [];
  }

  /** "ABOUT" cannot begin inside the start marker: if it comes at or after
      the marker's start it comes after the marker's end. */
  lemma EndAfterStartMarker(content: string)
    requires 0 <= Find(content, StartMarker) <= Find(content, EndMarker)
    ensures Find(content, StartMarker) + |StartMarker| <= Find(content, EndMarker)
  {
    var st := Find(content, StartMarker);
    var e := Find(content, EndMarker);
    if e < st + |StartMarker| {
      OccursAtChar(content, EndMarker, e, 0);
      OccursAtChar(content, StartMarker, st, e - st);
      StartMarkerChars();
      assert false;
    }
  }

  /** Start marker first: the result begins with the start marker itself. */
  lemma FilterKeepsStartMarker(content: string)
    requires 0 <= Find(content, StartMarker) <= Find(content, EndMarker)
    ensures StartMarker <= FilterContent(content)
  {
    var st := Find(content, StartMarker);
    var e := Find(content, EndMarker);
    EndAfterStartMarker(content);
    var section := Slice(content, st, e);
    assert section[..|StartMarker|] == content[st..st + |StartMarker|];
    StripKeepsPrefix(StartMarker, section);
    var stripped := Strip(section);
    var rest := stripped[|StartMarker|..];
    assert stripped == StartMarker + rest;
    PassesKeepStartMarker(rest);
    PassesKeepStartMarker(RemoveMarkdown(rest));
  }

  /** Both markers found: the result is what is left of the section between
      them after deleting characters, so it holds nothing from before the start
      marker or from the end marker on, and is no longer than that section. */
  lemma FilterWithinSection(content: string)
    requires Find(content, StartMarker) != -1 && Find(content, EndMarker) != -1
    ensures var section := Slice(content, Find(content, StartMarker), Find(content, EndMarker));
      IsSubseq(FilterContent(content), section) && |FilterContent(content)| <= |section|
  {
    var section := Slice(content, Find(content, StartMarker), Find(content, EndMarker));
    var stripped := Strip(section);
    var removed := RemoveMarkdown(stripped);
    StripIsSubseq(section);
    RemoveMarkdownIsSubseq(stripped);
    CollapseIsSubseq(removed);
    SubseqTrans(removed, stripped, section);
    SubseqTrans(CollapseBlankLines(removed), removed, section);
    SubseqLength(CollapseBlankLines(removed), section);
  }

  /** Both markers found: the result never holds three newlines in a row. */
  lemma FilterNoTripleNewline(content: string)
    requires Find(content, StartMarker) != -1 && Find(content, EndMarker) != -1
    ensures forall k :: 0 <= k && k + 3 <= |FilterContent(content)| ==>
              !NewlinesAt3(FilterContent(content), k)
  {
    CollapseNoTriple(RemoveMarkdown(Strip(Slice(content, Find(content, StartMarker), Find(content, EndMarker)))));
  }

  /** A well-formed page: `noise`, the start marker, the news text `n`,
      whitespace `w`, the end marker, and anything after it. */
  function PageAround(noise: string, n: string, w: string, footer: string): string {
    noise + StartMarker + n + w + EndMarker + footer
  }

  /** A page's parts, stated for any marker texts `m` and `q` so that the
      marker literals never get unfolded: both markers occur where they were
      placed. */
  lemma PartsPlaced(p: string, m: string, n: string, w: string, q: string, f: string)
    ensures OccursAt(p + m + n + w + q + f, m, |p|)
    ensures OccursAt(p + m + n + w + q + f, q, |p + m + n + w|)
  {
    var s := p + m + n + w + q + f;
    assert s == p + m + (n + w + q + f);
    assert s[|p|..|p| + |m|] == m;
    assert s == (p + m + n + w) + q + f;
    assert s[|p + m + n + w|..|p + m + n + w| + |q|] == q;
  }

  /** The same parts: the text between the markers, with the start marker. */
  lemma PartsMiddle(p: string, m: string, n: string, w: string, q: string, f: string)
    ensures Slice(p + m + n + w + q + f, |p|, |p + m + n + w|) == m + n + w
  {
    var s := p + m + n + w + q + f;
    var e := |p + m + n + w|;
    assert |p| <= e <= |s|;
    assert s == p + (m + n + w) + (q + f);
    assert s[|p|..e] == m + n + w;
  }

  /** The same parts: the stripped middle, when `m` begins and ends with a
      non-space and `w` is whitespace. */
  lemma PartsStripped(p: string, m: string, n: string, w: string, q: string, f: string)
    requires m != [] && !IsSpace(m[0]) && !IsSpace(m[|m| - 1]) && AllSpace(w)
    ensures Strip(Slice(p + m + n + w + q + f, |p|, |p + m + n + w|)) == m + StripRight(n)
  {
    PartsMiddle(p, m, n, w, q, f);
    StripAfterNonSpace(m, n, w);
  }

  /** Where the markers of such a page are first found is where they were
      placed: no start marker begins inside `noise`, and no "ABOUT" begins
      before the one placed after `w`. */
  predicate MarkersPlaced(noise: string, n: string, w: string, footer: string) {
    var page := PageAround(noise, n, w, footer);
    && (forall k: nat :: k < |noise| ==> !OccursAt(page, StartMarker, k))
    && (forall k: nat :: k < |noise + StartMarker + n + w| ==> !OccursAt(page, EndMarker, k))
  }

  /** `find` returns the placed positions of both markers exactly when no
      earlier occurrence of either exists. */
  lemma PageAroundMarkers(noise: string, n: string, w: string, footer: string)
    ensures MarkersPlaced(noise, n, w, footer)
        <==> (Find(PageAround(noise, n, w, footer), StartMarker) == |noise|
              && Find(PageAround(noise, n, w, footer), EndMarker) == |noise + StartMarker + n + w|)
  {
    PartsPlaced(noise, StartMarker, n, w, EndMarker, footer);
  }

  /** One plain case: noise without `#` or `A` and news text without `A`
      cannot hold an earlier marker. */
  lemma PlainPageMarkersPlaced(noise: string, n: string, w: string, footer: string)
    requires Lacks(noise, '#') && Lacks(noise, 'A') && Lacks(n, 'A') && AllSpace(w)
    ensures MarkersPlaced(noise, n, w, footer)
  {
    var page := PageAround(noise, n, w, footer);
    StartMarkerChars();
    assert page == noise + StartMarker + (n + w + EndMarker + footer);
    FindFirstAt(noise, StartMarker, n + w + EndMarker + footer);
    var pre := noise + StartMarker + n + w;
    assert Lacks(pre, 'A') by {
      assert Lacks(w, 'A');
      LacksConcat(noise, StartMarker, 'A');
      LacksConcat(noise + StartMarker, n, 'A');
      LacksConcat(noise + StartMarker + n, w, 'A');
    }
    FindFirstAt(pre, EndMarker, footer);
    PageAroundMarkers(noise, n, w, footer);
  }

  /** On such a page, stripping the slice between where the markers lie
      leaves the start marker and the news text without its trailing
      whitespace. */
  lemma PageAroundSection(noise: string, n: string, w: string, footer: string)
    requires AllSpace(w)
    ensures Strip(Slice(PageAround(noise, n, w, footer), |noise|, |noise + StartMarker + n + w|))
            == StartMarker + StripRight(n)
  {
    StartMarkerEnds();
    PartsStripped(noise, StartMarker, n, w, EndMarker, footer);
  }

  /** Where the markers of a well-formed page lie, and that stripping the
      slice between them leaves the start marker and the news text. */
  lemma PageAroundCut(noise: string, n: string, w: string, footer: string)
    requires MarkersPlaced(noise, n, w, footer) && AllSpace(w)
    ensures Find(PageAround(noise, n, w, footer), StartMarker) == |noise|
    ensures Find(PageAround(noise, n, w, footer), EndMarker) == |noise + StartMarker + n + w|
    ensures Strip(Slice(PageAround(noise, n, w, footer), |noise|, |noise + StartMarker + n + w|))
            == StartMarker + StripRight(n)
  {
    PageAroundMarkers(noise, n, w, footer);
    PageAroundSection(noise, n, w, footer);
  }

  /** On a well-formed page the filter returns the start marker followed by
      the news text after `rstrip`, the markdown and the blank-line passes:
      what comes before the marker, the whitespace before "ABOUT" and
      everything from "ABOUT" on are gone. */
  lemma FilterPageAround(noise: string, n: string, w: string, footer: string)
    requires MarkersPlaced(noise, n, w, footer) && AllSpace(w)
    ensures FilterContent(PageAround(noise, n, w, footer))
            == StartMarker + CollapseBlankLines(RemoveMarkdown(StripRight(n)))
  {
    PageAroundCut(noise, n, w, footer);
    PassesKeepStartMarker(StripRight(n));
    PassesKeepStartMarker(RemoveMarkdown(StripRight(n)));
  }
}
