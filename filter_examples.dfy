/** Worked inputs for the content filter, showing how the source's passes
    behave on the markdown forms they target. */
module FilterExamples {
  import opened PyStr
  import opened PyRe
  import opened ContentFilter

  /** The linked-image pattern ends in `]`, so only `[![a](i)]` goes and the
      link target `(l)` stays. */
  lemma LinkedImageKeepsTarget()
    ensures RemoveMarkdown("[![a](i)](l)") == "(l)"
  {
    RemoveLinkedImageBetween("", "a", "i", "l", "");
    assert "" + "[![" + "a" + "](" + "i" + ")](" + "l" + ")" + "" == "[![a](i)](l)";
    assert "" + "(" + "l" + ")" + "" == "(l)";
  }

  /** The link pass runs before the bare-image pass, so it takes `[a](i)` out
      of `![a](i)` and leaves the `!`. */
  lemma BareImageLeavesBang()
    ensures RemoveMarkdown("![a](i)") == "!"
  {
    RemoveImageBetween("", "a", "i", "");
    assert "" + "![" + "a" + "](" + "i" + ")" + "" == "![a](i)";
    assert "" + "!" + "" == "!";
  }

  /** A link goes, the text around it stays. */
  lemma LinkRemovedTextKept()
    ensures RemoveMarkdown("up [x](y) 5%") == "up  5%"
  {
    RemoveLinkBetween("up ", "x", "y", " 5%");
    assert "up " + "[" + "x" + "](" + "y" + ")" + " 5%" == "up [x](y) 5%";
    assert "up " + " 5%" == "up  5%";
  }

  /** `strip` runs before the deletions, so whitespace that stood before a
      deleted link ends up at the end of the result. */
  lemma DeletionAfterStripLeavesSpace()
    ensures Strip("up [x](y)") == "up [x](y)"
    ensures RemoveMarkdown("up [x](y)") == "up "
  {
    var s := "up [x](y)";
    assert !IsSpace(s[0]) && !IsSpace(s[|s| - 1]);
    assert StripLeft(s) == s;
    assert StripRight(s) == s;
    RemoveLinkBetween("up ", "x", "y", "");
    assert "up " + "[" + "x" + "](" + "y" + ")" + "" == s;
    assert "up " + "" == "up ";
  }

  /** A news line holding an image between two plain texts. */
  function NewsLine(h: string, x: string, y: string, t: string): string {
    "\n" + h + "![" + x + "](" + y + ")" + t
  }

  /** Plain text: nothing a markdown pass reacts to. */
  predicate Plain(s: string) {
    Lacks(s, '[') && Lacks(s, '\n')
  }

  /** `rstrip` on a news line only trims its closing text, which stays plain. */
  lemma NewsLineStripRight(h: string, x: string, y: string, t: string)
    requires Plain(t)
    ensures StripRight(NewsLine(h, x, y, t)) == NewsLine(h, x, y, StripRight(t))
    ensures Plain(StripRight(t))
  {
    var pre := "\n" + h + "![" + x + "](" + y + ")";
    assert pre[|pre| - 1] == ')';
    StripRightAfter(pre, t);
    var r := StripRight(t);
    assert forall k :: 0 <= k < |r| ==> r[k] == t[k];
  }

  /** The image loses its `[..](..)` to the link pass and leaves its `!`; the
      single newline is no blank line. */
  lemma NewsLinePasses(h: string, x: string, y: string, t: string)
    requires Plain(h) && Plain(x) && Plain(y) && Plain(t)
    requires Lacks(x, ']') && Lacks(y, ')')
    ensures CollapseBlankLines(RemoveMarkdown(NewsLine(h, x, y, t))) == "\n" + h + "!" + t
  {
    var rest := h + "!" + t;
    assert RemoveMarkdown(NewsLine(h, x, y, t)) == "\n" + rest by {
      LacksConcat("\n", h, '[');
      RemoveImageBetween("\n" + h, x, y, t);
    }
    assert Lacks(rest, '\n') by {
      LacksConcat(h, "!", '\n');
      LacksConcat(h + "!", t, '\n');
    }
    NoNewlineQuiet(rest);
    CollapseLoneNewline(rest);
    CollapseNoNewline(rest);
  }

  /** A whole news page: everything before the start marker, the whitespace
      before "ABOUT" and everything from "ABOUT" on go, the marker stays, the
      image leaves its `!` behind, and trailing whitespace of the line goes. */
  lemma FilterNewsPage(noise: string, h: string, x: string, y: string, t: string, w: string, footer: string)
    requires MarkersPlaced(noise, NewsLine(h, x, y, t), w, footer) && AllSpace(w)
    requires Plain(h) && Plain(x) && Plain(y) && Plain(t)
    requires Lacks(x, ']') && Lacks(y, ')')
    ensures FilterContent(PageAround(noise, NewsLine(h, x, y, t), w, footer))
            == StartMarker + ("\n" + h + "!" + StripRight(t))
  {
    FilterPageAround(noise, NewsLine(h, x, y, t), w, footer);
    NewsLineStripRight(h, x, y, t);
    NewsLinePasses(h, x, y, StripRight(t));
  }
}
