/** The fragment of Python's `re` that the content filter uses: patterns built
    from single characters, greedy stars and lazy stars over a character class,
    matched by backtracking as `re` does, and `re.sub` with a literal
    replacement. A pattern is a list of nodes; a `+` is written as `One`
    followed by `Greedy` of the same class. */
module PyRe {
  import opened PyStr
  import opened Subsequences
  import opened Wrappers

  datatype CharClass =
    | Exact(c: char)    // the literal character, escaped in the pattern where needed
    | Space             // `\s`
    | AnyButNewline     // `.` without DOTALL

  datatype Node =
    | One(cls: CharClass)      // exactly one character of the class
    | Greedy(cls: CharClass)   // `X*`: as many as possible, then back off
    | Lazy(cls: CharClass)     // `X*?`: as few as possible, then take more

  datatype Pattern = Empty | Then(node: Node, rest: Pattern)

  predicate Accepts(cls: CharClass, c: char) {
    match cls
    case Exact(d) => c == d
    case Space => IsSpace(c)
    case AnyButNewline => c != '\n'
  }

  /** Every match of such a pattern consumes at least one character, so
      `re.sub` never meets an empty match. */
  predicate StartsWithOne(p: Pattern) {
    p.Then? && p.node.One?
  }

  /** The set of words a pattern describes, with no notion of preference. */
  ghost predicate InLang(p: Pattern, w: string)
    decreases p, |w|
  {
    match p
    case Empty => w == []
    case Then(One(cls), q) => w != [] && Accepts(cls, w[0]) && InLang(q, w[1..])
    case Then(Greedy(cls), q) => InLang(q, w) || (w != [] && Accepts(cls, w[0]) && InLang(p, w[1..]))
    case Then(Lazy(cls), q) => InLang(q, w) || (w != [] && Accepts(cls, w[0]) && InLang(p, w[1..]))
  }

  function Shift(o: Option<nat>): Option<nat> {
    match o
    case None => None
    case Some(n) => Some(n + 1)
  }

  /** `re.match(p, s)`: the length of the match the backtracking engine finds
      at the start of `s`. The rest of the pattern is the continuation of each
      star, so a greedy star tries the longest repetition first and a lazy one
      the shortest, backing off to the next choice when the rest fails. */
  function Match(p: Pattern, s: string): (r: Option<nat>)
    decreases p, |s|
    ensures r.Some? ==> r.value <= |s|
    ensures r.Some? && StartsWithOne(p) ==> 1 <= r.value
  {
    match p
    case Empty => Some(0)
    case Then(One(cls), q) =>
      if s != [] && Accepts(cls, s[0]) then Shift(Match(q, s[1..])) else None
    case Then(Greedy(cls), q) =>
      var longer := if s != [] && Accepts(cls, s[0]) then Shift(Match(p, s[1..])) else None;
      if longer.Some? then longer else Match(q, s)
    case Then(Lazy(cls), q) =>
      var shorter := Match(q, s);
      if shorter.Some? then shorter
      else if s != [] && Accepts(cls, s[0]) then Shift(Match(p, s[1..]))
      else None
  }

  /** What the engine matches is a word of the pattern. */
  lemma {:induction false} MatchSound(p: Pattern, s: string)
    requires Match(p, s).Some?
    ensures InLang(p, s[..Match(p, s).value])
    decreases p, |s|
  {
    var n := Match(p, s).value;
    match p
    case Empty =>
    case Then(One(cls), q) =>
      MatchSound(q, s[1..]);
      assert s[..n][1..] == s[1..][..n - 1];
    case Then(Greedy(cls), q) =>
      if s != [] && Accepts(cls, s[0]) && Match(p, s[1..]).Some? {
        MatchSound(p, s[1..]);
        assert s[..n][1..] == s[1..][..n - 1];
      } else {
        MatchSound(q, s);
      }
    case Then(Lazy(cls), q) =>
      if Match(q, s).Some? {
        MatchSound(q, s);
      } else {
        MatchSound(p, s[1..]);
        assert s[..n][1..] == s[1..][..n - 1];
      }
  }

  /** The engine misses no match: if some prefix of `s` is a word of the
      pattern, the engine finds one. */
  lemma {:induction false} MatchComplete(p: Pattern, s: string, n: nat)
    requires n <= |s| && InLang(p, s[..n])
    ensures Match(p, s).Some?
    decreases p, |s|
  {
    var w := s[..n];
    match p
    case Empty =>
    case Then(One(cls), q) =>
      assert w[1..] == s[1..][..n - 1];
      MatchComplete(q, s[1..], n - 1);
    case Then(Greedy(cls), q) =>
      if InLang(q, w) {
        MatchComplete(q, s, n);
      } else {
        assert w[1..] == s[1..][..n - 1];
        MatchComplete(p, s[1..], n - 1);
      }
    case Then(Lazy(cls), q) =>
      if InLang(q, w) {
        MatchComplete(q, s, n);
      } else {
        assert w[1..] == s[1..][..n - 1];
        MatchComplete(p, s[1..], n - 1);
      }
  }

  /** `re.sub(p, repl, s)`: scan left to right, replace each leftmost match by
      `repl` and resume after it; characters where no match starts are copied. */
  function Sub(p: Pattern, repl: string, s: string): (r: string)
    requires StartsWithOne(p)
    decreases |s|
    ensures repl == [] ==> |r| <= |s|
  {
    if s == [] then []
    else match Match(p, s)
      case Some(n) => repl + Sub(p, repl, s[n..])
      case None => [s[0]] + Sub(p, repl, s[1..])
  }

  /** Where no match starts anywhere, `re.sub` returns its input. */
  lemma {:induction false} SubNoMatch(p: Pattern, repl: string, s: string)
    requires StartsWithOne(p)
    requires forall k :: 0 <= k < |s| ==> Match(p, s[k..]).None?
    ensures Sub(p, repl, s) == s
    decreases |s|
  {
    if s != [] {
      assert s[0..] == s;
      forall k | 0 <= k < |s| - 1
        ensures Match(p, s[1..][k..]).None?
      {
        assert s[1..][k..] == s[k + 1..];
      }
      SubNoMatch(p, repl, s[1..]);
    }
  }

  /** A deletion (`repl == ""`) leaves a subsequence of its input. */
  lemma {:induction false} DeletionIsSubseq(p: Pattern, s: string)
    requires StartsWithOne(p)
    ensures IsSubseq(Sub(p, [], s), s)
    decreases |s|
  {
    if s != [] {
      match Match(p, s)
      case Some(n) =>
        DeletionIsSubseq(p, s[n..]);
        SubseqConcat([], s[..n], Sub(p, [], s[n..]), s[n..]);
        assert [] + Sub(p, [], s[n..]) == Sub(p, [], s) && s[..n] + s[n..] == s;
      case None =>
        DeletionIsSubseq(p, s[1..]);
        SubseqRefl([s[0]]);
        SubseqConcat([s[0]], [s[0]], Sub(p, [], s[1..]), s[1..]);
        assert [s[0]] + s[1..] == s;
    }
  }

  /** A prefix none of whose characters can begin a match is copied through,
      and the scan resumes right after it. */
  lemma {:induction false} SubKeepsPrefix(p: Pattern, repl: string, m: string, s: string)
    requires StartsWithOne(p)
    requires forall k :: 0 <= k < |m| ==> !Accepts(p.node.cls, m[k])
    ensures Sub(p, repl, m + s) == m + Sub(p, repl, s)
    decreases |m|
  {
    if m != [] {
      var t := m + s;
      assert t[0] == m[0];
      assert Match(p, t) == None;
      assert t[1..] == m[1..] + s;
      SubKeepsPrefix(p, repl, m[1..], s);
      assert [m[0]] + m[1..] == m;
    } else {
      assert m + s == s;
    }
  }

  /** A single-character node consumes one accepted character. */
  lemma OneStep(cls: CharClass, q: Pattern, c: char, t: string)
    requires Accepts(cls, c)
    ensures Match(Then(One(cls), q), [c] + t) == Shift(Match(q, t))
  {
    assert ([c] + t)[1..] == t;
  }

  /** A lazy `.*?` skips text where the rest of the pattern cannot begin, and
      stops where the rest first matches. */
  lemma {:induction false} LazySkips(q: Pattern, w: string, t: string)
    requires StartsWithOne(q) && Match(q, t).Some?
    requires forall k :: 0 <= k < |w| ==> w[k] != '\n' && !Accepts(q.node.cls, w[k])
    ensures Match(Then(Lazy(AnyButNewline), q), w + t) == Some(|w| + Match(q, t).value)
    decreases |w|
  {
    if w == [] {
      assert w + t == t;
    } else {
      var s := w + t;
      assert s[0] == w[0];
      assert s[1..] == w[1..] + t;
      LazySkips(q, w[1..], t);
    }
  }

  /** Where a match covers exactly `m`, `re.sub` writes `repl` and resumes after it. */
  lemma SubAtMatch(p: Pattern, repl: string, m: string, rest: string)
    requires StartsWithOne(p) && Match(p, m + rest) == Some(|m|)
    ensures Sub(p, repl, m + rest) == repl + Sub(p, repl, rest)
  {
    assert (m + rest)[|m|..] == rest;
  }
}
