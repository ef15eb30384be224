# CryptoAdvice news filter, modelled in Dafny

CryptoAdvice fetches CoinDesk's "latest crypto news" page as text and cuts it down before handing it to a chat model for market analysis. This project models that cutting step, `CryptoAnalyzer.filter_content` (main.py:20-39), and proves what it does. It also models the pure part of `CryptoAnalyzer.analyze_with_groq`, which builds the request sent to the model (main.py:43-59).

`filter_content` runs a fixed chain of steps:

1. It finds the first `"# Latest Crypto News"` and the first `"ABOUT"` with Python's `str.find`, where -1 means absent.
2. If both are found, it takes `content[start:end]` and strips it with `str.strip()`.
3. It runs three `re.sub` deletions, in order: linked images `\[!\[.*?\]\(.*?\)\]`, links `\[.*?\]\(.*?\)`, bare images `!\[.*?\]\(.*?\)`.
4. It collapses blank lines with `\n\s*\n+` → `"\n\n"`.
5. If either marker is missing, it returns the input unchanged.

The model is made of functions and lemmas, as the source is: one chain of calls with no loops and no state.

- `Subsequences` defines "obtained by deleting elements" and proves the facts needed to chain the steps.
- `PyStr` models `str.find`, slicing with non-negative bounds, `str.lstrip`, `str.rstrip` and `str.strip`. Whitespace is Python's `str.isspace` set, which is also the set `\s` matches in a `str` pattern.
- `PyRe` is a small backtracking matcher with Python's order of choices.
  - Patterns are lists of nodes: one character of a class, a greedy star, or a lazy star.
  - A greedy star tries one more repetition before the rest of the pattern; a lazy star tries the rest first.
  - `.` does not match a newline.
  - `re.sub` replaces each leftmost match and resumes after it.
  - The matcher is proved sound and complete against the language of the pattern.
- `ContentFilter` writes the four patterns of main.py:31-34 as data and defines `FilterContent` as in main.py:20-36. Its lemmas cover:
  - the blank-line pattern: each match runs from a newline to the last newline of the whitespace run that follows it;
  - the deletion passes;
  - the filter as a whole.
- `FilterExamples` shows the passes on small inputs and on a whole news page.
- `AnalysisPrompt` models the two-message request: the fixed system prompt, then a fixed prefix followed by the news text.

The code does not do what a quick reading of the filter suggests. The model follows the code.

- The start marker is kept: the slice starts at it (`FilterKeepsStartMarker`).
- The linked-image pattern ends in `\]`, so `[![a](i)](l)` loses only `[![a](i)]`, and `(l)` survives (`LinkedImageKeepsTarget`).
- The link pass runs before the bare-image pass. It takes `[a](i)` out of `![a](i)` and leaves a stray `!` (`BareImageLeavesBang`).
- So the page "noise\n# Latest Crypto News\nBTC up ![img](x.png) 5%\n\n\n\nABOUT\nfooter" filters to "# Latest Crypto News\nBTC up ! 5%", not to "BTC up  5%". This is `FilterNewsPage` with `noise` = "noise\n", `h` = "BTC up ", `x` = "img", `y` = "x.png", `t` = " 5%", `w` = "\n\n\n\n" and `footer` = "\nfooter".
- When the first "ABOUT" comes before the first start marker, nothing checks the order. The slice is empty and so is the result (`FilterEndBeforeStart`).
- `strip` runs before the deletions. Whitespace next to a deleted link can therefore end up at the end of the result (`DeletionAfterStripLeavesSpace`).

## Model

| member | source | states |
|---|---|---|
| `ContentFilter.FilterContent` | main.py:20-36 | finds the first start marker and the first "ABOUT"; when both are found, slices between them, strips, runs the three deletions and the blank-line collapse; otherwise returns the input |
| `ContentFilter.RemoveMarkdown` | main.py:31-33 | the three deletions in source order: linked images, then links, then bare images, each replaced by nothing |
| `ContentFilter.CollapseBlankLines` | main.py:34 | `re.sub` of `\n\s*\n+` by two newlines |
| `PyStr.StripLeft` | main.py:30 | drops leading whitespace; the result is a suffix of the input that is empty or starts with a non-space |
| `PyStr.StripRight` | main.py:30 | drops trailing whitespace; the result is a prefix of the input that is empty or ends with a non-space |
| `PyStr.Strip` | main.py:30 | `str.strip()`: `rstrip` after `lstrip` |
| `PyRe.Match` | main.py:31-34 | the backtracking match at the start of the text, in Python's order of choices; a match is never longer than the text and, for a pattern starting with one character, never empty |
| `PyRe.Sub` | main.py:31-34 | `re.sub`: scans for the leftmost match, writes the replacement for it and resumes right after it; with an empty replacement the result is no longer than the input |
| `PyStr.Find` | main.py:26-27 | the result is -1 exactly when the pattern does not occur; otherwise it is an index where the pattern occurs and no earlier index holds it |
| `PyStr.Slice` | main.py:30 | with bounds inside the string it is the slice between them; when the end is not after the start it is empty |
| `PyStr.StripIsTrimmedSlice` | main.py:30 | `strip` returns a contiguous slice whose cut-off ends are all whitespace and whose own ends are non-space |
| `PyStr.StripIdempotent` | main.py:30 | stripping twice gives the same as stripping once |
| `PyStr.StripKeepsPrefix` | main.py:30 | a string that starts with a non-empty text beginning and ending in non-space still starts with that text after `strip` |
| `PyStr.StripIsSubseq` | main.py:30 | `strip` only deletes characters |
| `PyStr.StripRightSpaces` | main.py:30 | appending whitespace to a text does not change what `rstrip` returns |
| `PyStr.StripRightAfter` | main.py:30 | `rstrip` never removes anything before the last non-space of a leading text |
| `PyStr.StripAfterNonSpace` | main.py:30 | a text with non-space ends, then any text, then whitespace, strips to the first text followed by the `rstrip` of the second |
| `PyRe.MatchSound` | main.py:31-34 | what the backtracking engine matches is a word of the pattern |
| `PyRe.MatchComplete` | main.py:31-34 | if some prefix of the input is a word of the pattern, the engine finds a match |
| `PyRe.SubNoMatch` | main.py:31-34 | where no match starts at any position, `re.sub` returns its input |
| `PyRe.DeletionIsSubseq` | main.py:31-33 | `re.sub` with an empty replacement leaves a subsequence of its input |
| `PyRe.SubKeepsPrefix` | main.py:31-34 | a prefix none of whose characters can start a match is copied, and the scan resumes right after it |
| `PyRe.LazySkips` | main.py:31-33 | `.*?` passes over text where the rest of the pattern cannot begin and stops where the rest first matches |
| `ContentFilter.BlankLinesMatch` | main.py:34 | `\n\s*\n+` matches exactly when the text starts with a newline and another newline follows within the whitespace run; the match is all whitespace, starts and ends with a newline, and no newline follows it inside the remaining whitespace |
| `ContentFilter.CollapseNoNewline` | main.py:34 | text without a newline comes out of the blank-line pass unchanged |
| `ContentFilter.CollapseLoneNewline` | main.py:34 | a newline with no second newline in the whitespace after it is kept as it is |
| `ContentFilter.CollapseNoTriple` | main.py:34 | the blank-line pass never leaves three newlines in a row |
| `ContentFilter.CollapseIdempotent` | main.py:34 | applying the blank-line pass to its own output changes nothing |
| `ContentFilter.CollapseIsSubseq` | main.py:34 | the blank-line pass only deletes characters: it keeps the first and last newline of each run it replaces |
| `ContentFilter.MatchPlainLink` | main.py:32 | `[x](y)`, with no `]` or newline in `x` and no `)` or newline in `y`, is matched exactly |
| `ContentFilter.MatchPlainLinkedImage` | main.py:31 | `[![x](y)]` of such texts is matched exactly, up to its `]` |
| `ContentFilter.LinkedImagePassNoop` | main.py:31 | text where no `[` is followed by `!` passes the linked-image pass unchanged |
| `ContentFilter.RemoveMarkdownNoBracket` | main.py:31-33 | text without `[` passes the three deletion passes unchanged |
| `ContentFilter.RemoveLinkBetween` | main.py:31-33 | a link between `[`-free texts is deleted, and the texts around it are kept as they are |
| `ContentFilter.RemoveImageBetween` | main.py:31-33 | a bare image between `[`-free texts is replaced by its `!` |
| `ContentFilter.RemoveLinkedImageBetween` | main.py:31-33 | a linked image `[![x](y)](l)` between `[`-free texts leaves `(l)` behind |
| `ContentFilter.RemoveMarkdownIsSubseq` | main.py:31-33 | the three deletion passes only delete characters |
| `ContentFilter.PassesKeepStartMarker` | main.py:31-34 | none of the four passes touches a leading start marker, and each treats what follows it as it would on its own |
| `ContentFilter.FilterMissingMarker` | main.py:26-36 | when either marker is missing, the output is the input, exactly |
| `ContentFilter.FilterEndBeforeStart` | main.py:26-30 | when the first "ABOUT" comes before the first start marker, the output is empty |
| `ContentFilter.EndAfterStartMarker` | main.py:22-27 | when the start marker comes first, the first "ABOUT" lies after the whole marker, because the two cannot overlap |
| `ContentFilter.FilterKeepsStartMarker` | main.py:22-35 | when the start marker comes first, the output begins with "# Latest Crypto News" |
| `ContentFilter.FilterWithinSection` | main.py:29-35 | when both markers are found, the output is a subsequence of the slice between them, so it holds nothing from before the start marker or from "ABOUT" on, and is no longer than that slice |
| `ContentFilter.FilterNoTripleNewline` | main.py:29-35 | when both markers are found, the output never holds three newlines in a row |
| `ContentFilter.PageAroundMarkers` | main.py:26-27 | on a page made of noise, the start marker, news text, whitespace, "ABOUT" and a footer, `find` returns the placed positions of both markers exactly when no start marker begins inside the noise and no "ABOUT" begins before the placed one |
| `ContentFilter.PlainPageMarkersPlaced` | main.py:26-27 | noise without `#` or `A` and news text without `A` satisfy that condition |
| `ContentFilter.PageAroundCut` | main.py:26-30 | on such a page whose markers are first found where they were placed, `find` returns those positions and the stripped slice is the marker followed by the news text without its trailing whitespace |
| `ContentFilter.FilterPageAround` | main.py:20-36 | on such a page, the output is the start marker followed by the news text after `rstrip`, the deletion passes and the blank-line pass |
| `FilterExamples.LinkedImageKeepsTarget` | main.py:31 | `[![a](i)](l)` filters to `(l)` |
| `FilterExamples.BareImageLeavesBang` | main.py:32-33 | `![a](i)` filters to `!` |
| `FilterExamples.LinkRemovedTextKept` | main.py:32 | `up [x](y) 5%` filters to `up  5%` |
| `FilterExamples.DeletionAfterStripLeavesSpace` | main.py:30-32 | `up [x](y)` is unchanged by `strip`, and the deletions then leave `up ` with a trailing space |
| `FilterExamples.NewsLinePasses` | main.py:31-34 | a news line holding one bare image between plain texts keeps its `!` and its newline |
| `FilterExamples.NewsLineStripRight` | main.py:30 | `rstrip` on a news line trims only its closing text |
| `FilterExamples.FilterNewsPage` | main.py:20-36 | a whole news page with one bare image, whose markers are first found where they were placed, filters to the start marker, a newline, and the news line with the image reduced to `!` and trailing whitespace dropped |
| `AnalysisPrompt.AugmentedQuery` | main.py:51 | the user message is the fixed prefix followed by the content verbatim |
| `AnalysisPrompt.BuildRequest` | main.py:43-59 | the request names the model and holds exactly two messages: the fixed system prompt, then the user message with the prefix and the content |
| `AnalysisPrompt.RecoverContent` | main.py:51-59 | the content can be read back exactly from the request built for it |
| `AnalysisPrompt.BuildRequestInjective` | main.py:51-59 | two requests are equal exactly when their contents are equal |

## Left out

- The Groq chat-completion call and reading `choices[0].message.content` (main.py:54-61): a call into a network service. The model stops at the request it is given.
- The crawler fetch, `async`/`await` and the event loop (main.py:66-94, main.py:109-115): I/O and concurrency.
- The Streamlit page, spinners, columns, error notices and the `datetime.now()` caption (main.py:96-129): presentation only.
- The `GROQ_API_KEY` and port lookups in the environment (main.py:17, main.py:97, main.py:133): configuration.
- Logging and the `except` branches (main.py:37-39, main.py:62-64). `filter_content` cannot raise on a string, so it is a total function here.
- Empty regex matches in `re.sub`: every pattern of main.py:31-34 starts with a single literal character, so none can match the empty string. `Sub` requires such a pattern.
- Negative slice bounds: `str.find` results are only used as bounds after the -1 check, so they are never negative.
- RemoveMarkdown: the deletion passes are described exactly only for text free of `[` and for one link, image or linked image between such texts. Nested or overlapping brackets, and labels or targets that contain newlines, are covered only by the subsequence property.
- FilterPageAround: the whole filter is computed exactly for well-formed pages whose markers are first found where they were placed. For other pages, such as one with "ABOUT" inside the news text, only the general lemmas apply: missing marker, order of the markers, start marker kept, subsequence of the section, no triple newline.
