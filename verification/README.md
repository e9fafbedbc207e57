# Source locators of the inspector, modelled in Dafny

The inspector maps an element the user hovers in the running page back to the
lines of source that produced it. Two pure heuristics do the mapping, and this
project models both and proves what they promise:

- **Markup fragment locator** (`findLineInSource`, app/utils/source-matcher.js).
  It works in four steps:
  1. It splits the component's source into lines and lower-cases the tag name.
  2. It normalizes the class, text and callback signals: every whitespace run
     becomes one space, and the ends are trimmed.
  3. It scores every line that mentions `<tag` on a context window of at most
     six lines. The score is 1, plus 2 if the class occurs, plus 5 if the text
     occurs, plus 15 if the callback body occurs. The first line with the
     highest score wins.
  4. From that line it captures the element by tracking the tag's nesting
     depth.
- **Stylesheet rule locator** (`findCssLineInSource` and
  `extractPureClassName`, app/utils/css-matcher.js). It works in three steps:
  1. It demangles each scoped class token (`File-module__hash__name`) to its
     authored name.
  2. It finds the lines whose trimmed text starts a selector `.name`, and
     captures each rule through its closing brace.
  3. It returns the union of the captured lines, de-duplicated and sorted.

Files:

| file | module | holds |
|---|---|---|
| `wrappers.dfy` | `Wrappers` | `Option` |
| `text.dfy` | `Text` | the string helpers both locators use |
| `sorting.dfy` | `Sorting` | the numeric sort |
| `source_matcher.dfy` | `SourceMatcher` | the markup locator |
| `css_matcher.dfy` | `CssMatcher` | the stylesheet locator |

`Text` holds ASCII whitespace (`\s`), lower-casing, substring search, `trim`,
`normalize`, `split("\n")` and `split(/\s+/)`.

Modelling choices:

- **Strings.** Strings are `seq<char>`. Absent optional signals (`undefined`,
  `null`) are the empty string, which the source treats alike because all
  three are falsy.
- **Regular expressions.** Each regular expression is modelled directly for
  its own pattern. `MatchEnd` says where a match that starts at a position
  ends. A global `match(...)` is counted engine-style: after a match, scanning
  resumes at its end; otherwise it resumes one character later. The capture
  patterns are `Opening` (`<tag[\s>]`), `Closing` (`<\/tag>`) and two
  self-closing patterns:
  - `SelfClosingAsWritten` is the source's `<tag[^>]*\/>`. `FindLineInSource`
    uses it, so its capture is the source's capture.
  - `SelfClosing` is the corrected `<tag\s(?:=>|[^>])*\/>`. It only
    subtracts elements that the opening pattern counted, and it reads past
    the `>` of a `=>` arrow inside the attributes (see "## Findings").
    `FindLineInSourceGuarded` uses it; the lemmas that state the corrected
    behaviour name it.
- **Lengths.** The `length > 2` and `length > 5` thresholds count UTF-16 code
  units, as JavaScript strings do: `Utf16Length` counts a character beyond
  U+FFFF as two units.
- **Results of the locators.** Each locator's result is stated against a
  reference definition:
  - `IsFirstBest` and `IsElementCapture` for the markup locator;
  - `Highlighted` for the stylesheet locator, whose `HighlightedIff` lemma
    unfolds it into "some token's demangled name starts a rule at line `i` and
    `x` lies in that rule's block".
- **Empty source.** `FindLineInSource` has no separate branch for the empty
  source. The empty text splits into one empty line, which is never a
  candidate, so the result is `[]` exactly as the source's early return gives.
  `EmptySourceHasNoCandidate` proves this, and the contract states it.
- **Demangler.** The demangler implements the pattern
  `__[a-zA-Z0-9_-]+__([a-zA-Z0-9-]+)$` and nothing else: a token without that
  shape yields no name and contributes no line. For example,
  `Card_card__ab12` yields no name (`ExtractNeedsTwoSeparators`).

## Model

| member | source | states |
|---|---|---|
| Text.Normalize | app/utils/source-matcher.js:6 | the result is in normal form: every whitespace character is a single space, none are adjacent, and none at either end |
| Text.NormalizeIdempotent | app/utils/source-matcher.js:6 | normalizing a normalized string changes nothing |
| Text.NormalizeFixed | app/utils/source-matcher.js:6 | a string already in normal form is its own normalization |
| Text.NormalizeKeepsContent | app/utils/source-matcher.js:6 | normalizing neither drops, adds nor reorders any non-whitespace character |
| Text.Collapse | app/utils/source-matcher.js:6 | `replace(/\s+/g, " ")` leaves no whitespace but single spaces, and no two of them adjacent |
| Text.CollapseKeepsContent | app/utils/source-matcher.js:6 | replacing whitespace runs keeps every non-whitespace character, in order |
| Text.CollapseAppend | app/utils/source-matcher.js:6 | replacing whitespace runs works piece by piece on two texts whose seam does not fall inside a whitespace run |
| Text.CollapseJoinsWords | app/utils/source-matcher.js:6 | a whitespace run between two words becomes exactly one space, in its place, so no word break is lost and no two words are glued |
| Text.CollapseFixed | app/utils/source-matcher.js:6 | replacing whitespace runs by one space leaves an already collapsed string unchanged |
| Text.NormalizeJoinsWords | app/utils/source-matcher.js:6 | two words separated by any whitespace run normalize to the two normalized words with one space between them |
| Text.Trim | app/utils/source-matcher.js:6 | `trim` removes exactly the leading and trailing whitespace: the result is the middle slice, with whitespace only outside it and none at its ends |
| Text.Utf16Length | app/utils/source-matcher.js:46-50 | JavaScript's `.length` used by the `length > 2` and `length > 5` tests: between the number of characters and twice it, equal to it exactly when no character lies beyond U+FFFF, and twice it exactly when every character does |
| Text.Split | app/utils/source-matcher.js:17 | `split("\n")` yields at least one piece, and no piece holds the separator |
| Text.JoinSplit | app/utils/source-matcher.js:17 | joining the split pieces with the separator restores the text |
| Text.SplitJoin | app/utils/source-matcher.js:17 | splitting a join of separator-free pieces gives the pieces back |
| Text.LowerStr | app/utils/source-matcher.js:18 | lower-casing keeps the length and lower-cases every character in place |
| Text.SplitOnWhitespace | app/utils/css-matcher.js:24 | `split(/\s+/)` yields at least one piece, and no piece holds whitespace |
| Text.SplitOnWhitespaceIsSplitOfCollapse | app/utils/css-matcher.js:24 | the pieces of `split(/\s+/)` are the pieces of the whitespace-collapsed text between its single spaces, so every whitespace run is one break |
| Text.SplitOnWhitespaceJoin | app/utils/css-matcher.js:24 | joining the pieces with single spaces gives the whitespace-collapsed class string |
| SourceMatcher.TargetsOf | app/utils/source-matcher.js:18-21 | the target tag is the tag name lower-cased character by character; class, text and callback are in normal form and keep the signals' non-whitespace content |
| SourceMatcher.CandidateIffTagNameAt | app/utils/source-matcher.js:30 | a line is a candidate exactly when it has a `<` followed by the tag name in any letter case |
| SourceMatcher.EndsWindowIsAnyAngle | app/utils/source-matcher.js:36-37 | the window-ending test `includes("</tag") \|\| includes("<")` holds exactly when the line has any `<` |
| SourceMatcher.WindowEnd | app/utils/source-matcher.js:33-38 | the window covers the candidate line and at most five more. It stops after the first following line that ends a window, or at the file's end |
| SourceMatcher.Window | app/utils/source-matcher.js:33-39 | the scored window is in normal form and holds exactly the non-whitespace content of the window's lines joined by spaces |
| SourceMatcher.StripTrailingBrace | app/utils/source-matcher.js:54 | `replace(/}$/, "")` drops one `}` when the text ends with one, and otherwise changes nothing |
| SourceMatcher.FunctionBodyBetweenArrows | app/utils/source-matcher.js:51-54 | for a callback whose first arrow is at `k` and whose next arrow (or end) is at `m`, the body is the trimmed text between them, and the cleaned body is that text with one trailing `}` dropped, trimmed again |
| SourceMatcher.FunctionBodyWithoutArrow | app/utils/source-matcher.js:51-54 | without an arrow the body is the whole callback text, and the cleaned body is it with one trailing `}` dropped, trimmed |
| SourceMatcher.FunctionBodyShape | app/utils/source-matcher.js:51-53 | the callback body is a piece of the callback text, and it holds no arrow when the callback has one |
| SourceMatcher.CleanBodyShape | app/utils/source-matcher.js:50-56 | the cleaned body is a piece of the callback text, has no whitespace at either end, and holds no arrow when the callback has one |
| SourceMatcher.Score | app/utils/source-matcher.js:43-58 | a score lies between the base 1 and 1+2+5+15, and decoding it gives back exactly which of the class, text (longer than 2 UTF-16 units) and callback signals hit |
| SourceMatcher.DecodeInvertsHitsScore | app/utils/source-matcher.js:43-58 | the weights 2, 5 and 15 make the score of a pattern of hits decode back to that pattern, so no two patterns share a score |
| SourceMatcher.HitsScoreOrder | app/utils/source-matcher.js:43-58 | one pattern of hits scores above another exactly when it wins on the callback, then the text, then the class, and two scores are equal only for equal patterns |
| SourceMatcher.AstralTextPassesThreshold | app/utils/source-matcher.js:46 | two characters beyond U+FFFF are four UTF-16 units, so such a text passes the `length > 2` test |
| SourceMatcher.LineScore | app/utils/source-matcher.js:43-59 | every candidate scores between the base 1 and 1+2+5+15 |
| SourceMatcher.ScoreOrderIsLexicographic | app/utils/source-matcher.js:43-59 | one window scores above another exactly when it wins on (callback, text, class) hits in lexicographic order, and scores tie exactly when the same signals hit |
| SourceMatcher.SelectBest | app/utils/source-matcher.js:23-64 | the result is -1 exactly when no line is flagged. Otherwise it is the 1-based number of the first flagged line with the greatest score, so a tie keeps the earlier line |
| SourceMatcher.FindBestLine | app/utils/source-matcher.js:23-64 | the result is -1 exactly when no line contains `<tag` (case-insensitively). Otherwise it is the first best-scoring candidate |
| SourceMatcher.AddingMatchingSignalsKeepsBest | app/utils/source-matcher.js:43-64 | adding class, text or callback signals that the chosen line's window matches keeps that line the first best |
| SourceMatcher.BestIsFirstWhenScoresTie | app/utils/source-matcher.js:61-64 | with only a tag signal every candidate scores 1, so when the first line is a candidate it is the best line |
| SourceMatcher.MatchEnd | app/utils/source-matcher.js:74-76 | a match of any of the capture patterns starts at a `<` and ends inside the line |
| SourceMatcher.CountIsDistinctEnds | app/utils/source-matcher.js:85-87 | the global match count `(line.match(re) \|\| []).length` of each pattern is the number of distinct positions where one of its matches ends |
| SourceMatcher.CountWithMatch | app/utils/source-matcher.js:85-87 | a pattern that matches somewhere counts at least once, and exactly once when it matches nowhere else |
| SourceMatcher.CountWithoutMatch | app/utils/source-matcher.js:85-87 | a pattern that matches nowhere counts zero |
| SourceMatcher.CountSingleAngle | app/utils/source-matcher.js:85-87 | on a line whose only `<` is at `p`, a global match count is 1 if the pattern matches at `p` and 0 otherwise |
| SourceMatcher.LongerTagNameIsIgnored | app/utils/source-matcher.js:74-76 | on any line, a longer tag name that starts with the target (`<buttonGroup` for `button`) matches neither the opening, the closing nor the corrected self-closing pattern. The source's self-closing pattern matches it exactly when the first `>` after the name closes a `/>` |
| SourceMatcher.SelfClosingMatchesAt | app/utils/source-matcher.js:76 | where the first `>` after `<tag` closes a `/>`, the source's self-closing pattern ends there, and the corrected one ends there exactly when whitespace follows the name |
| SourceMatcher.ArrowSelfCloseInnerMatch | app/utils/source-matcher.js:85-87 | a match of the corrected self-closing pattern that starts inside another one ends at the same `>`, so a global count never counts one element twice |
| SourceMatcher.SingleSelfClosingCounts | app/utils/source-matcher.js:74-89 | on a line whose only `<` opens a self-closing element whose attributes hold no `>` (the first `>` after the `<` closes the `/>`), the net change is 0 with the corrected pattern and at most 0 with the source's pattern, for every tag |
| SourceMatcher.SelfClosingElementIsNeutral | app/utils/source-matcher.js:74-89 | `pre<name gap/>post` with no other `<` has net change 0 under the corrected pattern and at most 0 under the source's pattern, for every tag and element name |
| SourceMatcher.UnguardedSelfCloseCounts | app/utils/source-matcher.js:74-89 | with the source's pattern, on a line whose only `<` is followed by the tag name and then neither whitespace nor `>`, and whose attributes hold no `>` before the `/>`, the element counts as a self-close without being an opening, so the net change is -1; under the corrected pattern it is 0 |
| SourceMatcher.LongerNameSelfClosingMiscounts | app/utils/source-matcher.js:76 | `<divider />` changes the depth of `div` by -1 as written and by 0 under the corrected pattern |
| SourceMatcher.BareSelfClosingMiscounts | app/utils/source-matcher.js:76 | `<div/>` changes the depth of `div` by -1 as written and by 0 under the corrected pattern |
| SourceMatcher.ArrowAttributeCounts | app/utils/source-matcher.js:74-89 | on a line whose only `<` opens a self-closing element whose attributes hold one `=>` arrow, the source's net change is 1 (an opening that nothing closes) and the corrected one is 0 |
| SourceMatcher.ArrowAttributeMiscounts | app/utils/source-matcher.js:74-89 | the same for every line `pre<name u>v/>post` in which `name` is the tag in any letter case, `u` starts with whitespace and ends with `=`, and there is no other `<` and no other `>` |
| SourceMatcher.SelfClosingTagNeverOpens | app/utils/source-matcher.js:74-89 | a line whose only `<` followed by the tag name opens a self-closing `<tag … />` never raises the depth: under the corrected pattern when every `>` in the attributes ends a `=>` arrow, under the source's pattern when the attributes hold no `>` at all |
| SourceMatcher.ElementEnds | app/utils/source-matcher.js:78-103 | a run that stops where the depth first reaches zero or below, or at the file's end, is the element's capture |
| SourceMatcher.CaptureElement | app/utils/source-matcher.js:78-103 | the capture is the ascending run of 1-based line numbers from the best line up to the first line that leaves the depth at most zero, or up to the last line |
| SourceMatcher.CaptureIsUnique | app/utils/source-matcher.js:78-103 | the capture from a line is determined by the lines: two runs that both meet the definition are equal |
| SourceMatcher.CaptureStopsAtFirstDrop | app/utils/source-matcher.js:98-100 | the capture ends exactly at the first line after which the depth is at most zero |
| SourceMatcher.CaptureRunsToEnd | app/utils/source-matcher.js:81-101 | a capture whose depth stays positive runs to the last line |
| SourceMatcher.SelfClosingLineIsWholeElement | app/utils/source-matcher.js:78-103 | a best line holding a self-closing `<tag … />`, where no other `<` on the line is followed by the tag name, yields exactly that line: under the corrected pattern when every `>` in the attributes ends a `=>` arrow, under the source's pattern when the attributes hold no `>` at all |
| SourceMatcher.AsWrittenCaptureStopsEarly | app/utils/source-matcher.js:74-103 | with the source's pattern, the capture of `<div>` in `<div>`, `<div/>`, `x`, `</div>` stops at its second line |
| SourceMatcher.GuardedCaptureRunsOn | app/utils/source-matcher.js:74-103 | with the corrected pattern, the same capture runs to the closing `</div>` on the fourth line |
| SourceMatcher.AsWrittenCaptureRunsPastArrow | app/utils/source-matcher.js:74-103 | with the source's pattern, the capture of `<b onClick={() => go()} />` followed by the line `x` runs on to the second line |
| SourceMatcher.CorrectedCaptureKeepsArrowLine | app/utils/source-matcher.js:74-103 | with the corrected pattern, the same capture is the element's own line |
| SourceMatcher.LocateInLines | app/utils/source-matcher.js:23-104 | the result is `[]` exactly when no line is a candidate. Otherwise it is the capture from the first best candidate line |
| SourceMatcher.EmptySourceHasNoCandidate | app/utils/source-matcher.js:15 | the empty source has no candidate line, so it yields `[]` |
| SourceMatcher.FindLineInSource | app/utils/source-matcher.js:8-104 | the result is `[]` for an empty source and exactly when no line mentions the tag. Otherwise it starts at the first best-scoring candidate and is that element's capture under the source's patterns |
| SourceMatcher.FindLineInSourceGuarded | app/utils/source-matcher.js:8-104 | the same best line and result shape as `FindLineInSource`, with the capture under the corrected self-closing pattern |
| SourceMatcher.SourceCutsNestedBareDivShort | app/utils/source-matcher.js:8-104 | for the source `<div>\n<div/>\nx\n</div>` and the tag `div` alone, the locator returns `[1, 2]` |
| SourceMatcher.GuardedKeepsNestedBareDivWhole | app/utils/source-matcher.js:8-104 | with the corrected pattern, the same source and tag give `[1, 2, 3, 4]` |
| SourceMatcher.SourceRunsPastArrowLine | app/utils/source-matcher.js:8-104 | for the source `<b onClick={() => go()} />\nx` and the tag `b` alone, the locator returns `[1, 2]` |
| SourceMatcher.CorrectedKeepsArrowLineAlone | app/utils/source-matcher.js:8-104 | with the corrected pattern, the same source and tag give `[1]` |
| SourceMatcher.ArrowSource | app/utils/source-matcher.js:17 | the text `<b onClick={() => go()} />\nx` splits into those two lines |
| SourceMatcher.NestedBareDivSource | app/utils/source-matcher.js:17 | the text `<div>\n<div/>\nx\n</div>` splits into those four lines |
| CssMatcher.ExtractPureClassName | app/utils/css-matcher.js:7-17 | `None` for the empty token. A result is a non-empty suffix of the token, made only of `[A-Za-z0-9-]` and preceded by `__` |
| CssMatcher.OpensAtOrBeforeIff | app/utils/css-matcher.js:11 | the leftward search finds a `__` opening a hash run exactly when one exists |
| CssMatcher.ExtractPureClassNameIsPatternMatch | app/utils/css-matcher.js:11-16 | every match of `__[a-zA-Z0-9_-]+__([a-zA-Z0-9-]+)$` yields its group, and every result comes from such a match |
| CssMatcher.ExtractExample | app/utils/css-matcher.js:3-16 | `Playground-module__coBdPq__title` demangles to `title` |
| CssMatcher.ExtractNeedsTwoSeparators | app/utils/css-matcher.js:11-16 | `Card_card__ab12` demangles to nothing |
| CssMatcher.SelectorMatchesIff | app/utils/css-matcher.js:39-46 | a line starts a rule for a class name exactly when it is indentation, then `.name`, then the line's end or one of whitespace, `{`, `,`, `:`, `.` |
| CssMatcher.SelectorNeedsBoundary | app/utils/css-matcher.js:42-46 | a name character right after `.name` rules the line out, so `.btn` never selects `.btn-outline` |
| CssMatcher.StartsSelectorUnique | app/utils/css-matcher.js:42-46 | trimmed text starts selectors for at most one class name |
| CssMatcher.SelectorNameIsUnique | app/utils/css-matcher.js:39-46 | no line starts rules for two different class names |
| CssMatcher.SelectorExamples | app/utils/css-matcher.js:42-46 | `.btn-outline {` does not start a rule for `btn`, and `.btn:hover {` does |
| CssMatcher.CountChar | app/utils/css-matcher.js:62-63 | a brace count is at most the line's length, and positive exactly when the brace occurs |
| CssMatcher.CountCharIsMultiplicity | app/utils/css-matcher.js:62-63 | the brace count of a line is the number of occurrences of that brace |
| CssMatcher.RuleBlockEndsAt | app/utils/css-matcher.js:52-73 | a capture that stops at the first closing line covers exactly the lines from the selector through it |
| CssMatcher.OneLineRule | app/utils/css-matcher.js:48-73 | a rule opened and closed on its selector line contributes exactly that line |
| CssMatcher.CaptureRule | app/utils/css-matcher.js:48-73 | the capture adds exactly the lines of the rule block to the collected lines and keeps them duplicate-free |
| CssMatcher.TokenHoldsLineIff | app/utils/css-matcher.js:31-58 | a token highlights line `x` exactly when some line starts a rule for its demangled name and `x` lies in that rule |
| CssMatcher.HighlightedIff | app/utils/css-matcher.js:30-76 | a line is highlighted exactly when it lies in the rule block of a line that starts a rule for some token's demangled name |
| CssMatcher.HighlightedInRange | app/utils/css-matcher.js:52-58 | every highlighted number lies in [1, number of lines] |
| CssMatcher.SelectorLineIsHighlighted | app/utils/css-matcher.js:38-58 | every matching selector line is itself highlighted |
| CssMatcher.UndemangledTokenContributesNothing | app/utils/css-matcher.js:31-32 | a token the demangler rejects contributes no line, wherever it stands among the class tokens |
| CssMatcher.LocateRules | app/utils/css-matcher.js:24-80 | the result is strictly ascending and holds exactly the highlighted lines |
| CssMatcher.FindCssLineInSource | app/utils/css-matcher.js:19-81 | `[]` when either input is empty. Otherwise the result is strictly ascending (sorted, no duplicates) and holds exactly the lines of the rules the class string selects |
| Sorting.Sort | app/utils/css-matcher.js:80 | the result is sorted and a permutation of the input |
| Sorting.SortedUnique | app/utils/css-matcher.js:80 | two sorted permutations of the same values are equal, so any correct numeric sort gives the model's result |
| Sorting.SortStrict | app/utils/css-matcher.js:56-58 | sorting duplicate-free line numbers gives a strictly ascending sequence |

Predicates and helpers without a contract of their own are covered by the
lemmas above: `IsCandidate` by `CandidateIffTagNameAt`, `Count` and
`CountFrom` by `CountIsDistinctEnds`, `NetChange` by the net-change lemmas
(each names the self-closing pattern it uses), `FunctionBody` and `CleanBody`
by `FunctionBodyBetweenArrows` and `FunctionBodyWithoutArrow`, and
`StartsSelector` and `SelectorMatches` by `SelectorMatchesIff`.

## Left out

- Everything outside the two locators is not part of this model: fetching the
  source, the overlay UI, probing React fibers, and rewriting file paths.
- JavaScript's `\s` and `toLowerCase` are modelled on ASCII only. Unicode
  spaces and non-ASCII case mappings are not modelled.
- Strings are sequences of Unicode scalar values. A JavaScript string may also
  hold a lone surrogate, which has no counterpart here.
- The counting lemmas assume a tag name of ASCII letters and digits
  (`IsTagName`). The source interpolates the tag into its regular expressions
  unescaped, so a name with regular-expression metacharacters would change the
  patterns themselves. The capture and its contract do not need this
  assumption.
- Each pattern's regular expression is modelled directly, not through a
  general regular-expression engine.
- SourceMatcher.SelfClosingElementIsNeutral: covers a line with one element
  whose attributes hold no `>`. Attributes holding `=>` arrows are covered by
  `ArrowAttributeMiscounts`, `SelfClosingTagNeverOpens` and
  `SelfClosingLineIsWholeElement`.
- The corrected self-closing pattern reads past the `>` of a `=>` arrow only.
  A `>` inside a string literal or a JSX expression (`title="a > b"`,
  `{x > 1}`) still ends the attribute run early, as in the source, because
  telling those apart needs a parser for the attribute syntax.
- SourceMatcher.SingleSelfClosingCounts: covers an element whose attributes
  hold no `>`. With an arrow in the attributes the source's net change is +1
  (`ArrowAttributeCounts`), so "at most 0" is not promised there.
- SourceMatcher.UnguardedSelfCloseCounts: covers attributes without `>`. A
  longer name with an arrow attribute, such as `<divider onClick={() => go()} />`
  for `div`, matches none of the source's patterns and nets 0, not -1.
- SourceMatcher.LineScore: states only the bounds of a score. What the score
  means is stated by `Score`, `ScoreOrderIsLexicographic` and
  `AddingMatchingSignalsKeepsBest`.
- The JavaScript engine's sort algorithm is not modelled. An insertion sort
  stands in for it, and `SortedUnique` shows that every correct numeric sort
  returns the same sequence.
- Line numbers are unbounded integers. JavaScript numbers are doubles, which
  represent every line number of a real file exactly.

## Findings

| source | as written | input that shows it | evidently intended | confidence | as-written member | corrected member |
|---|---|---|---|---|---|---|
| app/utils/source-matcher.js:76 | the self-closing pattern `<${targetTag}[^>]*\/>` does not require a delimiter after the tag name. Any self-closing element whose attributes hold no `>` and whose name merely starts with the tag, or the bare form `<div/>`, is subtracted from the depth although the opening pattern `<tag[\s>]` never counted it | the source `<div>\n<div/>\nx\n</div>` with tag `div`: `<div/>` lowers the depth to zero, so the locator returns `[1, 2]` instead of `[1, 2, 3, 4]`; `<divider />` inside a `div` does the same | subtract only the self-closing elements the opening pattern counted: `<tag\s…\/>`, net change 0 for any self-closing element whose attributes hold no `>` other than `=>` arrows | high, not executed | SourceMatcher.SourceCutsNestedBareDivShort, SourceMatcher.AsWrittenCaptureStopsEarly, SourceMatcher.BareSelfClosingMiscounts, SourceMatcher.LongerNameSelfClosingMiscounts | SourceMatcher.GuardedKeepsNestedBareDivWhole, SourceMatcher.GuardedCaptureRunsOn, SourceMatcher.SelfClosingElementIsNeutral, SourceMatcher.FindLineInSourceGuarded |
| app/utils/source-matcher.js:76 | the attribute run `[^>]*` of the self-closing pattern stops at the first `>`, including the `>` of a `=>` arrow in an inline callback, so such an element does not match the pattern while the opening pattern still counts it | the source `<b onClick={() => go()} />\nx` with tag `b`: the first line raises the depth to 1 and nothing lowers it, so the locator returns `[1, 2]` instead of `[1]` | a single-line self-closing element with an inline arrow callback yields its own line: the attribute run `(?:=>\|[^>])*` reads past `=>` | medium, not executed | SourceMatcher.SourceRunsPastArrowLine, SourceMatcher.AsWrittenCaptureRunsPastArrow, SourceMatcher.ArrowAttributeMiscounts, SourceMatcher.ArrowAttributeCounts | SourceMatcher.CorrectedKeepsArrowLineAlone, SourceMatcher.CorrectedCaptureKeepsArrowLine, SourceMatcher.SelfClosingLineIsWholeElement, SourceMatcher.FindLineInSourceGuarded |
