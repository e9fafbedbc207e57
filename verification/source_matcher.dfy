/** The markup fragment locator of app/utils/source-matcher.js
    (`findLineInSource`): score every line that mentions `<tag` against the
    runtime signals, pick the first best-scoring line, then capture the
    element's lines by tracking the nesting depth of that tag. */
module SourceMatcher {

  import opened Wrappers
  import opened Text

  // ---------------------------------------------------------------------------
  // constants

  /** Score of a line that merely mentions the tag. */
  const BaseScore: nat := 1
  /** Bonus when the class string occurs in the context window. */
  const ClassWeight: nat := 2
  /** Bonus when the rendered text occurs in the context window. */
  const TextWeight: nat := 5
  /** Bonus when the callback body occurs in the context window. */
  const CallbackWeight: nat := 15
  /** The text signal counts only when longer than this many UTF-16 units. */
  const MinTextLength: nat := 2
  /** The callback signal counts only when longer than this many UTF-16 units. */
  const MinCallbackLength: nat := 5
  /** A context window holds the candidate line and at most five more. */
  const WindowSpan: nat := 6

  // ---------------------------------------------------------------------------
  // data model

  /** The runtime signals describing a hovered element. An absent optional
      signal is the empty string: the source treats `undefined`, `null` and
      `""` alike, since all three are falsy. */
  datatype Signals = Signals(tagName: string, className: string, textContent: string, propSignature: string)

  /** The signals as the scoring loop compares them: the tag lower-cased, the
      others normalized. */
  datatype Targets = Targets(tag: string, cls: string, text: string, prop: string)

  function TargetsOf(sig: Signals): (t: Targets)
    ensures |t.tag| == |sig.tagName| && forall i :: 0 <= i < |t.tag| ==> t.tag[i] == Lower(sig.tagName[i])
    ensures IsNormal(t.cls) && IsNormal(t.text) && IsNormal(t.prop)
    ensures NonWhitespace(t.cls) == NonWhitespace(sig.className)
    ensures NonWhitespace(t.text) == NonWhitespace(sig.textContent)
    ensures NonWhitespace(t.prop) == NonWhitespace(sig.propSignature)
  {
    NormalizeKeepsContent(sig.className);
    NormalizeKeepsContent(sig.textContent);
    NormalizeKeepsContent(sig.propSignature);
    Targets(LowerStr(sig.tagName), Normalize(sig.className), Normalize(sig.textContent), Normalize(sig.propSignature))
  }

  /** `sourceCode.split("\n")`. */
  function Lines(source: string): seq<string> {
    Split(source, '\n')
  }

  /** Tag names are assumed to be ASCII letters and digits, because the source
      interpolates the tag unescaped into its regular expressions. */
  predicate IsTagName(tag: string) {
    forall k :: 0 <= k < |tag| ==> IsAsciiAlnum(tag[k])
  }

  // ---------------------------------------------------------------------------
  // candidates and context windows

  /** A candidate line: its lower-cased form contains `<` followed by the tag. */
  predicate IsCandidate(line: string, tag: string) {
    Contains(LowerStr(line), ['<'] + tag)
  }

  predicate HasNoCandidate(lines: seq<string>, tag: string) {
    forall c :: 0 <= c < |lines| ==> !IsCandidate(lines[c], tag)
  }

  /** The test that ends a context window after appending a line:
      `includes("</" + tag) || includes("<")`. */
  predicate EndsWindow(line: string, tag: string) {
    Contains(line, ['<', '/'] + tag) || Contains(line, ['<'])
  }

  /** The closing-tag test is subsumed: a window ends exactly at a line with
      any `<` in it. */
  lemma EndsWindowIsAnyAngle(line: string, tag: string)
    ensures EndsWindow(line, tag) <==> '<' in line
  {
    ContainsChar(line, '<');
    if Contains(line, ['<', '/'] + tag) {
      var i :| 0 <= i <= |line| - |['<', '/'] + tag| && OccursAt(line, ['<', '/'] + tag, i);
      assert line[i] == line[i..i + 2 + |tag|][0];
    }
  }

  /** Scans the lines after candidate `i` from index `j` on. */
  function WindowEndFrom(lines: seq<string>, tag: string, i: nat, j: nat): (e: nat)
    requires i < j <= |lines| && j <= i + WindowSpan
    ensures j <= e <= |lines| && e <= i + WindowSpan
    ensures forall m :: j <= m < e - 1 ==> !EndsWindow(lines[m], tag)
    ensures e == i + WindowSpan || e == |lines| || (j < e && EndsWindow(lines[e - 1], tag))
    decreases i + WindowSpan - j
  {
    if j == i + WindowSpan || j == |lines| then j
    else if EndsWindow(lines[j], tag) then j + 1
    else WindowEndFrom(lines, tag, i, j + 1)
  }

  /** One past the last line of candidate `i`'s context window: the window
      takes at most five following lines and stops after the first of them
      that ends a window. */
  function WindowEnd(lines: seq<string>, tag: string, i: nat): (e: nat)
    requires i < |lines|
    ensures i < e <= |lines| && e <= i + WindowSpan
    ensures forall m :: i < m < e - 1 ==> !EndsWindow(lines[m], tag)
    ensures e == i + WindowSpan || e == |lines| || (i + 1 < e && EndsWindow(lines[e - 1], tag))
  {
    WindowEndFrom(lines, tag, i, i + 1)
  }

  /** The normalized context window of candidate `i`. */
  function Window(lines: seq<string>, tag: string, i: nat): (w: string)
    requires i < |lines|
    ensures IsNormal(w)
    ensures NonWhitespace(w) == NonWhitespace(Join(lines[i..WindowEnd(lines, tag, i)], ' '))
  {
    NormalizeKeepsContent(Join(lines[i..WindowEnd(lines, tag, i)], ' '));
    Normalize(Join(lines[i..WindowEnd(lines, tag, i)], ' '))
  }

  // ---------------------------------------------------------------------------
  // the callback signal

  /** The text before the first arrow of `rest`, or all of it. */
  function UpToArrow(rest: string): string {
    match IndexOfFrom(rest, "=>", 0)
    case None => rest
    case Some(k) => rest[..k]
  }

  /** `prop.includes("=>") ? prop.split("=>")[1].trim() : prop`: the text
      between the first arrow and the next one, trimmed. */
  function FunctionBody(prop: string): string {
    match IndexOfFrom(prop, "=>", 0)
    case None => prop
    case Some(k) => Trim(UpToArrow(prop[k + 2..]))
  }

  /** `s.replace(/}$/, "")`: one trailing closing brace removed. */
  function StripTrailingBrace(s: string): (r: string)
    ensures s == r || s == r + "}"
    ensures r == s <==> !EndsWithBrace(s)
  {
    if |s| > 0 && s[|s| - 1] == '}' then s[..|s| - 1] else s
  }

  predicate EndsWithBrace(s: string) {
    |s| > 0 && s[|s| - 1] == '}'
  }

  /** The callback body the scorer looks for in a window. */
  function CleanBody(prop: string): string {
    Trim(StripTrailingBrace(FunctionBody(prop)))
  }

  /** The callback text as `split("=>")[1]` sees it: for the first arrow at
      `k` and the next arrow (or the end of the text) at `m`, the function
      body is the text between them, trimmed; the cleaned body is that with
      one trailing `}` dropped, trimmed again. */
  lemma FunctionBodyBetweenArrows(prop: string, k: nat, m: nat)
    requires OccursAt(prop, "=>", k) && forall j :: 0 <= j < k ==> !OccursAt(prop, "=>", j)
    requires k + 2 <= m <= |prop| && (m == |prop| || OccursAt(prop, "=>", m))
    requires forall j :: k + 2 <= j < m ==> !OccursAt(prop, "=>", j)
    ensures FunctionBody(prop) == Trim(prop[k + 2..m])
    ensures var b := Trim(prop[k + 2..m]);
            CleanBody(prop) == if EndsWithBrace(b) then Trim(b[..|b| - 1]) else b
  {
    FirstOccurrence(prop, "=>", 0, k);
    UpToNextArrow(prop, k + 2, m);
    TrimFixed(Trim(prop[k + 2..m]));
  }

  /** The text after `lo` up to its first arrow ends at the next arrow at or
      after `lo`, or at the end of the text when there is none. */
  lemma UpToNextArrow(prop: string, lo: nat, m: nat)
    requires lo <= m <= |prop| && (m == |prop| || OccursAt(prop, "=>", m))
    requires forall j :: lo <= j < m ==> !OccursAt(prop, "=>", j)
    ensures UpToArrow(prop[lo..]) == prop[lo..m]
  {
    var rest := prop[lo..];
    if m == |prop| {
      match IndexOfFrom(rest, "=>", 0)
      case None =>
      case Some(i) =>
        OccursShift(prop, "=>", lo, i);
        assert false;
    } else {
      OccursShift(prop, "=>", lo, m - lo);
      forall j | 0 <= j < m - lo
        ensures !OccursAt(rest, "=>", j)
      {
        OccursShift(prop, "=>", lo, j);
      }
      FirstOccurrence(rest, "=>", 0, m - lo);
    }
  }

  /** Without an arrow the whole callback text is the body. */
  lemma FunctionBodyWithoutArrow(prop: string)
    requires !Contains(prop, "=>")
    ensures FunctionBody(prop) == prop
    ensures CleanBody(prop) == Trim(if EndsWithBrace(prop) then prop[..|prop| - 1] else prop)
  {
  }

  /** The first occurrence of `sub` at or after `from` is what
      `indexOf(sub, from)` finds. */
  lemma FirstOccurrence(s: string, sub: string, from: nat, k: nat)
    requires from <= k && OccursAt(s, sub, k)
    requires forall j :: from <= j < k ==> !OccursAt(s, sub, j)
    ensures IndexOfFrom(s, sub, from) == Some(k)
  {
  }

  /** Occurrences in a suffix are occurrences in the whole, shifted. */
  lemma OccursShift(s: string, sub: string, lo: nat, j: nat)
    requires lo <= |s|
    ensures OccursAt(s[lo..], sub, j) <==> OccursAt(s, sub, lo + j)
  {
    if j + |sub| <= |s| - lo {
      assert s[lo..][j..j + |sub|] == s[lo + j..lo + j + |sub|];
    }
  }

  /** The text before the first arrow is a prefix holding no arrow. */
  lemma UpToArrowShape(rest: string)
    ensures Contains(rest, UpToArrow(rest))
    ensures !Contains(UpToArrow(rest), "=>")
  {
    var seg := UpToArrow(rest);
    assert OccursAt(rest, seg, 0);
    if Contains(seg, "=>") {
      var m :| 0 <= m <= |seg| - 2 && OccursAt(seg, "=>", m);
      assert seg[m..m + 2] == rest[m..m + 2];
      assert OccursAt(rest, "=>", m);
    }
  }

  /** Trimming keeps a piece of the text and cannot create an arrow. */
  lemma TrimmedPiece(whole: string, piece: string)
    requires Contains(whole, piece)
    ensures Contains(whole, Trim(piece))
    ensures !Contains(piece, "=>") ==> !Contains(Trim(piece), "=>")
  {
    ContainsTrim(piece);
    ContainsTransitive(whole, piece, Trim(piece));
    if Contains(Trim(piece), "=>") {
      ContainsTransitive(piece, Trim(piece), "=>");
    }
  }

  /** The function body is a piece of the callback text, and it holds no
      arrow when the callback has one. */
  lemma FunctionBodyShape(prop: string)
    ensures Contains(prop, FunctionBody(prop))
    ensures Contains(prop, "=>") ==> !Contains(FunctionBody(prop), "=>")
  {
    match IndexOfFrom(prop, "=>", 0)
    case None =>
      assert OccursAt(prop, prop, 0);
    case Some(k) =>
      ArrowBodyShape(prop, k);
  }

  /** The trimmed text between the arrow at `k` and the next arrow is a piece
      of the callback text and holds no arrow. */
  lemma ArrowBodyShape(prop: string, k: nat)
    requires k + 2 <= |prop|
    ensures Contains(prop, Trim(UpToArrow(prop[k + 2..])))
    ensures !Contains(Trim(UpToArrow(prop[k + 2..])), "=>")
  {
    var rest := prop[k + 2..];
    var seg := UpToArrow(rest);
    UpToArrowShape(rest);
    ContainsSliceOf(prop, k + 2, |prop|);
    assert prop[k + 2..|prop|] == rest;
    ContainsTransitive(prop, rest, seg);
    TrimmedPiece(prop, seg);
  }

  /** The cleaned body is a trimmed piece of the callback text, and when the
      callback has an arrow the body holds no arrow. */
  lemma CleanBodyShape(prop: string)
    ensures Contains(prop, CleanBody(prop))
    ensures var b := CleanBody(prop); |b| > 0 ==> !IsWhitespace(b[0]) && !IsWhitespace(b[|b| - 1])
    ensures Contains(prop, "=>") ==> !Contains(CleanBody(prop), "=>")
  {
    var f := FunctionBody(prop);
    var st := StripTrailingBrace(f);
    FunctionBodyShape(prop);
    StripShape(f);
    ContainsTransitive(prop, f, st);
    TrimmedPiece(prop, st);
  }

  /** Dropping a trailing brace keeps a piece of the text and cannot create
      an arrow. */
  lemma StripShape(f: string)
    ensures Contains(f, StripTrailingBrace(f))
    ensures !Contains(f, "=>") ==> !Contains(StripTrailingBrace(f), "=>")
  {
    var st := StripTrailingBrace(f);
    assert OccursAt(f, st, 0);
    if Contains(st, "=>") {
      ContainsTransitive(f, st, "=>");
    }
  }

  // ---------------------------------------------------------------------------
  // scoring

  predicate ClassHit(t: Targets, w: string) {
    t.cls != [] && Contains(w, t.cls)
  }

  predicate TextHit(t: Targets, w: string) {
    Utf16Length(t.text) > MinTextLength && Contains(w, t.text)
  }

  predicate CallbackHit(t: Targets, w: string) {
    Utf16Length(t.prop) > MinCallbackLength && Contains(w, CleanBody(t.prop))
  }

  function Bonus(hit: bool, weight: nat): nat {
    if hit then weight else 0
  }

  /** A text signal of two characters beyond U+FFFF is four UTF-16 units
      long, so it passes the text threshold. */
  lemma AstralTextPassesThreshold()
    ensures |"\U{1F600}\U{1F600}"| == 2
    ensures Utf16Length("\U{1F600}\U{1F600}") > MinTextLength
  {
    assert IsAstral('\U{1F600}');
  }

  /** Which of the three signals matched a window. */
  datatype Hits = Hits(cls: bool, text: bool, callback: bool)

  function HitsOf(t: Targets, w: string): Hits {
    Hits(ClassHit(t, w), TextHit(t, w), CallbackHit(t, w))
  }

  /** The additive score of a window. The weights keep the hits apart: the
      score decodes back to exactly the signals that matched. */
  function Score(t: Targets, w: string): (s: nat)
    ensures BaseScore <= s <= BaseScore + ClassWeight + TextWeight + CallbackWeight
    ensures DecodeScore(s) == HitsOf(t, w)
  {
    DecodeInvertsHitsScore(HitsOf(t, w));
    HitsScore(HitsOf(t, w))
  }

  /** The base score plus the weight of every hit. */
  function HitsScore(h: Hits): (s: nat)
    ensures BaseScore <= s <= BaseScore + ClassWeight + TextWeight + CallbackWeight
  {
    BaseScore + Bonus(h.cls, ClassWeight) + Bonus(h.text, TextWeight) + Bonus(h.callback, CallbackWeight)
  }

  /** The hits read back from a score: the callback from its size, the text
      and the class from its remainders. */
  function DecodeScore(s: int): Hits {
    var d := s - BaseScore;
    Hits(d % CallbackWeight % TextWeight == ClassWeight, d % CallbackWeight >= TextWeight, d >= CallbackWeight)
  }

  lemma DecodeInvertsHitsScore(h: Hits)
    ensures DecodeScore(HitsScore(h)) == h
  {
  }

  /** Window `w1` beats `w2` lexicographically on (callback, text, class) hits. */
  predicate Outranks(t: Targets, w1: string, w2: string) {
    (CallbackHit(t, w1) && !CallbackHit(t, w2))
    || (CallbackHit(t, w1) == CallbackHit(t, w2)
        && ((TextHit(t, w1) && !TextHit(t, w2))
            || (TextHit(t, w1) == TextHit(t, w2) && ClassHit(t, w1) && !ClassHit(t, w2))))
  }

  /** The weights make the score order the lexicographic order of the hits:
      a callback match dominates a text match, which dominates a class match;
      and equal scores mean exactly the same signals matched. */
  lemma ScoreOrderIsLexicographic(t: Targets, w1: string, w2: string)
    ensures Score(t, w1) > Score(t, w2) <==> Outranks(t, w1, w2)
    ensures Score(t, w1) == Score(t, w2) <==>
              (ClassHit(t, w1) == ClassHit(t, w2) && TextHit(t, w1) == TextHit(t, w2)
               && CallbackHit(t, w1) == CallbackHit(t, w2))
  {
    HitsScoreOrder(HitsOf(t, w1), HitsOf(t, w2));
  }

  /** The score order on hits is the lexicographic order on (callback, text,
      class), and equal scores come from equal hits. */
  lemma HitsScoreOrder(h1: Hits, h2: Hits)
    ensures HitsScore(h1) > HitsScore(h2) <==>
              (h1.callback && !h2.callback)
              || (h1.callback == h2.callback
                  && ((h1.text && !h2.text) || (h1.text == h2.text && h1.cls && !h2.cls)))
    ensures HitsScore(h1) == HitsScore(h2) <==> h1 == h2
  {
  }

  /** The score of candidate line `i`. */
  function LineScore(lines: seq<string>, t: Targets, i: nat): (s: nat)
    requires i < |lines|
    ensures BaseScore <= s <= BaseScore + ClassWeight + TextWeight + CallbackWeight
  {
    Score(t, Window(lines, t.tag, i))
  }

  /** Which lines are candidates. */
  function CandidateFlags(lines: seq<string>, tag: string): (f: seq<bool>)
    ensures |f| == |lines|
  {
    seq(|lines|, c requires 0 <= c < |lines| => IsCandidate(lines[c], tag))
  }

  /** The score of every line's window (meaningful for candidates only). */
  function Scores(lines: seq<string>, t: Targets): (s: seq<nat>)
    ensures |s| == |lines|
  {
    seq(|lines|, c requires 0 <= c < |lines| => LineScore(lines, t, c))
  }

  /** `b` is the first flagged index attaining the maximum score among the
      flagged indices. */
  predicate IsFirstMax(flags: seq<bool>, scores: seq<nat>, b: int) {
    |flags| == |scores| && 0 <= b < |flags| && flags[b]
    && (forall c :: 0 <= c < |flags| && flags[c] ==> scores[c] <= scores[b])
    && (forall c :: 0 <= c < b && flags[c] ==> scores[c] < scores[b])
  }

  /** `b` is the first candidate line attaining the maximum score. */
  predicate IsFirstBest(lines: seq<string>, t: Targets, b: int) {
    IsFirstMax(CandidateFlags(lines, t.tag), Scores(lines, t), b)
  }

  /** The selection loop of the scoring pass, over each line's candidate flag
      and score: returns the 1-based number of the first flagged line with the
      greatest score, or -1 when nothing is flagged. The best line changes
      only on a strictly greater score and the running maximum starts at 0,
      so ties keep the earlier line. */
  method SelectBest(flags: seq<bool>, scores: seq<nat>) returns (bestMatchLine: int)
    requires |flags| == |scores|
    requires forall c :: 0 <= c < |scores| ==> scores[c] >= BaseScore
    ensures bestMatchLine == -1 <==> forall c :: 0 <= c < |flags| ==> !flags[c]
    ensures bestMatchLine != -1 ==> IsFirstMax(flags, scores, bestMatchLine - 1)
  {
    bestMatchLine := -1;
    var maxScore := 0;
    var i := 0;
    while i < |flags|
      invariant 0 <= i <= |flags|
      invariant bestMatchLine == -1 || 1 <= bestMatchLine <= i
      invariant bestMatchLine == -1 <==> maxScore == 0
      invariant bestMatchLine == -1 <==> forall c :: 0 <= c < i ==> !flags[c]
      invariant bestMatchLine != -1 ==> flags[bestMatchLine - 1] && maxScore == scores[bestMatchLine - 1]
      invariant forall c :: 0 <= c < i && flags[c] ==> scores[c] <= maxScore
      invariant forall c :: 0 <= c < bestMatchLine - 1 && flags[c] ==> scores[c] < maxScore
    {
      if flags[i] {
        var score := scores[i];
        if score > maxScore {
          maxScore := score;
          bestMatchLine := i + 1;
        }
      }
      i := i + 1;
    }
  }

  /** The scoring pass: every candidate line is scored on its window, and the
      first best-scoring one is chosen (1-based), or -1 when no line is a
      candidate. */
  method FindBestLine(lines: seq<string>, t: Targets) returns (bestMatchLine: int)
    ensures bestMatchLine == -1 <==> HasNoCandidate(lines, t.tag)
    ensures bestMatchLine != -1 ==> IsFirstBest(lines, t, bestMatchLine - 1)
  {
    var flags := CandidateFlags(lines, t.tag);
    var scores := Scores(lines, t);
    bestMatchLine := SelectBest(flags, scores);
    forall c | 0 <= c < |lines|
      ensures flags[c] == IsCandidate(lines[c], t.tag)
    {
    }
  }

  /** `t2` adds signals to `t1`: same tag, and every signal of `t1` is either
      absent (empty) or kept unchanged. */
  predicate AddsSignals(t1: Targets, t2: Targets) {
    t2.tag == t1.tag
    && (t1.cls == [] || t1.cls == t2.cls)
    && (t1.text == [] || t1.text == t2.text)
    && (t1.prop == [] || t1.prop == t2.prop)
  }

  /** Every signal added in `t2` matches window `w`. */
  predicate AddedSignalsMatch(t1: Targets, t2: Targets, w: string) {
    (t1.cls == t2.cls || ClassHit(t2, w))
    && (t1.text == t2.text || TextHit(t2, w))
    && (t1.prop == t2.prop || CallbackHit(t2, w))
  }

  /** Adding signals never gains a window more than the added signals gain a
      window they all match. */
  lemma AddedSignalGain(t1: Targets, t2: Targets, wb: string, wc: string)
    requires AddsSignals(t1, t2) && AddedSignalsMatch(t1, t2, wb)
    ensures Score(t2, wc) - Score(t1, wc) <= Score(t2, wb) - Score(t1, wb)
  {
  }

  /** The first maximum survives a change of scores that raises no index
      more than it raises the maximum itself. */
  lemma FirstMaxKeptUnderGain(flags: seq<bool>, s1: seq<nat>, s2: seq<nat>, b: int)
    requires IsFirstMax(flags, s1, b) && |s2| == |s1|
    requires forall c :: 0 <= c < |s1| ==> s2[c] as int - s1[c] as int <= s2[b] as int - s1[b] as int
    ensures IsFirstMax(flags, s2, b)
  {
  }

  lemma LineGain(lines: seq<string>, t1: Targets, t2: Targets, b: nat, c: nat)
    requires b < |lines| && c < |lines|
    requires AddsSignals(t1, t2) && AddedSignalsMatch(t1, t2, Window(lines, t1.tag, b))
    ensures LineScore(lines, t2, c) - LineScore(lines, t1, c) <= LineScore(lines, t2, b) - LineScore(lines, t1, b)
  {
    AddedSignalGain(t1, t2, Window(lines, t1.tag, b), Window(lines, t1.tag, c));
  }

  /** Monotone scoring: adding signals that the chosen line matches keeps it
      the first best line. */
  lemma AddingMatchingSignalsKeepsBest(lines: seq<string>, t1: Targets, t2: Targets, b: int)
    requires AddsSignals(t1, t2)
    requires IsFirstBest(lines, t1, b)
    requires AddedSignalsMatch(t1, t2, Window(lines, t1.tag, b))
    ensures IsFirstBest(lines, t2, b)
  {
    var s1, s2 := Scores(lines, t1), Scores(lines, t2);
    forall c | 0 <= c < |lines|
      ensures s2[c] as int - s1[c] as int <= s2[b] as int - s1[b] as int
    {
      LineGain(lines, t1, t2, b, c);
    }
    assert CandidateFlags(lines, t2.tag) == CandidateFlags(lines, t1.tag);
    FirstMaxKeptUnderGain(CandidateFlags(lines, t1.tag), s1, s2, b);
  }

  // ---------------------------------------------------------------------------
  // counting tag occurrences on one line

  /** The patterns the capture loop counts per line, all case-insensitive:
      - Opening: `<tag[\s>]`
      - Closing: `<\/tag>`
      - SelfClosingAsWritten: `<tag[^>]*\/>`, the source's self-closing
        pattern
      - SelfClosing: `<tag\s(?:=>|[^>])*\/>`, the corrected self-closing
        pattern: it only subtracts what Opening counted, and it reads past the
        `>` of a `=>` arrow inside the attributes (see Findings) */
  datatype TagPattern = Opening | Closing | SelfClosing | SelfClosingAsWritten

  /** The self-closing pattern a capture subtracts. */
  type SelfClosePattern = pat: TagPattern | pat.SelfClosing? || pat.SelfClosingAsWritten?
    witness SelfClosingAsWritten

  /** `s[p..]` begins with the tag name, compared case-insensitively. */
  predicate TagNameAt(s: string, tag: string, p: int) {
    0 <= p && p + |tag| <= |s| && LowerStr(s[p..p + |tag|]) == tag
  }

  /** The characters a tag name matches are alphanumeric, so none of them is
      `<`, `/` or `>`. */
  lemma TagNameIsAlnum(s: string, tag: string, i: int)
    requires IsTagName(tag) && TagNameAt(s, tag, i)
    ensures forall m :: i <= m < i + |tag| ==> IsAsciiAlnum(s[m])
  {
    forall m | i <= m < i + |tag|
      ensures IsAsciiAlnum(s[m])
    {
      assert LowerStr(s[i..i + |tag|])[m - i] == Lower(s[m]);
    }
  }

  /** The candidate test `line.toLowerCase().includes("<" + tag)` holds
      exactly where some `<` is followed by the tag name, which is where the
      capture patterns can start. */
  lemma CandidateIffTagNameAt(line: string, tag: string)
    ensures IsCandidate(line, tag) <==> exists p :: 0 <= p < |line| && line[p] == '<' && TagNameAt(line, tag, p + 1)
  {
    if IsCandidate(line, tag) {
      var p :| 0 <= p <= |line| - |tag| - 1 && OccursAt(LowerStr(line), ['<'] + tag, p);
      CandidateAt(line, tag, p);
    }
    if p :| 0 <= p < |line| && line[p] == '<' && TagNameAt(line, tag, p + 1) {
      CandidateAt(line, tag, p);
    }
  }

  /** `"<" + tag` occurs in the lower-cased line at `p` exactly when the line
      has `<` there followed by the tag name in any case. */
  lemma CandidateAt(line: string, tag: string, p: nat)
    ensures OccursAt(LowerStr(line), ['<'] + tag, p) <==> p < |line| && line[p] == '<' && TagNameAt(line, tag, p + 1)
  {
    var low := LowerStr(line);
    if p + 1 + |tag| <= |line| {
      AngleThenName(low, tag, p);
      LowerSlice(line, p + 1, p + 1 + |tag|);
      LowerAngle(line[p]);
    }
  }

  /** `"<" + tag` occurs at `p` exactly when `<` is there and `tag` follows. */
  lemma AngleThenName(s: string, tag: string, p: nat)
    requires p + 1 + |tag| <= |s|
    ensures OccursAt(s, ['<'] + tag, p) <==> s[p] == '<' && s[p + 1..p + 1 + |tag|] == tag
  {
    var w := s[p..p + 1 + |tag|];
    assert w == [s[p]] + s[p + 1..p + 1 + |tag|];
    if w == ['<'] + tag {
      assert w[1..] == tag;
    }
  }

  lemma LowerAngle(c: char)
    ensures Lower(c) == '<' <==> c == '<'
  {
  }

  /** Lower-casing commutes with slicing. */
  lemma LowerSlice(s: string, lo: int, hi: int)
    requires 0 <= lo <= hi <= |s|
    ensures LowerStr(s)[lo..hi] == LowerStr(s[lo..hi])
  {
  }

  /** Where a match of `pat` that starts at `p` ends (exclusively), if there
      is one. The source's self-closing pattern extends to the first `>` after
      the tag name, the corrected one to the first `>` there that does not end
      a `=>`; either must be preceded by `/`. */
  function MatchEnd(pat: TagPattern, s: string, tag: string, p: nat): (e: Option<nat>)
    ensures e.Some? ==> p < e.value <= |s| && s[p] == '<'
  {
    if p >= |s| || s[p] != '<' then None
    else
      match pat
      case Opening =>
        var k := p + 1 + |tag|;
        if k < |s| && TagNameAt(s, tag, p + 1) && (IsWhitespace(s[k]) || s[k] == '>') then Some(k + 1) else None
      case Closing =>
        var k := p + 2 + |tag|;
        if k < |s| && s[p + 1] == '/' && TagNameAt(s, tag, p + 2) && s[k] == '>' then Some(k + 1) else None
      case SelfClosing =>
        var k := p + 1 + |tag|;
        if k < |s| && TagNameAt(s, tag, p + 1) && IsWhitespace(s[k]) then ArrowSelfClosingEnd(s, k + 1) else None
      case SelfClosingAsWritten =>
        var k := p + 1 + |tag|;
        if k <= |s| && TagNameAt(s, tag, p + 1) then SelfClosingEnd(s, k) else None
  }

  /** `[^>]*\/>` from `k`: the first `>` at or after `k`, preceded by a `/`
      that is itself at or after `k`. */
  function SelfClosingEnd(s: string, k: nat): (e: Option<nat>)
    ensures e.Some? ==> k + 1 < e.value <= |s| && s[e.value - 2] == '/' && s[e.value - 1] == '>'
  {
    match IndexOfFrom(s, ">", k)
    case None => None
    case Some(q) =>
      OccursAtChar(s, '>', q);
      if q > k && s[q - 1] == '/' then Some(q + 1) else None
  }

  /** `s[m]` is a `>` that `(?:=>|[^>])*` started at `k` cannot consume: it
      does not end a `=>` lying wholly at or after `k`. */
  predicate IsBareAngle(s: string, k: nat, m: nat) {
    m < |s| && s[m] == '>' && !(k < m && s[m - 1] == '=')
  }

  /** The first bare `>` (for a group started at `k`) at or after `m`. */
  function FirstBareAngle(s: string, k: nat, m: nat): (r: Option<nat>)
    ensures r.Some? ==> m <= r.value < |s| && IsBareAngle(s, k, r.value)
    ensures r.Some? ==> forall i :: m <= i < r.value ==> !IsBareAngle(s, k, i)
    ensures r.None? ==> forall i :: m <= i < |s| ==> !IsBareAngle(s, k, i)
    decreases |s| - m
  {
    if m >= |s| then None
    else if IsBareAngle(s, k, m) then Some(m)
    else FirstBareAngle(s, k, m + 1)
  }

  /** A bare `>` with none before it from `m` is the one the scan finds. */
  lemma FirstBareAngleIs(s: string, k: nat, m: nat, g: nat)
    requires m <= g && IsBareAngle(s, k, g)
    requires forall i :: m <= i < g ==> !IsBareAngle(s, k, i)
    ensures FirstBareAngle(s, k, m) == Some(g)
  {
  }

  /** `(?:=>|[^>])*\/>` from `k`: the group can consume everything before the
      first bare `>` and nothing from it on, so a match ends just after that
      `>` when a `/` at or after `k` precedes it. */
  function ArrowSelfClosingEnd(s: string, k: nat): (e: Option<nat>)
    ensures e.Some? ==> k + 1 < e.value <= |s| && s[e.value - 2] == '/' && s[e.value - 1] == '>'
    ensures e.Some? ==> forall i :: k <= i < e.value - 1 ==> !IsBareAngle(s, k, i)
  {
    match FirstBareAngle(s, k, k)
    case None => None
    case Some(g) => if g > k && s[g - 1] == '/' then Some(g + 1) else None
  }

  /** The first `>` at or after `k` is also the first one at or after any
      later start that does not pass it. */
  lemma FirstAngleFrom(s: string, k: nat, k2: nat)
    requires IndexOfFrom(s, ">", k).Some? && k <= k2 <= IndexOfFrom(s, ">", k).value
    ensures IndexOfFrom(s, ">", k2) == IndexOfFrom(s, ">", k)
  {
    assert OccursAt(s, ">", IndexOfFrom(s, ">", k).value);
  }

  /** The number of matches `line.match(regex)` returns for a global regex:
      try at `p`; after a match continue at its end, otherwise at `p + 1`. */
  function CountFrom(pat: TagPattern, s: string, tag: string, p: nat): nat
    decreases |s| - p
  {
    if p >= |s| then 0
    else
      match MatchEnd(pat, s, tag, p)
      case Some(e) => 1 + CountFrom(pat, s, tag, e)
      case None => CountFrom(pat, s, tag, p + 1)
  }

  function Count(pat: TagPattern, line: string, tag: string): nat {
    CountFrom(pat, line, tag, 0)
  }

  /** The depth change of one line, as the capture loop computes it: openings
      minus self-closes minus closings, where `selfClose` is the self-closing
      pattern subtracted (`SelfClosingAsWritten` in the source). */
  function NetChange(selfClose: SelfClosePattern, line: string, tag: string): int {
    Count(Opening, line, tag) - Count(selfClose, line, tag) - Count(Closing, line, tag)
  }

  /** The ends of the matches of `pat` that start at or after `from`. */
  ghost function MatchEndsFrom(pat: TagPattern, s: string, tag: string, from: nat): set<nat> {
    set q: nat, e: nat | from <= q < |s| && e <= |s| && MatchEnd(pat, s, tag, q) == Some(e) :: e
  }

  /** A match that starts inside another match of the same pattern ends where
      that one ends: the opening and closing patterns hold no `<` after their
      first character, and the self-closing patterns run to the first `>`
      after the tag name that they cannot consume. */
  lemma InnerMatchSharesEnd(pat: TagPattern, s: string, tag: string, p: nat, q: nat)
    requires IsTagName(tag)
    requires MatchEnd(pat, s, tag, p).Some? && p < q < MatchEnd(pat, s, tag, p).value
    ensures MatchEnd(pat, s, tag, q).None? || MatchEnd(pat, s, tag, q) == MatchEnd(pat, s, tag, p)
  {
    if pat.Opening? || pat.Closing? {
      BracketHasNoInnerAngle(pat, s, tag, p, q);
    } else if pat.SelfClosing? {
      ArrowSelfCloseInnerMatch(s, tag, p, q);
    } else {
      SelfCloseInnerMatch(s, tag, p, q);
    }
  }

  /** Inside an opening or closing match no other `<` appears. */
  lemma BracketHasNoInnerAngle(pat: TagPattern, s: string, tag: string, p: nat, q: nat)
    requires IsTagName(tag) && (pat.Opening? || pat.Closing?)
    requires MatchEnd(pat, s, tag, p).Some? && p < q < MatchEnd(pat, s, tag, p).value
    ensures s[q] != '<'
  {
    var n := if pat.Opening? then p + 1 else p + 2;
    TagNameIsAlnum(s, tag, n);
    if n <= q < n + |tag| {
      assert IsAsciiAlnum(s[q]);
    }
  }

  /** A match of the source's self-closing pattern ends just after the first
      `>` that follows the tag name. */
  lemma SelfCloseEndsAtFirstAngle(s: string, tag: string, p: nat)
    requires MatchEnd(SelfClosingAsWritten, s, tag, p).Some?
    ensures TagNameAt(s, tag, p + 1) && IndexOfFrom(s, ">", p + 1 + |tag|).Some?
    ensures MatchEnd(SelfClosingAsWritten, s, tag, p) == Some(IndexOfFrom(s, ">", p + 1 + |tag|).value + 1)
  {
  }

  /** A tag name that starts after position `k` but before the first `>`
      from `k` ends before that `>`, which is then also the first `>` after
      the name. */
  lemma NameBeforeFirstAngle(s: string, tag: string, k: nat, q: nat)
    requires IsTagName(tag) && IndexOfFrom(s, ">", k).Some?
    requires k <= q < IndexOfFrom(s, ">", k).value && TagNameAt(s, tag, q + 1)
    ensures IndexOfFrom(s, ">", q + 1 + |tag|) == IndexOfFrom(s, ">", k)
  {
    var g := IndexOfFrom(s, ">", k).value;
    OccursAtChar(s, '>', g);
    TagNameIsAlnum(s, tag, q + 1);
    FirstAngleFrom(s, k, q + 1 + |tag|);
  }

  /** A match of the source's self-closing pattern that starts inside another
      one ends at the same `>`: its own tag name cannot contain that `>`. */
  lemma SelfCloseInnerMatch(s: string, tag: string, p: nat, q: nat)
    requires IsTagName(tag)
    requires MatchEnd(SelfClosingAsWritten, s, tag, p).Some? && p < q < MatchEnd(SelfClosingAsWritten, s, tag, p).value
    ensures MatchEnd(SelfClosingAsWritten, s, tag, q).None?
            || MatchEnd(SelfClosingAsWritten, s, tag, q) == MatchEnd(SelfClosingAsWritten, s, tag, p)
  {
    SelfCloseEndsAtFirstAngle(s, tag, p);
    if MatchEnd(SelfClosingAsWritten, s, tag, q).Some? {
      SelfCloseEndsAtFirstAngle(s, tag, q);
      InnerNameSharesAngle(s, tag, p, q);
    }
  }

  /** Two tag names starting at `p + 1` and at `q + 1`, with `q` at most the
      first `>` after the first name, are followed by the same first `>`. */
  lemma InnerNameSharesAngle(s: string, tag: string, p: nat, q: nat)
    requires IsTagName(tag) && TagNameAt(s, tag, p + 1) && TagNameAt(s, tag, q + 1)
    requires IndexOfFrom(s, ">", p + 1 + |tag|).Some? && p < q <= IndexOfFrom(s, ">", p + 1 + |tag|).value
    requires q < |s| && s[q] == '<'
    ensures IndexOfFrom(s, ">", q + 1 + |tag|) == IndexOfFrom(s, ">", p + 1 + |tag|)
  {
    var k := p + 1 + |tag|;
    TagNameIsAlnum(s, tag, p + 1);
    var g := IndexOfFrom(s, ">", k).value;
    OccursAtChar(s, '>', g);
    assert q != g;
    NameBeforeFirstAngle(s, tag, k, q);
  }

  /** A match of the corrected self-closing pattern that starts inside
      another one ends at the same `>`: the inner `<`, tag name and
      whitespace hold no `>`, and from there on the same `>` is the first
      bare one. */
  lemma ArrowSelfCloseInnerMatch(s: string, tag: string, p: nat, q: nat)
    requires IsTagName(tag)
    requires MatchEnd(SelfClosing, s, tag, p).Some? && p < q < MatchEnd(SelfClosing, s, tag, p).value
    ensures MatchEnd(SelfClosing, s, tag, q).None? || MatchEnd(SelfClosing, s, tag, q) == MatchEnd(SelfClosing, s, tag, p)
  {
    if MatchEnd(SelfClosing, s, tag, q).Some? {
      ArrowMatchShape(s, tag, p);
      ArrowMatchShape(s, tag, q);
      var k := p + 2 + |tag|;
      InnerNameSharesBareAngle(s, tag, p, q, FirstBareAngle(s, k, k).value);
    }
  }

  /** Two tag names starting at `p + 1` and at `q + 1`, with `q` at most the
      first bare `>` after the first name and its whitespace, are followed by
      the same first bare `>`. */
  lemma InnerNameSharesBareAngle(s: string, tag: string, p: nat, q: nat, g: nat)
    requires IsTagName(tag) && TagNameAt(s, tag, p + 1) && TagNameAt(s, tag, q + 1)
    requires p < q <= g && FirstBareAngle(s, p + 2 + |tag|, p + 2 + |tag|) == Some(g)
    requires p + 1 + |tag| < |s| && IsWhitespace(s[p + 1 + |tag|]) && q < |s| && s[q] == '<'
    requires q + 1 + |tag| < |s| && IsWhitespace(s[q + 1 + |tag|])
    ensures FirstBareAngle(s, q + 2 + |tag|, q + 2 + |tag|) == Some(g)
  {
    var k := p + 2 + |tag|;
    var kq := q + 2 + |tag|;
    TagNameIsAlnum(s, tag, p + 1);
    TagNameIsAlnum(s, tag, q + 1);
    assert k <= q;
    assert kq <= g;
    forall i | kq <= i < g
      ensures !IsBareAngle(s, kq, i)
    {
      assert !IsBareAngle(s, k, i);
    }
    FirstBareAngleIs(s, kq, kq, g);
  }

  /** A match of the corrected self-closing pattern at `p`: the tag name,
      whitespace, and an end just after the first bare `>`, which a `/`
      precedes. */
  lemma ArrowMatchShape(s: string, tag: string, p: nat)
    requires MatchEnd(SelfClosing, s, tag, p).Some?
    ensures TagNameAt(s, tag, p + 1) && p + 1 + |tag| < |s| && IsWhitespace(s[p + 1 + |tag|])
    ensures var k := p + 2 + |tag|;
            FirstBareAngle(s, k, k).Some? && k < FirstBareAngle(s, k, k).value
            && MatchEnd(SelfClosing, s, tag, p) == Some(FirstBareAngle(s, k, k).value + 1)
  {
  }

  lemma {:induction false} CountFromIsDistinctEnds(pat: TagPattern, s: string, tag: string, p: nat)
    requires IsTagName(tag) && p <= |s|
    ensures CountFrom(pat, s, tag, p) == |MatchEndsFrom(pat, s, tag, p)|
    decreases |s| - p
  {
    if p == |s| {
      assert MatchEndsFrom(pat, s, tag, p) == {};
    } else if MatchEnd(pat, s, tag, p).None? {
      CountFromIsDistinctEnds(pat, s, tag, p + 1);
      EndsSkipNoMatch(pat, s, tag, p);
    } else {
      var e := MatchEnd(pat, s, tag, p).value;
      CountFromIsDistinctEnds(pat, s, tag, e);
      EndsAfterMatch(pat, s, tag, p);
    }
  }

  lemma EndsSkipNoMatch(pat: TagPattern, s: string, tag: string, p: nat)
    requires p < |s| && MatchEnd(pat, s, tag, p).None?
    ensures MatchEndsFrom(pat, s, tag, p) == MatchEndsFrom(pat, s, tag, p + 1)
  {
  }

  /** After a match ending at `e`, the ends from `p` are `e` itself and,
      disjointly, the ends from `e`. */
  lemma EndsAfterMatch(pat: TagPattern, s: string, tag: string, p: nat)
    requires IsTagName(tag) && MatchEnd(pat, s, tag, p).Some?
    ensures var e := MatchEnd(pat, s, tag, p).value;
            e !in MatchEndsFrom(pat, s, tag, e)
            && MatchEndsFrom(pat, s, tag, p) == {e} + MatchEndsFrom(pat, s, tag, e)
  {
    var e := MatchEnd(pat, s, tag, p).value;
    EndsAreAfterStart(pat, s, tag, e);
    EndsFromMatchCovered(pat, s, tag, p);
    EndsFromLater(pat, s, tag, p, e);
    assert e in MatchEndsFrom(pat, s, tag, p);
  }

  /** Every match end from `from` lies after `from`. */
  lemma EndsAreAfterStart(pat: TagPattern, s: string, tag: string, from: nat)
    ensures forall x :: x in MatchEndsFrom(pat, s, tag, from) ==> from < x
  {
    forall x | x in MatchEndsFrom(pat, s, tag, from)
      ensures from < x
    {
      var q: nat :| from <= q < |s| && MatchEnd(pat, s, tag, q) == Some(x);
    }
  }

  /** The ends from a later start are among the ends from an earlier one. */
  lemma EndsFromLater(pat: TagPattern, s: string, tag: string, p: nat, e: nat)
    requires p <= e
    ensures MatchEndsFrom(pat, s, tag, e) <= MatchEndsFrom(pat, s, tag, p)
  {
  }

  /** After a match from `p` ending at `e`, every end from `p` is `e` or an
      end from `e`. */
  lemma EndsFromMatchCovered(pat: TagPattern, s: string, tag: string, p: nat)
    requires IsTagName(tag) && MatchEnd(pat, s, tag, p).Some?
    ensures var e := MatchEnd(pat, s, tag, p).value;
            forall x :: x in MatchEndsFrom(pat, s, tag, p) ==> x == e || x in MatchEndsFrom(pat, s, tag, e)
  {
    var e := MatchEnd(pat, s, tag, p).value;
    forall x | x in MatchEndsFrom(pat, s, tag, p)
      ensures x == e || x in MatchEndsFrom(pat, s, tag, e)
    {
      var q: nat :| p <= q < |s| && MatchEnd(pat, s, tag, q) == Some(x);
      if p < q < e {
        InnerMatchSharesEnd(pat, s, tag, p, q);
      }
    }
  }

  /** The global match count of any of the patterns is the number of distinct
      positions at which one of its matches ends. */
  lemma CountIsDistinctEnds(pat: TagPattern, s: string, tag: string)
    requires IsTagName(tag)
    ensures Count(pat, s, tag) == |MatchEndsFrom(pat, s, tag, 0)|
  {
    CountFromIsDistinctEnds(pat, s, tag, 0);
  }

  /** A pattern that matches nowhere on a line counts zero. */
  lemma CountWithoutMatch(pat: TagPattern, s: string, tag: string)
    requires IsTagName(tag)
    requires forall q: nat :: q < |s| ==> MatchEnd(pat, s, tag, q).None?
    ensures Count(pat, s, tag) == 0
  {
    CountIsDistinctEnds(pat, s, tag);
    assert MatchEndsFrom(pat, s, tag, 0) == {};
  }

  /** A pattern that matches at `p` counts at least once, and exactly once
      when it matches nowhere else. */
  lemma CountWithMatch(pat: TagPattern, s: string, tag: string, p: nat)
    requires IsTagName(tag) && MatchEnd(pat, s, tag, p).Some?
    ensures Count(pat, s, tag) >= 1
    ensures (forall q: nat :: q < |s| && q != p ==> MatchEnd(pat, s, tag, q).None?) ==> Count(pat, s, tag) == 1
  {
    CountIsDistinctEnds(pat, s, tag);
    var e := MatchEnd(pat, s, tag, p).value;
    assert e in MatchEndsFrom(pat, s, tag, 0);
    if forall q: nat :: q < |s| && q != p ==> MatchEnd(pat, s, tag, q).None? {
      assert MatchEndsFrom(pat, s, tag, 0) == {e};
    }
  }

  /** A stretch without `<` holds no match of any pattern. */
  lemma {:induction false} SkipNoAngle(pat: TagPattern, s: string, tag: string, p: nat, q: nat)
    requires p <= q <= |s|
    requires forall k :: p <= k < q ==> s[k] != '<'
    ensures CountFrom(pat, s, tag, p) == CountFrom(pat, s, tag, q)
    decreases q - p
  {
    if p < q {
      SkipNoAngle(pat, s, tag, p + 1, q);
    }
  }

  lemma NoAngleNoMatch(pat: TagPattern, s: string, tag: string, p: nat)
    requires p <= |s|
    requires forall k :: p <= k < |s| ==> s[k] != '<'
    ensures CountFrom(pat, s, tag, p) == 0
  {
    SkipNoAngle(pat, s, tag, p, |s|);
  }

  /** A line whose only `<` is at `p` counts one match of a pattern exactly
      when that pattern matches at `p`. */
  lemma CountSingleAngle(pat: TagPattern, s: string, tag: string, p: nat)
    requires p < |s| && s[p] == '<'
    requires forall k :: 0 <= k < |s| && k != p ==> s[k] != '<'
    ensures Count(pat, s, tag) == if MatchEnd(pat, s, tag, p).Some? then 1 else 0
  {
    SkipNoAngle(pat, s, tag, 0, p);
    match MatchEnd(pat, s, tag, p)
    case Some(e) =>
      NoAngleNoMatch(pat, s, tag, e);
    case None =>
      NoAngleNoMatch(pat, s, tag, p + 1);
  }

  /** The positions of `pre + "<" + name + gap + "/>" + post`. */
  lemma ElementLayout(pre: string, name: string, gap: string, post: string)
    ensures var s := pre + "<" + name + gap + "/>" + post;
            var p := |pre|;
            var k := p + 1 + |name|;
            var g := k + |gap| + 1;
            g < |s| && s[p] == '<' && s[g - 1] == '/' && s[g] == '>'
            && s[p + 1..k] == name
            && (forall m :: 0 <= m < p ==> s[m] == pre[m])
            && (forall m :: k <= m < g - 1 ==> s[m] == gap[m - k])
            && (forall m :: g < m < |s| ==> s[m] == post[m - g - 1])
  {
    var s := pre + "<" + name + gap + "/>" + post;
    assert s == pre + (['<'] + name + gap + ['/', '>'] + post);
  }

  /** The facts about the characters of `pre + "<" + name + gap + "/>" + post`
      that the single-`<` counting lemmas use. */
  lemma SelfClosingLayout(pre: string, name: string, gap: string, post: string)
    requires '<' !in pre && '<' !in gap && '>' !in gap && '<' !in post
    requires forall k :: 0 <= k < |name| ==> IsAsciiAlnum(name[k])
    ensures var s := pre + "<" + name + gap + "/>" + post;
            var p := |pre|;
            var g := p + 1 + |name| + |gap| + 1;
            g < |s| && s[p] == '<' && s[g] == '>' && s[g - 1] == '/'
            && (forall k :: 0 <= k < |s| && k != p ==> s[k] != '<')
            && (forall k :: p < k < g ==> s[k] != '>')
            && (forall k :: p < k < p + 1 + |name| ==> IsAsciiAlnum(s[k]) && s[k] == name[k - p - 1])
            && (forall k :: p + 1 + |name| <= k < g - 1 ==> s[k] == gap[k - p - 1 - |name|])
  {
    var s := pre + "<" + name + gap + "/>" + post;
    var p := |pre|;
    var g := p + 1 + |name| + |gap| + 1;
    assert s == pre + (['<'] + name + gap + ['/', '>'] + post);
    forall k | 0 <= k < |s| && k != p
      ensures s[k] != '<'
    {
      if k < p {
        assert s[k] == pre[k];
      } else if k < p + 1 + |name| {
        assert s[k] == name[k - p - 1];
      } else if k < g - 1 {
        assert s[k] == gap[k - p - 1 - |name|];
      } else if k > g {
        assert s[k] == post[k - g - 1];
      }
    }
    forall k | p + 1 + |name| <= k < g - 1
      ensures s[k] == gap[k - p - 1 - |name|]
    {
    }
  }

  /** Counting on a line whose only `<` is at `p` and whose first `>` after
      it, at `g`, closes a `/>`: the opening and the guarded self-closing
      pattern match together or not at all, and the source's self-closing
      pattern matches whenever the opening does. */
  lemma SingleSelfClosingCounts(s: string, p: nat, g: nat, tag: string)
    requires IsTagName(tag)
    requires p + 1 < g < |s| && s[p] == '<' && s[p + 1] != '/'
    requires forall k :: 0 <= k < |s| && k != p ==> s[k] != '<'
    requires s[g] == '>' && s[g - 1] == '/'
    requires forall k :: p < k < g ==> s[k] != '>'
    ensures NetChange(SelfClosing, s, tag) == 0
    ensures NetChange(SelfClosingAsWritten, s, tag) <= 0
  {
    CountSingleAngle(Opening, s, tag, p);
    CountSingleAngle(SelfClosing, s, tag, p);
    CountSingleAngle(SelfClosingAsWritten, s, tag, p);
    CountSingleAngle(Closing, s, tag, p);
    if TagNameAt(s, tag, p + 1) {
      SelfClosingMatchesAt(s, p, g, tag);
    }
  }

  /** Where the first `>` after a `<tag` at `p` closes a `/>`, both
      self-closing patterns end there, the corrected one only when the name
      is followed by whitespace. */
  lemma SelfClosingMatchesAt(s: string, p: nat, g: nat, tag: string)
    requires IsTagName(tag) && TagNameAt(s, tag, p + 1)
    requires p + 1 < g < |s| && s[p] == '<'
    requires s[g] == '>' && s[g - 1] == '/'
    requires forall k :: p < k < g ==> s[k] != '>'
    ensures MatchEnd(SelfClosingAsWritten, s, tag, p) == Some(g + 1)
    ensures MatchEnd(SelfClosing, s, tag, p) == if IsWhitespace(s[p + 1 + |tag|]) then Some(g + 1) else None
  {
    var k := p + 1 + |tag|;
    // the tag name cannot cover the `/`, which is not alphanumeric
    TagNameIsAlnum(s, tag, p + 1);
    LowerSlash();
    assert k < g;
    FirstAngleIsFound(s, k, g);
    if IsWhitespace(s[k]) {
      FirstBareAngleIs(s, k + 1, k + 1, g);
    }
  }

  lemma LowerSlash()
    ensures Lower('/') == '/' && !IsAsciiAlnum('/')
  {
  }

  /** The guarded count: one self-closing element contributes net zero to
      the depth of every tag, whatever its name. The source's count
      contributes zero or less. */
  lemma SelfClosingElementIsNeutral(pre: string, name: string, gap: string, post: string, tag: string)
    requires IsTagName(tag)
    requires |name| > 0 && forall k :: 0 <= k < |name| ==> IsAsciiAlnum(name[k])
    requires '<' !in pre && '<' !in gap && '>' !in gap && '<' !in post
    ensures NetChange(SelfClosing, pre + "<" + name + gap + "/>" + post, tag) == 0
    ensures NetChange(SelfClosingAsWritten, pre + "<" + name + gap + "/>" + post, tag) <= 0
  {
    var p := |pre|;
    SelfClosingLayout(pre, name, gap, post);
    SingleSelfClosingCounts(pre + "<" + name + gap + "/>" + post, p, p + 1 + |name| + |gap| + 1, tag);
  }

  /** The source's count on a line whose only `<` is at `p`, where the tag
      name is followed by neither whitespace nor `>`, and whose first `>`
      closes a `/>` after the name: the unguarded self-closing pattern
      matches although the opening pattern does not. */
  lemma UnguardedSelfCloseCounts(s: string, p: nat, g: nat, tag: string)
    requires TagNameAt(s, tag, p + 1) && p + 1 + |tag| <= g - 1
    requires g < |s| && s[p] == '<'
    requires !IsWhitespace(s[p + 1 + |tag|]) && s[p + 1] != '/'
    requires forall k :: 0 <= k < |s| && k != p ==> s[k] != '<'
    requires s[g] == '>' && s[g - 1] == '/'
    requires forall k :: p < k < g ==> s[k] != '>'
    ensures NetChange(SelfClosingAsWritten, s, tag) == -1
    ensures NetChange(SelfClosing, s, tag) == 0
  {
    var k := p + 1 + |tag|;
    CountSingleAngle(Opening, s, tag, p);
    CountSingleAngle(SelfClosing, s, tag, p);
    CountSingleAngle(SelfClosingAsWritten, s, tag, p);
    CountSingleAngle(Closing, s, tag, p);
    var q := IndexOfFrom(s, ">", k);
    OccursAtChar(s, '>', g);
    OccursAtChar(s, '>', q.value);
    assert q.value == g;
  }

  /** `<divider />` lowers the depth of a `div` block by one in the source,
      without ever having raised it; the guarded count leaves it alone. */
  lemma LongerNameSelfClosingMiscounts()
    ensures NetChange(SelfClosingAsWritten, "<divider />", "div") == -1
    ensures NetChange(SelfClosing, "<divider />", "div") == 0
  {
    var a := "<divider />";
    assert a[1..4] == [a[1], a[2], a[3]] == "div";
    assert LowerStr("div") == "div";
    UnguardedSelfCloseCounts(a, 0, 10, "div");
  }

  /** Likewise `<div/>`: the source counts it as a self-close of `div` but not
      as an opening. */
  lemma BareSelfClosingMiscounts()
    ensures NetChange(SelfClosingAsWritten, "<div/>", "div") == -1
    ensures NetChange(SelfClosing, "<div/>", "div") == 0
  {
    BareDivCounts("<div/>");
  }

  /** The counts of `<div/>`, for a line not written as a literal. */
  lemma BareDivCounts(b: string)
    requires b == "<div/>"
    ensures NetChange(SelfClosingAsWritten, b, "div") == -1
    ensures NetChange(SelfClosing, b, "div") == 0
  {
    assert b[1..4] == [b[1], b[2], b[3]] == "div";
    assert LowerStr("div") == "div";
    UnguardedSelfCloseCounts(b, 0, 5, "div");
  }

  /** Counting on a line whose only `<` is at `p` and opens a self-closing
      element, with whitespace after the tag name, whose attributes hold one
      `>`, at `a`, ending a `=>` arrow: the source's self-closing pattern
      stops at that `>` and fails, so the element counts as an opening; the
      corrected pattern reads past it to the `/>` at `g`. */
  lemma ArrowAttributeCounts(s: string, p: nat, a: nat, g: nat, tag: string)
    requires IsTagName(tag) && TagNameAt(s, tag, p + 1)
    requires p + 2 + |tag| < a < g < |s|
    requires s[p] == '<' && forall m :: 0 <= m < |s| && m != p ==> s[m] != '<'
    requires IsWhitespace(s[p + 1 + |tag|])
    requires s[a] == '>' && s[a - 1] == '=' && s[g] == '>' && s[g - 1] == '/'
    requires forall m :: p < m < g && m != a ==> s[m] != '>'
    ensures NetChange(SelfClosingAsWritten, s, tag) == 1
    ensures NetChange(SelfClosing, s, tag) == 0
  {
    var k := p + 1 + |tag|;
    CountSingleAngle(Opening, s, tag, p);
    CountSingleAngle(SelfClosing, s, tag, p);
    CountSingleAngle(SelfClosingAsWritten, s, tag, p);
    CountSingleAngle(Closing, s, tag, p);
    TagNameIsAlnum(s, tag, p + 1);
    LowerSlash();
    FirstAngleIsFound(s, k, a);
    var k1 := k + 1;
    forall i | k1 <= i < g
      ensures !IsBareAngle(s, k1, i)
    {
    }
    FirstBareAngleIs(s, k1, k1, g);
  }

  /** The positions of `pre + "<" + name + u + ">" + v + "/>" + post`. */
  lemma ArrowLayout(pre: string, name: string, u: string, v: string, post: string)
    ensures var s := pre + "<" + name + u + ">" + v + "/>" + post;
            var p := |pre|;
            var k := p + 1 + |name|;
            var a := k + |u|;
            var g := a + |v| + 2;
            g < |s| && s[p] == '<' && s[a] == '>' && s[g - 1] == '/' && s[g] == '>'
            && s[p + 1..k] == name
            && (forall m :: 0 <= m < p ==> s[m] == pre[m])
            && (forall m :: k <= m < a ==> s[m] == u[m - k])
            && (forall m :: a < m < g - 1 ==> s[m] == v[m - a - 1])
            && (forall m :: g < m < |s| ==> s[m] == post[m - g - 1])
  {
    var s := pre + "<" + name + u + ">" + v + "/>" + post;
    assert s == pre + (['<'] + name + u + ['>'] + v + ['/', '>'] + post);
  }

  /** A self-closing element whose attributes hold one `=>` arrow, as in
      `<b onClick={() => go()} />`, on a line with no other `<`: the source
      counts it as an opening that nothing closes, the corrected pattern as
      neutral. */
  lemma ArrowAttributeMiscounts(pre: string, name: string, u: string, v: string, post: string, tag: string)
    requires IsTagName(tag) && LowerStr(name) == tag
    requires |u| > 0 && IsWhitespace(u[0]) && u[|u| - 1] == '='
    requires '<' !in pre && '<' !in u && '<' !in v && '<' !in post
    requires '>' !in u && '>' !in v
    ensures NetChange(SelfClosingAsWritten, pre + "<" + name + u + ">" + v + "/>" + post, tag) == 1
    ensures NetChange(SelfClosing, pre + "<" + name + u + ">" + v + "/>" + post, tag) == 0
  {
    var s := pre + "<" + name + u + ">" + v + "/>" + post;
    var p := |pre|;
    var k := p + 1 + |name|;
    var a := k + |u|;
    var g := a + |v| + 2;
    ArrowLayout(pre, name, u, v, post);
    assert TagNameAt(s, tag, p + 1);
    TagNameIsAlnum(s, tag, p + 1);
    forall m | 0 <= m < |s| && m != p
      ensures s[m] != '<' && (p < m < g && m != a ==> s[m] != '>')
    {
      if m < p {
        assert s[m] == pre[m];
      } else if m < k {
      } else if m < a {
        assert s[m] == u[m - k];
      } else if a < m < g - 1 {
        assert s[m] == v[m - a - 1];
      } else if m > g {
        assert s[m] == post[m - g - 1];
      }
    }
    assert s[a - 1] == u[|u| - 1];
    ArrowAttributeCounts(s, p, a, g, tag);
  }

  /** `s[g]` is the first `>` after position `p`, and it ends a `/>`. */
  predicate FirstAngleClosesSlash(s: string, p: nat, g: int) {
    p < g < |s| && s[g] == '>' && s[g - 1] == '/' && forall m :: p < m < g ==> s[m] != '>'
  }

  /** A `<` followed by a longer name that starts with the tag (`<buttonGroup`
      for `button`) starts no opening, closing or guarded self-closing match,
      on any line. The source's self-closing pattern does match there, exactly
      when the first `>` after the `<` closes a `/>` that follows the name. */
  lemma LongerTagNameIsIgnored(s: string, p: nat, tag: string)
    requires IsTagName(tag)
    requires p + 1 + |tag| < |s| && s[p] == '<' && TagNameAt(s, tag, p + 1)
    requires IsAsciiAlnum(s[p + 1 + |tag|])
    ensures MatchEnd(Opening, s, tag, p).None?
    ensures MatchEnd(Closing, s, tag, p).None?
    ensures MatchEnd(SelfClosing, s, tag, p).None?
    ensures MatchEnd(SelfClosingAsWritten, s, tag, p).Some? <==>
              exists g :: p + 1 + |tag| < g && FirstAngleClosesSlash(s, p, g)
  {
    LongerNameMatchesAsWritten(s, p, tag);
  }

  /** The source's self-closing pattern at a longer name: it matches exactly
      when the first `>` after the `<` closes a `/>` that follows the name. */
  lemma LongerNameMatchesAsWritten(s: string, p: nat, tag: string)
    requires IsTagName(tag)
    requires p + 1 + |tag| < |s| && s[p] == '<' && TagNameAt(s, tag, p + 1)
    ensures MatchEnd(SelfClosingAsWritten, s, tag, p).Some? <==>
              exists g :: p + 1 + |tag| < g && FirstAngleClosesSlash(s, p, g)
  {
    var k := p + 1 + |tag|;
    TagNameIsAlnum(s, tag, p + 1);
    var found := IndexOfFrom(s, ">", k);
    if MatchEnd(SelfClosingAsWritten, s, tag, p).Some? {
      var g := found.value;
      OccursAtChar(s, '>', g);
      forall m | p < m < g
        ensures s[m] != '>'
      {
        if m >= k {
          OccursAtChar(s, '>', m);
        }
      }
      assert FirstAngleClosesSlash(s, p, g);
    }
    if g :| k < g && FirstAngleClosesSlash(s, p, g) {
      FirstAngleIsFound(s, k, g);
    }
  }

  /** The first `>` after `k - 1` is what `indexOf(">", k)` finds. */
  lemma FirstAngleIsFound(s: string, k: nat, g: nat)
    requires k <= g < |s| && s[g] == '>' && forall m :: k <= m < g ==> s[m] != '>'
    ensures IndexOfFrom(s, ">", k) == Some(g)
  {
    OccursAtChar(s, '>', g);
    var found := IndexOfFrom(s, ">", k);
    if found.Some? {
      OccursAtChar(s, '>', found.value);
    }
  }

  // ---------------------------------------------------------------------------
  // block capture

  /** Cumulative depth from line `start` through line `j` (0-based), with
      `selfClose` the self-closing pattern subtracted. */
  function Depth(lines: seq<string>, tag: string, selfClose: SelfClosePattern, start: nat, j: nat): int
    requires start <= j < |lines|
    decreases j - start
  {
    if j == start then NetChange(selfClose, lines[start], tag)
    else Depth(lines, tag, selfClose, start, j - 1) + NetChange(selfClose, lines[j], tag)
  }

  /** The 1-based line `x` belongs to the element captured from line `start`:
      no line scanned before it brought the depth to zero or below. */
  ghost predicate InElement(lines: seq<string>, tag: string, selfClose: SelfClosePattern, start: int, x: int) {
    0 <= start && start + 1 <= x <= |lines|
    && forall m :: start <= m < x - 1 ==> Depth(lines, tag, selfClose, start, m) > 0
  }

  /** `r` is the capture from `start`: the ascending run of 1-based line
      numbers from `start + 1` to the first line after which the depth is at
      most zero, or to the end of the file. */
  ghost predicate IsElementCapture(lines: seq<string>, tag: string, selfClose: SelfClosePattern, start: int, r: seq<int>) {
    0 <= start < |lines| && 1 <= |r| && start + |r| <= |lines|
    && (forall k :: 0 <= k < |r| ==> r[k] == start + 1 + k)
    && (forall x :: x in r <==> InElement(lines, tag, selfClose, start, x))
  }

  /** A run that stops at line `end` where the depth first drops to zero or
      below (or at the last line) is the capture. */
  lemma ElementEnds(lines: seq<string>, tag: string, selfClose: SelfClosePattern, start: nat, end: nat, r: seq<int>)
    requires start <= end < |lines|
    requires |r| == end - start + 1 && forall k :: 0 <= k < |r| ==> r[k] == start + 1 + k
    requires forall m :: start <= m < end ==> Depth(lines, tag, selfClose, start, m) > 0
    requires end == |lines| - 1 || Depth(lines, tag, selfClose, start, end) <= 0
    ensures IsElementCapture(lines, tag, selfClose, start, r)
  {
    forall x
      ensures x in r <==> InElement(lines, tag, selfClose, start, x)
    {
      if start + 1 <= x <= end + 1 {
        assert r[x - start - 1] == x;
      }
    }
  }

  /** The capture loop: from the best line, accumulate opens minus
      self-closes minus closes per line and stop after the first line that
      leaves the depth at zero or below, or at the end of the file. The
      source subtracts `SelfClosingAsWritten`. */
  method CaptureElement(lines: seq<string>, tag: string, selfClose: SelfClosePattern, startLineIndex: nat)
    returns (matchedLines: seq<int>)
    requires startLineIndex < |lines|
    ensures IsElementCapture(lines, tag, selfClose, startLineIndex, matchedLines)
  {
    matchedLines := [];
    var depth := 0;
    var hasStarted := false;
    var i := startLineIndex;
    while i < |lines|
      invariant startLineIndex <= i <= |lines|
      invariant hasStarted <==> i > startLineIndex
      invariant i == startLineIndex ==> depth == 0
      invariant |matchedLines| == i - startLineIndex
      invariant forall k :: 0 <= k < |matchedLines| ==> matchedLines[k] == startLineIndex + 1 + k
      invariant i > startLineIndex ==> depth == Depth(lines, tag, selfClose, startLineIndex, i - 1)
      invariant forall m :: startLineIndex <= m < i ==> Depth(lines, tag, selfClose, startLineIndex, m) > 0
      decreases |lines| - i
    {
      var line := lines[i];
      matchedLines := matchedLines + [i + 1];
      var openCount: int := Count(Opening, line, tag);
      var closeCount: int := Count(Closing, line, tag);
      var selfCloseCount: int := Count(selfClose, line, tag);
      var netChange := openCount - selfCloseCount - closeCount;
      if i == startLineIndex {
        depth := depth + netChange;
        hasStarted := true;
      } else {
        depth := depth + netChange;
      }
      DepthStep(lines, tag, selfClose, startLineIndex, i);
      if hasStarted && depth <= 0 {
        ElementEnds(lines, tag, selfClose, startLineIndex, i, matchedLines);
        return;
      }
      PositiveDepthExtends(lines, tag, selfClose, startLineIndex, i);
      i := i + 1;
    }
    ElementEnds(lines, tag, selfClose, startLineIndex, |lines| - 1, matchedLines);
  }

  lemma DepthStep(lines: seq<string>, tag: string, selfClose: SelfClosePattern, start: nat, i: nat)
    requires start <= i < |lines|
    ensures Depth(lines, tag, selfClose, start, i)
            == (if i == start then 0 else Depth(lines, tag, selfClose, start, i - 1)) + NetChange(selfClose, lines[i], tag)
  {
  }

  /** The depth stays positive through line `i` when it did before `i` and
      does after it. */
  lemma PositiveDepthExtends(lines: seq<string>, tag: string, selfClose: SelfClosePattern, start: nat, i: nat)
    requires start <= i < |lines|
    requires forall m :: start <= m < i ==> Depth(lines, tag, selfClose, start, m) > 0
    requires Depth(lines, tag, selfClose, start, i) > 0
    ensures forall m :: start <= m < i + 1 ==> Depth(lines, tag, selfClose, start, m) > 0
  {
  }

  /** The capture from a line is determined by the lines: two runs that both
      satisfy it are equal. */
  lemma CaptureIsUnique(lines: seq<string>, tag: string, selfClose: SelfClosePattern, start: nat,
                        r1: seq<int>, r2: seq<int>)
    requires IsElementCapture(lines, tag, selfClose, start, r1)
    requires IsElementCapture(lines, tag, selfClose, start, r2)
    ensures r1 == r2
  {
    assert r1[|r1| - 1] == start + |r1|;
    assert r2[|r2| - 1] == start + |r2|;
    assert start + |r1| in r2 && start + |r2| in r1;
  }

  /** Conversely, the capture stops at the first line after which the depth
      is at most zero. */
  lemma CaptureStopsAtFirstDrop(lines: seq<string>, tag: string, selfClose: SelfClosePattern, start: nat, end: nat,
                                r: seq<int>)
    requires IsElementCapture(lines, tag, selfClose, start, r)
    requires start <= end < |lines|
    requires forall m :: start <= m < end ==> Depth(lines, tag, selfClose, start, m) > 0
    requires Depth(lines, tag, selfClose, start, end) <= 0
    ensures |r| == end - start + 1
  {
    var x := end + 1;
    assert InElement(lines, tag, selfClose, start, x);
    assert x in r;
    var i :| 0 <= i < |r| && r[i] == x;
    assert end - start < |r|;
    var last := r[|r| - 1];
    assert last == start + |r| && last in r;
    assert InElement(lines, tag, selfClose, start, last);
  }

  /** A capture whose depth stays positive runs to the last line. */
  lemma CaptureRunsToEnd(lines: seq<string>, tag: string, selfClose: SelfClosePattern, start: nat, r: seq<int>)
    requires IsElementCapture(lines, tag, selfClose, start, r)
    requires forall m :: start <= m < |lines| - 1 ==> Depth(lines, tag, selfClose, start, m) > 0
    ensures |r| == |lines| - start
  {
    assert InElement(lines, tag, selfClose, start, |lines|);
    assert r[|r| - 1] == start + |r|;
  }

  /** Every `>` in `s` ends a `=>` arrow, as in `onClick={() => go()}`. */
  predicate ArrowsOnly(s: string) {
    forall i :: 0 <= i < |s| && s[i] == '>' ==> 0 < i && s[i - 1] == '='
  }

  /** A line holding one self-closing `<tag … />`, with no other `<` on it
      followed by the tag name, never raises the depth: under the corrected
      pattern when every `>` in the attributes ends a `=>` arrow, under the
      source's pattern when the attributes hold no `>` at all. */
  lemma SelfClosingTagNeverOpens(pre: string, name: string, gap: string, post: string, tag: string,
                                 selfClose: SelfClosePattern)
    requires IsTagName(tag) && LowerStr(name) == tag
    requires gap == [] || IsWhitespace(gap[0])
    requires ArrowsOnly(gap) && (selfClose.SelfClosingAsWritten? ==> '>' !in gap)
    requires forall q :: 0 <= q < |pre + "<" + name + gap + "/>" + post| && q != |pre|
                         && (pre + "<" + name + gap + "/>" + post)[q] == '<'
                         ==> !TagNameAt(pre + "<" + name + gap + "/>" + post, tag, q + 1)
    ensures NetChange(selfClose, pre + "<" + name + gap + "/>" + post, tag) <= 0
  {
    var s := pre + "<" + name + gap + "/>" + post;
    var p := |pre|;
    var k := p + 1 + |name|;
    var g := k + |gap| + 1;
    ElementLayout(pre, name, gap, post);
    assert TagNameAt(s, tag, p + 1);
    forall q: nat | q < |s| && q != p
      ensures MatchEnd(Opening, s, tag, q).None?
    {
    }
    if MatchEnd(Opening, s, tag, p).Some? {
      // the opening pattern needs whitespace after the name, so the gap
      // starts with it and the element also matches the self-closing pattern
      assert |gap| > 0 && IsWhitespace(s[k]);
      if selfClose.SelfClosingAsWritten? {
        forall m | k <= m < g
          ensures !OccursAt(s, ">", m)
        {
          OccursAtChar(s, '>', m);
        }
        OccursAtChar(s, '>', g);
        assert IndexOfFrom(s, ">", k) == Some(g);
      } else {
        var k1 := k + 1;
        forall m | k1 <= m < g
          ensures !IsBareAngle(s, k1, m)
        {
          if m < g - 1 && s[m] == '>' {
            assert gap[m - k] == '>';
            assert s[m - 1] == gap[m - k - 1];
          }
        }
        FirstBareAngleIs(s, k1, k1, g);
      }
      CountWithMatch(Opening, s, tag, p);
      CountWithMatch(selfClose, s, tag, p);
    } else {
      CountWithoutMatch(Opening, s, tag);
    }
  }

  /** A best line holding one self-closing `<tag … />` and no other `<`
      followed by the tag name yields a one-line range: under the corrected
      pattern when every `>` in the attributes ends a `=>` arrow, under the
      source's pattern when the attributes hold no `>` at all. */
  lemma SelfClosingLineIsWholeElement(lines: seq<string>, tag: string, selfClose: SelfClosePattern, start: int,
                                      r: seq<int>, pre: string, name: string, gap: string, post: string)
    requires IsElementCapture(lines, tag, selfClose, start, r)
    requires IsTagName(tag) && LowerStr(name) == tag
    requires lines[start] == pre + "<" + name + gap + "/>" + post
    requires gap == [] || IsWhitespace(gap[0])
    requires ArrowsOnly(gap) && (selfClose.SelfClosingAsWritten? ==> '>' !in gap)
    requires forall q :: 0 <= q < |lines[start]| && q != |pre| && lines[start][q] == '<' ==> !TagNameAt(lines[start], tag, q + 1)
    ensures r == [start + 1]
  {
    SelfClosingTagNeverOpens(pre, name, gap, post, tag, selfClose);
    assert Depth(lines, tag, selfClose, start, start) <= 0;
    // the last captured line lies in the element, so no line before it
    // could have left the depth at zero
    assert r[|r| - 1] == start + |r|;
    assert InElement(lines, tag, selfClose, start, start + |r|);
  }

  /** The lines of the source text `<div>\n<div/>\nx\n</div>`. */
  const NestedBareDiv: seq<string> := ["<div>", "<div/>", "x", "</div>"]

  /** The counts of `<div>`: it opens one `div` under either pattern. */
  lemma OpenDivCounts(s: string)
    requires s == "<div>"
    ensures NetChange(SelfClosingAsWritten, s, "div") == 1
    ensures NetChange(SelfClosing, s, "div") == 1
  {
    assert s[1..4] == [s[1], s[2], s[3]] == "div";
    assert LowerStr("div") == "div";
    OccursAtChar(s, '>', 4);
    assert IndexOfFrom(s, ">", 4) == Some(4);
    CountSingleAngle(Opening, s, "div", 0);
    CountSingleAngle(Closing, s, "div", 0);
    CountSingleAngle(SelfClosing, s, "div", 0);
    CountSingleAngle(SelfClosingAsWritten, s, "div", 0);
  }

  /** A first line that opens one element and a second that closes it give
      a two-line capture. */
  lemma CaptureClosedOnSecondLine(lines: seq<string>, tag: string, selfClose: SelfClosePattern)
    requires |lines| >= 2
    requires NetChange(selfClose, lines[0], tag) == 1 && NetChange(selfClose, lines[1], tag) == -1
    ensures IsElementCapture(lines, tag, selfClose, 0, [1, 2])
  {
    DepthStep(lines, tag, selfClose, 0, 1);
    ElementEnds(lines, tag, selfClose, 0, 1, [1, 2]);
  }

  /** Four lines whose first opens an element and whose next two leave the
      depth alone are captured whole. */
  lemma CaptureOpenToLastLine(lines: seq<string>, tag: string, selfClose: SelfClosePattern)
    requires |lines| == 4
    requires NetChange(selfClose, lines[0], tag) == 1
    requires NetChange(selfClose, lines[1], tag) == 0 && NetChange(selfClose, lines[2], tag) == 0
    ensures IsElementCapture(lines, tag, selfClose, 0, [1, 2, 3, 4])
  {
    DepthStep(lines, tag, selfClose, 0, 1);
    DepthStep(lines, tag, selfClose, 0, 2);
    ElementEnds(lines, tag, selfClose, 0, 3, [1, 2, 3, 4]);
  }

  /** The source's capture of the outer `div` is its first two lines: the
      unguarded pattern subtracts the nested `<div/>` although it was never
      counted as an opening. */
  lemma AsWrittenCaptureStopsEarly()
    ensures IsElementCapture(NestedBareDiv, "div", SelfClosingAsWritten, 0, [1, 2])
  {
    NestedBareDivNets(NestedBareDiv);
    CaptureClosedOnSecondLine(NestedBareDiv, "div", SelfClosingAsWritten);
  }

  /** The guarded capture of the same element runs on to its `</div>`. */
  lemma GuardedCaptureRunsOn()
    ensures IsElementCapture(NestedBareDiv, "div", SelfClosing, 0, [1, 2, 3, 4])
  {
    NestedBareDivNets(NestedBareDiv);
    CaptureOpenToLastLine(NestedBareDiv, "div", SelfClosing);
  }

  /** The counts of the nested-`div` lines, line by line. */
  lemma NestedBareDivNets(lines: seq<string>)
    requires lines == NestedBareDiv
    ensures NetChange(SelfClosingAsWritten, lines[0], "div") == 1
    ensures NetChange(SelfClosingAsWritten, lines[1], "div") == -1
    ensures NetChange(SelfClosing, lines[0], "div") == 1
    ensures NetChange(SelfClosing, lines[1], "div") == 0
    ensures NetChange(SelfClosing, lines[2], "div") == 0
  {
    assert lines[0] == "<div>" && lines[1] == "<div/>" && lines[2] == "x";
    OpenDivCounts(lines[0]);
    BareDivCounts(lines[1]);
    PlainLineIsNeutral(lines[2], "div");
  }

  /** A self-closing element with an arrow callback, followed by one more
      line: the lines of `<b onClick={() => go()} />\nx`. */
  const ArrowLines: seq<string> := ["<b onClick={() => go()} />", "x"]

  /** The per-line counts for `b` on those two lines. */
  lemma ArrowLinesCounts()
    ensures NetChange(SelfClosingAsWritten, ArrowLines[0], "b") == 1
    ensures NetChange(SelfClosing, ArrowLines[0], "b") == 0
    ensures NetChange(SelfClosingAsWritten, ArrowLines[1], "b") == 0
    ensures NetChange(SelfClosing, ArrowLines[1], "b") == 0
  {
    ArrowLineParts();
    assert LowerStr("b") == "b";
    ArrowAttributeMiscounts("", "b", " onClick={() =", " go()} ", "", "b");
    PlainLineIsNeutral("x", "b");
  }

  lemma ArrowLineParts()
    ensures ArrowLines[0] == "" + "<" + "b" + " onClick={() =" + ">" + " go()} " + "/>" + ""
  {
  }

  /** A line without `<` leaves the depth of every tag alone. */
  lemma PlainLineIsNeutral(line: string, tag: string)
    requires '<' !in line
    ensures NetChange(SelfClosingAsWritten, line, tag) == 0 && NetChange(SelfClosing, line, tag) == 0
  {
    NoAngleNoMatch(Opening, line, tag, 0);
    NoAngleNoMatch(Closing, line, tag, 0);
    NoAngleNoMatch(SelfClosing, line, tag, 0);
    NoAngleNoMatch(SelfClosingAsWritten, line, tag, 0);
  }

  /** A first line that opens an element nothing after it closes, in a
      two-line text, gives a capture of both lines. */
  lemma CaptureOpenOfTwoLines(lines: seq<string>, tag: string, selfClose: SelfClosePattern)
    requires |lines| == 2 && NetChange(selfClose, lines[0], tag) > 0
    ensures IsElementCapture(lines, tag, selfClose, 0, [1, 2])
  {
    ElementEnds(lines, tag, selfClose, 0, 1, [1, 2]);
  }

  /** A first line that leaves the depth at zero or below is captured alone. */
  lemma CaptureOneLine(lines: seq<string>, tag: string, selfClose: SelfClosePattern)
    requires |lines| > 0 && NetChange(selfClose, lines[0], tag) <= 0
    ensures IsElementCapture(lines, tag, selfClose, 0, [1])
  {
    ElementEnds(lines, tag, selfClose, 0, 0, [1]);
  }

  /** The source's capture from the self-closing `b` runs on past it to the
      end of the file. */
  lemma AsWrittenCaptureRunsPastArrow()
    ensures IsElementCapture(ArrowLines, "b", SelfClosingAsWritten, 0, [1, 2])
  {
    ArrowLinesCounts();
    CaptureOpenOfTwoLines(ArrowLines, "b", SelfClosingAsWritten);
  }

  /** The corrected capture is the element's own line. */
  lemma CorrectedCaptureKeepsArrowLine()
    ensures IsElementCapture(ArrowLines, "b", SelfClosing, 0, [1])
  {
    ArrowLinesCounts();
    CaptureOneLine(ArrowLines, "b", SelfClosing);
  }

  // ---------------------------------------------------------------------------
  // the locator

  /** The locator over the split lines and prepared targets: the capture
      from the first best candidate line, or `[]` when no line is a
      candidate. */
  method LocateInLines(lines: seq<string>, t: Targets, selfClose: SelfClosePattern) returns (r: seq<int>)
    ensures r == [] <==> HasNoCandidate(lines, t.tag)
    ensures r != [] ==> IsFirstBest(lines, t, r[0] - 1)
    ensures r != [] ==> IsElementCapture(lines, t.tag, selfClose, r[0] - 1, r)
  {
    var bestMatchLine := FindBestLine(lines, t);
    if bestMatchLine == -1 {
      return [];
    }
    var startLineIndex := bestMatchLine - 1;
    r := CaptureElement(lines, t.tag, selfClose, startLineIndex);
  }

  /** The empty text splits into one empty line, which holds no `<`. */
  lemma EmptySourceHasNoCandidate(tag: string)
    ensures HasNoCandidate(Lines([]), tag)
  {
    assert Lines([]) == [[]];
    assert LowerStr([]) == [];
  }

  /** `findLineInSource`: the line range of the element the signals most
      likely describe, or `[]`. */
  method FindLineInSource(sourceCode: string, sig: Signals) returns (r: seq<int>)
    ensures sourceCode == [] ==> r == []
    ensures r == [] <==> HasNoCandidate(Lines(sourceCode), TargetsOf(sig).tag)
    ensures r != [] ==> IsFirstBest(Lines(sourceCode), TargetsOf(sig), r[0] - 1)
    ensures r != [] ==> IsElementCapture(Lines(sourceCode), TargetsOf(sig).tag, SelfClosingAsWritten, r[0] - 1, r)
  {
    EmptySourceHasNoCandidate(TargetsOf(sig).tag);
    r := LocateInLines(Lines(sourceCode), TargetsOf(sig), SelfClosingAsWritten);
  }

  /** The locator with the guarded self-closing pattern: the same best line,
      with the capture that subtracts only self-closing elements the opening
      pattern counted. */
  method FindLineInSourceGuarded(sourceCode: string, sig: Signals) returns (r: seq<int>)
    ensures sourceCode == [] ==> r == []
    ensures r == [] <==> HasNoCandidate(Lines(sourceCode), TargetsOf(sig).tag)
    ensures r != [] ==> IsFirstBest(Lines(sourceCode), TargetsOf(sig), r[0] - 1)
    ensures r != [] ==> IsElementCapture(Lines(sourceCode), TargetsOf(sig).tag, SelfClosing, r[0] - 1, r)
  {
    EmptySourceHasNoCandidate(TargetsOf(sig).tag);
    r := LocateInLines(Lines(sourceCode), TargetsOf(sig), SelfClosing);
  }

  /** On a source text whose lines are those four (`<div>\n<div/>\nx\n</div>`
      is one, by `NestedBareDivSource`), with only the tag `div` as signal,
      the source's result is the first two lines: every window scores the
      same, so the first line is the best candidate, and its capture stops at
      the nested `<div/>`. */
  lemma SourceCutsNestedBareDivShort(sourceCode: string, sig: Signals, r: seq<int>)
    requires Lines(sourceCode) == NestedBareDiv
    requires sig.tagName == "div" && sig.className == [] && sig.textContent == [] && sig.propSignature == []
    requires r != [] && IsFirstBest(Lines(sourceCode), TargetsOf(sig), r[0] - 1)
    requires IsElementCapture(Lines(sourceCode), TargetsOf(sig).tag, SelfClosingAsWritten, r[0] - 1, r)
    ensures r == [1, 2]
  {
    DivTargets(sig);
    NestedBareDivResult(Lines(sourceCode), TargetsOf(sig), r);
  }

  lemma DivTargets(sig: Signals)
    requires sig.tagName == "div" && sig.className == [] && sig.textContent == [] && sig.propSignature == []
    ensures TargetsOf(sig) == Targets("div", [], [], [])
  {
    LowerDiv();
    TagOnlyTargets(sig);
  }

  lemma NestedBareDivResult(lines: seq<string>, t: Targets, r: seq<int>)
    requires lines == NestedBareDiv && t == Targets("div", [], [], [])
    requires r != [] && IsFirstBest(lines, t, r[0] - 1)
    requires IsElementCapture(lines, t.tag, SelfClosingAsWritten, r[0] - 1, r)
    ensures r == [1, 2]
  {
    OpeningLineIsCandidate();
    AsWrittenCaptureStopsEarly();
    TagOnlyResult(lines, t, SelfClosingAsWritten, r, [1, 2]);
  }

  /** With the guarded self-closing pattern the same inputs give all four
      lines, the whole outer `div`. */
  lemma GuardedKeepsNestedBareDivWhole(sourceCode: string, sig: Signals, r: seq<int>)
    requires Lines(sourceCode) == NestedBareDiv
    requires sig.tagName == "div" && sig.className == [] && sig.textContent == [] && sig.propSignature == []
    requires r != [] && IsFirstBest(Lines(sourceCode), TargetsOf(sig), r[0] - 1)
    requires IsElementCapture(Lines(sourceCode), TargetsOf(sig).tag, SelfClosing, r[0] - 1, r)
    ensures r == [1, 2, 3, 4]
  {
    DivTargets(sig);
    NestedBareDivGuardedResult(Lines(sourceCode), TargetsOf(sig), r);
  }

  lemma NestedBareDivGuardedResult(lines: seq<string>, t: Targets, r: seq<int>)
    requires lines == NestedBareDiv && t == Targets("div", [], [], [])
    requires r != [] && IsFirstBest(lines, t, r[0] - 1)
    requires IsElementCapture(lines, t.tag, SelfClosing, r[0] - 1, r)
    ensures r == [1, 2, 3, 4]
  {
    OpeningLineIsCandidate();
    GuardedCaptureRunsOn();
    TagOnlyResult(lines, t, SelfClosing, r, [1, 2, 3, 4]);
  }

  /** On a source text whose lines are `<b onClick={() => go()} />` and `x`
      (`<b onClick={() => go()} />\nx` is one, by `ArrowSource`), with only
      the tag `b` as signal, the source's result is both lines: its
      self-closing pattern stops at the `>` of the arrow, so the element
      counts as an opening that nothing closes. */
  lemma SourceRunsPastArrowLine(sourceCode: string, sig: Signals, r: seq<int>)
    requires Lines(sourceCode) == ArrowLines
    requires sig.tagName == "b" && sig.className == [] && sig.textContent == [] && sig.propSignature == []
    requires r != [] && IsFirstBest(Lines(sourceCode), TargetsOf(sig), r[0] - 1)
    requires IsElementCapture(Lines(sourceCode), TargetsOf(sig).tag, SelfClosingAsWritten, r[0] - 1, r)
    ensures r == [1, 2]
  {
    ArrowTargets(sig);
    ArrowLinesResult(Lines(sourceCode), TargetsOf(sig), r);
  }

  lemma ArrowLinesResult(lines: seq<string>, t: Targets, r: seq<int>)
    requires lines == ArrowLines && t == Targets("b", [], [], [])
    requires r != [] && IsFirstBest(lines, t, r[0] - 1)
    requires IsElementCapture(lines, t.tag, SelfClosingAsWritten, r[0] - 1, r)
    ensures r == [1, 2]
  {
    ArrowLineIsCandidate();
    AsWrittenCaptureRunsPastArrow();
    TagOnlyResult(lines, t, SelfClosingAsWritten, r, [1, 2]);
  }

  /** With the corrected pattern the same inputs give the element's own
      line. */
  lemma CorrectedKeepsArrowLineAlone(sourceCode: string, sig: Signals, r: seq<int>)
    requires Lines(sourceCode) == ArrowLines
    requires sig.tagName == "b" && sig.className == [] && sig.textContent == [] && sig.propSignature == []
    requires r != [] && IsFirstBest(Lines(sourceCode), TargetsOf(sig), r[0] - 1)
    requires IsElementCapture(Lines(sourceCode), TargetsOf(sig).tag, SelfClosing, r[0] - 1, r)
    ensures r == [1]
  {
    ArrowTargets(sig);
    ArrowLinesCorrectedResult(Lines(sourceCode), TargetsOf(sig), r);
  }

  lemma ArrowLinesCorrectedResult(lines: seq<string>, t: Targets, r: seq<int>)
    requires lines == ArrowLines && t == Targets("b", [], [], [])
    requires r != [] && IsFirstBest(lines, t, r[0] - 1)
    requires IsElementCapture(lines, t.tag, SelfClosing, r[0] - 1, r)
    ensures r == [1]
  {
    ArrowLineIsCandidate();
    CorrectedCaptureKeepsArrowLine();
    TagOnlyResult(lines, t, SelfClosing, r, [1]);
  }

  lemma ArrowTargets(sig: Signals)
    requires sig.tagName == "b" && sig.className == [] && sig.textContent == [] && sig.propSignature == []
    ensures TargetsOf(sig) == Targets("b", [], [], [])
  {
    assert Lower('b') == 'b';
    TagOnlyTargets(sig);
  }

  /** With only a tag signal and a first line that is a candidate, the
      result is the capture from the first line. */
  lemma TagOnlyResult(lines: seq<string>, t: Targets, selfClose: SelfClosePattern, r: seq<int>, expected: seq<int>)
    requires t.cls == [] && t.text == [] && t.prop == []
    requires |lines| > 0 && IsCandidate(lines[0], t.tag)
    requires r != [] && IsFirstBest(lines, t, r[0] - 1)
    requires IsElementCapture(lines, t.tag, selfClose, r[0] - 1, r)
    requires IsElementCapture(lines, t.tag, selfClose, 0, expected)
    ensures r == expected
  {
    BestIsFirstWhenScoresTie(lines, t, r[0] - 1);
    CaptureIsUnique(lines, t.tag, selfClose, 0, r, expected);
  }

  lemma ArrowLineIsCandidate()
    ensures IsCandidate(ArrowLines[0], "b")
  {
    var line := ArrowLines[0];
    assert line[1] == 'b' && line[1..2] == [line[1]];
    assert line[0] == '<' && TagNameAt(line, "b", 1);
    CandidateIffTagNameAt(line, "b");
  }

  /** The source text splits back into those two lines. */
  lemma ArrowSource()
    ensures Lines(Join(ArrowLines, '\n')) == ArrowLines
  {
    assert '\n' !in ArrowLines[0] && '\n' !in ArrowLines[1];
    SplitJoin(ArrowLines, '\n');
  }

  lemma OpeningLineIsCandidate()
    ensures IsCandidate(NestedBareDiv[0], "div")
  {
    var line := NestedBareDiv[0];
    assert line[1..4] == [line[1], line[2], line[3]] == "div";
    assert line[0] == '<' && TagNameAt(line, "div", 1);
    CandidateIffTagNameAt(line, "div");
  }

  /** The source text splits back into those four lines. */
  lemma NestedBareDivSource()
    ensures Lines(Join(NestedBareDiv, '\n')) == NestedBareDiv
  {
    assert '\n' !in NestedBareDiv[0] && '\n' !in NestedBareDiv[1];
    assert '\n' !in NestedBareDiv[2] && '\n' !in NestedBareDiv[3];
    SplitJoin(NestedBareDiv, '\n');
  }

  lemma LowerDiv()
    ensures forall i :: 0 <= i < |"div"| ==> Lower("div"[i]) == "div"[i]
  {
  }

  /** Signals with a lower-case tag and nothing else prepare to that tag and
      three empty targets. */
  lemma TagOnlyTargets(sig: Signals)
    requires sig.className == [] && sig.textContent == [] && sig.propSignature == []
    requires forall i :: 0 <= i < |sig.tagName| ==> Lower(sig.tagName[i]) == sig.tagName[i]
    ensures TargetsOf(sig) == Targets(sig.tagName, [], [], [])
  {
    var t := TargetsOf(sig);
    NormalWithoutContent(t.cls);
    NormalWithoutContent(t.text);
    NormalWithoutContent(t.prop);
  }

  /** A normalized string without non-whitespace characters is empty. */
  lemma NormalWithoutContent(s: string)
    requires IsNormal(s) && NonWhitespace(s) == []
    ensures s == []
  {
  }

  /** With no class, text or callback signal every window scores the base
      score. */
  lemma TagOnlyScoresBase(t: Targets, w: string)
    requires t.cls == [] && t.text == [] && t.prop == []
    ensures Score(t, w) == BaseScore
  {
    assert Utf16Length(t.text) == 0 && Utf16Length(t.prop) == 0;
  }

  /** So with no class, text or callback signal a first line that is a
      candidate is the best one. */
  lemma BestIsFirstWhenScoresTie(lines: seq<string>, t: Targets, b: int)
    requires t.cls == [] && t.text == [] && t.prop == []
    requires |lines| > 0 && IsCandidate(lines[0], t.tag) && IsFirstBest(lines, t, b)
    ensures b == 0
  {
    var flags, scores := CandidateFlags(lines, t.tag), Scores(lines, t);
    TagOnlyScoresTie(lines, t, b);
    assert flags[0];
    FirstMaxOfTieIsFirst(flags, scores, b);
  }

  /** With no class, text or callback signal every line scores the same. */
  lemma TagOnlyScoresTie(lines: seq<string>, t: Targets, b: int)
    requires t.cls == [] && t.text == [] && t.prop == []
    requires 0 <= b < |lines|
    ensures Scores(lines, t)[0] == Scores(lines, t)[b]
  {
    TagOnlyLineScoresBase(lines, t, 0);
    TagOnlyLineScoresBase(lines, t, b);
  }

  lemma TagOnlyLineScoresBase(lines: seq<string>, t: Targets, c: nat)
    requires t.cls == [] && t.text == [] && t.prop == []
    requires c < |lines|
    ensures Scores(lines, t)[c] == BaseScore
  {
    var w := Window(lines, t.tag, c);
    TagOnlyScoresBase(t, w);
  }

  /** When the first index is flagged and scores as much as the first
      maximum, it is the first maximum. */
  lemma FirstMaxOfTieIsFirst(flags: seq<bool>, scores: seq<nat>, b: int)
    requires IsFirstMax(flags, scores, b) && flags[0] && scores[0] == scores[b]
    ensures b == 0
  {
  }
}
