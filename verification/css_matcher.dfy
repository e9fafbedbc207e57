/** The stylesheet rule locator of app/utils/css-matcher.js: demangling the
    bundler's scoped class names back to the authored names, finding the
    selector lines that start a rule for one of them, and capturing each rule
    through its closing brace. */
module CssMatcher {

  import opened Wrappers
  import opened Text
  import opened Sorting

  // ---------------------------------------------------------------------------
  // demangling `File-module__hash__name`

  /** `[a-zA-Z0-9-]`, the characters of an authored class name. */
  predicate IsNameChar(c: char) {
    IsAsciiAlnum(c) || c == '-'
  }

  /** `[a-zA-Z0-9_-]`, the characters of the hash segment. */
  predicate IsHashChar(c: char) {
    IsNameChar(c) || c == '_'
  }

  predicate AllNameChars(s: string) {
    forall m :: 0 <= m < |s| ==> IsNameChar(s[m])
  }

  /** The pattern `__[a-zA-Z0-9_-]+__([a-zA-Z0-9-]+)$` matches `t` with its
      leading `__` at `p` and its group starting at `k`. */
  predicate DemangleMatch(t: string, p: int, k: int) {
    0 <= p && p + 5 <= k < |t|
    && t[p] == '_' && t[p + 1] == '_'
    && (forall m :: p + 2 <= m < k - 2 ==> IsHashChar(t[m]))
    && t[k - 2] == '_' && t[k - 1] == '_'
    && (forall m :: k <= m < |t| ==> IsNameChar(t[m]))
  }

  /** A leading `__` at `p` followed by a non-empty hash run up to `e`. */
  predicate OpensAt(t: string, p: int, e: int) {
    0 <= p && p + 3 <= e <= |t|
    && t[p] == '_' && t[p + 1] == '_'
    && forall m :: p + 2 <= m < e ==> IsHashChar(t[m])
  }

  /** Searches leftwards from `j` for a `__` whose hash run reaches `e`; the
      characters from `j + 2` up to `e` are already known to be hash
      characters. */
  function OpensAtOrBefore(t: string, e: nat, j: int): bool
    requires -1 <= j && j + 3 <= e <= |t|
    requires forall m :: j + 2 <= m < e ==> IsHashChar(t[m])
    decreases j + 1
  {
    if j < 0 then false
    else if t[j] == '_' && t[j + 1] == '_' then true
    else if !IsHashChar(t[j + 1]) then false
    else OpensAtOrBefore(t, e, j - 1)
  }

  /** The leftward search succeeds exactly when some start at or before `j`
      opens a hash run reaching `e`. */
  lemma {:induction false} OpensAtOrBeforeIff(t: string, e: nat, j: int)
    requires -1 <= j && j + 3 <= e <= |t|
    requires forall m :: j + 2 <= m < e ==> IsHashChar(t[m])
    ensures OpensAtOrBefore(t, e, j) ==> exists p :: p <= j && OpensAt(t, p, e)
    ensures forall p :: p <= j && OpensAt(t, p, e) ==> OpensAtOrBefore(t, e, j)
    decreases j + 1
  {
    if j < 0 {
    } else if t[j] == '_' && t[j + 1] == '_' {
      assert OpensAt(t, j, e);
    } else if !IsHashChar(t[j + 1]) {
      forall p | p <= j && OpensAt(t, p, e)
        ensures false
      {
      }
    } else {
      OpensAtOrBeforeIff(t, e, j - 1);
      forall p | p <= j && OpensAt(t, p, e)
        ensures OpensAtOrBefore(t, e, j)
      {
        assert p != j;
      }
    }
  }

  /** `extractPureClassName`: the authored class name inside a scoped class
      name, or `None` for an empty token and for one the pattern does not
      match. The group can hold no `_`, so it starts after the last `_`. */
  function ExtractPureClassName(t: string): (r: Option<string>)
    ensures t == [] ==> r == None
    ensures r.Some? ==> 0 < |r.value| && |r.value| + 5 <= |t| && t[|t| - |r.value|..] == r.value
    ensures r.Some? ==> t[|t| - |r.value| - 2] == '_' && t[|t| - |r.value| - 1] == '_'
    ensures r.Some? ==> AllNameChars(r.value)
  {
    if t == [] then None
    else
      match LastIndexOf(t, '_')
      case None => None
      case Some(u) =>
        if 4 <= u && u + 1 < |t| && t[u - 1] == '_' && IsHashChar(t[u - 2])
           && AllNameChars(t[u + 1..]) && OpensAtOrBefore(t, u - 1, u - 4)
        then Some(t[u + 1..])
        else None
  }

  /** The demangler agrees with the regular expression: every match yields
      its group, and every result comes from a match. */
  lemma ExtractPureClassNameIsPatternMatch(t: string)
    ensures forall p, k :: DemangleMatch(t, p, k) ==> ExtractPureClassName(t) == Some(t[k..])
    ensures ExtractPureClassName(t).Some? ==>
              exists p, k :: DemangleMatch(t, p, k) && ExtractPureClassName(t).value == t[k..]
  {
    var last := LastIndexOf(t, '_');
    forall p, k | DemangleMatch(t, p, k)
      ensures ExtractPureClassName(t) == Some(t[k..])
    {
      assert t[k - 1] == '_';
      assert last.Some? && last.value == k - 1;
      var u := k - 1;
      assert t[u + 1..] == t[k..];
      assert AllNameChars(t[u + 1..]);
      assert OpensAt(t, p, u - 1);
      OpensAtOrBeforeIff(t, u - 1, u - 4);
    }
    if ExtractPureClassName(t).Some? {
      var u := last.value;
      OpensAtOrBeforeIff(t, u - 1, u - 4);
      var p :| p <= u - 4 && OpensAt(t, p, u - 1);
      assert DemangleMatch(t, p, u + 1);
    }
  }

  /** The example in the source's own documentation. */
  lemma ExtractExample()
    ensures ExtractPureClassName("Playground-module__coBdPq__title") == Some("title")
  {
    var t := "Playground-module__coBdPq__title";
    assert DemangleMatch(t, 17, 27);
    ExtractPureClassNameIsPatternMatch(t);
    assert t[27..] == "title";
  }

  /** A token with a single-underscore component before the hash is not
      demangled: the pattern needs two `__` separators. */
  lemma ExtractNeedsTwoSeparators()
    ensures ExtractPureClassName("Card_card__ab12") == None
  {
    var t := "Card_card__ab12";
    assert t[10] == '_' && t[11] == 'a' && t[12] == 'b' && t[13] == '1' && t[14] == '2';
    assert LastIndexOf(t, '_') == Some(10);
    assert t[0] == 'C' && t[1] == 'a' && t[4] == '_' && t[5] == 'c';
    assert !OpensAtOrBefore(t, 9, -1);
    assert !OpensAtOrBefore(t, 9, 0);
    assert !OpensAtOrBefore(t, 9, 2);
    assert !OpensAtOrBefore(t, 9, 4);
    assert !OpensAtOrBefore(t, 9, 6);
  }

  // ---------------------------------------------------------------------------
  // selector lines

  /** The characters allowed right after `.name`: whitespace, `{`, `,`, `:`
      (pseudo-classes) and `.` (compound selectors). */
  predicate IsSelectorBoundary(c: char) {
    IsWhitespace(c) || c == '{' || c == ',' || c == ':' || c == '.'
  }

  /** The trimmed text of a line starts with `.name` followed by nothing or
      by a selector boundary. */
  predicate StartsSelector(trimmed: string, name: string) {
    var selectorBase := ['.'] + name;
    IsPrefix(selectorBase, trimmed)
    && (|trimmed| == |selectorBase| || IsSelectorBoundary(trimmed[|selectorBase|]))
  }

  /** A line starts a rule for `name`. */
  predicate SelectorMatches(line: string, name: string) {
    StartsSelector(Trim(line), name)
  }

  /** `line` is indentation, then `.name`, then nothing or a selector
      boundary: `name` starts at `a + 1`. */
  predicate SelectorLayout(line: string, name: string, a: int) {
    0 <= a && a + 1 + |name| <= |line|
    && (forall i :: 0 <= i < a ==> IsWhitespace(line[i]))
    && line[a] == '.' && line[a + 1..a + 1 + |name|] == name
    && (a + 1 + |name| == |line| || IsSelectorBoundary(line[a + 1 + |name|]))
  }

  /** For a class name, the trimmed-line test says exactly that the line is
      indentation followed by `.name` and a boundary or the line's end. */
  lemma SelectorMatchesIff(line: string, name: string)
    requires AllNameChars(name)
    ensures SelectorMatches(line, name) <==> exists a :: SelectorLayout(line, name, a)
  {
    var t := Trim(line);
    var a := LeadingWhitespace(line);
    var e := a + 1 + |name|;
    if SelectorMatches(line, name) {
      assert t[..e - a] == ['.'] + name;
      assert line[a..e] == t[..e - a];
      assert line[a] == line[a..e][0];
      assert line[a + 1..e] == line[a..e][1..];
      if |t| > e - a {
        assert line[e] == t[e - a];
      } else if e < |line| {
        assert IsWhitespace(line[e]);
      }
      assert SelectorLayout(line, name, a);
    }
    if exists a' :: SelectorLayout(line, name, a') {
      var a' :| SelectorLayout(line, name, a');
      assert a' == a;
      NameKeptByTrim(line, name, a);
      assert t[..e - a] == ['.'] + name;
      if |t| > e - a {
        assert t[e - a] == line[e];
      }
    }
  }

  /** The last character of `.name` at `a` is not whitespace, so the trim
      keeps all of `.name`. */
  lemma NameKeptByTrim(line: string, name: string, a: int)
    requires AllNameChars(name) && SelectorLayout(line, name, a)
    requires a == LeadingWhitespace(line)
    ensures |Trim(line)| >= 1 + |name| && Trim(line)[..1 + |name|] == ['.'] + name
  {
    var t := Trim(line);
    var e := a + 1 + |name|;
    var last := e - 1;
    assert !IsWhitespace(line[last]) by {
      if |name| > 0 {
        assert line[last] == name[|name| - 1];
      }
    }
    assert t[..1 + |name|] == line[a..e];
  }

  /** A name character after `.name` rules the text out: `.btn` never starts
      a `.btn-outline` selector. */
  lemma SelectorNeedsBoundary(trimmed: string, name: string, c: char)
    requires IsPrefix(['.'] + name + [c], trimmed)
    requires IsNameChar(c)
    ensures !StartsSelector(trimmed, name)
  {
    assert trimmed[|name| + 1] == (['.'] + name + [c])[|name| + 1];
  }

  /** No text starts selectors for two different class names. */
  lemma StartsSelectorUnique(trimmed: string, a: string, b: string)
    requires AllNameChars(a) && AllNameChars(b)
    requires StartsSelector(trimmed, a) && StartsSelector(trimmed, b)
    ensures a == b
  {
    if |a| == |b| {
      assert a == trimmed[1..|a| + 1] == b;
    }
  }

  /** No line starts rules for two different class names, so the captures
      for distinct names start on distinct lines. */
  lemma SelectorNameIsUnique(line: string, a: string, b: string)
    requires AllNameChars(a) && AllNameChars(b)
    requires SelectorMatches(line, a) && SelectorMatches(line, b)
    ensures a == b
  {
    StartsSelectorUnique(Trim(line), a, b);
  }

  /** Trimmed text `.btn-outline {` does not start a rule for `btn`;
      `.btn:hover {` does. */
  lemma SelectorExamples()
    ensures !StartsSelector(".btn-outline {", "btn")
    ensures StartsSelector(".btn:hover {", "btn")
  {
    var outline := ".btn-outline {";
    assert outline[..5] == ".btn-";
    SelectorNeedsBoundary(outline, "btn", '-');
    var hover := ".btn:hover {";
    assert hover[..4] == ".btn";
  }

  // ---------------------------------------------------------------------------
  // brace counting

  /** The number of occurrences of `c` in `s`, as `(s.match(/c/g) || []).length`. */
  function CountChar(s: string, c: char): (r: nat)
    ensures r <= |s|
    ensures r > 0 <==> c in s
  {
    if s == [] then 0
    else (if s[0] == c then 1 else 0) + CountChar(s[1..], c)
  }

  /** The count is the multiplicity of `c` in the line. */
  lemma {:induction false} CountCharIsMultiplicity(s: string, c: char)
    ensures CountChar(s, c) == multiset(s)[c]
  {
    if s != [] {
      CountCharIsMultiplicity(s[1..], c);
      assert s == [s[0]] + s[1..];
    }
  }

  /** `{` minus `}` on one line. */
  function BraceDelta(line: string): int {
    CountChar(line, '{') - CountChar(line, '}')
  }

  /** Cumulative brace depth of lines `i` through `j`. */
  function BraceDepth(lines: seq<string>, i: nat, j: nat): int
    requires i <= j < |lines|
    decreases j - i
  {
    if j == i then BraceDelta(lines[i])
    else BraceDepth(lines, i, j - 1) + BraceDelta(lines[j])
  }

  /** Some line from `i` through `j` holds a `{`. */
  function HasOpened(lines: seq<string>, i: nat, j: nat): bool
    requires i <= j < |lines|
    decreases j - i
  {
    CountChar(lines[j], '{') > 0 || (j > i && HasOpened(lines, i, j - 1))
  }

  /** The capture from line `i` stops after line `j`. */
  predicate ClosesAt(lines: seq<string>, i: nat, j: nat)
    requires i <= j < |lines|
  {
    HasOpened(lines, i, j) && BraceDepth(lines, i, j) <= 0
  }

  /** The 1-based line `x` belongs to the rule captured from line `i`: no
      earlier line of the capture closed it. */
  ghost predicate InRuleBlock(lines: seq<string>, i: int, x: int) {
    0 <= i && i + 1 <= x <= |lines|
    && forall m :: i <= m < x - 1 ==> !ClosesAt(lines, i, m)
  }

  /** A capture stopping at line `e` (0-based) covers lines `i + 1` to
      `e + 1` (1-based). */
  lemma RuleBlockEndsAt(lines: seq<string>, i: nat, e: nat)
    requires i <= e < |lines|
    requires forall m :: i <= m < e ==> !ClosesAt(lines, i, m)
    requires e == |lines| - 1 || ClosesAt(lines, i, e)
    ensures forall x :: InRuleBlock(lines, i, x) <==> i + 1 <= x <= e + 1
  {
  }

  /** A rule opened and closed on its selector line contributes exactly that
      line. */
  lemma OneLineRule(lines: seq<string>, i: nat)
    requires i < |lines|
    requires 0 < CountChar(lines[i], '{') <= CountChar(lines[i], '}')
    ensures forall x :: InRuleBlock(lines, i, x) <==> x == i + 1
  {
    assert ClosesAt(lines, i, i);
    RuleBlockEndsAt(lines, i, i);
  }

  /** The brace-capture loop from selector line `i`: appends each scanned
      line's 1-based number unless already present, and stops after the first
      line where a `{` has been seen and the depth is at most zero. */
  method CaptureRule(lines: seq<string>, i: nat, matched: seq<int>) returns (r: seq<int>)
    requires i < |lines|
    requires HasNoDuplicates(matched)
    ensures HasNoDuplicates(r)
    ensures forall x :: x in r <==> x in matched || InRuleBlock(lines, i, x)
  {
    r := matched;
    var braceDepth: int := 0;
    var hasOpened := false;
    var j := i;
    while j < |lines|
      invariant i <= j <= |lines|
      invariant HasNoDuplicates(r)
      invariant forall x :: x in r <==> x in matched || i + 1 <= x <= j
      invariant j == i ==> braceDepth == 0 && !hasOpened
      invariant j > i ==> braceDepth == BraceDepth(lines, i, j - 1) && hasOpened == HasOpened(lines, i, j - 1)
      invariant forall m :: i <= m < j ==> !ClosesAt(lines, i, m)
    {
      var currentLine := lines[j];
      if j + 1 !in r {
        r := r + [j + 1];
      }
      var openCount := CountChar(currentLine, '{');
      var closeCount := CountChar(currentLine, '}');
      if openCount > 0 {
        hasOpened := true;
      }
      braceDepth := braceDepth + openCount - closeCount;
      assert braceDepth == BraceDepth(lines, i, j) && hasOpened == HasOpened(lines, i, j);
      if hasOpened && braceDepth <= 0 {
        RuleBlockEndsAt(lines, i, j);
        return;
      }
      j := j + 1;
    }
    RuleBlockEndsAt(lines, i, |lines| - 1);
  }

  // ---------------------------------------------------------------------------
  // the locator

  /** Line `i` starts a rule for the class name that token `tok` demangles
      to. */
  ghost predicate StartsRuleFor(lines: seq<string>, tok: string, i: int) {
    0 <= i < |lines| && ExtractPureClassName(tok).Some?
    && SelectorMatches(lines[i], ExtractPureClassName(tok).value)
  }

  /** Some index below `n` satisfies `f`, unrolled one index at a time as
      the scans of the locator proceed. */
  ghost predicate AnyBelow(f: int -> bool, n: nat)
    decreases n
  {
    n > 0 && (AnyBelow(f, n - 1) || f(n - 1))
  }

  lemma {:induction false} AnyBelowIff(f: int -> bool, n: nat)
    ensures AnyBelow(f, n) <==> exists i :: 0 <= i < n && f(i)
    decreases n
  {
    if n > 0 {
      AnyBelowIff(f, n - 1);
    }
  }

  /** Line `i` starts a rule for `name` whose block holds the 1-based line
      `x`. */
  ghost function RuleHolds(lines: seq<string>, name: string, x: int): int -> bool {
    i => 0 <= i < |lines| && SelectorMatches(lines[i], name) && InRuleBlock(lines, i, x)
  }

  /** Token `tok` demangles to a name with some rule holding the 1-based
      line `x`. */
  ghost predicate TokenHoldsLine(lines: seq<string>, tok: string, x: int) {
    ExtractPureClassName(tok).Some?
    && AnyBelow(RuleHolds(lines, ExtractPureClassName(tok).value, x), |lines|)
  }

  ghost function LineHolder(lines: seq<string>, x: int): string -> bool {
    tok => TokenHoldsLine(lines, tok, x)
  }

  /** Index `ti` is a position of `tokens` whose token satisfies `holds`. */
  ghost function Indexed(holds: string -> bool, tokens: seq<string>): int -> bool {
    ti => 0 <= ti < |tokens| && holds(tokens[ti])
  }

  /** The 1-based line `x` is highlighted for the class tokens `tokens`: it
      lies in a rule for the demangled name of one of them. */
  ghost predicate Highlighted(lines: seq<string>, tokens: seq<string>, x: int) {
    AnyBelow(Indexed(LineHolder(lines, x), tokens), |tokens|)
  }

  /** One token holds line `x` exactly when some line starts a rule for its
      demangled name and `x` lies in that rule. */
  lemma TokenHoldsLineIff(lines: seq<string>, tok: string, x: int)
    ensures TokenHoldsLine(lines, tok, x) <==> exists i :: StartsRuleFor(lines, tok, i) && InRuleBlock(lines, i, x)
  {
    if ExtractPureClassName(tok).Some? {
      var name := ExtractPureClassName(tok).value;
      AnyBelowIff(RuleHolds(lines, name, x), |lines|);
      if TokenHoldsLine(lines, tok, x) {
        var i :| 0 <= i < |lines| && RuleHolds(lines, name, x)(i);
        assert StartsRuleFor(lines, tok, i);
      }
      forall i | StartsRuleFor(lines, tok, i) && InRuleBlock(lines, i, x)
        ensures TokenHoldsLine(lines, tok, x)
      {
        assert RuleHolds(lines, name, x)(i);
      }
    }
  }

  /** The highlighted lines are exactly those in the rule block of some line
      that starts a rule for some token's demangled name. */
  lemma HighlightedIff(lines: seq<string>, tokens: seq<string>, x: int)
    ensures Highlighted(lines, tokens, x) <==>
            exists ti, i :: 0 <= ti < |tokens| && StartsRuleFor(lines, tokens[ti], i) && InRuleBlock(lines, i, x)
  {
    var f := Indexed(LineHolder(lines, x), tokens);
    AnyBelowIff(f, |tokens|);
    if Highlighted(lines, tokens, x) {
      var ti :| 0 <= ti < |tokens| && f(ti);
      TokenHoldsLineIff(lines, tokens[ti], x);
    }
    forall ti, i | 0 <= ti < |tokens| && StartsRuleFor(lines, tokens[ti], i) && InRuleBlock(lines, i, x)
      ensures Highlighted(lines, tokens, x)
    {
      TokenHoldsLineIff(lines, tokens[ti], x);
      assert f(ti);
    }
  }

  /** Every highlighted line number lies in `[1, |lines|]`. */
  lemma HighlightedInRange(lines: seq<string>, tokens: seq<string>, x: int)
    requires Highlighted(lines, tokens, x)
    ensures 1 <= x <= |lines|
  {
    HighlightedIff(lines, tokens, x);
  }

  /** Every selector line that starts a rule for a token is highlighted. */
  lemma SelectorLineIsHighlighted(lines: seq<string>, tokens: seq<string>, ti: int, i: int)
    requires 0 <= ti < |tokens| && StartsRuleFor(lines, tokens[ti], i)
    ensures Highlighted(lines, tokens, i + 1)
  {
    assert InRuleBlock(lines, i, i + 1);
    HighlightedIff(lines, tokens, i + 1);
  }

  /** Dropping an index at which `f` fails does not change whether some
      index satisfies it. */
  lemma AnyBelowSkip(f: int -> bool, g: int -> bool, n: nat, k: nat)
    requires k < n && !f(k)
    requires forall i :: 0 <= i < k ==> f(i) == g(i)
    requires forall i :: k < i < n ==> f(i) == g(i - 1)
    ensures AnyBelow(f, n) <==> AnyBelow(g, n - 1)
  {
    AnyBelowIff(f, n);
    AnyBelowIff(g, n - 1);
    if AnyBelow(g, n - 1) {
      var i :| 0 <= i < n - 1 && g(i);
      if i >= k {
        assert f(i + 1);
      }
    }
  }

  /** Removing a token at `k` that fails `holds` does not change whether
      some token satisfies it. */
  lemma IndexedSkip(holds: string -> bool, withTok: seq<string>, without: seq<string>, k: nat)
    requires k < |withTok| == |without| + 1
    requires !holds(withTok[k])
    requires forall i :: 0 <= i < k ==> withTok[i] == without[i]
    requires forall i :: k < i < |withTok| ==> withTok[i] == without[i - 1]
    ensures AnyBelow(Indexed(holds, withTok), |withTok|) <==> AnyBelow(Indexed(holds, without), |without|)
  {
    var f := Indexed(holds, withTok);
    var g := Indexed(holds, without);
    forall i | 0 <= i < k
      ensures f(i) == g(i)
    {
      assert withTok[i] == without[i];
    }
    forall i | k < i < |withTok|
      ensures f(i) == g(i - 1)
    {
      assert withTok[i] == without[i - 1];
    }
    AnyBelowSkip(f, g, |withTok|, k);
  }

  /** A token the demangler rejects contributes no lines, wherever it stands
      in the class string. */
  lemma UndemangledTokenContributesNothing(lines: seq<string>, a: seq<string>, tok: string, b: seq<string>, x: int)
    requires ExtractPureClassName(tok).None?
    ensures Highlighted(lines, a + [tok] + b, x) <==> Highlighted(lines, a + b, x)
  {
    var withTok := a + [tok] + b;
    var without := a + b;
    assert withTok[|a|] == tok;
    assert forall i :: |a| < i < |withTok| ==> withTok[i] == without[i - 1];
    IndexedSkip(LineHolder(lines, x), withTok, without, |a|);
  }

  /** The scan over class tokens and lines: for every token that demangles,
      every selector line for its name starts a brace capture; the union of
      the captures is returned sorted. */
  method LocateRules(lines: seq<string>, domClasses: seq<string>) returns (r: seq<int>)
    ensures IsStrictlyAscending(r)
    ensures forall x :: x in r <==> Highlighted(lines, domClasses, x)
  {
    var matchedLines: seq<int> := [];
    var ti := 0;
    while ti < |domClasses|
      invariant 0 <= ti <= |domClasses|
      invariant HasNoDuplicates(matchedLines)
      invariant forall x :: x in matchedLines <==> AnyBelow(Indexed(LineHolder(lines, x), domClasses), ti)
    {
      var pureName := ExtractPureClassName(domClasses[ti]);
      if pureName.Some? {
        var selectorBase := ['.'] + pureName.value;
        var i := 0;
        while i < |lines|
          invariant 0 <= i <= |lines|
          invariant HasNoDuplicates(matchedLines)
          invariant forall x :: x in matchedLines <==>
                      AnyBelow(Indexed(LineHolder(lines, x), domClasses), ti) || AnyBelow(RuleHolds(lines, pureName.value, x), i)
        {
          var line := Trim(lines[i]);
          if IsPrefix(selectorBase, line) {
            if |line| == |selectorBase| || IsSelectorBoundary(line[|selectorBase|]) {
              matchedLines := CaptureRule(lines, i, matchedLines);
            }
          }
          i := i + 1;
        }
      }
      ti := ti + 1;
    }
    SortStrict(matchedLines);
    r := Sort(matchedLines);
    forall x
      ensures x in r <==> x in matchedLines
    {
      assert x in r <==> x in multiset(r);
    }
  }

  /** `findCssLineInSource`: the sorted, duplicate-free 1-based numbers of
      every line in a rule whose selector names one of the demangled classes
      of `rawClassString`; `[]` when either input is empty. */
  method FindCssLineInSource(cssSourceCode: string, rawClassString: string) returns (r: seq<int>)
    ensures cssSourceCode == [] || rawClassString == [] ==> r == []
    ensures IsStrictlyAscending(r)
    ensures forall x :: x in r <==>
              cssSourceCode != [] && rawClassString != []
              && Highlighted(Split(cssSourceCode, '\n'), SplitOnWhitespace(rawClassString), x)
  {
    if cssSourceCode == [] || rawClassString == [] {
      return [];
    }
    var domClasses := SplitOnWhitespace(rawClassString);
    var lines := Split(cssSourceCode, '\n');
    r := LocateRules(lines, domClasses);
  }
}
