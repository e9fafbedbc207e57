/** String helpers shared by both locators: ASCII whitespace, lower-casing,
    substring search, `trim`, the whitespace-collapsing `normalize`, and
    splitting/joining on a separator. Strings are `seq<char>`; only the ASCII
    subset of JavaScript's `\s` and `toLowerCase` is modelled. */
module Text {

  import opened Wrappers

  /** JavaScript's `\s` restricted to ASCII: space, tab, line feed, vertical
      tab, form feed and carriage return. */
  predicate IsWhitespace(c: char) {
    c == ' ' || '\t' <= c <= '\r'
  }

  predicate IsAsciiAlnum(c: char) {
    'a' <= c <= 'z' || 'A' <= c <= 'Z' || '0' <= c <= '9'
  }

  /** ASCII `toLowerCase` on one character. */
  function Lower(c: char): char {
    if 'A' <= c <= 'Z' then (c as int + 32) as char else c
  }

  function LowerStr(s: string): (r: string)
    ensures |r| == |s| && forall i :: 0 <= i < |s| ==> r[i] == Lower(s[i])
  {
    seq(|s|, i requires 0 <= i < |s| => Lower(s[i]))
  }

  /** Whether a character lies beyond the Basic Multilingual Plane, where
      UTF-16 needs a surrogate pair for it. */
  predicate IsAstral(c: char) {
    c as int > 0xFFFF
  }

  /** JavaScript's `.length`: the number of UTF-16 code units of `s`. */
  function Utf16Length(s: string): (n: nat)
    ensures |s| <= n <= 2 * |s|
    ensures n == |s| <==> forall i :: 0 <= i < |s| ==> !IsAstral(s[i])
    ensures n == 2 * |s| <==> forall i :: 0 <= i < |s| ==> IsAstral(s[i])
  {
    if s == [] then 0
    else
      var rest := Utf16Length(s[1..]);
      assert forall i :: 1 <= i < |s| ==> s[i] == s[1..][i - 1];
      (if IsAstral(s[0]) then 2 else 1) + rest
  }

  predicate IsPrefix(p: string, s: string) {
    |p| <= |s| && s[..|p|] == p
  }

  /** `sub` occurs in `s` starting at index `i`. */
  predicate OccursAt(s: string, sub: string, i: int) {
    0 <= i && i + |sub| <= |s| && s[i..i + |sub|] == sub
  }

  /** JavaScript's `s.includes(sub)`; the empty string is contained in every string. */
  predicate Contains(s: string, sub: string) {
    exists i | 0 <= i <= |s| - |sub| :: OccursAt(s, sub, i)
  }

  lemma ContainsChar(s: string, c: char)
    ensures Contains(s, [c]) <==> c in s
  {
    if c in s {
      var i :| 0 <= i < |s| && s[i] == c;
      assert OccursAt(s, [c], i);
    }
    if Contains(s, [c]) {
      var i :| 0 <= i <= |s| - 1 && OccursAt(s, [c], i);
      assert s[i] == s[i..i + 1][0];
    }
  }

  /** Every slice of a string is contained in it. */
  lemma ContainsSliceOf(s: string, lo: int, hi: int)
    requires 0 <= lo <= hi <= |s|
    ensures Contains(s, s[lo..hi])
  {
    assert OccursAt(s, s[lo..hi], lo);
  }

  /** Containment is transitive. */
  lemma ContainsTransitive(a: string, b: string, c: string)
    requires Contains(a, b) && Contains(b, c)
    ensures Contains(a, c)
  {
    var i :| 0 <= i <= |a| - |b| && OccursAt(a, b, i);
    var j :| 0 <= j <= |b| - |c| && OccursAt(b, c, j);
    forall k | 0 <= k < |c|
      ensures a[i + j + k] == c[k]
    {
      assert a[i..i + |b|][j + k] == b[j + k];
      assert b[j..j + |c|][k] == c[k];
    }
    assert a[i + j..i + j + |c|] == c;
    assert OccursAt(a, c, i + j);
  }

  /** Contains is inherited by every superstring around the given slice. */
  lemma ContainsSlice(s: string, sub: string, lo: int, hi: int)
    requires 0 <= lo <= hi <= |s| && Contains(s[lo..hi], sub)
    ensures Contains(s, sub)
  {
    ContainsSliceOf(s, lo, hi);
    ContainsTransitive(s, s[lo..hi], sub);
  }

  lemma OccursAtChar(s: string, c: char, i: int)
    ensures OccursAt(s, [c], i) <==> 0 <= i < |s| && s[i] == c
  {
    if 0 <= i < |s| {
      assert s[i..i + 1] == [s[i]];
    }
  }

  /** `s.indexOf(sub, p)`: the first occurrence of `sub` at or after `p`. */
  function IndexOfFrom(s: string, sub: string, p: nat): (r: Option<nat>)
    ensures r.Some? ==> p <= r.value && OccursAt(s, sub, r.value)
    ensures r.Some? ==> forall m :: p <= m < r.value ==> !OccursAt(s, sub, m)
    ensures r.None? ==> forall m :: p <= m ==> !OccursAt(s, sub, m)
    decreases |s| - p
  {
    if p + |sub| > |s| then None
    else if OccursAt(s, sub, p) then Some(p)
    else IndexOfFrom(s, sub, p + 1)
  }

  /** `s.lastIndexOf(c)` for one character. */
  function LastIndexOf(s: string, c: char): (r: Option<nat>)
    ensures r.Some? ==> r.value < |s| && s[r.value] == c
    ensures r.Some? ==> forall m :: r.value < m < |s| ==> s[m] != c
    ensures r.None? ==> forall m :: 0 <= m < |s| ==> s[m] != c
    decreases |s|
  {
    if s == [] then None
    else if s[|s| - 1] == c then Some(|s| - 1)
    else LastIndexOf(s[..|s| - 1], c)
  }

  // ---------------------------------------------------------------------------
  // trim

  /** The number of leading whitespace characters of `s`. */
  function LeadingWhitespace(s: string): (n: nat)
    ensures n <= |s|
    ensures forall i :: 0 <= i < n ==> IsWhitespace(s[i])
    ensures n < |s| ==> !IsWhitespace(s[n])
    decreases |s|
  {
    if |s| > 0 && IsWhitespace(s[0]) then 1 + LeadingWhitespace(s[1..]) else 0
  }

  /** The number of trailing whitespace characters of `s`. */
  function TrailingWhitespace(s: string): (n: nat)
    ensures n <= |s|
    ensures forall i :: |s| - n <= i < |s| ==> IsWhitespace(s[i])
    ensures n < |s| ==> !IsWhitespace(s[|s| - n - 1])
    decreases |s|
  {
    if |s| > 0 && IsWhitespace(s[|s| - 1]) then 1 + TrailingWhitespace(s[..|s| - 1]) else 0
  }

  /** Drops the leading whitespace (`trimStart`). */
  function TrimStart(s: string): (r: string)
    ensures |r| <= |s| && r == s[|s| - |r|..]
    ensures forall i :: 0 <= i < |s| - |r| ==> IsWhitespace(s[i])
    ensures |r| > 0 ==> !IsWhitespace(r[0])
  {
    s[LeadingWhitespace(s)..]
  }

  /** Drops the trailing whitespace (`trimEnd`). */
  function TrimEnd(s: string): (r: string)
    ensures |r| <= |s| && r == s[..|r|]
    ensures forall i :: |r| <= i < |s| ==> IsWhitespace(s[i])
    ensures |r| > 0 ==> !IsWhitespace(r[|r| - 1])
  {
    s[..|s| - TrailingWhitespace(s)]
  }

  /** `r` is `s` with `a` whitespace characters removed in front and only
      whitespace removed behind. */
  predicate IsTrimOf(s: string, r: string, a: int) {
    0 <= a <= |s| - |r| && r == s[a..a + |r|]
    && (forall i :: 0 <= i < a ==> IsWhitespace(s[i]))
    && (forall i :: a + |r| <= i < |s| ==> IsWhitespace(s[i]))
  }

  /** JavaScript's `String.prototype.trim`. */
  function Trim(s: string): (r: string)
    ensures IsTrimOf(s, r, LeadingWhitespace(s))
    ensures |r| > 0 ==> !IsWhitespace(r[0]) && !IsWhitespace(r[|r| - 1])
  {
    TrimEnd(TrimStart(s))
  }

  /** The trim of a string is contained in it. */
  lemma ContainsTrim(s: string)
    ensures Contains(s, Trim(s))
  {
    var r := Trim(s);
    assert OccursAt(s, r, LeadingWhitespace(s));
  }

  /** A string with no whitespace at either end is its own trim. */
  lemma TrimFixed(s: string)
    requires |s| > 0 ==> !IsWhitespace(s[0]) && !IsWhitespace(s[|s| - 1])
    ensures Trim(s) == s
  {
    assert TrimStart(s) == s;
    assert TrimEnd(s) == s;
  }

  // ---------------------------------------------------------------------------
  // normalize

  /** Every whitespace character is a plain space and no two are adjacent. */
  predicate IsCollapsed(s: string) {
    (forall i :: 0 <= i < |s| && IsWhitespace(s[i]) ==> s[i] == ' ') &&
    (forall i :: 0 <= i < |s| - 1 ==> !(IsWhitespace(s[i]) && IsWhitespace(s[i + 1])))
  }

  /** The shape `normalize` produces: collapsed, and trimmed at both ends. */
  predicate IsNormal(s: string) {
    IsCollapsed(s) && (|s| > 0 ==> !IsWhitespace(s[0]) && !IsWhitespace(s[|s| - 1]))
  }

  /** `s.replace(/\s+/g, " ")`: every maximal run of whitespace becomes one space. */
  function Collapse(s: string): (r: string)
    ensures IsCollapsed(r)
    ensures |r| > 0 && IsWhitespace(r[0]) <==> |s| > 0 && IsWhitespace(s[0])
    decreases |s|
  {
    if s == [] then []
    else if IsWhitespace(s[0]) then [' '] + Collapse(TrimStart(s))
    else [s[0]] + Collapse(s[1..])
  }

  /** A slice of a collapsed string is collapsed. */
  lemma CollapsedSlice(s: string, lo: int, hi: int)
    requires IsCollapsed(s) && 0 <= lo <= hi <= |s|
    ensures IsCollapsed(s[lo..hi])
  {
    var t := s[lo..hi];
    forall i | 0 <= i < |t| - 1
      ensures !(IsWhitespace(t[i]) && IsWhitespace(t[i + 1]))
    {
      assert t[i] == s[lo + i] && t[i + 1] == s[lo + i + 1];
    }
  }

  /** The source's `normalize`: `str ? str.replace(/\s+/g, " ").trim() : ""`.
      An absent argument is modelled by the empty string, which both branches
      map to "". */
  function Normalize(s: string): (r: string)
    ensures IsNormal(r)
  {
    var c := Collapse(s);
    var r := Trim(c);
    var a := LeadingWhitespace(c);
    CollapsedSlice(c, a, a + |r|);
    r
  }

  /** Collapsing a string that is already collapsed changes nothing. */
  lemma {:induction false} CollapseFixed(s: string)
    requires IsCollapsed(s)
    ensures Collapse(s) == s
    decreases |s|
  {
    if s != [] {
      var tail := s[1..];
      CollapsedSlice(s, 1, |s|);
      CollapseFixed(tail);
      if IsWhitespace(s[0]) {
        assert |tail| > 0 ==> !IsWhitespace(tail[0]) by {
          if |tail| > 0 {
            assert tail[0] == s[1];
          }
        }
        assert TrimStart(tail) == tail;
        assert TrimStart(s) == tail;
        assert Collapse(s) == [' '] + tail;
        assert s[0] == ' ';
      } else {
        assert Collapse(s) == [s[0]] + tail;
      }
      assert s == [s[0]] + tail;
    }
  }

  /** The leading whitespace ends at the first other character. */
  lemma LeadingWhitespaceIs(s: string, n: nat)
    requires n <= |s| && forall i :: 0 <= i < n ==> IsWhitespace(s[i])
    requires n < |s| ==> !IsWhitespace(s[n])
    ensures LeadingWhitespace(s) == n
  {
  }

  /** The trailing whitespace starts after the last other character. */
  lemma TrailingWhitespaceIs(s: string, n: nat)
    requires n <= |s| && forall i :: |s| - n <= i < |s| ==> IsWhitespace(s[i])
    requires n < |s| ==> !IsWhitespace(s[|s| - n - 1])
    ensures TrailingWhitespace(s) == n
  {
  }

  /** A whitespace run followed by a word (or by nothing) collapses to one
      space in front of the word. */
  lemma CollapseWhitespaceRun(w: string, b: string)
    requires |w| > 0 && forall i :: 0 <= i < |w| ==> IsWhitespace(w[i])
    requires b == [] || !IsWhitespace(b[0])
    ensures Collapse(w + b) == [' '] + Collapse(b)
  {
    LeadingWhitespaceIs(w + b, |w|);
    assert TrimStart(w + b) == b;
  }

  /** Collapsing works piecewise on a concatenation whose seam does not fall
      inside a whitespace run. */
  lemma {:induction false} CollapseAppend(a: string, b: string)
    requires a == [] || b == [] || !IsWhitespace(a[|a| - 1]) || !IsWhitespace(b[0])
    ensures Collapse(a + b) == Collapse(a) + Collapse(b)
    decreases |a|
  {
    if a == [] {
      assert a + b == b;
    } else if !IsWhitespace(a[0]) {
      CollapseAppend(a[1..], b);
      CollapseWordStep(a, b);
    } else if LeadingWhitespace(a) == |a| {
      CollapseRunAtSeam(a, b);
    } else {
      var t := TrimStart(a);
      assert t[|t| - 1] == a[|a| - 1];
      CollapseAppend(t, b);
      CollapseRunStep(a, b);
    }
  }

  /** A front that is one whitespace run, followed by a word or nothing. */
  lemma CollapseRunAtSeam(a: string, b: string)
    requires |a| > 0 && forall i :: 0 <= i < |a| ==> IsWhitespace(a[i])
    requires b == [] || !IsWhitespace(b[0])
    ensures Collapse(a + b) == Collapse(a) + Collapse(b)
  {
    CollapseWhitespaceRun(a, b);
    CollapseRunAlone(a);
  }

  /** A text that is one whitespace run collapses to a single space. */
  lemma CollapseRunAlone(w: string)
    requires |w| > 0 && forall i :: 0 <= i < |w| ==> IsWhitespace(w[i])
    ensures Collapse(w) == " "
  {
    CollapseWhitespaceRun(w, []);
    assert w + [] == w;
  }

  /** One step of the collapse over a word character in front. */
  lemma CollapseWordStep(a: string, b: string)
    requires |a| > 0 && !IsWhitespace(a[0])
    requires Collapse(a[1..] + b) == Collapse(a[1..]) + Collapse(b)
    ensures Collapse(a + b) == Collapse(a) + Collapse(b)
  {
    DropAppend(a, b);
    AppendAssoc([a[0]], Collapse(a[1..]), Collapse(b));
  }

  /** Dropping the first character of a concatenation with a non-empty front. */
  lemma DropAppend(a: string, b: string)
    requires |a| > 0
    ensures (a + b)[0] == a[0] && (a + b)[1..] == a[1..] + b
  {
  }

  /** One step of the collapse over a leading whitespace run that does not
      reach the seam. */
  lemma CollapseRunStep(a: string, b: string)
    requires |a| > 0 && IsWhitespace(a[0]) && LeadingWhitespace(a) < |a|
    requires Collapse(TrimStart(a) + b) == Collapse(TrimStart(a)) + Collapse(b)
    ensures Collapse(a + b) == Collapse(a) + Collapse(b)
  {
    TrimStartAppend(a, b);
    AppendAssoc([' '], Collapse(TrimStart(a)), Collapse(b));
  }

  /** Trimming the start of a concatenation whose front is not all whitespace
      trims the front only. */
  lemma TrimStartAppend(a: string, b: string)
    requires |a| > 0 && LeadingWhitespace(a) < |a|
    ensures (a + b)[0] == a[0] && TrimStart(a + b) == TrimStart(a) + b
  {
    var n := LeadingWhitespace(a);
    FrontWhitespace(a, b, n);
    LeadingWhitespaceIs(a + b, n);
    DropAppendAt(a, b, n);
  }

  /** The leading run of `a` is also the leading run of `a + b` when it stops
      inside `a`. */
  lemma FrontWhitespace(a: string, b: string, n: nat)
    requires n < |a| && !IsWhitespace(a[n])
    requires forall i :: 0 <= i < n ==> IsWhitespace(a[i])
    ensures (a + b)[0] == a[0] && !IsWhitespace((a + b)[n])
    ensures forall i :: 0 <= i < n ==> IsWhitespace((a + b)[i])
  {
  }

  lemma DropAppendAt(a: string, b: string, n: nat)
    requires n <= |a|
    ensures (a + b)[n..] == a[n..] + b
  {
  }

  /** The collapse keeps word breaks: a whitespace run between two words
      becomes exactly one space, in its place. */
  lemma CollapseJoinsWords(a: string, w: string, b: string)
    requires a == [] || !IsWhitespace(a[|a| - 1])
    requires |w| > 0 && forall i :: 0 <= i < |w| ==> IsWhitespace(w[i])
    requires b == [] || !IsWhitespace(b[0])
    ensures Collapse(a + w + b) == Collapse(a) + " " + Collapse(b)
  {
    AppendAssoc(a, w, b);
    CollapseAppend(a, w + b);
    CollapseWhitespaceRun(w, b);
    AppendAssoc(Collapse(a), " ", Collapse(b));
  }

  /** Concatenation regrouped, stated once so that callers need not argue it
      element by element. */
  lemma AppendAssoc(a: string, b: string, c: string)
    ensures a + b + c == a + (b + c)
  {
  }

  /** A string ending in a word collapses to one ending in that character. */
  lemma CollapseEndsInWord(a: string)
    requires |a| > 0 && !IsWhitespace(a[|a| - 1])
    ensures |Collapse(a)| > 0 && Collapse(a)[|Collapse(a)| - 1] == a[|a| - 1]
  {
    var c := [a[|a| - 1]];
    assert a == a[..|a| - 1] + c;
    CollapseAppend(a[..|a| - 1], c);
    assert Collapse(c) == c + Collapse(c[1..]);
  }

  /** The trim of a text is its middle slice `lo..hi` when only whitespace lies
      outside it and none at its ends. */
  lemma TrimIsSlice(s: string, lo: nat, hi: nat)
    requires lo < hi <= |s|
    requires forall i :: 0 <= i < lo ==> IsWhitespace(s[i])
    requires forall i :: hi <= i < |s| ==> IsWhitespace(s[i])
    requires !IsWhitespace(s[lo]) && !IsWhitespace(s[hi - 1])
    ensures Trim(s) == s[lo..hi]
  {
    LeadingWhitespaceIs(s, lo);
    var t := s[lo..];
    TrailingWhitespaceIs(t, |s| - hi);
    assert t[..|t| - (|s| - hi)] == s[lo..hi];
  }

  /** `normalize` keeps word breaks: two words separated by a whitespace run
      normalize to the two normalized words with one space between them. */
  lemma NormalizeJoinsWords(a: string, w: string, b: string)
    requires |a| > 0 && !IsWhitespace(a[|a| - 1])
    requires |w| > 0 && forall i :: 0 <= i < |w| ==> IsWhitespace(w[i])
    requires |b| > 0 && !IsWhitespace(b[0])
    ensures Normalize(a + w + b) == Normalize(a) + " " + Normalize(b)
  {
    CollapseJoinsWords(a, w, b);
    CollapseEndsInWord(a);
    TrimJoin(Collapse(a), Collapse(b));
  }

  /** Trimming two words joined by one space trims each of them. */
  lemma TrimJoin(x: string, y: string)
    requires |x| > 0 && !IsWhitespace(x[|x| - 1])
    requires |y| > 0 && !IsWhitespace(y[0])
    ensures Trim(x + " " + y) == Trim(x) + " " + Trim(y)
  {
    var lo := LeadingWhitespace(x);
    var t := TrailingWhitespace(y);
    var s := x + " " + y;
    WordEndsBound(x, y);
    calc {
      Trim(s);
      { JoinedTrimIsSlice(x, y, lo, t); }
      s[lo..|s| - t];
      { SliceOfJoin(x, y, lo, t); }
      x[lo..|x|] + " " + y[..|y| - t];
      { TrimBeforeWordEnd(x); TrimAfterWordStart(y); }
      Trim(x) + " " + Trim(y);
    }
  }

  /** A text ending in a word loses only its leading whitespace to `trim`. */
  lemma TrimBeforeWordEnd(x: string)
    requires |x| > 0 && !IsWhitespace(x[|x| - 1])
    ensures Trim(x) == x[LeadingWhitespace(x)..|x|]
  {
    TrimIsSlice(x, LeadingWhitespace(x), |x|);
  }

  /** A text starting with a word loses only its trailing whitespace to `trim`. */
  lemma TrimAfterWordStart(y: string)
    requires |y| > 0 && !IsWhitespace(y[0])
    ensures Trim(y) == y[..|y| - TrailingWhitespace(y)]
  {
    LeadingWhitespaceIs(y, 0);
    assert TrimStart(y) == y;
  }

  lemma JoinedTrimIsSlice(x: string, y: string, lo: nat, t: nat)
    requires lo < |x| && t < |y|
    requires forall i :: 0 <= i < lo ==> IsWhitespace(x[i])
    requires forall i :: |y| - t <= i < |y| ==> IsWhitespace(y[i])
    requires !IsWhitespace(x[lo]) && !IsWhitespace(y[|y| - t - 1])
    ensures var s := x + " " + y; Trim(s) == s[lo..|s| - t]
  {
    JoinedEnds(x, y, lo, t);
    TrimIsSlice(x + " " + y, lo, |x + " " + y| - t);
  }

  /** A text ending in a word is not all leading whitespace, and one starting
      with a word is not all trailing whitespace. */
  lemma WordEndsBound(x: string, y: string)
    requires |x| > 0 && !IsWhitespace(x[|x| - 1])
    requires |y| > 0 && !IsWhitespace(y[0])
    ensures LeadingWhitespace(x) < |x| && !IsWhitespace(x[LeadingWhitespace(x)])
    ensures TrailingWhitespace(y) < |y| && !IsWhitespace(y[|y| - TrailingWhitespace(y) - 1])
  {
  }

  /** Outside `lo..|x| + 1 + |y| - t` the joined text is the whitespace of the
      two ends. */
  lemma JoinedEnds(x: string, y: string, lo: nat, t: nat)
    requires lo < |x| && t < |y|
    requires forall i :: 0 <= i < lo ==> IsWhitespace(x[i])
    requires forall i :: |y| - t <= i < |y| ==> IsWhitespace(y[i])
    requires !IsWhitespace(x[lo]) && !IsWhitespace(y[|y| - t - 1])
    ensures var s := x + " " + y;
            && (forall i :: 0 <= i < lo ==> IsWhitespace(s[i]))
            && (forall i :: |s| - t <= i < |s| ==> IsWhitespace(s[i]))
            && !IsWhitespace(s[lo]) && !IsWhitespace(s[|s| - t - 1])
  {
    var s := x + " " + y;
    forall i | 0 <= i < lo
      ensures IsWhitespace(s[i])
    {
      assert s[i] == x[i];
    }
    forall i | |s| - t <= i < |s|
      ensures IsWhitespace(s[i])
    {
      assert s[i] == y[i - |x| - 1];
    }
    assert s[lo] == x[lo];
    assert s[|s| - t - 1] == y[|y| - t - 1];
  }

  lemma SliceOfJoin(x: string, y: string, lo: nat, t: nat)
    requires lo <= |x| && t <= |y|
    ensures var s := x + " " + y; s[lo..|s| - t] == x[lo..|x|] + " " + y[..|y| - t]
  {
  }

  /** Normalizing twice is the same as normalizing once. */
  lemma NormalizeIdempotent(s: string)
    ensures Normalize(Normalize(s)) == Normalize(s)
  {
    var n := Normalize(s);
    CollapseFixed(n);
    TrimFixed(n);
  }

  /** A string that is already in normal form is left unchanged. */
  lemma NormalizeFixed(s: string)
    requires IsNormal(s)
    ensures Normalize(s) == s
  {
    CollapseFixed(s);
    TrimFixed(s);
  }

  /** The non-whitespace characters of a string, in order. */
  function NonWhitespace(s: string): string {
    if s == [] then []
    else if IsWhitespace(s[0]) then NonWhitespace(s[1..])
    else [s[0]] + NonWhitespace(s[1..])
  }

  lemma {:induction false} NonWhitespaceAppend(a: string, b: string)
    ensures NonWhitespace(a + b) == NonWhitespace(a) + NonWhitespace(b)
    decreases |a|
  {
    if a == [] {
      assert a + b == b;
    } else {
      assert (a + b)[1..] == a[1..] + b;
      NonWhitespaceAppend(a[1..], b);
    }
  }

  lemma {:induction false} NonWhitespaceAllWhitespace(s: string)
    requires forall i :: 0 <= i < |s| ==> IsWhitespace(s[i])
    ensures NonWhitespace(s) == []
    decreases |s|
  {
    if s != [] {
      NonWhitespaceAllWhitespace(s[1..]);
    }
  }

  lemma TrimStartKeepsContent(s: string)
    ensures NonWhitespace(TrimStart(s)) == NonWhitespace(s)
  {
    var t := TrimStart(s);
    var k := |s| - |t|;
    assert s == s[..k] + t;
    NonWhitespaceAppend(s[..k], t);
    NonWhitespaceAllWhitespace(s[..k]);
  }

  lemma {:induction false} CollapseKeepsContent(s: string)
    ensures NonWhitespace(Collapse(s)) == NonWhitespace(s)
    decreases |s|
  {
    if s == [] {
    } else if IsWhitespace(s[0]) {
      var t := TrimStart(s);
      var c := Collapse(t);
      assert Collapse(s) == [' '] + c;
      assert ([' '] + c)[1..] == c;
      CollapseKeepsContent(t);
      TrimStartKeepsContent(s);
    } else {
      var c := Collapse(s[1..]);
      assert Collapse(s) == [s[0]] + c;
      assert ([s[0]] + c)[1..] == c;
      CollapseKeepsContent(s[1..]);
    }
  }

  lemma TrimEndKeepsContent(s: string)
    ensures NonWhitespace(TrimEnd(s)) == NonWhitespace(s)
  {
    var t := TrimEnd(s);
    assert s == t + s[|t|..];
    NonWhitespaceAppend(t, s[|t|..]);
    NonWhitespaceAllWhitespace(s[|t|..]);
  }

  lemma TrimKeepsContent(s: string)
    ensures NonWhitespace(Trim(s)) == NonWhitespace(s)
  {
    TrimStartKeepsContent(s);
    TrimEndKeepsContent(TrimStart(s));
  }

  /** Normalizing never drops, adds or reorders a non-whitespace character. */
  lemma NormalizeKeepsContent(s: string)
    ensures NonWhitespace(Normalize(s)) == NonWhitespace(s)
  {
    CollapseKeepsContent(s);
    TrimKeepsContent(Collapse(s));
  }

  // ---------------------------------------------------------------------------
  // split and join

  /** `parts.join(sep)`. */
  function Join(parts: seq<string>, sep: char): string
    decreases |parts|
  {
    if |parts| == 0 then []
    else if |parts| == 1 then parts[0]
    else parts[0] + [sep] + Join(parts[1..], sep)
  }

  /** Prepending to the first part prepends to the joined string. */
  lemma JoinConsHead(c: char, parts: seq<string>, sep: char)
    requires |parts| >= 1
    ensures Join([[c] + parts[0]] + parts[1..], sep) == [c] + Join(parts, sep)
  {
    var q := [[c] + parts[0]] + parts[1..];
    assert q[1..] == parts[1..];
  }

  /** `s.split(sep)` for a one-character separator: the pieces between
      successive separators, always at least one piece. */
  function Split(s: string, sep: char): (r: seq<string>)
    ensures |r| >= 1
    ensures forall k :: 0 <= k < |r| ==> sep !in r[k]
    decreases |s|
  {
    if s == [] then [[]]
    else if s[0] == sep then [[]] + Split(s[1..], sep)
    else
      var t := Split(s[1..], sep);
      [[s[0]] + t[0]] + t[1..]
  }

  /** Joining the pieces back with the separator restores the text. */
  lemma {:induction false} JoinSplit(s: string, sep: char)
    ensures Join(Split(s, sep), sep) == s
    decreases |s|
  {
    if s == [] {
    } else if s[0] == sep {
      var t := Split(s[1..], sep);
      JoinSplit(s[1..], sep);
      assert ([[]] + t)[1..] == t;
    } else {
      var t := Split(s[1..], sep);
      JoinSplit(s[1..], sep);
      JoinConsHead(s[0], t, sep);
    }
  }

  /** Splitting a join of separator-free pieces gives the pieces back. */
  lemma {:induction false} SplitJoin(parts: seq<string>, sep: char)
    requires |parts| >= 1
    requires forall k :: 0 <= k < |parts| ==> sep !in parts[k]
    ensures Split(Join(parts, sep), sep) == parts
    decreases |parts|, |parts[0]|
  {
    var p := parts[0];
    if p == [] {
      if |parts| == 1 {
      } else {
        var rest := Join(parts[1..], sep);
        assert Join(parts, sep) == [sep] + rest;
        assert ([sep] + rest)[1..] == rest;
        SplitJoin(parts[1..], sep);
      }
    } else {
      var q := [p[1..]] + parts[1..];
      assert q[1..] == parts[1..];
      assert forall k :: 0 <= k < |q| ==> sep !in q[k] by {
        forall k | 0 <= k < |q| ensures sep !in q[k] {
          if k == 0 {
            assert forall c :: c in p[1..] ==> c in p;
          } else {
            assert q[k] == parts[k];
          }
        }
      }
      SplitJoin(q, sep);
      JoinConsHead(p[0], q, sep);
      assert [p[0]] + p[1..] == p;
      assert [[p[0]] + q[0]] + q[1..] == parts;
      var j := Join(parts, sep);
      assert j == [p[0]] + Join(q, sep);
      assert j[1..] == Join(q, sep);
      assert j[0] == p[0] && p[0] != sep;
    }
  }

  predicate HasNoWhitespace(s: string) {
    forall i :: 0 <= i < |s| ==> !IsWhitespace(s[i])
  }

  /** `s.split(/\s+/)`: the pieces between maximal whitespace runs. A leading
      or trailing run yields an empty first or last piece, as in JavaScript. */
  function SplitOnWhitespace(s: string): (r: seq<string>)
    ensures |r| >= 1
    ensures forall k :: 0 <= k < |r| ==> HasNoWhitespace(r[k])
    decreases |s|
  {
    if s == [] then [[]]
    else if IsWhitespace(s[0]) then [[]] + SplitOnWhitespace(TrimStart(s))
    else
      var t := SplitOnWhitespace(s[1..]);
      [[s[0]] + t[0]] + t[1..]
  }

  /** Splitting on whitespace runs and joining with one space is exactly the
      whitespace collapse that `normalize` performs. */
  lemma {:induction false} SplitOnWhitespaceJoin(s: string)
    ensures Join(SplitOnWhitespace(s), ' ') == Collapse(s)
    decreases |s|
  {
    if s == [] {
    } else if IsWhitespace(s[0]) {
      var u := TrimStart(s);
      var t := SplitOnWhitespace(u);
      SplitOnWhitespaceJoin(u);
      assert SplitOnWhitespace(s) == [[]] + t;
      assert ([[]] + t)[1..] == t;
      assert Join([[]] + t, ' ') == [' '] + Join(t, ' ');
      assert Collapse(s) == [' '] + Collapse(u);
    } else {
      var t := SplitOnWhitespace(s[1..]);
      SplitOnWhitespaceJoin(s[1..]);
      assert SplitOnWhitespace(s) == [[s[0]] + t[0]] + t[1..];
      JoinConsHead(s[0], t, ' ');
      assert Collapse(s) == [s[0]] + Collapse(s[1..]);
    }
  }
  /** The pieces of `split(/\s+/)` are the pieces of the collapsed text
      between its single spaces: each whitespace run is one break. */
  lemma SplitOnWhitespaceIsSplitOfCollapse(s: string)
    ensures SplitOnWhitespace(s) == Split(Collapse(s), ' ')
  {
    var r := SplitOnWhitespace(s);
    SplitOnWhitespaceJoin(s);
    forall k | 0 <= k < |r|
      ensures ' ' !in r[k]
    {
      assert IsWhitespace(' ');
    }
    SplitJoin(r, ' ');
  }
}
