/** The numeric sort the stylesheet locator applies to its line numbers
    (`matchedLines.sort((a, b) => a - b)`), modelled as a functional insertion
    sort. A sorted permutation of a sequence is unique, so any correct sorting
    algorithm (the JavaScript engine's included) returns the same sequence. */
module Sorting {

  predicate IsSorted(s: seq<int>) {
    forall i, j :: 0 <= i < j < |s| ==> s[i] <= s[j]
  }

  predicate IsStrictlyAscending(s: seq<int>) {
    forall i, j :: 0 <= i < j < |s| ==> s[i] < s[j]
  }

  predicate HasNoDuplicates(s: seq<int>) {
    forall i, j :: 0 <= i < j < |s| ==> s[i] != s[j]
  }

  /** Inserts `x` in front of the first element not smaller than it. */
  function Insert(x: int, s: seq<int>): (r: seq<int>)
    ensures multiset(r) == multiset(s) + multiset{x}
    ensures forall y :: y in r <==> y == x || y in s
    decreases |s|
  {
    if s == [] then [x]
    else if x <= s[0] then [x] + s
    else
      assert s == [s[0]] + s[1..];
      [s[0]] + Insert(x, s[1..])
  }

  /** A head no greater than any element of a sorted tail gives a sorted
      sequence. */
  lemma ConsSorted(h: int, t: seq<int>)
    requires IsSorted(t)
    requires forall y :: y in t ==> h <= y
    ensures IsSorted([h] + t)
  {
    var r := [h] + t;
    forall i, j | 0 <= i < j < |r|
      ensures r[i] <= r[j]
    {
      assert r[j] == t[j - 1] && t[j - 1] in t;
      if i > 0 {
        assert r[i] == t[i - 1];
      }
    }
  }

  /** Inserting into a sorted sequence keeps it sorted. */
  lemma {:induction false} InsertSorted(x: int, s: seq<int>)
    requires IsSorted(s)
    ensures IsSorted(Insert(x, s))
    decreases |s|
  {
    if s == [] {
    } else if x <= s[0] {
      ConsSorted(x, s);
    } else {
      var tail := s[1..];
      assert IsSorted(tail) by {
        forall i, j | 0 <= i < j < |tail|
          ensures tail[i] <= tail[j]
        {
          assert tail[i] == s[i + 1] && tail[j] == s[j + 1];
        }
      }
      InsertSorted(x, tail);
      forall y | y in tail
        ensures s[0] <= y
      {
        var k :| 0 <= k < |tail| && tail[k] == y;
        assert s[k + 1] == y;
      }
      ConsSorted(s[0], Insert(x, tail));
    }
  }

  /** Sorts ascending: the result is a sorted permutation of the input. */
  function Sort(s: seq<int>): (r: seq<int>)
    ensures IsSorted(r)
    ensures multiset(r) == multiset(s)
    decreases |s|
  {
    if s == [] then []
    else
      assert s == [s[0]] + s[1..];
      InsertSorted(s[0], Sort(s[1..]));
      Insert(s[0], Sort(s[1..]))
  }

  /** Two sorted sequences holding the same multiset of values are equal, so
      the model's sort and any other correct sort agree. */
  lemma {:induction false} SortedUnique(a: seq<int>, b: seq<int>)
    requires IsSorted(a) && IsSorted(b)
    requires multiset(a) == multiset(b)
    ensures a == b
    decreases |a|
  {
    assert |a| == |multiset(a)| == |multiset(b)| == |b|;
    if a != [] {
      assert a[0] in b && b[0] in a by {
        assert a[0] in multiset(b) && b[0] in multiset(a);
      }
      assert a[0] == b[0] by {
        SortedHeadIsLeast(a, b[0]);
        SortedHeadIsLeast(b, a[0]);
      }
      MultisetTail(a);
      MultisetTail(b);
      SortedTail(a);
      SortedTail(b);
      SortedUnique(a[1..], b[1..]);
    }
  }

  lemma MultisetTail(s: seq<int>)
    requires s != []
    ensures multiset(s[1..]) == multiset(s) - multiset{s[0]}
  {
    assert s == [s[0]] + s[1..];
  }

  lemma SortedHeadIsLeast(s: seq<int>, y: int)
    requires IsSorted(s) && y in s
    ensures s[0] <= y
  {
  }

  lemma SortedTail(s: seq<int>)
    requires IsSorted(s) && s != []
    ensures IsSorted(s[1..])
  {
    var tail := s[1..];
    forall i, j | 0 <= i < j < |tail|
      ensures tail[i] <= tail[j]
    {
      assert tail[i] == s[i + 1] && tail[j] == s[j + 1];
    }
  }

  /** Inserting a new value into a strictly ascending sequence keeps it
      strictly ascending. */
  lemma {:induction false} InsertStrict(x: int, s: seq<int>)
    requires IsStrictlyAscending(s) && x !in s
    ensures IsStrictlyAscending(Insert(x, s))
    decreases |s|
  {
    if s != [] && x > s[0] {
      var t := Insert(x, s[1..]);
      InsertStrict(x, s[1..]);
      forall k | 0 <= k < |t|
        ensures s[0] < t[k]
      {
        assert t[k] in t;
      }
      var r := [s[0]] + t;
      forall i, j | 0 <= i < j < |r|
        ensures r[i] < r[j]
      {
        assert r[j] == t[j - 1];
        if i > 0 {
          assert r[i] == t[i - 1];
        }
      }
    }
  }

  /** Sorting a duplicate-free sequence yields a strictly ascending one. */
  lemma {:induction false} SortStrict(s: seq<int>)
    requires HasNoDuplicates(s)
    ensures IsStrictlyAscending(Sort(s))
    decreases |s|
  {
    if s != [] {
      var tail := s[1..];
      assert HasNoDuplicates(tail) by {
        forall i, j | 0 <= i < j < |tail|
          ensures tail[i] != tail[j]
        {
          assert tail[i] == s[i + 1] && tail[j] == s[j + 1];
        }
      }
      SortStrict(tail);
      assert s[0] !in tail by {
        forall k | 0 <= k < |tail|
          ensures tail[k] != s[0]
        {
          assert tail[k] == s[k + 1];
        }
      }
      assert s[0] !in Sort(tail) by {
        assert multiset(Sort(tail)) == multiset(tail);
        assert s[0] !in multiset(tail);
      }
      InsertStrict(s[0], Sort(tail));
    }
  }
}
