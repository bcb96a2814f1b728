/** Path strings as the consolidation command handles them: the directory key
    obtained by `str.replace`, and the order in which `sorted` lists paths. */
module Paths {

  /** What `str.replace` deletes from a configuration path to obtain its directory key. */
  const Suffix: string := "/.pyre_configuration.local"

  /** True when `pat` occurs in `s` at some position. */
  predicate Contains(s: string, pat: string)
    decreases |s|
  {
    |pat| <= |s| && (s[..|pat|] == pat || (s != [] && Contains(s[1..], pat)))
  }

  /** `s.replace(pat, "")`: every non-overlapping occurrence of `pat` is deleted,
      scanning from the left. */
  function RemoveAll(s: string, pat: string): (r: string)
    requires pat != []
    ensures |r| <= |s|
    ensures !Contains(s, pat) ==> r == s
    ensures Contains(s, pat) ==> |r| < |s|
    decreases |s|
  {
    if |s| < |pat| then s
    else if s[..|pat|] == pat then RemoveAll(s[|pat|..], pat)
    else [s[0]] + RemoveAll(s[1..], pat)
  }

  /** The directory key of a configuration path (the `existing` and `current`
      strings the grouping compares). */
  function Dir(path: string): (r: string)
    ensures |r| <= |path|
    ensures !Contains(path, Suffix) ==> r == path
  {
    RemoveAll(path, Suffix)
  }

  /** The suffix starts with its only slash, so no occurrence of it can begin
      inside a shorter occurrence of itself. */
  lemma SuffixHasNoBorder()
    ensures Suffix != [] && Suffix[0] !in Suffix[1..]
  {
    assert Suffix[1..] == ".pyre_configuration.local";
  }

  /** Deleting every occurrence of a border-free `pat` from `d + pat`, where `d`
      does not contain `pat`, gives back `d`. */
  lemma {:induction false} RemoveAllTrailing(d: string, pat: string)
    requires pat != [] && pat[0] !in pat[1..]
    requires !Contains(d, pat)
    ensures RemoveAll(d + pat, pat) == d
    decreases |d|
  {
    var s := d + pat;
    if d == [] {
      assert s[..|pat|] == pat && s[|pat|..] == [];
    } else {
      if |d| >= |pat| {
        assert s[..|pat|] == d[..|pat|];
      } else {
        assert s[|d|] == pat[0];
        assert pat[|d|] == pat[1..][|d| - 1];
        assert s[..|pat|][|d|] != pat[|d|];
      }
      assert s[1..] == d[1..] + pat;
      RemoveAllTrailing(d[1..], pat);
    }
  }

  /** The key of the configuration file of directory `d` is `d` itself. */
  lemma DirOfConfigurationPath(d: string)
    requires !Contains(d, Suffix)
    ensures Dir(d + Suffix) == d
  {
    SuffixHasNoBorder();
    RemoveAllTrailing(d, Suffix);
  }

  /** Python's `<=` on `str`: code point by code point, a prefix before its extensions. */
  predicate LexLe(a: string, b: string)
    decreases |a|
  {
    a == [] || (b != [] && (a[0] < b[0] || (a[0] == b[0] && LexLe(a[1..], b[1..]))))
  }

  lemma {:induction false} LexLeTotal(a: string, b: string)
    ensures LexLe(a, b) || LexLe(b, a)
    decreases |a|
  {
    if a != [] && b != [] && a[0] == b[0] {
      LexLeTotal(a[1..], b[1..]);
    }
  }

  /** Order is decided after a common prefix. */
  lemma {:induction false} LexLeAfterCommonPrefix(c: string, x: string, y: string)
    requires LexLe(x, y)
    ensures LexLe(c + x, c + y)
    decreases |c|
  {
    if c == [] {
      assert c + x == x && c + y == y;
    } else {
      LexLeAfterCommonPrefix(c[1..], x, y);
      assert (c + x)[0] == (c + y)[0] == c[0];
      assert (c + x)[1..] == c[1..] + x && (c + y)[1..] == c[1..] + y;
    }
  }

  /** Every path is at most its successor. */
  predicate Sorted(s: seq<string>)
  {
    forall i :: 0 < i < |s| ==> LexLe(s[i - 1], s[i])
  }

  function InsertSorted(x: string, s: seq<string>): (r: seq<string>)
    requires Sorted(s)
    ensures Sorted(r)
    ensures multiset(r) == multiset(s) + multiset{x}
    ensures r != [] && (r[0] == x || (s != [] && r[0] == s[0]))
    decreases |s|
  {
    if s == [] then [x]
    else if LexLe(x, s[0]) then [x] + s
    else
      LexLeTotal(x, s[0]);
      assert s == [s[0]] + s[1..];
      [s[0]] + InsertSorted(x, s[1..])
  }

  /** `sorted(paths)`: the same paths, in ascending order. */
  function SortPaths(paths: seq<string>): (r: seq<string>)
    ensures Sorted(r)
    ensures multiset(r) == multiset(paths)
    decreases |paths|
  {
    if paths == [] then []
    else
      assert paths == paths[..|paths| - 1] + [paths[|paths| - 1]];
      InsertSorted(paths[|paths| - 1], SortPaths(paths[..|paths| - 1]))
  }

  /** A list of paths, or of targets, without repetition. */
  predicate Distinct(s: seq<string>)
  {
    forall i, j :: 0 <= i < j < |s| ==> s[i] != s[j]
  }

  /** The two halves of a list without repetition have none, and share no path. */
  lemma DistinctConcat(a: seq<string>, b: seq<string>)
    requires Distinct(a + b)
    ensures Distinct(a) && Distinct(b)
    ensures forall x :: x in a ==> x !in b
  {
    forall i, j | 0 <= i < j < |a|
      ensures a[i] != a[j]
    {
      assert a[i] == (a + b)[i] && a[j] == (a + b)[j];
    }
    forall i, j | 0 <= i < j < |b|
      ensures b[i] != b[j]
    {
      assert b[i] == (a + b)[|a| + i] && b[j] == (a + b)[|a| + j];
    }
    forall i, j | 0 <= i < |a| && 0 <= j < |b|
      ensures a[i] != b[j]
    {
      assert a[i] == (a + b)[i] && b[j] == (a + b)[|a| + j];
    }
  }

  /** A list has no repeated path exactly when no path occurs in it twice. */
  lemma {:induction false} DistinctIffSingleCounts(s: seq<string>)
    ensures Distinct(s) <==> forall x :: multiset(s)[x] <= 1
    decreases |s|
  {
    if s != [] {
      var front, last := s[..|s| - 1], s[|s| - 1];
      assert s == front + [last];
      DistinctIffSingleCounts(front);
      if Distinct(s) {
        assert Distinct(front);
        assert last !in front;
      } else {
        var i, j :| 0 <= i < j < |s| && s[i] == s[j];
        assert multiset(s)[s[i]] >= 2 by {
          assert s == s[..j] + [s[j]] + s[j + 1..];
          assert s[i] in s[..j];
        }
      }
    }
  }

  /** Sorting keeps a list of distinct paths distinct. */
  lemma SortPathsDistinct(s: seq<string>)
    requires Distinct(s)
    ensures Distinct(SortPaths(s))
  {
    DistinctIffSingleCounts(s);
    DistinctIffSingleCounts(SortPaths(s));
  }
}
