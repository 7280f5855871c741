/**
 The string operations the importer relies on, written out: Python's
 `str.split(sep)`, `str.strip()`, `os.path.basename` (POSIX) and the
 code-point lexicographic order that `sorted` uses on strings.
 */
module Strings {

  /* ---------------------------------------------------------------------
     str.split(sep)
     --------------------------------------------------------------------- */

  /** Python's `s.split(sep)` for a one-character separator: the pieces
      between separators, so never an empty list and no piece holds `sep`. */
  function Split(s: string, sep: char): (r: seq<string>)
    ensures |r| >= 1
    ensures forall i :: 0 <= i < |r| ==> sep !in r[i]
    ensures |r[0]| <= |s| && r[0] == s[..|r[0]|]
    ensures |r[0]| < |s| ==> s[|r[0]|] == sep
    decreases |s|
  {
    if |s| == 0 then [""]
    else
      var rest := Split(s[1..], sep);
      if s[0] == sep then [""] + rest
      else [[s[0]] + rest[0]] + rest[1..]
  }

  /** `sep.join(parts)`, the inverse of `Split`. */
  function Join(parts: seq<string>, sep: char): string
    requires |parts| >= 1
  {
    if |parts| == 1 then parts[0] else parts[0] + [sep] + Join(parts[1..], sep)
  }

  /** Splitting and joining again gives back the original string. */
  lemma {:induction false} JoinSplit(s: string, sep: char)
    ensures Join(Split(s, sep), sep) == s
    decreases |s|
  {
    if |s| > 0 {
      JoinSplit(s[1..], sep);
      var rest := Split(s[1..], sep);
      if s[0] == sep {
        assert Split(s, sep)[1..] == rest;
        assert s == [sep] + s[1..];
      } else {
        var r := Split(s, sep);
        assert r[0] == [s[0]] + rest[0];
        assert r[1..] == rest[1..];
        if |rest| == 1 {
          assert s == [s[0]] + rest[0];
        } else {
          assert Join(rest, sep) == rest[0] + [sep] + Join(rest[1..], sep);
          assert s == [s[0]] + s[1..];
        }
      }
    }
  }

  /** A string without the separator is a single piece. */
  lemma {:induction false} SplitFree(s: string, sep: char)
    requires sep !in s
    ensures Split(s, sep) == [s]
    decreases |s|
  {
    if |s| > 0 {
      assert sep !in s[1..] by {
        forall k | 0 <= k < |s[1..]| ensures s[1..][k] != sep {
          assert s[1..][k] == s[k + 1];
        }
      }
      SplitFree(s[1..], sep);
      assert s == [s[0]] + s[1..];
    }
  }

  /** The first separator ends the first piece; the rest is split on. */
  lemma {:induction false} SplitAt(x: string, y: string, sep: char)
    requires sep !in x
    ensures Split(x + [sep] + y, sep) == [x] + Split(y, sep)
    decreases |x|
  {
    var s := x + [sep] + y;
    if |x| == 0 {
      assert s == [sep] + y;
      assert s[1..] == y;
    } else {
      var x' := x[1..];
      assert sep !in x' by {
        forall k | 0 <= k < |x'| ensures x'[k] != sep {
          assert x'[k] == x[k + 1];
        }
      }
      SplitAt(x', y, sep);
      assert s[1..] == x' + [sep] + y;
      assert s[0] == x[0] && x[0] != sep;
      assert [x[0]] + x' == x;
    }
  }

  /* ---------------------------------------------------------------------
     str.strip()
     --------------------------------------------------------------------- */

  /** The characters Python's `str.isspace` (and therefore `strip()`)
      treats as white space. */
  predicate IsSpace(c: char)
  {
    || c == ' '
    || ('\t' <= c <= '\r')
    || ('\U{1C}' <= c <= '\U{1F}')
    || c == '\U{85}' || c == '\U{A0}' || c == '\U{1680}'
    || ('\U{2000}' <= c <= '\U{200A}')
    || c == '\U{2028}' || c == '\U{2029}' || c == '\U{202F}'
    || c == '\U{205F}' || c == '\U{3000}'
  }

  /** `s[lo..hi]` is all white space. */
  predicate SpaceBetween(s: string, lo: int, hi: int)
  {
    forall k :: lo <= k < hi && 0 <= k < |s| ==> IsSpace(s[k])
  }

  /** `s.lstrip()`: the suffix left after removing leading white space. */
  function TrimStart(s: string): (r: string)
    ensures |r| <= |s| && r == s[|s| - |r|..]
    ensures SpaceBetween(s, 0, |s| - |r|)
    ensures r == [] || !IsSpace(r[0])
  {
    if |s| > 0 && IsSpace(s[0]) then
      var r := TrimStart(s[1..]);
      forall k | 0 < k < |s| - |r| ensures IsSpace(s[k]) {
        assert s[k] == s[1..][k - 1];
      }
      r
    else s
  }

  /** `s.rstrip()`: the prefix left after removing trailing white space. */
  function TrimEnd(s: string): (r: string)
    ensures |r| <= |s| && r == s[..|r|]
    ensures SpaceBetween(s, |r|, |s|)
    ensures r == [] || !IsSpace(r[|r| - 1])
  {
    if |s| > 0 && IsSpace(s[|s| - 1]) then
      var p := s[..|s| - 1];
      var r := TrimEnd(p);
      forall k | |r| <= k < |s| - 1 ensures IsSpace(s[k]) {
        assert s[k] == p[k];
      }
      r
    else s
  }

  /** `r` is a slice of `s` with only white space before and after it. */
  predicate PaddedBy(r: string, s: string)
  {
    exists i :: 0 <= i <= |s| - |r| && r == s[i..i + |r|] && SpaceBetween(s, 0, i) && SpaceBetween(s, i + |r|, |s|)
  }

  /** `s.strip()`: a contiguous piece of `s` that neither starts nor ends
      with white space, obtained by removing only white space. */
  function Strip(s: string): (r: string)
    ensures |r| <= |s|
    ensures r == [] || (!IsSpace(r[0]) && !IsSpace(r[|r| - 1]))
    ensures PaddedBy(r, s)
  {
    var t := TrimStart(s);
    var r := TrimEnd(t);
    TrimmedSlice(s, t, r);
    r
  }

  /** Trimming the front and then the back leaves a slice of `s` with
      only white space around it. */
  lemma TrimmedSlice(s: string, t: string, r: string)
    requires |t| <= |s| && t == s[|s| - |t|..] && SpaceBetween(s, 0, |s| - |t|)
    requires t == [] || !IsSpace(t[0])
    requires |r| <= |t| && r == t[..|r|] && SpaceBetween(t, |r|, |t|)
    requires r == [] || !IsSpace(r[|r| - 1])
    ensures r == [] || (!IsSpace(r[0]) && !IsSpace(r[|r| - 1]))
    ensures PaddedBy(r, s)
  {
    PrefixOfSuffix(s, t, r);
    var i := |s| - |t|;
    assert r == [] || r[0] == t[0];
    assert r == s[i..i + |r|] && SpaceBetween(s, 0, i) && SpaceBetween(s, i + |r|, |s|);
  }

  /** A prefix `r` of a suffix `t` of `s` is a slice of `s`; white space
      after `r` in `t` is white space after it in `s`. */
  lemma PrefixOfSuffix(s: string, t: string, r: string)
    requires |t| <= |s| && t == s[|s| - |t|..]
    requires |r| <= |t| && r == t[..|r|]
    requires SpaceBetween(t, |r|, |t|)
    ensures var i := |s| - |t|;
      && r == s[i..i + |r|]
      && SpaceBetween(s, i + |r|, |s|)
  {
    var i := |s| - |t|;
    forall k | i + |r| <= k < |s| ensures IsSpace(s[k]) {
      assert s[k] == t[k - i];
    }
  }

  /** Stripping is idempotent: a stripped string is left alone. */
  lemma StripIdempotent(s: string)
    ensures Strip(Strip(s)) == Strip(s)
  {
    var r := Strip(s);
    if |r| > 0 {
      assert TrimStart(r) == r;
      assert TrimEnd(r) == r;
    }
  }

  /** Leading white space does not change the stripped string. */
  lemma StripLeadingSpace(c: char, a: string)
    requires IsSpace(c)
    ensures Strip([c] + a) == Strip(a)
  {
    assert ([c] + a)[1..] == a;
    assert TrimStart([c] + a) == TrimStart(a);
  }

  /* ---------------------------------------------------------------------
     os.path.basename
     --------------------------------------------------------------------- */

  /** Index of the last `c` in `s`, or -1 when there is none. */
  function LastIndexOf(s: string, c: char): (i: int)
    ensures -1 <= i < |s|
    ensures i >= 0 ==> s[i] == c
    ensures forall k :: i < k < |s| ==> s[k] != c
  {
    if |s| == 0 then -1
    else if s[|s| - 1] == c then |s| - 1
    else
      var i := LastIndexOf(s[..|s| - 1], c);
      assert forall k :: i < k < |s| - 1 ==> s[k] == s[..|s| - 1][k];
      i
  }

  /** `os.path.basename(p)` on POSIX: everything after the last `/`. */
  function BaseName(p: string): string
  {
    p[LastIndexOf(p, '/') + 1..]
  }

  /** The base name is the longest suffix of the path without a `/`. */
  lemma BaseNameSpec(p: string)
    ensures var r := BaseName(p);
      && '/' !in r
      && |r| <= |p| && r == p[|p| - |r|..]
      && (|r| < |p| ==> p[|p| - |r| - 1] == '/')
  {
  }

  /** `s.startswith(prefix)`. */
  predicate StartsWith(s: string, prefix: string)
  {
    |prefix| <= |s| && s[..|prefix|] == prefix
  }

  /* ---------------------------------------------------------------------
     Code-point lexicographic order (Python's `<` on str)
     --------------------------------------------------------------------- */

  /** `a < b` on Python strings: the first differing code point decides,
      and a proper prefix comes first. */
  predicate Less(a: string, b: string)
    decreases |a|
  {
    if |a| == 0 then |b| > 0
    else |b| > 0 && (a[0] < b[0] || (a[0] == b[0] && Less(a[1..], b[1..])))
  }

  lemma {:induction false} LessIrreflexive(a: string)
    ensures !Less(a, a)
    decreases |a|
  {
    if |a| > 0 {
      LessIrreflexive(a[1..]);
    }
  }

  lemma {:induction false} LessTransitive(a: string, b: string, c: string)
    requires Less(a, b) && Less(b, c)
    ensures Less(a, c)
    decreases |a|
  {
    if |a| > 0 && a[0] == b[0] && b[0] == c[0] {
      LessTransitive(a[1..], b[1..], c[1..]);
    }
  }

  /** Any two different strings are ordered one way or the other. */
  lemma {:induction false} LessTotal(a: string, b: string)
    requires a != b
    ensures Less(a, b) || Less(b, a)
    decreases |a|
  {
    if |a| > 0 && |b| > 0 && a[0] == b[0] {
      assert a == [a[0]] + a[1..] && b == [b[0]] + b[1..];
      LessTotal(a[1..], b[1..]);
    }
  }

  lemma {:induction false} LessAsymmetric(a: string, b: string)
    requires Less(a, b)
    ensures !Less(b, a)
    decreases |a|
  {
    if |a| > 0 && a[0] == b[0] {
      LessAsymmetric(a[1..], b[1..]);
    }
  }

  /* ---------------------------------------------------------------------
     Order-preserving filtering of string lists
     --------------------------------------------------------------------- */

  /** `r` is `s` with some elements deleted, order kept. */
  predicate IsSubsequence(r: seq<string>, s: seq<string>)
    decreases |s|
  {
    if |r| == 0 then true
    else if |s| == 0 then false
    else if r[0] == s[0] then IsSubsequence(r[1..], s[1..])
    else IsSubsequence(r, s[1..])
  }

  lemma {:induction false} SubsequenceReflexive(s: seq<string>)
    ensures IsSubsequence(s, s)
    decreases |s|
  {
    if |s| > 0 {
      SubsequenceReflexive(s[1..]);
    }
  }

  lemma {:induction false} SubsequenceMultiset(r: seq<string>, s: seq<string>)
    requires IsSubsequence(r, s)
    ensures multiset(r) <= multiset(s)
    decreases |s|
  {
    if |r| > 0 {
      assert s == [s[0]] + s[1..];
      if r[0] == s[0] {
        SubsequenceMultiset(r[1..], s[1..]);
        assert r == [r[0]] + r[1..];
      } else {
        SubsequenceMultiset(r, s[1..]);
      }
    }
  }

  /** `[x for x in s if keep(x)]`: the elements satisfying `keep`, in order,
      each as often as in `s`. */
  function Filter(s: seq<string>, keep: string -> bool): (r: seq<string>)
    ensures IsSubsequence(r, s)
    ensures forall x :: multiset(r)[x] == if keep(x) then multiset(s)[x] else 0
    ensures forall x :: x in r <==> x in s && keep(x)
  {
    if |s| == 0 then []
    else
      var rest := Filter(s[1..], keep);
      assert s == [s[0]] + s[1..];
      if keep(s[0]) then
        var r := [s[0]] + rest;
        assert r[1..] == rest;
        r
      else
        assert IsSubsequence(rest, s) by {
          if |rest| > 0 {
            assert multiset(rest)[rest[0]] > 0;
            assert rest[0] != s[0];
          }
        }
        rest
  }

  /** Order plus counts pin the filter down: a subsequence of `s` that keeps
      every occurrence of the wanted elements and none of the others is
      `Filter(s, keep)`. */
  lemma {:induction false} FilterDetermined(r: seq<string>, s: seq<string>, keep: string -> bool)
    requires IsSubsequence(r, s)
    requires forall x :: multiset(r)[x] == if keep(x) then multiset(s)[x] else 0
    ensures r == Filter(s, keep)
    decreases |s|
  {
    if |s| == 0 {
      assert |multiset(r)| == 0;
    } else {
      var s0 := s[0];
      assert s == [s0] + s[1..];
      if !keep(s0) {
        assert |r| > 0 ==> r[0] != s0 by {
          if |r| > 0 { assert multiset(r)[r[0]] > 0; }
        }
        assert IsSubsequence(r, s[1..]);
        FilterDetermined(r, s[1..], keep);
      } else {
        assert multiset(s)[s0] == multiset(s[1..])[s0] + 1;
        assert multiset(r)[s0] > 0;
        assert |r| > 0;
        if r[0] != s0 {
          assert IsSubsequence(r, s[1..]);
          SubsequenceMultiset(r, s[1..]);
          assert false;
        }
        assert r == [s0] + r[1..];
        assert IsSubsequence(r[1..], s[1..]);
        FilterDetermined(r[1..], s[1..], keep);
      }
    }
  }

  /** Filters whose conditions agree on the elements of `s` agree. */
  lemma FilterAgree(s: seq<string>, keep: string -> bool, keep': string -> bool)
    requires forall x :: x in s ==> keep(x) == keep'(x)
    ensures Filter(s, keep) == Filter(s, keep')
  {
    var r := Filter(s, keep);
    forall x ensures multiset(r)[x] == if keep'(x) then multiset(s)[x] else 0 {
      if x !in s {
        assert multiset(s)[x] == 0;
      }
    }
    FilterDetermined(r, s, keep');
  }

  /** A one-element list whose element is wanted is its own filter. */
  lemma FilterSingle(x: string, keep: string -> bool)
    requires keep(x)
    ensures Filter([x], keep) == [x]
  {
    assert [x][1..] == [];
  }

}
