/**
 Sorting by a string key, as Python's `sorted` does when every key is
 different (dictionary keys, DataFrame column labels). The result is the
 same elements in strictly ascending key order; with distinct keys that
 order is unique, so the result does not depend on the input order.
 */
module Sorting {
  import opened Strings

  /** Strictly ascending by key; implies that the keys are distinct. */
  predicate SortedBy<T>(s: seq<T>, key: T -> string)
  {
    forall i, j :: 0 <= i < j < |s| ==> Less(key(s[i]), key(s[j]))
  }

  predicate DistinctKeys<T>(s: seq<T>, key: T -> string)
  {
    forall i, j :: 0 <= i < j < |s| ==> key(s[i]) != key(s[j])
  }

  /** The identity key: strings ordered or compared by themselves. */
  function Id(s: string): string
  {
    s
  }

  /** No element occurs twice. */
  predicate Distinct(s: seq<string>)
  {
    DistinctKeys(s, Id)
  }

  lemma SortedDistinct<T>(s: seq<T>, key: T -> string)
    requires SortedBy(s, key)
    ensures DistinctKeys(s, key)
  {
    forall i, j | 0 <= i < j < |s|
      ensures key(s[i]) != key(s[j])
    {
      if key(s[i]) == key(s[j]) {
        LessIrreflexive(key(s[i]));
      }
    }
  }

  lemma SortedTail<T>(s: seq<T>, key: T -> string)
    requires SortedBy(s, key) && |s| > 0
    ensures SortedBy(s[1..], key)
  {
    forall i, j | 0 <= i < j < |s| - 1
      ensures Less(key(s[1..][i]), key(s[1..][j]))
    {
      assert s[1..][i] == s[i + 1] && s[1..][j] == s[j + 1];
    }
  }

  /** Places `x` into the sorted sequence `s`. */
  function Insert<T>(x: T, s: seq<T>, key: T -> string): (r: seq<T>)
    requires SortedBy(s, key)
    requires forall i :: 0 <= i < |s| ==> key(s[i]) != key(x)
    ensures SortedBy(r, key)
    ensures multiset(r) == multiset(s) + multiset{x}
  {
    if |s| == 0 then [x]
    else if Less(key(x), key(s[0])) then
      forall j | 0 <= j < |s|
        ensures Less(key(x), key(s[j]))
      {
        if j > 0 {
          LessTransitive(key(x), key(s[0]), key(s[j]));
        }
      }
      ConsSorted(x, s, key);
      [x] + s
    else
      LessTotal(key(x), key(s[0]));
      var tail := Insert(x, s[1..], key);
      assert s == [s[0]] + s[1..];
      forall j | 0 <= j < |tail|
        ensures Less(key(s[0]), key(tail[j]))
      {
        var k := MemberOrigin(tail, s[1..], x, j);
        if k >= 0 {
          assert s[k + 1] == tail[j];
        }
      }
      ConsSorted(s[0], tail, key);
      [s[0]] + tail
  }

  /** A key below every key of a sorted sequence can go in front of it. */
  lemma ConsSorted<T>(y: T, s: seq<T>, key: T -> string)
    requires SortedBy(s, key)
    requires forall j :: 0 <= j < |s| ==> Less(key(y), key(s[j]))
    ensures SortedBy([y] + s, key)
  {
    var r := [y] + s;
    forall i, j | 0 <= i < j < |r|
      ensures Less(key(r[i]), key(r[j]))
    {
      assert r[j] == s[j - 1];
      if i > 0 {
        assert r[i] == s[i - 1];
      }
    }
  }

  /** An element of a sequence holding `s` plus `x` is `x` or comes from `s`. */
  lemma MemberOrigin<T>(t: seq<T>, s: seq<T>, x: T, j: int) returns (k: int)
    requires multiset(t) == multiset(s) + multiset{x}
    requires 0 <= j < |t|
    ensures -1 <= k < |s|
    ensures k == -1 ==> t[j] == x
    ensures k >= 0 ==> s[k] == t[j]
  {
    assert t[j] in multiset(t);
    if t[j] == x {
      k := -1;
    } else {
      assert t[j] in multiset(s);
      k :| 0 <= k < |s| && s[k] == t[j];
    }
  }

  /** Insertion sort by key. */
  function SortBy<T>(s: seq<T>, key: T -> string): (r: seq<T>)
    requires DistinctKeys(s, key)
    ensures SortedBy(r, key)
    ensures multiset(r) == multiset(s)
    ensures |r| == |s|
  {
    if |s| == 0 then []
    else
      var rest := SortBy(s[1..], key);
      assert s == [s[0]] + s[1..];
      forall i | 0 <= i < |rest|
        ensures key(rest[i]) != key(s[0])
      {
        assert rest[i] in multiset(s[1..]);
        var k :| 0 <= k < |s[1..]| && s[1..][k] == rest[i];
        assert s[k + 1] == rest[i];
      }
      var r := Insert(s[0], rest, key);
      assert |r| == |multiset(r)|;
      r
  }

  /** Strictly sorted sequences with the same elements start alike. */
  lemma SortedHeads<T>(a: seq<T>, b: seq<T>, key: T -> string)
    requires SortedBy(a, key) && SortedBy(b, key)
    requires multiset(a) == multiset(b) && |a| > 0
    ensures |b| > 0 && a[0] == b[0]
  {
    assert a[0] in multiset(b);
    assert b[0] in multiset(a);
    var i :| 0 <= i < |b| && b[i] == a[0];
    var j :| 0 <= j < |a| && a[j] == b[0];
    if i > 0 {
      assert Less(key(b[0]), key(a[0]));
      if j > 0 {
        assert Less(key(a[0]), key(b[0]));
        LessAsymmetric(key(a[0]), key(b[0]));
      } else {
        LessIrreflexive(key(a[0]));
      }
    }
  }

  /** Removing the same head from equal multisets leaves equal ones. */
  lemma TailMultiset<T>(a: seq<T>, b: seq<T>)
    requires multiset(a) == multiset(b) && |a| > 0 && |b| > 0 && a[0] == b[0]
    ensures multiset(a[1..]) == multiset(b[1..])
  {
    assert a == [a[0]] + a[1..] && b == [b[0]] + b[1..];
    assert multiset(a[1..]) == multiset(a) - multiset{a[0]};
    assert multiset(b[1..]) == multiset(b) - multiset{b[0]};
  }

  /** Strictly sorted sequences with the same elements are equal. */
  lemma {:induction false} SortedUnique<T>(a: seq<T>, b: seq<T>, key: T -> string)
    requires SortedBy(a, key) && SortedBy(b, key)
    requires multiset(a) == multiset(b)
    ensures a == b
    decreases |a|
  {
    if |a| > 0 {
      SortedHeads(a, b, key);
      TailMultiset(a, b);
      SortedTail(a, key);
      SortedTail(b, key);
      SortedUnique(a[1..], b[1..], key);
      assert a == [a[0]] + a[1..] && b == [b[0]] + b[1..];
    } else {
      assert |multiset(b)| == 0;
    }
  }

  /** Filtering a list without repetitions gives one without repetitions. */
  lemma {:induction false} FilterDistinct(s: seq<string>, keep: string -> bool)
    ensures Distinct(s) ==> Distinct(Filter(s, keep))
    decreases |s|
  {
    if |s| > 0 && Distinct(s) {
      assert s[0] !in s[1..];
      FilterDistinct(s[1..], keep);
      var rest := Filter(s[1..], keep);
      if keep(s[0]) {
        var r := Filter(s, keep);
        assert r == [s[0]] + rest;
        assert forall j :: 0 < j < |r| ==> r[j] == rest[j - 1];
      }
    }
  }

}
