/**
 * The orders `Array.prototype.sort` uses in this system: the default order on strings
 * (character codes, lexicographically) and stable sorting of ids by a numeric key.
 */
module Ordering {

  /** `a` sorts no later than `b` in the default string order: a proper prefix comes first. */
  predicate LexLeq(a: string, b: string)
    decreases |a|
  {
    |a| == 0 || (|b| > 0 && (a[0] < b[0] || (a[0] == b[0] && LexLeq(a[1..], b[1..]))))
  }

  lemma {:induction false} LexLeqTotal(a: string, b: string)
    ensures LexLeq(a, b) || LexLeq(b, a)
    decreases |a|
  {
    if |a| > 0 && |b| > 0 && a[0] == b[0] {
      LexLeqTotal(a[1..], b[1..]);
    }
  }

  lemma {:induction false} LexLeqAntisymmetric(a: string, b: string)
    requires LexLeq(a, b) && LexLeq(b, a)
    ensures a == b
    decreases |a|
  {
    if |a| > 0 {
      LexLeqAntisymmetric(a[1..], b[1..]);
      assert a == [a[0]] + a[1..] && b == [b[0]] + b[1..];
    }
  }

  lemma {:induction false} LexLeqTransitive(a: string, b: string, c: string)
    requires LexLeq(a, b) && LexLeq(b, c)
    ensures LexLeq(a, c)
    decreases |a|
  {
    if |a| > 0 && a[0] == b[0] && b[0] == c[0] {
      LexLeqTransitive(a[1..], b[1..], c[1..]);
    }
  }

  ghost predicate SortedStrings(s: seq<string>) {
    forall i, j | 0 <= i < j < |s| :: LexLeq(s[i], s[j])
  }

  /** `x` inserted into `s` before the first element it does not follow. */
  function InsertString(x: string, s: seq<string>): seq<string> {
    if s == [] then [x]
    else if LexLeq(x, s[0]) then [x] + s
    else [s[0]] + InsertString(x, s[1..])
  }

  /** Inserting into a sorted sequence keeps it sorted and adds exactly `x`. */
  lemma {:induction false} InsertStringSorted(x: string, s: seq<string>)
    requires SortedStrings(s)
    ensures SortedStrings(InsertString(x, s))
    ensures multiset(InsertString(x, s)) == multiset(s) + multiset{x}
  {
    if s == [] {
    } else if LexLeq(x, s[0]) {
      forall j | 0 <= j < |s| ensures LexLeq(x, s[j]) {
        if j > 0 { LexLeqTransitive(x, s[0], s[j]); }
      }
      assert s == [s[0]] + s[1..];
    } else {
      LexLeqTotal(x, s[0]);
      InsertStringSorted(x, s[1..]);
      InsertStringBehind(x, s, InsertString(x, s[1..]));
      assert s == [s[0]] + s[1..];
    }
  }

  lemma InsertStringBehind(x: string, s: seq<string>, rest: seq<string>)
    requires SortedStrings(s) && s != [] && LexLeq(s[0], x)
    requires SortedStrings(rest) && multiset(rest) == multiset(s[1..]) + multiset{x}
    ensures SortedStrings([s[0]] + rest)
  {
    forall k | 0 <= k < |rest| ensures LexLeq(s[0], rest[k]) {
      assert rest[k] in multiset(rest);
      if rest[k] != x {
        assert rest[k] in multiset(s[1..]);
        var m :| 0 <= m < |s[1..]| && s[1..][m] == rest[k];
        assert s[1..][m] == s[m + 1];
      }
    }
    var r := [s[0]] + rest;
    forall i, j | 0 <= i < j < |r| ensures LexLeq(r[i], r[j]) {
      assert r[j] == rest[j - 1];
      if i > 0 { assert r[i] == rest[i - 1]; }
    }
  }

  /** `strings.sort()`: the strings in ascending default order. */
  function SortStrings(s: seq<string>): seq<string> {
    if s == [] then [] else InsertString(s[0], SortStrings(s[1..]))
  }

  /** Sorting yields a sorted permutation of its input. */
  lemma {:induction false} SortStringsSorted(s: seq<string>)
    ensures SortedStrings(SortStrings(s))
    ensures multiset(SortStrings(s)) == multiset(s)
  {
    if s != [] {
      SortStringsSorted(s[1..]);
      InsertStringSorted(s[0], SortStrings(s[1..]));
      assert s == [s[0]] + s[1..];
    }
  }

  lemma SortStringsMembers(s: seq<string>)
    ensures forall x :: x in SortStrings(s) <==> x in s
  {
    var r := SortStrings(s);
    SortStringsSorted(s);
    forall x ensures x in r <==> x in s {
      assert x in r <==> x in multiset(r);
      assert x in s <==> x in multiset(s);
    }
  }

  /** A sorted sequence is determined by its elements: sorting has one possible outcome. */
  lemma {:induction false} SortedStringsUnique(a: seq<string>, b: seq<string>)
    requires SortedStrings(a) && SortedStrings(b)
    requires multiset(a) == multiset(b)
    ensures a == b
  {
    if a == [] {
      assert |b| == |multiset(b)| == 0;
    } else {
      SortedHeadsEqual(a, b);
      assert a == [a[0]] + a[1..] && b == [b[0]] + b[1..];
      TailMultiset(a);
      TailMultiset(b);
      SortedStringsUnique(a[1..], b[1..]);
    }
  }

  lemma TailMultiset(a: seq<string>)
    requires a != []
    ensures multiset(a[1..]) == multiset(a) - multiset{a[0]}
  {
    assert a == [a[0]] + a[1..];
  }

  lemma SortedHeadsEqual(a: seq<string>, b: seq<string>)
    requires SortedStrings(a) && SortedStrings(b)
    requires multiset(a) == multiset(b) && a != []
    ensures b != [] && a[0] == b[0]
  {
    assert a[0] in multiset(a);
    assert a[0] in multiset(b);
    var i :| 0 <= i < |b| && b[i] == a[0];
    assert b[0] in multiset(a);
    var j :| 0 <= j < |a| && a[j] == b[0];
    if i > 0 && j > 0 {
      LexLeq0(b, i);
      LexLeq0(a, j);
      LexLeqAntisymmetric(a[0], b[0]);
    }
  }

  lemma LexLeq0(s: seq<string>, i: int)
    requires SortedStrings(s) && 0 < i < |s|
    ensures LexLeq(s[0], s[i])
  {
  }

  /** In a sorted sequence the first and last elements are equal exactly when all elements are. */
  lemma {:induction false} SortedEndsEqual(s: seq<string>)
    requires SortedStrings(s) && |s| > 0
    ensures s[0] == s[|s| - 1] <==> forall i | 0 <= i < |s| :: s[i] == s[0]
  {
    if s[0] == s[|s| - 1] {
      forall i | 0 < i < |s| - 1 ensures s[i] == s[0] {
        assert LexLeq(s[0], s[i]) && LexLeq(s[i], s[|s| - 1]);
        LexLeqAntisymmetric(s[0], s[i]);
      }
    }
  }

  /** The parts separated by `sep` (Array.prototype.join). */
  function Join(parts: seq<string>, sep: string): string {
    if |parts| == 0 then ""
    else if |parts| == 1 then parts[0]
    else parts[0] + sep + Join(parts[1..], sep)
  }

  ghost predicate SortedBy(s: seq<string>, key: string -> int) {
    forall i, j | 0 <= i < j < |s| :: key(s[i]) <= key(s[j])
  }

  function InsertBy(x: string, s: seq<string>, key: string -> int): (r: seq<string>)
    requires SortedBy(s, key)
    ensures SortedBy(r, key)
    ensures multiset(r) == multiset(s) + multiset{x}
  {
    if s == [] then [x]
    else if key(x) <= key(s[0]) then
      InsertByFront(x, s, key);
      [x] + s
    else
      var rest := InsertBy(x, s[1..], key);
      assert s == [s[0]] + s[1..];
      InsertByBehind(x, s, key, rest);
      [s[0]] + rest
  }

  lemma InsertByFront(x: string, s: seq<string>, key: string -> int)
    requires SortedBy(s, key) && s != [] && key(x) <= key(s[0])
    ensures SortedBy([x] + s, key)
  {
    var r := [x] + s;
    forall i, j | 0 <= i < j < |r| ensures key(r[i]) <= key(r[j]) {
      if i == 0 {
        assert r[j] == s[j - 1];
        assert key(s[0]) <= key(s[j - 1]) || j - 1 == 0;
      } else {
        assert r[i] == s[i - 1] && r[j] == s[j - 1];
      }
    }
  }

  lemma InsertByBehind(x: string, s: seq<string>, key: string -> int, rest: seq<string>)
    requires SortedBy(s, key) && s != [] && key(s[0]) < key(x)
    requires SortedBy(rest, key) && multiset(rest) == multiset(s[1..]) + multiset{x}
    ensures SortedBy([s[0]] + rest, key)
  {
    forall k | 0 <= k < |rest| ensures key(s[0]) <= key(rest[k]) {
      assert rest[k] in multiset(rest);
      if rest[k] != x {
        assert rest[k] in multiset(s[1..]);
        var m :| 0 <= m < |s[1..]| && s[1..][m] == rest[k];
        assert s[1..][m] == s[m + 1];
      }
    }
    var r := [s[0]] + rest;
    forall i, j | 0 <= i < j < |r| ensures key(r[i]) <= key(r[j]) {
      assert r[j] == rest[j - 1];
      if i > 0 { assert r[i] == rest[i - 1]; }
    }
  }

  /**
   * `ids.sort((a, b) => key(a) - key(b))`: ascending by key, and stable as
   * Array.prototype.sort is (equal keys keep their order).
   */
  function SortBy(s: seq<string>, key: string -> int): (r: seq<string>)
    ensures SortedBy(r, key)
    ensures multiset(r) == multiset(s)
    ensures |r| == |s|
  {
    if s == [] then []
    else
      assert s == [s[0]] + s[1..];
      InsertBy(s[0], SortBy(s[1..], key), key)
  }

  /** Stability in the case that matters here: when all keys are equal, sorting changes nothing. */
  lemma {:induction false} SortByEqualKeys(s: seq<string>, key: string -> int)
    requires forall i | 0 <= i < |s| :: key(s[i]) == key(s[0])
    ensures SortBy(s, key) == s
  {
    if s != [] {
      var t := s[1..];
      assert forall i | 0 <= i < |t| :: key(t[i]) == key(s[0]) by {
        forall i | 0 <= i < |t| ensures key(t[i]) == key(s[0]) {
          assert t[i] == s[i + 1];
        }
      }
      SortByEqualKeys(t, key);
      assert s == [s[0]] + t;
      assert SortBy(s, key) == InsertBy(s[0], t, key);
      if t != [] {
        assert key(s[0]) <= key(t[0]);
      }
    }
  }

  /** The first element of a key-sorted sequence has the least key of all its elements. */
  lemma SortByFirstIsLeast(s: seq<string>, key: string -> int, x: string)
    requires |s| > 0 && x in s
    ensures key(SortBy(s, key)[0]) <= key(x)
  {
    SortByMembers(s, key);
    SortedEnds(SortBy(s, key), key, x);
  }

  /** The last element of a key-sorted sequence has the greatest key of all its elements. */
  lemma SortByLastIsGreatest(s: seq<string>, key: string -> int, x: string)
    requires |s| > 0 && x in s
    ensures key(x) <= key(SortBy(s, key)[|s| - 1])
  {
    SortByMembers(s, key);
    SortedEnds(SortBy(s, key), key, x);
  }

  lemma SortedEnds(r: seq<string>, key: string -> int, x: string)
    requires SortedBy(r, key) && x in r
    ensures key(r[0]) <= key(x) <= key(r[|r| - 1])
  {
    var k :| 0 <= k < |r| && r[k] == x;
    if 0 < k { assert key(r[0]) <= key(r[k]); }
    if k < |r| - 1 { assert key(r[k]) <= key(r[|r| - 1]); }
  }

  lemma SortByMembers(s: seq<string>, key: string -> int)
    ensures forall x :: x in SortBy(s, key) <==> x in s
  {
    var r := SortBy(s, key);
    forall x ensures x in r <==> x in s {
      assert x in r <==> x in multiset(r);
      assert x in s <==> x in multiset(s);
    }
  }
}
