/** Values that may be missing, and JavaScript plain objects used as dictionaries. */
module Dicts {

  datatype Option<T> = None | Some(value: T)

  predicate Distinct<T(==)>(s: seq<T>) {
    forall i, j | 0 <= i < j < |s| :: s[i] != s[j]
  }

  /** The strings in `s` that satisfy `p`, in their original order (Array.prototype.filter). */
  function Filter(s: seq<string>, p: string -> bool): (r: seq<string>)
    ensures |r| <= |s|
  {
    if s == [] then [] else (if p(s[0]) then [s[0]] else []) + Filter(s[1..], p)
  }

  /** An element of a sequence without repetitions occurs neither before nor after its own position. */
  lemma DistinctAt(s: seq<string>, i: int)
    requires Distinct(s) && 0 <= i < |s|
    ensures s[i] !in s[..i] && s[i] !in s[i + 1..]
  {
    var after := s[i + 1..];
    forall k | 0 <= k < |after| ensures after[k] != s[i] {
      assert after[k] == s[i + 1 + k];
    }
    forall k | 0 <= k < i ensures s[..i][k] != s[i] {
    }
  }

  /** Filtering keeps exactly the elements that satisfy the predicate. */
  lemma {:induction false} FilterMembers(s: seq<string>, p: string -> bool)
    ensures forall x :: x in Filter(s, p) <==> x in s && p(x)
  {
    if s != [] {
      FilterMembers(s[1..], p);
      assert s == [s[0]] + s[1..];
    }
  }

  /** The first element kept by a filter that keeps something comes from the input and passes. */
  lemma FilterFirst(s: seq<string>, p: string -> bool, x: string)
    requires x in s && p(x)
    ensures Filter(s, p) != [] && Filter(s, p)[0] in s && p(Filter(s, p)[0])
  {
    FilterMembers(s, p);
    assert x in Filter(s, p);
    assert Filter(s, p)[0] in Filter(s, p);
  }

  lemma {:induction false} FilterAppend(a: seq<string>, b: seq<string>, p: string -> bool)
    ensures Filter(a + b, p) == Filter(a, p) + Filter(b, p)
  {
    if a == [] {
      assert a + b == b;
    } else {
      var head := if p(a[0]) then [a[0]] else [];
      assert (a + b)[0] == a[0];
      assert (a + b)[1..] == a[1..] + b;
      assert Filter(a + b, p) == head + Filter(a[1..] + b, p);
      FilterAppend(a[1..], b, p);
      assert head + (Filter(a[1..], p) + Filter(b, p)) == (head + Filter(a[1..], p)) + Filter(b, p);
    }
  }

  lemma {:induction false} FilterDistinct(s: seq<string>, p: string -> bool)
    requires Distinct(s)
    ensures Distinct(Filter(s, p))
  {
    if s != [] {
      assert Distinct(s[1..]);
      FilterDistinct(s[1..], p);
      FilterMembers(s[1..], p);
      assert s[0] !in s[1..];
    }
  }

  /** Filtering one more element of a prefix appends it exactly when it passes. */
  lemma FilterStep(s: seq<string>, i: int, p: string -> bool)
    requires 0 <= i < |s|
    ensures Filter(s[..i + 1], p) == Filter(s[..i], p) + (if p(s[i]) then [s[i]] else [])
  {
    assert s[..i + 1] == s[..i] + [s[i]];
    FilterAppend(s[..i], [s[i]], p);
    assert [s[i]][1..] == [];
  }

  /**
   * A pass over the distinct `ks` that drops the failing elements: when `ks[..i]` has been
   * filtered, handling `ks[i]` (keeping it, or removing it) gives the state after `ks[..i + 1]`.
   */
  lemma FilterPassStep(ks: seq<string>, i: int, p: string -> bool)
    requires Distinct(ks) && 0 <= i < |ks|
    ensures p(ks[i]) ==> Filter(ks[..i], p) + ks[i..] == Filter(ks[..i + 1], p) + ks[i + 1..]
    ensures !p(ks[i]) ==> Without(Filter(ks[..i], p) + ks[i..], ks[i]) == Filter(ks[..i + 1], p) + ks[i + 1..]
  {
    var x := ks[i];
    assert ks[i..] == [x] + ks[i + 1..];
    FilterStep(ks, i, p);
    if !p(x) {
      FilterMembers(ks[..i], p);
      assert x !in ks[..i] && x !in ks[i + 1..];
      WithoutSplit(Filter(ks[..i], p), x, ks[i + 1..]);
      assert Filter(ks[..i], p) + ks[i..] == Filter(ks[..i], p) + [x] + ks[i + 1..];
    }
  }

  /** Filtering a sequence whose elements all pass changes nothing. */
  lemma {:induction false} FilterAll(s: seq<string>, p: string -> bool)
    requires forall x | x in s :: p(x)
    ensures Filter(s, p) == s
  {
    if s != [] {
      FilterAll(s[1..], p);
      assert s == [s[0]] + s[1..];
    }
  }

  /** Filtering a sequence none of whose elements passes gives nothing. */
  lemma {:induction false} FilterNone(s: seq<string>, p: string -> bool)
    requires forall x | x in s :: !p(x)
    ensures Filter(s, p) == []
  {
    if s != [] {
      assert s[0] in s;
      FilterNone(s[1..], p);
    }
  }

  /** A rearrangement of a sequence without repetitions has none either. */
  lemma PermutationDistinct(a: seq<string>, b: seq<string>)
    requires Distinct(a) && multiset(a) == multiset(b)
    ensures Distinct(b)
  {
    DistinctMultiplicity(a);
    forall i, j | 0 <= i < j < |b| ensures b[i] != b[j] {
      var x := b[i];
      assert x in multiset(a);
      assert b == b[..j] + b[j..];
      assert multiset(b)[x] == multiset(b[..j])[x] + multiset(b[j..])[x];
      assert x in b[..j];
      assert multiset(b[j..])[x] == 0;
      assert b[j] in b[j..];
    }
  }

  function NotEqualTo(x: string): string -> bool {
    y => y != x
  }

  /** `s` with every occurrence of `x` removed. */
  function Without(s: seq<string>, x: string): (r: seq<string>)
    ensures forall y :: y in r <==> y in s && y != x
    ensures Distinct(s) ==> Distinct(r)
  {
    FilterKeepsDistinct(s, NotEqualTo(x));
    FilterMembers(s, NotEqualTo(x));
    Filter(s, NotEqualTo(x))
  }

  lemma FilterKeepsDistinct(s: seq<string>, p: string -> bool)
    ensures Distinct(s) ==> Distinct(Filter(s, p))
  {
    if Distinct(s) {
      FilterDistinct(s, p);
    }
  }

  /** Removing a key that occurs once keeps the other keys in their order. */
  lemma WithoutSplit(a: seq<string>, x: string, b: seq<string>)
    requires x !in a && x !in b
    ensures Without(a + [x] + b, x) == a + b
  {
    var p := NotEqualTo(x);
    FilterSkip(a, x, b, p);
    FilterAllNotEqual(a, x);
    FilterAllNotEqual(b, x);
  }

  lemma FilterAllNotEqual(s: seq<string>, x: string)
    requires x !in s
    ensures Filter(s, NotEqualTo(x)) == s
  {
    FilterAll(s, NotEqualTo(x));
  }

  lemma FilterSkip(a: seq<string>, x: string, b: seq<string>, p: string -> bool)
    requires !p(x)
    ensures Filter(a + [x] + b, p) == Filter(a, p) + Filter(b, p)
  {
    FilterAppend(a + [x], b, p);
    FilterAppend(a, [x], p);
    assert Filter([x], p) == [] by {
      assert [x][1..] == [];
    }
    assert Filter(a + [x], p) == Filter(a, p) + [];
    assert Filter(a, p) + [] == Filter(a, p);
  }

  /** In a sequence without repetitions every element occurs once. */
  lemma {:induction false} DistinctMultiplicity(s: seq<string>)
    requires Distinct(s)
    ensures forall x :: multiset(s)[x] == if x in s then 1 else 0
  {
    if s != [] {
      assert Distinct(s[1..]);
      DistinctMultiplicity(s[1..]);
      assert s == [s[0]] + s[1..];
      assert multiset(s) == multiset{s[0]} + multiset(s[1..]);
    }
  }

  /** Two sequences without repetitions that hold the same elements are permutations of each other. */
  lemma DistinctSameElements(a: seq<string>, b: seq<string>)
    requires Distinct(a) && Distinct(b)
    requires forall x :: x in a <==> x in b
    ensures multiset(a) == multiset(b)
  {
    DistinctMultiplicity(a);
    DistinctMultiplicity(b);
  }

  /** A sequence without repetitions has as many elements as its set. */
  lemma {:induction false} DistinctCardinality(s: seq<string>)
    requires Distinct(s)
    ensures |set x | x in s| == |s|
  {
    if s != [] {
      assert Distinct(s[1..]);
      DistinctCardinality(s[1..]);
      assert (set x | x in s) == {s[0]} + (set x | x in s[1..]);
    }
  }

  /**
   * A JavaScript object used as a dictionary. `keys` lists its own keys in the order
   * `Object.keys` returns them (insertion order); `vals` maps each key to its value.
   */
  datatype Dict<V> = Dict(keys: seq<string>, vals: map<string, V>) {

    ghost predicate Valid() {
      Distinct(keys) && (forall k :: k in vals <==> k in keys)
    }

    /** `obj[k] = v`: an existing key keeps its place, a new key goes last. */
    function Put(k: string, v: V): (d: Dict<V>)
      ensures Valid() ==> d.Valid()
    {
      if k in vals then Dict(keys, vals[k := v]) else Dict(keys + [k], vals[k := v])
    }

    /** Writing a key twice leaves only the second write. */
    lemma PutPut(k: string, v1: V, v2: V)
      ensures Put(k, v1).Put(k, v2) == Put(k, v2)
    {
      assert vals[k := v1][k := v2] == vals[k := v2];
    }

    /** `delete obj[k]`. */
    function Remove(k: string): (d: Dict<V>)
      ensures Valid() ==> d.Valid()
    {
      Dict(Without(keys, k), vals - {k})
    }

    /** `obj[k]`, which is `undefined` for a missing key. */
    function Get(k: string): Option<V> {
      if k in vals then Some(vals[k]) else None
    }
  }

  function EmptyDict<V>(): (d: Dict<V>)
    ensures d.Valid() && d.keys == []
  {
    Dict([], map[])
  }
}
