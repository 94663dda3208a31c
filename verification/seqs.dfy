/**
 * `Array.prototype.filter` and `reduce`-with-a-sum, as used by the hooks,
 * the pages and the leaderboards. Both are defined from the END of the
 * sequence, which is exactly how a left-to-right `reduce` builds its value.
 */
module Seqs {

  /** `s.map(f)`: f applied to every element, in order. */
  function Map<T, U>(s: seq<T>, f: T -> U): (r: seq<U>)
    ensures |r| == |s| && forall i :: 0 <= i < |s| ==> r[i] == f(s[i])
  {
    seq(|s|, i requires 0 <= i < |s| => f(s[i]))
  }

  /** `s.filter(p)`: the elements satisfying p, in their original order. */
  function Filter<T>(s: seq<T>, p: T -> bool): (r: seq<T>)
    ensures |r| <= |s|
    ensures forall i :: 0 <= i < |r| ==> r[i] in s && p(r[i])
    ensures forall i :: 0 <= i < |s| && p(s[i]) ==> s[i] in r
    decreases |s|
  {
    if s == [] then []
    else Filter(s[..|s| - 1], p) + (if p(s[|s| - 1]) then [s[|s| - 1]] else [])
  }

  /** Filtering distributes over concatenation, so the relative order of the kept elements is the input's. */
  lemma {:induction false} FilterConcat<T>(a: seq<T>, b: seq<T>, p: T -> bool)
    ensures Filter(a + b, p) == Filter(a, p) + Filter(b, p)
    decreases |b|
  {
    if b == [] {
      assert a + b == a;
    } else {
      var b' := b[..|b| - 1];
      assert (a + b)[..|a + b| - 1] == a + b';
      FilterConcat(a, b', p);
    }
  }

  /** A filter that keeps everything is the identity. */
  lemma {:induction false} FilterAll<T>(s: seq<T>, p: T -> bool)
    requires forall i :: 0 <= i < |s| ==> p(s[i])
    ensures Filter(s, p) == s
    decreases |s|
  {
    if s != [] {
      FilterAll(s[..|s| - 1], p);
    }
  }

  /** A filter that keeps nothing is empty. */
  lemma {:induction false} FilterNone<T>(s: seq<T>, p: T -> bool)
    requires forall i :: 0 <= i < |s| ==> !p(s[i])
    ensures Filter(s, p) == []
    decreases |s|
  {
    if s != [] {
      FilterNone(s[..|s| - 1], p);
    }
  }

  /**
   * Two complementary filters split the input: their lengths add up and,
   * together, they hold every element exactly as often as the input does.
   */
  lemma FilterPartition<T>(s: seq<T>, p: T -> bool, q: T -> bool)
    requires forall x :: q(x) == !p(x)
    ensures |Filter(s, p)| + |Filter(s, q)| == |s|
    ensures multiset(Filter(s, p)) + multiset(Filter(s, q)) == multiset(s)
  {
    FilterSplitsMultiset(s, p, q);
    assert |multiset(Filter(s, p)) + multiset(Filter(s, q))| == |multiset(s)|;
  }

  lemma {:induction false} FilterSplitsMultiset<T>(s: seq<T>, p: T -> bool, q: T -> bool)
    requires forall x :: q(x) == !p(x)
    ensures multiset(Filter(s, p)) + multiset(Filter(s, q)) == multiset(s)
    decreases |s|
  {
    if s != [] {
      var s', x := s[..|s| - 1], s[|s| - 1];
      FilterSplitsMultiset(s', p, q);
      assert s == s' + [x];
      assert multiset(s) == multiset(s') + multiset{x};
      assert q(x) == !p(x);
      if p(x) {
        assert Filter(s, p) == Filter(s', p) + [x] && Filter(s, q) == Filter(s', q);
      } else {
        assert Filter(s, p) == Filter(s', p) && Filter(s, q) == Filter(s', q) + [x];
      }
    }
  }

  /** Filtering splits off the head. */
  lemma FilterCons<T>(s: seq<T>, p: T -> bool)
    requires s != []
    ensures Filter(s, p) == Filter([s[0]], p) + Filter(s[1..], p)
  {
    assert s == [s[0]] + s[1..];
    FilterConcat([s[0]], s[1..], p);
  }

  /** The first element a filter keeps is the first element of the input that satisfies it. */
  lemma FilterFirst<T>(s: seq<T>, p: T -> bool, i: nat)
    requires i < |s| && p(s[i]) && forall j :: 0 <= j < i ==> !p(s[j])
    ensures |Filter(s, p)| > 0 && Filter(s, p)[0] == s[i]
  {
    assert s == s[..i] + s[i..];
    FilterConcat(s[..i], s[i..], p);
    FilterNone(s[..i], p);
    assert s[i..] == [s[i]] + s[i + 1..];
    FilterConcat([s[i]], s[i + 1..], p);
    assert Filter([s[i]], p) == Filter([], p) + [s[i]];
  }

  /** `apart` holds between every element and every later one. */
  predicate Pairwise<T>(s: seq<T>, apart: (T, T) -> bool) {
    forall i, j :: 0 <= i < j < |s| ==> apart(s[i], s[j])
  }

  /** A relation that holds between every earlier and later element still holds after filtering. */
  lemma {:induction false} FilterKeepsPairwise<T>(s: seq<T>, p: T -> bool, apart: (T, T) -> bool)
    requires Pairwise(s, apart)
    ensures Pairwise(Filter(s, p), apart)
    decreases |s|
  {
    if s != [] {
      var s' := s[..|s| - 1];
      FilterKeepsPairwise(s', p, apart);
      var r' := Filter(s', p);
      forall i | 0 <= i < |r'| ensures apart(r'[i], s[|s| - 1]) {
        assert r'[i] in s';
        var k :| 0 <= k < |s'| && s'[k] == r'[i];
        assert s[k] == r'[i];
      }
      var r := Filter(s, p);
      assert r == r' + (if p(s[|s| - 1]) then [s[|s| - 1]] else []);
      forall i, j | 0 <= i < j < |r| ensures apart(r[i], r[j]) {
        if j < |r'| {
          assert r[i] == r'[i] && r[j] == r'[j];
          assert apart(r'[i], r'[j]);
        } else {
          assert r[i] == r'[i] && r[j] == s[|s| - 1];
        }
      }
    }
  }

  /** `s.reduce((sum, x) => sum + f(x), 0)`. */
  function SumOf<T>(s: seq<T>, f: T -> int): int
    decreases |s|
  {
    if s == [] then 0 else SumOf(s[..|s| - 1], f) + f(s[|s| - 1])
  }

  /** The sum of a concatenation is the sum of the parts. */
  lemma {:induction false} SumConcat<T>(a: seq<T>, b: seq<T>, f: T -> int)
    ensures SumOf(a + b, f) == SumOf(a, f) + SumOf(b, f)
    decreases |b|
  {
    if b == [] {
      assert a + b == a;
    } else {
      var b' := b[..|b| - 1];
      assert (a + b)[..|a + b| - 1] == a + b';
      SumConcat(a, b', f);
    }
  }

  /** A sum of non-negative terms is non-negative and bounds each term. */
  lemma {:induction false} SumBoundsTerms<T>(s: seq<T>, f: T -> int)
    requires forall i :: 0 <= i < |s| ==> f(s[i]) >= 0
    ensures SumOf(s, f) >= 0
    ensures forall i :: 0 <= i < |s| ==> f(s[i]) <= SumOf(s, f)
    decreases |s|
  {
    if s != [] {
      SumBoundsTerms(s[..|s| - 1], f);
    }
  }

  /** Two complementary filters split the sum. */
  lemma {:induction false} SumPartition<T>(s: seq<T>, f: T -> int, p: T -> bool, q: T -> bool)
    requires forall x :: q(x) == !p(x)
    ensures SumOf(Filter(s, p), f) + SumOf(Filter(s, q), f) == SumOf(s, f)
    decreases |s|
  {
    if s != [] {
      var s' := s[..|s| - 1];
      var x := s[|s| - 1];
      SumPartition(s', f, p, q);
      assert SumOf(s, f) == SumOf(s', f) + f(x);
      assert SumOf([x], f) == f(x) by { assert [x][..0] == []; }
      var keep := if p(x) then Filter(s', p) else Filter(s', q);
      var drop := if p(x) then Filter(s', q) else Filter(s', p);
      assert q(x) == !p(x);
      assert Filter(s, p) == Filter(s', p) + (if p(x) then [x] else []);
      assert Filter(s, q) == Filter(s', q) + (if q(x) then [x] else []);
      SumConcat(keep, [x], f);
      assert drop + [] == drop;
    }
  }
}
