/**
 * The ranking primitives the leaderboards are built from: JavaScript's stable
 * `Array.prototype.sort` with a descending comparator, `slice(0, n)`, and a
 * `reduce` that keeps the first element with the largest key.
 */
module Ranking {
  import opened Wrappers
  import opened Seqs

  /** Keys never rise along s. */
  predicate SortedDesc<T>(s: seq<T>, key: T -> real) {
    forall i, j :: 0 <= i < j < |s| ==> key(s[i]) >= key(s[j])
  }

  /** x goes after every element of t whose key is at least its own. */
  function Insert<T>(x: T, t: seq<T>, key: T -> real): (r: seq<T>)
    ensures |r| == |t| + 1
    ensures multiset(r) == multiset(t) + multiset{x}
    decreases |t|
  {
    if t == [] then [x]
    else if key(t[0]) < key(x) then [x] + t
    else
      assert t == [t[0]] + t[1..];
      [t[0]] + Insert(x, t[1..], key)
  }

  /** Inserting into a list sorted by descending key keeps it sorted. */
  lemma {:induction false} InsertSorted<T>(x: T, t: seq<T>, key: T -> real)
    requires SortedDesc(t, key)
    ensures SortedDesc(Insert(x, t, key), key)
    decreases |t|
  {
    if t != [] && key(t[0]) >= key(x) {
      InsertSorted(x, t[1..], key);
      var r := Insert(x, t[1..], key);
      forall y | y in r ensures key(t[0]) >= key(y) {
        assert y in multiset(r);
      }
    }
  }

  /**
   * `[...s].sort((a, b) => key(b) - key(a))`: an insertion sort, which is
   * stable like the engine's sort; the result is a sorted permutation.
   */
  function SortDesc<T>(s: seq<T>, key: T -> real): (r: seq<T>)
    ensures |r| == |s| && multiset(r) == multiset(s)
    decreases |s|
  {
    if s == [] then []
    else
      assert s == s[..|s| - 1] + [s[|s| - 1]];
      Insert(s[|s| - 1], SortDesc(s[..|s| - 1], key), key)
  }

  /** The sort's result is in descending key order. */
  lemma {:induction false} SortDescSorted<T>(s: seq<T>, key: T -> real)
    ensures SortedDesc(SortDesc(s, key), key)
    decreases |s|
  {
    if s != [] {
      SortDescSorted(s[..|s| - 1], key);
      InsertSorted(s[|s| - 1], SortDesc(s[..|s| - 1], key), key);
    }
  }

  /** The elements whose key is v. */
  function KeyIs<T>(key: T -> real, v: real): T -> bool {
    (y: T) => key(y) == v
  }

  /** Inserting x keeps the order of the elements with any one key, x going last among its equals. */
  lemma {:induction false} InsertStable<T>(x: T, t: seq<T>, key: T -> real, v: real)
    requires SortedDesc(t, key)
    ensures Filter(Insert(x, t, key), KeyIs(key, v)) == Filter(t, KeyIs(key, v)) + (if key(x) == v then [x] else [])
    decreases |t|
  {
    var p := KeyIs(key, v);
    if t == [] {
      FilterSingle(x, p);
    } else if key(t[0]) < key(x) {
      InsertAheadStable(x, t, key, v);
    } else {
      InsertStable(x, t[1..], key, v);
      InsertBehind(x, t, key, p, if key(x) == v then [x] else []);
    }
  }

  /** When x goes in front, no element of t shares its key, so the filters agree. */
  lemma InsertAheadStable<T>(x: T, t: seq<T>, key: T -> real, v: real)
    requires SortedDesc(t, key) && t != [] && key(t[0]) < key(x)
    ensures Filter(Insert(x, t, key), KeyIs(key, v)) == Filter(t, KeyIs(key, v)) + (if key(x) == v then [x] else [])
  {
    var p := KeyIs(key, v);
    calc {
      Filter(Insert(x, t, key), p);
      { assert Insert(x, t, key) == [x] + t; }
      Filter([x] + t, p);
      { FilterConcat([x], t, p); }
      Filter([x], p) + Filter(t, p);
      { FilterSingle(x, p); }
      (if key(x) == v then [x] else []) + Filter(t, p);
    }
    if key(x) == v {
      NoneAboveHead(t, key, v);
    }
  }

  /** In a sorted list nothing has a key above the head's. */
  lemma NoneAboveHead<T>(t: seq<T>, key: T -> real, v: real)
    requires SortedDesc(t, key) && t != [] && key(t[0]) < v
    ensures Filter(t, KeyIs(key, v)) == []
  {
    forall j | 0 <= j < |t| ensures !KeyIs(key, v)(t[j]) {
      if j > 0 {
        assert key(t[0]) >= key(t[j]);
      }
    }
    FilterNone(t, KeyIs(key, v));
  }

  /** Filtering a one-element list. */
  lemma FilterSingle<T>(x: T, p: T -> bool)
    ensures Filter([x], p) == if p(x) then [x] else []
  {
    assert [x][..0] == [];
  }

  /** When x goes behind the head of t, the filter gains x's part exactly where the rest's filter did. */
  lemma InsertBehind<T>(x: T, t: seq<T>, key: T -> real, p: T -> bool, tail: seq<T>)
    requires t != [] && key(t[0]) >= key(x)
    requires Filter(Insert(x, t[1..], key), p) == Filter(t[1..], p) + tail
    ensures Filter(Insert(x, t, key), p) == Filter(t, p) + tail
  {
    calc {
      Filter(Insert(x, t, key), p);
      { InsertBehindUnfolds(x, t, key); }
      Filter([t[0]] + Insert(x, t[1..], key), p);
      { FilterConcat([t[0]], Insert(x, t[1..], key), p); }
      Filter([t[0]], p) + Filter(Insert(x, t[1..], key), p);
      Filter([t[0]], p) + (Filter(t[1..], p) + tail);
      { FilterCons(t, p); }
      Filter(t, p) + tail;
    }
  }

  /** Behind the head of t, x goes into the rest. */
  lemma InsertBehindUnfolds<T>(x: T, t: seq<T>, key: T -> real)
    requires t != [] && key(t[0]) >= key(x)
    ensures Insert(x, t, key) == [t[0]] + Insert(x, t[1..], key)
  {
  }

  /** Stability: among the elements with the same key, the sorted list keeps the input order. */
  lemma {:induction false} SortStable<T>(s: seq<T>, key: T -> real, v: real)
    ensures Filter(SortDesc(s, key), KeyIs(key, v)) == Filter(s, KeyIs(key, v))
    decreases |s|
  {
    if s != [] {
      SortStable(s[..|s| - 1], key, v);
      SortDescSorted(s[..|s| - 1], key);
      InsertStable(s[|s| - 1], SortDesc(s[..|s| - 1], key), key, v);
    }
  }

  /** `s.slice(0, n)`: the first n elements, or all of them. */
  function Take<T>(s: seq<T>, n: nat): (r: seq<T>)
    ensures |r| <= n && |r| <= |s|
    ensures |r| == if |s| < n then |s| else n
    ensures r == s[..|r|]
  {
    if |s| <= n then s else s[..n]
  }

  /**
   * `sort` then `slice(0, n)`: a sorted selection from the input in which
   * every element left out has a key no larger than any element kept.
   */
  lemma TopOfSorted<T>(s: seq<T>, key: T -> real, n: nat)
    ensures var r := Take(SortDesc(s, key), n);
      && SortedDesc(r, key)
      && multiset(r) <= multiset(s)
      && |r| == (if |s| < n then |s| else n)
      && forall x, i :: x in multiset(s) - multiset(r) && 0 <= i < |r| ==> key(x) <= key(r[i])
  {
    var t := SortDesc(s, key);
    SortDescSorted(s, key);
    assert multiset(t) == multiset(s);
    TakeOfSorted(t, key, n);
  }

  /** The top n of a list are sorted and at most n. */
  lemma TopSorted<T>(s: seq<T>, key: T -> real, n: nat)
    ensures SortedDesc(Take(SortDesc(s, key), n), key) && |Take(SortDesc(s, key), n)| <= n
  {
    var t := SortDesc(s, key);
    SortDescSorted(s, key);
    var r := Take(t, n);
    forall i, j | 0 <= i < j < |r| ensures key(r[i]) >= key(r[j]) {
      assert r[i] == t[i] && r[j] == t[j];
    }
  }

  /** Whatever holds of every element of the input holds of every element the top n keep. */
  lemma TopKeeps<T>(s: seq<T>, key: T -> real, n: nat, P: T -> bool)
    requires forall i :: 0 <= i < |s| ==> P(s[i])
    ensures forall i :: 0 <= i < |Take(SortDesc(s, key), n)| ==> P(Take(SortDesc(s, key), n)[i])
  {
    var t := SortDesc(s, key);
    var r := Take(t, n);
    forall i | 0 <= i < |r| ensures P(r[i]) {
      assert r[i] == t[i];
      assert t[i] in multiset(s);
      var k :| 0 <= k < |s| && s[k] == t[i];
    }
  }

  /** A prefix of a sorted list is sorted, and what it leaves out is no larger than anything it keeps. */
  lemma TakeOfSorted<T>(t: seq<T>, key: T -> real, n: nat)
    requires SortedDesc(t, key)
    ensures var r := Take(t, n);
      && SortedDesc(r, key)
      && multiset(r) <= multiset(t)
      && forall x, i :: x in multiset(t) - multiset(r) && 0 <= i < |r| ==> key(x) <= key(r[i])
  {
    var r := Take(t, n);
    var rest := t[|r|..];
    assert t == r + rest;
    assert multiset(t) == multiset(r) + multiset(rest);
    forall x, i | x in multiset(t) - multiset(r) && 0 <= i < |r| ensures key(x) <= key(r[i]) {
      assert x in multiset(rest);
      var j :| 0 <= j < |rest| && rest[j] == x;
      assert t[|r| + j] == x && t[i] == r[i];
    }
  }

  /** Index i holds the first element with the largest key. */
  predicate IsFirstMax<T>(s: seq<T>, key: T -> real, i: int) {
    && 0 <= i < |s|
    && (forall j :: 0 <= j < |s| ==> key(s[j]) <= key(s[i]))
    && (forall j :: 0 <= j < i ==> key(s[j]) < key(s[i]))
  }

  /**
   * `s.reduce((best, u) => !best || key(u) > key(best) ? u : best, null)`:
   * the strict comparison keeps the earliest of equal keys.
   */
  function GreedyMax<T>(s: seq<T>, key: T -> real): (r: Option<T>)
    ensures r.None? <==> s == []
    decreases |s|
  {
    if s == [] then None
    else
      var best := GreedyMax(s[..|s| - 1], key);
      if best.None? || key(s[|s| - 1]) > key(best.value) then Some(s[|s| - 1]) else best
  }

  /** The greedy fold picks the first element with the largest key. */
  lemma {:induction false} GreedyMaxIsFirstMax<T>(s: seq<T>, key: T -> real) returns (i: nat)
    requires s != []
    ensures IsFirstMax(s, key, i) && GreedyMax(s, key) == Some(s[i])
    decreases |s|
  {
    var s' := s[..|s| - 1];
    if s' == [] {
      i := 0;
    } else {
      var i' := GreedyMaxIsFirstMax(s', key);
      if key(s[|s| - 1]) > key(s'[i']) {
        i := |s| - 1;
      } else {
        i := i';
      }
    }
  }

  /** The head of the sorted list is the first element with the largest key. */
  lemma SortHeadIsFirstMax<T>(s: seq<T>, key: T -> real, i: nat)
    requires IsFirstMax(s, key, i)
    ensures |SortDesc(s, key)| > 0 && SortDesc(s, key)[0] == s[i]
  {
    var r := SortDesc(s, key);
    var v := key(s[i]);
    SortDescSorted(s, key);
    assert s[i] in multiset(r);
    var k :| 0 <= k < |r| && r[k] == s[i];
    assert r[0] in multiset(s);
    var m :| 0 <= m < |s| && s[m] == r[0];
    assert key(r[0]) == v;
    FilterFirst(r, KeyIs(key, v), 0);
    FilterFirst(s, KeyIs(key, v), i);
    SortStable(s, key, v);
  }

  /** The greedy pick is the head of the sorted list, and there is one exactly when the list is non-empty. */
  lemma GreedyMaxIsSortHead<T>(s: seq<T>, key: T -> real)
    ensures GreedyMax(s, key).None? <==> SortDesc(s, key) == []
    ensures s != [] ==> GreedyMax(s, key) == Some(SortDesc(s, key)[0])
  {
    if s != [] {
      var i := GreedyMaxIsFirstMax(s, key);
      SortHeadIsFirstMax(s, key, i);
    }
  }
}
