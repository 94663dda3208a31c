/**
 * The leaderboard of the first frontend (src/components/Leaderboards.tsx):
 * one single-pass `reduce` per category that keeps the best garment so far,
 * and the same hall stats. Each pick is compared here with the head of the
 * corresponding ranking of the other frontend.
 */
module LeaderboardsGreedy {
  import opened Wrappers
  import opened Garments
  import opened Seqs
  import opened Ranking
  import opened LeaderboardsFrontend

  /** `greedyMostWashed`: the first garment with the most washes, or none for an empty collection. */
  function GreedyMostWashed(us: seq<Garment>): Option<Garment> {
    GreedyMax(us, WashKey)
  }

  /** `greedyLongest`: the first active garment with the greatest age in days, with that age. */
  function GreedyLongest(us: seq<Garment>, now: int): Option<Aged> {
    GreedyMax(AgedList(Active(us), now), AgedKey)
  }

  /**
   * The fold of `greedyLeastWashed` over the active garments: an unwashed
   * garment is taken only while nothing is held; a washed one replaces an
   * unwashed pick or one with more washes.
   */
  function GreedyLeast(s: seq<Garment>): (r: Option<Garment>)
    ensures r.None? <==> s == []
    decreases |s|
  {
    if s == [] then None
    else
      var best := GreedyLeast(s[..|s| - 1]);
      var u := s[|s| - 1];
      if u.washCount == 0 then (if best.Some? then best else Some(u))
      else if best.None? || best.value.washCount == 0 || u.washCount < best.value.washCount then Some(u)
      else best
  }

  /** `greedyLeastWashed`. */
  function GreedyLeastWashed(us: seq<Garment>): Option<Garment> {
    GreedyLeast(Active(us))
  }

  /** `max ? u.washCount / max : 0`: the efficiency with a guard against a zero budget. */
  function GuardedEfficiency(g: Garment): real {
    var max := RatioBudget(g);
    if max != 0 then g.washCount as real / max as real else 0.0
  }

  /** The guard never fires: the budget is never zero, so both pages compute the same efficiency. */
  lemma GuardedEfficiencyAgrees(g: Garment)
    ensures GuardedEfficiency(g) == Efficiency(g)
  {
  }

  /** The `{ u, eff }` pairs the efficiency fold compares. */
  function GuardedRatedList(us: seq<Garment>): (r: seq<Rated>)
    ensures |r| == |us|
    ensures forall i :: 0 <= i < |us| ==> r[i] == Rated(us[i], GuardedEfficiency(us[i]))
  {
    seq(|us|, i requires 0 <= i < |us| => Rated(us[i], GuardedEfficiency(us[i])))
  }

  /** `greedyBestEfficiency`: the first active garment with the best efficiency, with that efficiency. */
  function GreedyBestEfficiency(us: seq<Garment>): Option<Rated> {
    GreedyMax(GuardedRatedList(Active(us)), RatedKey)
  }

  /** The most-washed pick is the first entry of `mostWashed`; there is none only for an empty collection. */
  lemma GreedyMostWashedIsTop(us: seq<Garment>)
    ensures GreedyMostWashed(us).None? <==> us == []
    ensures us != [] ==> |MostWashed(us)| > 0 && GreedyMostWashed(us) == Some(MostWashed(us)[0])
  {
    GreedyMaxIsSortHead(us, WashKey);
  }

  /** The oldest-garment pick is the first entry of `longestLifespan`; there is none only without active garments. */
  lemma GreedyLongestIsTop(us: seq<Garment>, now: int)
    ensures GreedyLongest(us, now).None? <==> Active(us) == []
    ensures Active(us) != [] ==> |LongestLifespan(us, now)| > 0 && GreedyLongest(us, now) == Some(LongestLifespan(us, now)[0])
  {
    GreedyMaxIsSortHead(AgedList(Active(us), now), AgedKey);
  }

  /** The efficiency pick is the first entry of `bestRatio`; there is none only without active garments. */
  lemma GreedyBestEfficiencyIsTop(us: seq<Garment>)
    ensures GreedyBestEfficiency(us).None? <==> Active(us) == []
    ensures Active(us) != [] ==> |BestRatio(us)| > 0 && GreedyBestEfficiency(us) == Some(BestRatio(us)[0])
  {
    var a := Active(us);
    forall i | 0 <= i < |a| ensures GuardedRatedList(a)[i] == RatedList(a)[i] {
      GuardedEfficiencyAgrees(a[i]);
    }
    assert GuardedRatedList(a) == RatedList(a);
    GreedyMaxIsSortHead(RatedList(a), RatedKey);
  }

  /**
   * What the least-washed fold computes: among washed garments, the first
   * with the fewest washes; when none is washed, the very first garment.
   */
  function LeastPick(s: seq<Garment>): Option<Garment> {
    if Filter(s, IsWashed) != [] then GreedyMax(Filter(s, IsWashed), FewestWashesKey)
    else if s == [] then None
    else Some(s[0])
  }

  /** The least-washed fold picks exactly `LeastPick`. */
  lemma {:induction false} GreedyLeastCharacterised(s: seq<Garment>)
    ensures GreedyLeast(s) == LeastPick(s)
    decreases |s|
  {
    if s != [] {
      var s' := s[..|s| - 1];
      GreedyLeastCharacterised(s');
      if Filter(s', IsWashed) == [] {
        LeastStepFromUnwashed(s);
      } else {
        LeastStepFromWashed(s);
      }
    }
  }

  /** The fold's step when no earlier garment was washed. */
  lemma LeastStepFromUnwashed(s: seq<Garment>)
    requires s != []
    requires var s' := s[..|s| - 1]; Filter(s', IsWashed) == [] && GreedyLeast(s') == LeastPick(s')
    ensures GreedyLeast(s) == LeastPick(s)
  {
    var s' := s[..|s| - 1];
    var u := s[|s| - 1];
    assert Filter(s, IsWashed) == Filter(s', IsWashed) + (if IsWashed(u) then [u] else []);
    if s' != [] {
      assert s'[0] == s[0];
      assert s'[0] !in Filter(s', IsWashed);
    }
    if IsWashed(u) {
      assert GreedyMax([u], FewestWashesKey) == Some(u) by {
        assert [u][..0] == [];
      }
    }
  }

  /** The fold's step when some earlier garment was washed. */
  lemma LeastStepFromWashed(s: seq<Garment>)
    requires s != []
    requires var s' := s[..|s| - 1]; Filter(s', IsWashed) != [] && GreedyLeast(s') == LeastPick(s')
    ensures GreedyLeast(s) == LeastPick(s)
  {
    var s' := s[..|s| - 1];
    var u := s[|s| - 1];
    var w' := Filter(s', IsWashed);
    assert Filter(s, IsWashed) == w' + (if IsWashed(u) then [u] else []);
    var i := GreedyMaxIsFirstMax(w', FewestWashesKey);
    assert w'[i].washCount > 0;
    if IsWashed(u) {
      GreedyMaxAppend(w', u, FewestWashesKey);
    } else {
      assert w' + [] == w';
    }
  }

  /** The greedy fold over a list with one more element at the end. */
  lemma GreedyMaxAppend<T>(s: seq<T>, x: T, key: T -> real)
    requires s != []
    ensures var b := GreedyMax(s, key).value;
      GreedyMax(s + [x], key) == if key(x) > key(b) then Some(x) else Some(b)
  {
    assert (s + [x])[..|s|] == s;
  }

  /**
   * Against `leastWashed`: when some active garment has been washed, the
   * greedy pick is its first entry; otherwise `leastWashed` is empty while
   * the greedy pick is still the first active garment, if there is one.
   */
  lemma GreedyLeastWashedVersusRanking(us: seq<Garment>)
    ensures Filter(Active(us), IsWashed) != [] ==>
      |LeastWashed(us)| > 0 && GreedyLeastWashed(us) == Some(LeastWashed(us)[0])
    ensures Filter(Active(us), IsWashed) == [] ==>
      LeastWashed(us) == [] &&
      GreedyLeastWashed(us) == (if Active(us) == [] then None else Some(Active(us)[0]))
  {
    GreedyLeastCharacterised(Active(us));
    GreedyMaxIsSortHead(Filter(Active(us), IsWashed), FewestWashesKey);
  }
}
