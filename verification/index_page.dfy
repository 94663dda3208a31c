/**
 * The home page of the first frontend (src/pages/Index.tsx): the split of
 * the collection into active and retired garments, the tab counts, and the
 * quick-stat aggregates shown under the grid.
 */
module IndexPage {
  import opened Wrappers
  import opened Seqs
  import opened Garments

  /** `underwear.filter(u => !u.retired)`. */
  function ActiveUnderwear(us: seq<Garment>): seq<Garment> {
    Filter(us, IsActive)
  }

  /** `underwear.filter(u => u.retired)`. */
  function RetiredUnderwear(us: seq<Garment>): seq<Garment> {
    Filter(us, IsRetired)
  }

  /**
   * The two lists split the collection: together they hold every garment
   * exactly as often as the collection does, and each keeps the collection's
   * order (filtering commutes with concatenation).
   */
  lemma ActiveRetiredPartition(us: seq<Garment>, more: seq<Garment>)
    ensures |ActiveUnderwear(us)| + |RetiredUnderwear(us)| == |us|
    ensures multiset(ActiveUnderwear(us)) + multiset(RetiredUnderwear(us)) == multiset(us)
    ensures forall i :: 0 <= i < |ActiveUnderwear(us)| ==> !ActiveUnderwear(us)[i].retired
    ensures forall i :: 0 <= i < |RetiredUnderwear(us)| ==> RetiredUnderwear(us)[i].retired
    ensures ActiveUnderwear(us + more) == ActiveUnderwear(us) + ActiveUnderwear(more)
    ensures RetiredUnderwear(us + more) == RetiredUnderwear(us) + RetiredUnderwear(more)
  {
    FilterPartition(us, IsActive, IsRetired);
    FilterConcat(us, more, IsActive);
    FilterConcat(us, more, IsRetired);
  }

  function Washes(g: Garment): int {
    g.washCount
  }

  function AchievementCount(g: Garment): int {
    |g.achievements|
  }

  /** The summand of the age reduce: whole days since purchase at clock reading `now`. */
  function AgeAt(now: int): Garment -> int {
    (g: Garment) => DayAge(g.purchaseDate, now)
  }

  /**
   * `Math.round(S / n) || 0`: the sum of ages divided by the count, rounded
   * half up; with no garments `0 / 0` is NaN and the fallback gives 0.
   */
  function RoundedAverage(sum: int, n: nat): (r: int)
    ensures n == 0 ==> r == 0
    ensures n > 0 ==> 2 * n * r - n <= 2 * sum < 2 * n * r + n
  {
    if n == 0 then 0 else (2 * sum + n) / (2 * n)
  }

  /** The four quick-stat tiles. */
  datatype QuickStats = QuickStats(totalWashes: int, achievements: int, averageAge: int, retired: nat)

  /** What the page shows for a collection at clock reading `now`. */
  datatype View = View(
    totalInductees: nat,
    hallOfFame: nat,
    retiredHeroes: nat,
    welcome: bool,
    quickStats: Option<QuickStats>)

  /**
   * The page: the welcome block exactly for an empty collection, the quick
   * stats exactly for a non-empty one, and tab counts that add up to the total.
   */
  function Page(us: seq<Garment>, now: int): (v: View)
    ensures v.totalInductees == |us|
    ensures v.hallOfFame + v.retiredHeroes == v.totalInductees
    ensures v.welcome <==> |us| == 0
    ensures v.quickStats.Some? <==> |us| > 0
    ensures v.quickStats.Some? ==> v.quickStats.value.retired == v.retiredHeroes
  {
    FilterPartition(us, IsActive, IsRetired);
    View(
      |us|,
      |ActiveUnderwear(us)|,
      |RetiredUnderwear(us)|,
      |us| == 0,
      if |us| > 0 then
        Some(QuickStats(
          SumOf(us, Washes),
          SumOf(us, AchievementCount),
          RoundedAverage(SumOf(us, AgeAt(now)), |us|),
          |RetiredUnderwear(us)|))
      else None)
  }

  /**
   * The wash and achievement tiles are non-negative, bound every single
   * garment's figure, and split into the active and the retired garments' shares.
   */
  lemma QuickStatsAddUp(us: seq<Garment>, now: int)
    requires us != []
    ensures var q := Page(us, now).quickStats.value;
      && q.totalWashes >= 0 && q.achievements >= 0
      && (forall i :: 0 <= i < |us| ==> us[i].washCount <= q.totalWashes)
      && (forall i :: 0 <= i < |us| ==> |us[i].achievements| <= q.achievements)
      && q.totalWashes == SumOf(ActiveUnderwear(us), Washes) + SumOf(RetiredUnderwear(us), Washes)
      && q.achievements == SumOf(ActiveUnderwear(us), AchievementCount) + SumOf(RetiredUnderwear(us), AchievementCount)
  {
    SumBoundsTerms(us, Washes);
    SumBoundsTerms(us, AchievementCount);
    SumPartition(us, Washes, IsActive, IsRetired);
    SumPartition(us, AchievementCount, IsActive, IsRetired);
  }

  /** With every garment bought on the same day as the others, the average age is that garment's age. */
  lemma AverageOfEqualAges(us: seq<Garment>, now: int, days: int)
    requires us != [] && forall i :: 0 <= i < |us| ==> DayAge(us[i].purchaseDate, now) == days
    ensures Page(us, now).quickStats.value.averageAge == days
  {
    EqualTermsSum(us, AgeAt(now), days);
    RoundedAverageExact(|us|, days);
  }

  /** Averaging n equal values gives that value back. */
  lemma RoundedAverageExact(n: nat, d: int)
    requires n > 0
    ensures RoundedAverage(n * d, n) == d
  {
    var b := 2 * n;
    assert 2 * (n * d) + n == b * d + n;
    DivideExactly(b * d + n, b, d, n);
  }

  /** Division by a positive divisor recovers the quotient of a value built from it. */
  lemma DivideExactly(a: int, b: int, q: int, m: int)
    requires b > 0 && 0 <= m < b && a == b * q + m
    ensures a / b == q
  {
    var q' := a / b;
    assert a == b * q' + a % b;
    if q' < q {
      MulMonotone(b, q' + 1, q);
    } else if q' > q {
      MulMonotone(b, q + 1, q');
    }
  }

  /** Multiplying by a non-negative factor keeps the order. */
  lemma {:induction false} MulMonotone(b: int, x: int, y: int)
    requires b >= 0 && x <= y
    ensures b * x <= b * y
    decreases y - x
  {
    if x < y {
      MulMonotone(b, x, y - 1);
      assert b * y == b * (y - 1) + b;
    }
  }

  /** A sum of equal terms is the count times the term. */
  lemma {:induction false} EqualTermsSum(us: seq<Garment>, f: Garment -> int, v: int)
    requires forall i :: 0 <= i < |us| ==> f(us[i]) == v
    ensures SumOf(us, f) == |us| * v
    decreases |us|
  {
    if us != [] {
      var init := us[..|us| - 1];
      EqualTermsSum(init, f, v);
      SumConcat(init, [us[|us| - 1]], f);
      assert us == init + [us[|us| - 1]];
    }
  }
}
