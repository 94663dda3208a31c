/**
 * The leaderboard page of the second frontend
 * (frontend/src/components/Leaderboards.tsx): four top-5 rankings built with
 * filter, map, a stable sort and a slice, the hall stats, and the rank badge.
 */
module LeaderboardsFrontend {
  import opened Catalog
  import opened Garments
  import opened Seqs
  import opened Ranking

  /** Every ranking is cut to its first five entries. */
  const TOP: nat := 5

  /** A garment paired with its age in whole days (`lifespanDays`). */
  datatype Aged = Aged(garment: Garment, lifespanDays: int)

  /** A garment paired with its wash efficiency (`efficiency`). */
  datatype Rated = Rated(garment: Garment, efficiency: real)

  function WashKey(g: Garment): real {
    g.washCount as real
  }

  /** Ascending wash count, as a descending key. */
  function FewestWashesKey(g: Garment): real {
    -(g.washCount as real)
  }

  function AgedKey(a: Aged): real {
    a.lifespanDays as real
  }

  function RatedKey(r: Rated): real {
    r.efficiency
  }

  /** `u.washCount > 0`. */
  predicate IsWashed(g: Garment) {
    g.washCount > 0
  }

  /**
   * The wash budget the efficiency divides by: the custom count (100 when it
   * is 0 or missing) for custom garments, else the material lifespan.
   */
  function RatioBudget(g: Garment): (m: int)
    ensures m != 0
    ensures g.material != Custom ==> 60 <= m <= 100
    ensures g.material == Custom && g.customWashes != 0 ==> m == g.customWashes
  {
    if g.material == Custom then (if g.customWashes == 0 then 100 else g.customWashes)
    else MaterialLifespan(g.material)
  }

  /** `u.washCount / maxWashes`. */
  function Efficiency(g: Garment): (e: real)
    ensures e * RatioBudget(g) as real == g.washCount as real
    ensures RatioBudget(g) > 0 ==> e >= 0.0
  {
    g.washCount as real / RatioBudget(g) as real
  }

  /** The ages, in input order. */
  function AgedList(us: seq<Garment>, now: int): (r: seq<Aged>)
    ensures |r| == |us|
    ensures forall i :: 0 <= i < |us| ==> r[i].garment == us[i] && r[i].lifespanDays == DayAge(us[i].purchaseDate, now)
  {
    seq(|us|, i requires 0 <= i < |us| => Aged(us[i], DayAge(us[i].purchaseDate, now)))
  }

  /** The efficiencies, in input order. */
  function RatedList(us: seq<Garment>): (r: seq<Rated>)
    ensures |r| == |us|
    ensures forall i :: 0 <= i < |us| ==> r[i].garment == us[i] && r[i].efficiency == Efficiency(us[i])
  {
    seq(|us|, i requires 0 <= i < |us| => Rated(us[i], Efficiency(us[i])))
  }

  /** `activeUnderwear`. */
  function Active(us: seq<Garment>): seq<Garment> {
    Filter(us, IsActive)
  }

  /** `mostWashed`: every garment, retired ones included, by descending wash count. */
  function MostWashed(us: seq<Garment>): seq<Garment> {
    Take(SortDesc(us, WashKey), TOP)
  }

  /** `longestLifespan`: active garments by descending age in days at clock reading `now`. */
  function LongestLifespan(us: seq<Garment>, now: int): seq<Aged> {
    Take(SortDesc(AgedList(Active(us), now), AgedKey), TOP)
  }

  /** `leastWashed`: active garments washed at least once, by ascending wash count. */
  function LeastWashed(us: seq<Garment>): seq<Garment> {
    Take(SortDesc(Filter(Active(us), IsWashed), FewestWashesKey), TOP)
  }

  /** `bestRatio`: active garments by descending efficiency. */
  function BestRatio(us: seq<Garment>): seq<Rated> {
    Take(SortDesc(RatedList(Active(us)), RatedKey), TOP)
  }

  /**
   * `mostWashed` holds the five (or fewer) garments with the most washes, in
   * non-increasing order, taken from the whole collection.
   */
  lemma MostWashedRanks(us: seq<Garment>)
    ensures var r := MostWashed(us);
      && |r| == (if |us| < TOP then |us| else TOP)
      && (forall i, j :: 0 <= i < j < |r| ==> r[i].washCount >= r[j].washCount)
      && multiset(r) <= multiset(us)
      && forall x, i :: x in multiset(us) - multiset(r) && 0 <= i < |r| ==> x.washCount <= r[i].washCount
  {
    MostWashedOrder(us);
    MostWashedBound(us);
  }

  lemma MostWashedOrder(us: seq<Garment>)
    ensures var r := MostWashed(us);
      forall i, j :: 0 <= i < j < |r| ==> r[i].washCount >= r[j].washCount
  {
    TopSorted(us, WashKey, TOP);
    var r := MostWashed(us);
    forall i, j | 0 <= i < j < |r| ensures r[i].washCount >= r[j].washCount {
      assert WashKey(r[i]) >= WashKey(r[j]);
    }
  }

  lemma MostWashedBound(us: seq<Garment>)
    ensures var r := MostWashed(us);
      && multiset(r) <= multiset(us)
      && forall x, i :: x in multiset(us) - multiset(r) && 0 <= i < |r| ==> x.washCount <= r[i].washCount
  {
    TopOfSorted(us, WashKey, TOP);
    var r := MostWashed(us);
    forall x, i | x in multiset(us) - multiset(r) && 0 <= i < |r| ensures x.washCount <= r[i].washCount {
      assert WashKey(x) <= WashKey(r[i]);
    }
  }

  /** An age entry of an active garment of `us`, with its age at `now`. */
  function AgedFrom(us: seq<Garment>, now: int): Aged -> bool {
    (a: Aged) => a.garment in us && !a.garment.retired && a.lifespanDays == DayAge(a.garment.purchaseDate, now)
  }

  /**
   * `longestLifespan` holds the five (or fewer) oldest active garments, oldest
   * first: it is as long as it can be, drawn from the active garments' ages,
   * and no active garment left out is older than one kept.
   */
  lemma LongestLifespanRanks(us: seq<Garment>, now: int)
    ensures var r := LongestLifespan(us, now);
      var aged := AgedList(Active(us), now);
      && |r| == (if |aged| < TOP then |aged| else TOP)
      && (forall i, j :: 0 <= i < j < |r| ==> r[i].lifespanDays >= r[j].lifespanDays)
      && (forall i :: 0 <= i < |r| ==> AgedFrom(us, now)(r[i]))
      && multiset(r) <= multiset(aged)
      && forall x, i :: x in multiset(aged) - multiset(r) && 0 <= i < |r| ==> x.lifespanDays <= r[i].lifespanDays
  {
    var active := Active(us);
    var aged := AgedList(active, now);
    forall i | 0 <= i < |aged| ensures AgedFrom(us, now)(aged[i]) {
      assert aged[i].garment == active[i] && active[i] in active;
    }
    TopKeeps(aged, AgedKey, TOP, AgedFrom(us, now));
    LongestLifespanBound(us, now);
  }

  lemma LongestLifespanBound(us: seq<Garment>, now: int)
    ensures var r := LongestLifespan(us, now);
      var aged := AgedList(Active(us), now);
      && |r| == (if |aged| < TOP then |aged| else TOP)
      && (forall i, j :: 0 <= i < j < |r| ==> r[i].lifespanDays >= r[j].lifespanDays)
      && multiset(r) <= multiset(aged)
      && forall x, i :: x in multiset(aged) - multiset(r) && 0 <= i < |r| ==> x.lifespanDays <= r[i].lifespanDays
  {
    var aged := AgedList(Active(us), now);
    TopOfSorted(aged, AgedKey, TOP);
    var r := LongestLifespan(us, now);
    forall i, j | 0 <= i < j < |r| ensures r[i].lifespanDays >= r[j].lifespanDays {
      assert AgedKey(r[i]) >= AgedKey(r[j]);
    }
    forall x, i | x in multiset(aged) - multiset(r) && 0 <= i < |r| ensures x.lifespanDays <= r[i].lifespanDays {
      assert AgedKey(x) <= AgedKey(r[i]);
    }
  }

  /** An active garment of `us` with at least one wash. */
  function WashedFrom(us: seq<Garment>): Garment -> bool {
    (g: Garment) => g in us && !g.retired && g.washCount > 0
  }

  /**
   * `leastWashed` holds the five (or fewer) active garments with the fewest
   * washes among those washed at least once, fewest first: it is as long as it
   * can be, and no washed active garment left out has fewer washes than one kept.
   */
  lemma LeastWashedRanks(us: seq<Garment>)
    ensures var r := LeastWashed(us);
      var washed := Filter(Active(us), IsWashed);
      && |r| == (if |washed| < TOP then |washed| else TOP)
      && (forall i, j :: 0 <= i < j < |r| ==> r[i].washCount <= r[j].washCount)
      && (forall i :: 0 <= i < |r| ==> WashedFrom(us)(r[i]))
      && multiset(r) <= multiset(washed)
      && forall x, i :: x in multiset(washed) - multiset(r) && 0 <= i < |r| ==> x.washCount >= r[i].washCount
  {
    var washed := Filter(Active(us), IsWashed);
    forall i | 0 <= i < |washed| ensures WashedFrom(us)(washed[i]) {
      assert washed[i] in Active(us);
    }
    TopKeeps(washed, FewestWashesKey, TOP, WashedFrom(us));
    LeastWashedBound(us);
  }

  lemma LeastWashedBound(us: seq<Garment>)
    ensures var r := LeastWashed(us);
      var washed := Filter(Active(us), IsWashed);
      && |r| == (if |washed| < TOP then |washed| else TOP)
      && (forall i, j :: 0 <= i < j < |r| ==> r[i].washCount <= r[j].washCount)
      && multiset(r) <= multiset(washed)
      && forall x, i :: x in multiset(washed) - multiset(r) && 0 <= i < |r| ==> x.washCount >= r[i].washCount
  {
    var washed := Filter(Active(us), IsWashed);
    TopOfSorted(washed, FewestWashesKey, TOP);
    var r := LeastWashed(us);
    forall i, j | 0 <= i < j < |r| ensures r[i].washCount <= r[j].washCount {
      assert FewestWashesKey(r[i]) >= FewestWashesKey(r[j]);
    }
    forall x, i | x in multiset(washed) - multiset(r) && 0 <= i < |r| ensures x.washCount >= r[i].washCount {
      assert FewestWashesKey(x) <= FewestWashesKey(r[i]);
    }
  }

  /** An efficiency entry of an active garment of `us`, with its efficiency. */
  function RatedFrom(us: seq<Garment>): Rated -> bool {
    (e: Rated) => e.garment in us && !e.garment.retired && e.efficiency == Efficiency(e.garment)
  }

  /**
   * `bestRatio` holds the five (or fewer) most efficient active garments, most
   * efficient first, each with its efficiency: it is as long as it can be,
   * drawn from the active garments' ratings, and no active garment left out is
   * more efficient than one kept.
   */
  lemma BestRatioRanks(us: seq<Garment>)
    ensures var r := BestRatio(us);
      var rated := RatedList(Active(us));
      && |r| == (if |rated| < TOP then |rated| else TOP)
      && (forall i, j :: 0 <= i < j < |r| ==> r[i].efficiency >= r[j].efficiency)
      && (forall i :: 0 <= i < |r| ==> RatedFrom(us)(r[i]))
      && multiset(r) <= multiset(rated)
      && forall x, i :: x in multiset(rated) - multiset(r) && 0 <= i < |r| ==> x.efficiency <= r[i].efficiency
  {
    var active := Active(us);
    var rated := RatedList(active);
    forall i | 0 <= i < |rated| ensures RatedFrom(us)(rated[i]) {
      assert rated[i].garment == active[i] && active[i] in active;
    }
    TopKeeps(rated, RatedKey, TOP, RatedFrom(us));
    BestRatioBound(us);
  }

  lemma BestRatioBound(us: seq<Garment>)
    ensures var r := BestRatio(us);
      var rated := RatedList(Active(us));
      && |r| == (if |rated| < TOP then |rated| else TOP)
      && (forall i, j :: 0 <= i < j < |r| ==> r[i].efficiency >= r[j].efficiency)
      && multiset(r) <= multiset(rated)
      && forall x, i :: x in multiset(rated) - multiset(r) && 0 <= i < |r| ==> x.efficiency <= r[i].efficiency
  {
    var rated := RatedList(Active(us));
    TopOfSorted(rated, RatedKey, TOP);
    var r := BestRatio(us);
    forall i, j | 0 <= i < j < |r| ensures r[i].efficiency >= r[j].efficiency {
      assert RatedKey(r[i]) >= RatedKey(r[j]);
    }
    forall x, i | x in multiset(rated) - multiset(r) && 0 <= i < |r| ensures x.efficiency <= r[i].efficiency {
      assert RatedKey(x) <= RatedKey(r[i]);
    }
  }

  /** Ties on wash count keep their collection order in `mostWashed`'s sort. */
  lemma MostWashedStable(us: seq<Garment>, count: nat)
    ensures Filter(SortDesc(us, WashKey), KeyIs(WashKey, count as real)) == Filter(us, KeyIs(WashKey, count as real))
  {
    SortStable(us, WashKey, count as real);
  }

  /** The four figures of the hall stats card. */
  datatype HallStats = HallStats(totalInductees: nat, stillActive: nat, totalWashes: int, retiredHeroes: nat)

  function WashCount(g: Garment): int {
    g.washCount
  }

  /** `underwear.length`, `activeUnderwear.length`, the summed wash counts and `underwear.filter(u => u.retired).length`. */
  function Stats(us: seq<Garment>): HallStats {
    HallStats(|us|, |Active(us)|, SumOf(us, WashCount), |Filter(us, IsRetired)|)
  }

  /**
   * Active and retired garments add up to the total, and the wash total is
   * at least every single garment's count. The greedy page shows the same
   * four figures (src/components/Leaderboards.tsx:211-226).
   */
  lemma StatsAddUp(us: seq<Garment>)
    ensures var h := Stats(us);
      && h.stillActive + h.retiredHeroes == h.totalInductees
      && h.totalWashes >= 0
      && forall i :: 0 <= i < |us| ==> us[i].washCount <= h.totalWashes
  {
    FilterPartition(us, IsActive, IsRetired);
    SumBoundsTerms(us, WashCount);
  }

  /** `getRankEmoji`: gold, silver and bronze medals for the first three places, a sports medal after. */
  function RankEmoji(index: int): (e: string)
    ensures index == 0 ==> e == "\U{1F947}"
    ensures index == 1 ==> e == "\U{1F948}"
    ensures index == 2 ==> e == "\U{1F949}"
    ensures !(0 <= index <= 2) ==> e == "\U{1F3C5}"
  {
    if index == 0 then "\U{1F947}"
    else if index == 1 then "\U{1F948}"
    else if index == 2 then "\U{1F949}"
    else "\U{1F3C5}"
  }

  /** The first three places get three different medals, and no later place shares one of them. */
  lemma RankEmojiPodium(i: int, j: int)
    requires 0 <= i < j
    ensures j <= 2 ==> RankEmoji(i) != RankEmoji(j)
    ensures i <= 2 < j ==> RankEmoji(i) != RankEmoji(j)
    ensures 2 < i ==> RankEmoji(i) == RankEmoji(j)
  {
  }
}
