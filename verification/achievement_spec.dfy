/**
 * What the achievement evaluators compute, independently of any one copy:
 * given the ids a garment already holds and its wash count, the catalog
 * entries whose threshold is met and whose id is not yet held, in catalog
 * order, each stamped with the current clock reading.
 */
module AchievementSpec {
  import opened Catalog
  import opened Seqs

  /** `achievements.map(a => a.id)`. */
  function Ids(a: seq<Achievement>): seq<string> {
    Map(a, (x: Achievement) => x.id)
  }

  lemma IdsConcat(a: seq<Achievement>, b: seq<Achievement>)
    ensures Ids(a + b) == Ids(a) + Ids(b)
  {
  }

  /** No two achievements of a garment share an id. */
  predicate DistinctIds(a: seq<Achievement>) {
    forall i, j :: 0 <= i < j < |a| ==> a[i].id != a[j].id
  }

  /** Entry e is due: its id is not held and the wash count reaches its threshold. */
  predicate Qualifies(e: CatalogEntry, held: seq<string>, washCount: int) {
    e.id !in held && washCount >= e.requiredWashes
  }

  /** The achievements an evaluator returns over catalog c. */
  function Unlocked(c: seq<CatalogEntry>, held: seq<string>, washCount: int, now: int): seq<Achievement>
    decreases |c|
  {
    if c == [] then []
    else
      var e := c[|c| - 1];
      Unlocked(c[..|c| - 1], held, washCount, now) + (if Qualifies(e, held, washCount) then [Stamp(e, now)] else [])
  }

  /** Achievement a is the stamped copy of an entry of c that is due. */
  predicate FromDueEntry(c: seq<CatalogEntry>, held: seq<string>, washCount: int, now: int, a: Achievement) {
    exists k :: 0 <= k < |c| && Qualifies(c[k], held, washCount) && a == Stamp(c[k], now)
  }

  /** Everything returned is a stamped copy of a due catalog entry. */
  lemma {:induction false} UnlockedSound(c: seq<CatalogEntry>, held: seq<string>, washCount: int, now: int)
    ensures |Unlocked(c, held, washCount, now)| <= |c|
    ensures forall a :: a in Unlocked(c, held, washCount, now) ==> FromDueEntry(c, held, washCount, now, a)
    decreases |c|
  {
    if c != [] {
      var c' := c[..|c| - 1];
      UnlockedSound(c', held, washCount, now);
      forall a | a in Unlocked(c, held, washCount, now)
        ensures FromDueEntry(c, held, washCount, now, a)
      {
        if a in Unlocked(c', held, washCount, now) {
          var k :| 0 <= k < |c'| && Qualifies(c'[k], held, washCount) && a == Stamp(c'[k], now);
          assert c[k] == c'[k];
        } else {
          assert a == Stamp(c[|c| - 1], now);
        }
      }
    }
  }

  /** Every due catalog entry is returned. */
  lemma {:induction false} UnlockedComplete(c: seq<CatalogEntry>, held: seq<string>, washCount: int, now: int, k: nat)
    requires k < |c| && Qualifies(c[k], held, washCount)
    ensures Stamp(c[k], now) in Unlocked(c, held, washCount, now)
    decreases |c|
  {
    if k < |c| - 1 {
      UnlockedComplete(c[..|c| - 1], held, washCount, now, k);
    }
  }

  /** Nothing is returned exactly when no catalog entry is due. */
  lemma {:induction false} UnlockedEmptyIff(c: seq<CatalogEntry>, held: seq<string>, washCount: int, now: int)
    ensures Unlocked(c, held, washCount, now) == [] <==>
      forall k :: 0 <= k < |c| ==> !Qualifies(c[k], held, washCount)
    decreases |c|
  {
    if c != [] {
      UnlockedEmptyIff(c[..|c| - 1], held, washCount, now);
      assert forall k :: 0 <= k < |c| - 1 ==> c[..|c| - 1][k] == c[k];
    }
  }

  /** Over a catalog with distinct ids the returned ids are distinct and none of them was already held. */
  lemma {:induction false} UnlockedFresh(c: seq<CatalogEntry>, held: seq<string>, washCount: int, now: int)
    requires DistinctEntryIds(c)
    ensures var r := Unlocked(c, held, washCount, now);
      DistinctIds(r) && forall i :: 0 <= i < |r| ==> r[i].id !in held
    decreases |c|
  {
    UnlockedSound(c, held, washCount, now);
    if c != [] {
      var c' := c[..|c| - 1];
      UnlockedFresh(c', held, washCount, now);
      UnlockedSound(c', held, washCount, now);
      var r' := Unlocked(c', held, washCount, now);
      forall i | 0 <= i < |r'| ensures r'[i].id != c[|c| - 1].id {
        assert r'[i] in r';
        var k :| 0 <= k < |c'| && Qualifies(c'[k], held, washCount) && r'[i] == Stamp(c'[k], now);
        assert c'[k] == c[k];
      }
    }
  }

  /** Over a catalog whose tiers rise, the returned tiers strictly rise: the result is in catalog order. */
  lemma {:induction false} UnlockedInCatalogOrder(c: seq<CatalogEntry>, held: seq<string>, washCount: int, now: int)
    requires TiersAscending(c)
    ensures var r := Unlocked(c, held, washCount, now);
      forall i, j :: 0 <= i < j < |r| ==> TierRank(r[i].tier) < TierRank(r[j].tier)
    decreases |c|
  {
    if c != [] {
      var c' := c[..|c| - 1];
      UnlockedInCatalogOrder(c', held, washCount, now);
      UnlockedSound(c', held, washCount, now);
      var r' := Unlocked(c', held, washCount, now);
      forall i | 0 <= i < |r'| ensures TierRank(r'[i].tier) < TierRank(c[|c| - 1].tier) {
        assert r'[i] in r';
        var k :| 0 <= k < |c'| && Qualifies(c'[k], held, washCount) && r'[i] == Stamp(c'[k], now);
        assert c'[k] == c[k];
      }
    }
  }

  /**
   * Re-evaluating after the merge, with the wash count unchanged, finds nothing:
   * no achievement is unlocked twice.
   */
  lemma ReevaluationFindsNothing(c: seq<CatalogEntry>, existing: seq<Achievement>, washCount: int, now: int, later: int)
    ensures var merged := existing + Unlocked(c, Ids(existing), washCount, now);
      Unlocked(c, Ids(merged), washCount, later) == []
  {
    var added := Unlocked(c, Ids(existing), washCount, now);
    var merged := existing + added;
    IdsConcat(existing, added);
    forall k | 0 <= k < |c| ensures !Qualifies(c[k], Ids(merged), washCount) {
      if washCount >= c[k].requiredWashes && c[k].id !in Ids(existing) {
        UnlockedComplete(c, Ids(existing), washCount, now, k);
        var i :| 0 <= i < |added| && added[i] == Stamp(c[k], now);
        assert Ids(merged)[|existing| + i] == c[k].id;
      }
    }
    UnlockedEmptyIff(c, Ids(merged), washCount, later);
  }

  /** The ids of the catalog entries whose threshold is at most `washCount`, in catalog order. */
  function ReachedIds(c: seq<CatalogEntry>, washCount: int): seq<string>
    decreases |c|
  {
    if c == [] then []
    else
      var e := c[|c| - 1];
      ReachedIds(c[..|c| - 1], washCount) + (if e.requiredWashes <= washCount then [e.id] else [])
  }

  /** The ids of the catalog entries whose threshold is exactly `washCount`. */
  function ExactIds(c: seq<CatalogEntry>, washCount: int): seq<string>
    decreases |c|
  {
    if c == [] then []
    else
      var e := c[|c| - 1];
      ExactIds(c[..|c| - 1], washCount) + (if e.requiredWashes == washCount then [e.id] else [])
  }

  /** An id is reached exactly when some entry with that id has its threshold met. */
  lemma {:induction false} ReachedIdsMembers(c: seq<CatalogEntry>, washCount: int, x: string)
    ensures x in ReachedIds(c, washCount) <==>
      exists k :: 0 <= k < |c| && c[k].id == x && c[k].requiredWashes <= washCount
    decreases |c|
  {
    if c != [] {
      var c' := c[..|c| - 1];
      ReachedIdsMembers(c', washCount, x);
      if x in ReachedIds(c', washCount) {
        var k :| 0 <= k < |c'| && c'[k].id == x && c'[k].requiredWashes <= washCount;
        assert c[k] == c'[k];
      }
      if exists k :: 0 <= k < |c| && c[k].id == x && c[k].requiredWashes <= washCount {
        var k :| 0 <= k < |c| && c[k].id == x && c[k].requiredWashes <= washCount;
        if k < |c'| {
          assert c'[k] == c[k];
        }
      }
    }
  }

  /** Over a catalog with distinct ids, the reached ids are distinct. */
  lemma {:induction false} ReachedIdsDistinct(c: seq<CatalogEntry>, washCount: int)
    requires DistinctEntryIds(c)
    ensures var r := ReachedIds(c, washCount);
      forall i, j :: 0 <= i < j < |r| ==> r[i] != r[j]
    decreases |c|
  {
    if c != [] {
      var c' := c[..|c| - 1];
      ReachedIdsDistinct(c', washCount);
      ReachedIdsMembers(c', washCount, c[|c| - 1].id);
    }
  }

  /**
   * When `held` is exactly the set of reached ids among c's entries, the entries
   * due at the next count are the ones whose threshold equals that count.
   */
  lemma {:induction false} UnlockedAtNextCount(c: seq<CatalogEntry>, held: seq<string>, washCount: int, now: int)
    requires forall k :: 0 <= k < |c| ==> (c[k].id in held <==> c[k].requiredWashes <= washCount)
    ensures Ids(Unlocked(c, held, washCount + 1, now)) == ExactIds(c, washCount + 1)
    decreases |c|
  {
    if c != [] {
      var c' := c[..|c| - 1];
      assert forall k :: 0 <= k < |c'| ==> c'[k] == c[k];
      UnlockedAtNextCount(c', held, washCount, now);
      var e := c[|c| - 1];
      IdsConcat(Unlocked(c', held, washCount + 1, now), if Qualifies(e, held, washCount + 1) then [Stamp(e, now)] else []);
    }
  }

  /** With rising thresholds, nothing before the last entry has the last entry's threshold or more. */
  lemma {:induction false} NoExactBelow(c: seq<CatalogEntry>, washCount: int)
    requires forall k :: 0 <= k < |c| ==> c[k].requiredWashes < washCount
    ensures ExactIds(c, washCount) == [] && ReachedIds(c, washCount) == ReachedIds(c, washCount - 1)
    decreases |c|
  {
    if c != [] {
      NoExactBelow(c[..|c| - 1], washCount);
    }
  }

  /** With rising thresholds, the ids reached at count w+1 are those reached at w followed by those due exactly at w+1. */
  lemma {:induction false} ReachedStep(c: seq<CatalogEntry>, washCount: int)
    requires ThresholdsAscending(c)
    ensures ReachedIds(c, washCount) + ExactIds(c, washCount + 1) == ReachedIds(c, washCount + 1)
    decreases |c|
  {
    if c != [] {
      var c' := c[..|c| - 1];
      var e := c[|c| - 1];
      ReachedStep(c', washCount);
      if e.requiredWashes <= washCount + 1 {
        NoExactBelow(c', washCount + 1);
      }
    }
  }

  /**
   * One wash keeps a garment's achievements equal to the reached prefix of the catalog:
   * if the held ids are those reached at `washCount`, adding what the evaluator returns
   * at `washCount + 1` gives those reached at `washCount + 1`.
   */
  lemma WashKeepsReached(c: seq<CatalogEntry>, existing: seq<Achievement>, washCount: int, now: int)
    requires ThresholdsAscending(c) && DistinctEntryIds(c)
    requires Ids(existing) == ReachedIds(c, washCount)
    ensures Ids(existing + Unlocked(c, Ids(existing), washCount + 1, now)) == ReachedIds(c, washCount + 1)
  {
    forall k | 0 <= k < |c| ensures (c[k].id in Ids(existing) <==> c[k].requiredWashes <= washCount) {
      ReachedIdsMembers(c, washCount, c[k].id);
      if c[k].id in Ids(existing) {
        var j :| 0 <= j < |c| && c[j].id == c[k].id && c[j].requiredWashes <= washCount;
        assert j == k;
      }
    }
    UnlockedAtNextCount(c, Ids(existing), washCount, now);
    IdsConcat(existing, Unlocked(c, Ids(existing), washCount + 1, now));
    ReachedStep(c, washCount);
  }

  /** Achievements that match the reached prefix of a catalog with distinct ids have distinct ids. */
  lemma ReachedMeansDistinct(c: seq<CatalogEntry>, a: seq<Achievement>, washCount: int)
    requires DistinctEntryIds(c) && Ids(a) == ReachedIds(c, washCount)
    ensures DistinctIds(a)
  {
    ReachedIdsDistinct(c, washCount);
    forall i, j | 0 <= i < j < |a| ensures a[i].id != a[j].id {
      assert Ids(a)[i] == a[i].id && Ids(a)[j] == a[j].id;
    }
  }

  /** Below the lowest threshold nothing is reached; this is where every new garment starts. */
  lemma NothingReachedBelow(c: seq<CatalogEntry>, washCount: int)
    requires forall k :: 0 <= k < |c| ==> washCount < c[k].requiredWashes
    ensures ReachedIds(c, washCount) == []
  {
    NoExactBelowZero(c, washCount);
  }

  lemma {:induction false} NoExactBelowZero(c: seq<CatalogEntry>, washCount: int)
    requires forall k :: 0 <= k < |c| ==> washCount < c[k].requiredWashes
    ensures ReachedIds(c, washCount) == []
    decreases |c|
  {
    if c != [] {
      NoExactBelowZero(c[..|c| - 1], washCount);
    }
  }

  /** Over the shipped catalog, the reached ids at count w are the ids of the thresholds 10, 25, 50, 75 that w meets. */
  lemma ShippedReached(washCount: int)
    ensures ReachedIds(ACHIEVEMENTS_DATA, washCount) ==
      (if washCount >= 10 then ["fresh-prince"] else []) +
      (if washCount >= 25 then ["clean-machine"] else []) +
      (if washCount >= 50 then ["wash-warrior"] else []) +
      (if washCount >= 75 then ["immortal-briefs"] else [])
  {
    var c := ACHIEVEMENTS_DATA;
    assert c[..3] == [FRESH_PRINCE, CLEAN_MACHINE, WASH_WARRIOR];
    assert c[..3][..2] == [FRESH_PRINCE, CLEAN_MACHINE];
    assert c[..3][..2][..1] == [FRESH_PRINCE];
    assert c[..3][..2][..1][..0] == [];
    assert ReachedIds([FRESH_PRINCE], washCount) == (if washCount >= 10 then ["fresh-prince"] else []);
    assert ReachedIds([FRESH_PRINCE, CLEAN_MACHINE], washCount) ==
      ReachedIds([FRESH_PRINCE], washCount) + (if washCount >= 25 then ["clean-machine"] else []);
    assert ReachedIds([FRESH_PRINCE, CLEAN_MACHINE, WASH_WARRIOR], washCount) ==
      ReachedIds([FRESH_PRINCE, CLEAN_MACHINE], washCount) + (if washCount >= 50 then ["wash-warrior"] else []);
  }

  /**
   * The scenarios of the shipped catalog: nothing before 10 washes, only
   * fresh-prince from 10 to 24, then clean-machine joins it at 25, in that order.
   */
  lemma ShippedCatalogScenarios()
    ensures ReachedIds(ACHIEVEMENTS_DATA, 9) == []
    ensures ReachedIds(ACHIEVEMENTS_DATA, 10) == ["fresh-prince"]
    ensures ReachedIds(ACHIEVEMENTS_DATA, 24) == ["fresh-prince"]
    ensures ReachedIds(ACHIEVEMENTS_DATA, 25) == ["fresh-prince", "clean-machine"]
    ensures ReachedIds(ACHIEVEMENTS_DATA, 75) == ["fresh-prince", "clean-machine", "wash-warrior", "immortal-briefs"]
  {
    ShippedReached(9);
    ShippedReached(10);
    ShippedReached(24);
    ShippedReached(25);
    ShippedReached(75);
  }
}
