/**
 * The constant tables of the garment model: the material lifespans and the
 * achievement catalog (src/types/underwear.ts).
 */
module Catalog {

  /**
   * Garment materials. The declared type lists only the first three; the cards,
   * the avatars and the leaderboards also read a 'custom' material whose
   * lifespan the user supplies, so it is part of the model's type.
   */
  datatype Material = Cotton | Blend | Synthetic | Custom

  /** Achievement tiers, in the order their thresholds rise. */
  datatype Tier = Bronze | Silver | Gold | Legendary

  function TierRank(t: Tier): (r: nat)
    ensures r < 4
  {
    match t
    case Bronze => 0
    case Silver => 1
    case Gold => 2
    case Legendary => 3
  }

  /** One row of `ACHIEVEMENTS_DATA`. */
  datatype CatalogEntry = CatalogEntry(
    id: string, name: string, description: string, icon: string, tier: Tier, requiredWashes: nat)

  /** An unlocked achievement as stored on a garment; `unlockedAt` is a clock reading in milliseconds. */
  datatype Achievement = Achievement(
    id: string, name: string, description: string, icon: string, tier: Tier, unlockedAt: int)

  /** `MATERIAL_LIFESPANS`: the expected number of washes a standard material survives. */
  function MaterialLifespan(m: Material): (r: nat)
    requires m != Custom
    ensures 60 <= r <= 100
  {
    match m
    case Cotton => 60
    case Blend => 80
    case Synthetic => 100
  }

  const FRESH_PRINCE := CatalogEntry("fresh-prince", "Fresh Prince",
    "Washed 10 times - still looking royal!", "\U{1F451}", Bronze, 10)
  const CLEAN_MACHINE := CatalogEntry("clean-machine", "Clean Machine",
    "Reached 25 washes - squeaky clean champion!", "\U{1F9FD}", Silver, 25)
  const WASH_WARRIOR := CatalogEntry("wash-warrior", "Wash Warrior",
    "Survived 50 washes - legendary durability!", "\U{2694}\U{FE0F}", Gold, 50)
  const IMMORTAL_BRIEFS := CatalogEntry("immortal-briefs", "Immortal Briefs",
    "Over 75 washes and still going strong!", "\U{1F48E}", Legendary, 75)

  /** `ACHIEVEMENTS_DATA`, in declaration order. */
  const ACHIEVEMENTS_DATA: seq<CatalogEntry> := [FRESH_PRINCE, CLEAN_MACHINE, WASH_WARRIOR, IMMORTAL_BRIEFS]

  /** Thresholds strictly rise along the catalog. */
  predicate ThresholdsAscending(c: seq<CatalogEntry>) {
    forall i, j :: 0 <= i < j < |c| ==> c[i].requiredWashes < c[j].requiredWashes
  }

  /** Tiers strictly rise along the catalog. */
  predicate TiersAscending(c: seq<CatalogEntry>) {
    forall i, j :: 0 <= i < j < |c| ==> TierRank(c[i].tier) < TierRank(c[j].tier)
  }

  /** No two catalog entries share an id. */
  predicate DistinctEntryIds(c: seq<CatalogEntry>) {
    forall i, j :: 0 <= i < j < |c| ==> c[i].id != c[j].id
  }

  /** A catalog the evaluators can rely on. */
  predicate WellFormedCatalog(c: seq<CatalogEntry>) {
    ThresholdsAscending(c) && TiersAscending(c) && DistinctEntryIds(c)
  }

  /** The shipped catalog: thresholds 10 < 25 < 50 < 75, tiers bronze to legendary, four distinct ids. */
  lemma AchievementsDataWellFormed()
    ensures WellFormedCatalog(ACHIEVEMENTS_DATA)
    ensures forall i :: 0 <= i < |ACHIEVEMENTS_DATA| ==> ACHIEVEMENTS_DATA[i].requiredWashes >= 10
  {
  }

  /** A prefix of a well-formed catalog is well formed. */
  lemma PrefixWellFormed(c: seq<CatalogEntry>, n: nat)
    requires WellFormedCatalog(c) && n <= |c|
    ensures WellFormedCatalog(c[..n])
  {
  }

  /** The lifespans are ordered cotton < blend < synthetic. */
  lemma LifespansOrdered()
    ensures MaterialLifespan(Cotton) < MaterialLifespan(Blend) < MaterialLifespan(Synthetic)
  {
  }

  /** The achievement record built from a catalog entry at clock reading `now`. */
  function Stamp(e: CatalogEntry, now: int): (a: Achievement)
    ensures a.id == e.id && a.tier == e.tier && a.unlockedAt == now
  {
    Achievement(e.id, e.name, e.description, e.icon, e.tier, now)
  }
}
