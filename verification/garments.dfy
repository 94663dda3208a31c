/**
 * The garment record the registries keep (`Underwear` / `UnderLiv` /
 * `Undergarment` without its owner), the draft a form hands to `add`, and the
 * per-garment updates that `wash` and `retire` apply.
 */
module Garments {
  import opened Wrappers
  import opened Catalog
  import opened AchievementSpec
  import opened Seqs

  /**
   * A tracked garment. Dates are clock readings in milliseconds (the parsed
   * value of the stored ISO string); the wash count cannot go below zero.
   */
  datatype Garment = Garment(
    id: string,
    name: string,
    color: string,
    material: Material,
    customWashes: int,
    accessories: seq<string>,
    purchaseDate: int,
    washCount: nat,
    retired: bool,
    retiredDate: Option<int>,
    achievements: seq<Achievement>)

  /** What a form passes to `add`: a garment without id, count, retirement and achievements. */
  datatype Draft = Draft(
    name: string,
    color: string,
    material: Material,
    customWashes: int,
    accessories: seq<string>,
    purchaseDate: int)

  /** The garment `add` builds from a draft: count 0, not retired, no achievements. */
  function FromDraft(d: Draft, id: string): (g: Garment)
    ensures g.id == id && g.washCount == 0 && !g.retired && g.retiredDate == None && g.achievements == []
    ensures g.name == d.name && g.color == d.color && g.material == d.material
    ensures g.customWashes == d.customWashes && g.accessories == d.accessories && g.purchaseDate == d.purchaseDate
  {
    Garment(id, d.name, d.color, d.material, d.customWashes, d.accessories, d.purchaseDate, 0, false, None, [])
  }

  /** One day in milliseconds. */
  const DAY_MS: int := 1000 * 60 * 60 * 24

  /** `Math.floor((now - purchaseDate) / DAY_MS)`: whole days since purchase. */
  function DayAge(purchaseDate: int, now: int): (days: int)
    ensures DAY_MS * days <= now - purchaseDate < DAY_MS * (days + 1)
  {
    (now - purchaseDate) / DAY_MS
  }

  /**
   * The per-garment state the registries maintain: the achievement ids are
   * exactly the reached prefix of catalog c, and a retired garment has a
   * retirement date.
   */
  predicate Consistent(c: seq<CatalogEntry>, g: Garment) {
    && Ids(g.achievements) == ReachedIds(c, g.washCount)
    && (g.retired ==> g.retiredDate.Some?)
  }

  /** `!u.retired`: the garment is still in service. */
  predicate IsActive(g: Garment) {
    !g.retired
  }

  /** `u.retired`. */
  predicate IsRetired(g: Garment) {
    g.retired
  }

  /** No two garments of a collection share an id. */
  predicate DistinctGarmentIds(gs: seq<Garment>) {
    forall i, j :: 0 <= i < j < |gs| ==> gs[i].id != gs[j].id
  }

  /** `gs.map(u => u.id)`. */
  function GarmentIds(gs: seq<Garment>): seq<string> {
    Map(gs, (g: Garment) => g.id)
  }

  /**
   * The garment after one wash with evaluator catalog c: the count goes up by
   * one and what the evaluator returns at the new count is appended.
   */
  function WithWash(c: seq<CatalogEntry>, u: Garment, now: int): (v: Garment)
    ensures v.washCount == u.washCount + 1
    ensures |u.achievements| <= |v.achievements| && v.achievements[..|u.achievements|] == u.achievements
    ensures v == u.(washCount := v.washCount, achievements := v.achievements)
  {
    u.(washCount := u.washCount + 1,
       achievements := u.achievements + Unlocked(c, Ids(u.achievements), u.washCount + 1, now))
  }

  /** A wash keeps a garment consistent with a well-formed catalog, and its achievement ids distinct. */
  lemma WashKeepsConsistent(c: seq<CatalogEntry>, u: Garment, now: int)
    requires WellFormedCatalog(c) && Consistent(c, u)
    ensures Consistent(c, WithWash(c, u, now))
    ensures DistinctIds(WithWash(c, u, now).achievements)
  {
    WashKeepsReached(c, u.achievements, u.washCount, now);
    ReachedMeansDistinct(c, WithWash(c, u, now).achievements, u.washCount + 1);
  }

  /** The garment after `retire`: retired, with the retirement date overwritten by `now`. */
  function WithRetire(u: Garment, now: int): (v: Garment)
    ensures v.retired && v.retiredDate == Some(now)
    ensures v == u.(retired := true, retiredDate := Some(now))
  {
    u.(retired := true, retiredDate := Some(now))
  }

  /** A fresh garment is consistent with any catalog whose thresholds are all positive. */
  lemma NewGarmentConsistent(c: seq<CatalogEntry>, d: Draft, id: string)
    requires forall k :: 0 <= k < |c| ==> c[k].requiredWashes > 0
    ensures Consistent(c, FromDraft(d, id))
  {
    NothingReachedBelow(c, 0);
  }

  /** `gs.filter(u => u.id !== id)`: the collection after `delete`. */
  function Without(gs: seq<Garment>, id: string): (r: seq<Garment>)
    ensures forall i :: 0 <= i < |r| ==> r[i].id != id && r[i] in gs
    ensures forall i :: 0 <= i < |gs| && gs[i].id != id ==> gs[i] in r
  {
    Filter(gs, (g: Garment) => g.id != id)
  }

  /** Deleting keeps garment ids distinct. */
  lemma {:induction false} WithoutKeepsDistinct(gs: seq<Garment>, id: string)
    requires DistinctGarmentIds(gs)
    ensures DistinctGarmentIds(Without(gs, id))
    decreases |gs|
  {
    if gs != [] {
      var gs' := gs[..|gs| - 1];
      var last := gs[|gs| - 1];
      WithoutKeepsDistinct(gs', id);
      assert Without(gs, id) == Without(gs', id) + (if last.id != id then [last] else []);
      forall i | 0 <= i < |Without(gs', id)| ensures Without(gs', id)[i].id != last.id {
        var x := Without(gs', id)[i];
        assert x in gs';
        var k :| 0 <= k < |gs'| && gs'[k] == x;
        assert gs[k] == x;
      }
    }
  }

  /** In a collection with distinct ids, deleting a present id drops exactly one garment, an absent one none. */
  lemma {:induction false} WithoutLength(gs: seq<Garment>, id: string)
    requires DistinctGarmentIds(gs)
    ensures |Without(gs, id)| == if id in GarmentIds(gs) then |gs| - 1 else |gs|
    decreases |gs|
  {
    if gs != [] {
      var gs' := gs[..|gs| - 1];
      var last := gs[|gs| - 1];
      WithoutLength(gs', id);
      assert Without(gs, id) == Without(gs', id) + (if last.id != id then [last] else []);
      assert GarmentIds(gs) == GarmentIds(gs') + [last.id];
    }
  }
}
