/**
 * The local-storage garment registry hook with the catalog-driven evaluator
 * (frontend/src/hooks/useUnderwear.ts). Of the registry copies, this is the
 * only one whose `wash` skips retired garments.
 */
module UseUnderwear {
  import opened Wrappers
  import opened Catalog
  import opened AchievementSpec
  import opened Garments

  /**
   * `checkForNewAchievements`: walks the catalog once and collects, in catalog
   * order, every entry that is not yet held and whose threshold the count meets.
   */
  method CheckForNewAchievements(u: Garment, now: int) returns (r: seq<Achievement>)
    ensures r == Unlocked(ACHIEVEMENTS_DATA, Ids(u.achievements), u.washCount, now)
    ensures DistinctIds(r) && forall i :: 0 <= i < |r| ==> r[i].id !in Ids(u.achievements)
    ensures forall a :: a in r ==> FromDueEntry(ACHIEVEMENTS_DATA, Ids(u.achievements), u.washCount, now, a)
  {
    var existing := Ids(u.achievements);
    r := [];
    for i := 0 to |ACHIEVEMENTS_DATA|
      invariant r == Unlocked(ACHIEVEMENTS_DATA[..i], existing, u.washCount, now)
    {
      var e := ACHIEVEMENTS_DATA[i];
      assert ACHIEVEMENTS_DATA[..i + 1][..i] == ACHIEVEMENTS_DATA[..i];
      if e.id !in existing && u.washCount >= e.requiredWashes {
        r := r + [Stamp(e, now)];
      }
    }
    assert ACHIEVEMENTS_DATA[..|ACHIEVEMENTS_DATA|] == ACHIEVEMENTS_DATA;
    AchievementsDataWellFormed();
    UnlockedFresh(ACHIEVEMENTS_DATA, existing, u.washCount, now);
    UnlockedSound(ACHIEVEMENTS_DATA, existing, u.washCount, now);
  }

  /** The `prev.map(...)` callback of `washUnderwear`: unknown ids and retired garments are returned as they are. */
  function WashOne(u: Garment, id: string, now: int): (v: Garment)
    ensures u.id != id || u.retired ==> v == u
    ensures u.id == id && !u.retired ==> v.washCount == u.washCount + 1
    ensures v.id == u.id && v.retired == u.retired && v.retiredDate == u.retiredDate
  {
    if u.id != id || u.retired then u else WithWash(ACHIEVEMENTS_DATA, u, now)
  }

  /** The `underwear` state of the hook: the garment list it persists. */
  class UnderwearRegistry {
    var underwear: seq<Garment>

    /** Garment ids are distinct and every garment is consistent with the catalog. */
    ghost predicate Valid()
      reads this
    {
      && DistinctGarmentIds(underwear)
      && forall i :: 0 <= i < |underwear| ==> Consistent(ACHIEVEMENTS_DATA, underwear[i])
    }

    constructor ()
      ensures Valid() && underwear == []
    {
      underwear := [];
    }

    /**
     * `addUnderwear`: appends a garment with count 0, not retired and without
     * achievements, and returns it. The id stands for the random id the hook
     * generates; it must not collide with a present one.
     */
    method Add(draft: Draft, id: string) returns (g: Garment)
      requires Valid()
      requires id !in GarmentIds(underwear)
      modifies this
      ensures Valid()
      ensures g == FromDraft(draft, id)
      ensures underwear == old(underwear) + [g]
    {
      g := FromDraft(draft, id);
      AchievementsDataWellFormed();
      NewGarmentConsistent(ACHIEVEMENTS_DATA, draft, id);
      underwear := underwear + [g];
    }

    /**
     * `washUnderwear`: the garment with that id, unless retired, gains one wash
     * and the achievements the evaluator returns at the new count; every other
     * garment is left as it was.
     */
    method Wash(id: string, now: int)
      requires Valid()
      modifies this
      ensures Valid()
      ensures |underwear| == |old(underwear)|
      ensures forall i :: 0 <= i < |underwear| ==> underwear[i] == WashOne(old(underwear)[i], id, now)
      ensures (forall i :: 0 <= i < |old(underwear)| && old(underwear)[i].id == id ==> old(underwear)[i].retired)
        ==> underwear == old(underwear)
    {
      var prev := underwear;
      var next: seq<Garment> := [];
      AchievementsDataWellFormed();
      for i := 0 to |prev|
        invariant |next| == i
        invariant forall k :: 0 <= k < i ==> next[k] == WashOne(prev[k], id, now)
        invariant forall k :: 0 <= k < i ==> Consistent(ACHIEVEMENTS_DATA, next[k])
      {
        var u := prev[i];
        if u.id != id || u.retired {
          next := next + [u];
        } else {
          var updated := u.(washCount := u.washCount + 1);
          var added := CheckForNewAchievements(updated, now);
          WashKeepsConsistent(ACHIEVEMENTS_DATA, u, now);
          next := next + [updated.(achievements := u.achievements + added)];
        }
      }
      underwear := next;
      assert forall k :: 0 <= k < |next| ==> next[k].id == prev[k].id;
    }

    /**
     * `retireUnderwear`: every garment with that id becomes retired and gets
     * `now` as retirement date, even one that was already retired.
     */
    method Retire(id: string, now: int)
      requires Valid()
      modifies this
      ensures Valid()
      ensures |underwear| == |old(underwear)|
      ensures forall i :: 0 <= i < |underwear| ==>
        underwear[i] == if old(underwear)[i].id == id then WithRetire(old(underwear)[i], now) else old(underwear)[i]
    {
      underwear := seq(|underwear|, i requires 0 <= i < |underwear| reads this =>
        if underwear[i].id == id then WithRetire(underwear[i], now) else underwear[i]);
    }

    /** `deleteUnderwear`: drops every garment with that id and keeps the others in order. */
    method Delete(id: string)
      requires Valid()
      modifies this
      ensures Valid()
      ensures underwear == Without(old(underwear), id)
    {
      WithoutKeepsDistinct(underwear, id);
      underwear := Without(underwear, id);
    }
  }
}
