/**
 * The second local-storage registry hook (src/hooks/useUnderLiv.ts): same
 * catalog-driven evaluator, but `wash` has no retired guard.
 */
module UseUnderLiv {
  import opened Wrappers
  import opened Catalog
  import opened AchievementSpec
  import opened Garments
  import UseUnderwear

  /**
   * `checkForNewAchievements` (the `forEach` version): the catalog entries
   * not yet held whose threshold the count meets, in catalog order.
   */
  method CheckForNewAchievements(u: Garment, now: int) returns (r: seq<Achievement>)
    ensures r == Unlocked(ACHIEVEMENTS_DATA, Ids(u.achievements), u.washCount, now)
    ensures DistinctIds(r) && forall i :: 0 <= i < |r| ==> r[i].id !in Ids(u.achievements)
  {
    var existing := Ids(u.achievements);
    var added: seq<Achievement> := [];
    var k := 0;
    while k < |ACHIEVEMENTS_DATA|
      invariant 0 <= k <= |ACHIEVEMENTS_DATA|
      invariant added == Unlocked(ACHIEVEMENTS_DATA[..k], existing, u.washCount, now)
    {
      var achievementData := ACHIEVEMENTS_DATA[k];
      assert ACHIEVEMENTS_DATA[..k + 1][..k] == ACHIEVEMENTS_DATA[..k];
      if achievementData.id !in existing && u.washCount >= achievementData.requiredWashes {
        added := added + [Stamp(achievementData, now)];
      }
      k := k + 1;
    }
    assert ACHIEVEMENTS_DATA[..k] == ACHIEVEMENTS_DATA;
    r := added;
    AchievementsDataWellFormed();
    UnlockedFresh(ACHIEVEMENTS_DATA, existing, u.washCount, now);
  }

  /** The `prev.map(...)` callback of `washUnderLiv`: the matching garment is washed whether or not it is retired. */
  function WashOne(u: Garment, id: string, now: int): (v: Garment)
    ensures u.id != id ==> v == u
    ensures u.id == id ==> v.washCount == u.washCount + 1 && v.retired == u.retired
  {
    if u.id == id then WithWash(ACHIEVEMENTS_DATA, u, now) else u
  }

  /** The two copies of `wash` agree on every garment except a retired one with the washed id. */
  lemma WashCopiesDiffer(u: Garment, id: string, now: int)
    ensures WashOne(u, id, now) == UseUnderwear.WashOne(u, id, now) <==> !(u.id == id && u.retired)
  {
  }

  /** The `underliv` state of the hook. */
  class UnderLivRegistry {
    var underliv: seq<Garment>

    ghost predicate Valid()
      reads this
    {
      && DistinctGarmentIds(underliv)
      && forall i :: 0 <= i < |underliv| ==> Consistent(ACHIEVEMENTS_DATA, underliv[i])
    }

    constructor ()
      ensures Valid() && underliv == []
    {
      underliv := [];
    }

    /** `addUnderLiv`: appends a fresh garment (the id stands for `crypto.randomUUID()`) and returns it. */
    method Add(draft: Draft, id: string) returns (g: Garment)
      requires Valid()
      requires id !in GarmentIds(underliv)
      modifies this
      ensures Valid()
      ensures g == FromDraft(draft, id)
      ensures underliv == old(underliv) + [g]
    {
      g := FromDraft(draft, id);
      AchievementsDataWellFormed();
      NewGarmentConsistent(ACHIEVEMENTS_DATA, draft, id);
      underliv := underliv + [g];
    }

    /**
     * `washUnderLiv`: the garment with that id gains one wash, retired or not,
     * and the achievements due at the new count are appended; the others are untouched.
     */
    method Wash(id: string, now: int)
      requires Valid()
      modifies this
      ensures Valid()
      ensures |underliv| == |old(underliv)|
      ensures forall i :: 0 <= i < |underliv| ==> underliv[i] == WashOne(old(underliv)[i], id, now)
    {
      var prev := underliv;
      var next: seq<Garment> := [];
      AchievementsDataWellFormed();
      for i := 0 to |prev|
        invariant |next| == i
        invariant forall k :: 0 <= k < i ==> next[k] == WashOne(prev[k], id, now)
        invariant forall k :: 0 <= k < i ==> Consistent(ACHIEVEMENTS_DATA, next[k])
      {
        var u := prev[i];
        if u.id == id {
          var newWashCount := u.washCount + 1;
          var added := CheckForNewAchievements(u.(washCount := newWashCount), now);
          WashKeepsConsistent(ACHIEVEMENTS_DATA, u, now);
          next := next + [u.(washCount := newWashCount, achievements := u.achievements + added)];
        } else {
          next := next + [u];
        }
      }
      underliv := next;
      assert forall k :: 0 <= k < |next| ==> next[k].id == prev[k].id;
    }

    /** `retireUnderLiv`: the matching garment becomes retired and its retirement date is overwritten. */
    method Retire(id: string, now: int)
      requires Valid()
      modifies this
      ensures Valid()
      ensures |underliv| == |old(underliv)|
      ensures forall i :: 0 <= i < |underliv| ==>
        underliv[i] == if old(underliv)[i].id == id then WithRetire(old(underliv)[i], now) else old(underliv)[i]
    {
      underliv := seq(|underliv|, i requires 0 <= i < |underliv| reads this =>
        if underliv[i].id == id then WithRetire(underliv[i], now) else underliv[i]);
    }

    /** `deleteUnderLiv`: drops every garment with that id and keeps the rest in order. */
    method Delete(id: string)
      requires Valid()
      modifies this
      ensures Valid()
      ensures underliv == Without(old(underliv), id)
    {
      WithoutKeepsDistinct(underliv, id);
      underliv := Without(underliv, id);
    }
  }
}
