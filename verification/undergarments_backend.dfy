/**
 * The per-user registry hook of the second frontend
 * (frontend/src/hooks/useUndergarmentsBackend.ts): a hard-coded three-tier
 * evaluator, owner-tagged garments, and operations that do nothing without a
 * logged-in user.
 */
module UndergarmentsBackend {
  import opened Wrappers
  import opened Catalog
  import opened AchievementSpec
  import opened Garments

  /** `Undergarment`: a garment with the id of the user who added it. */
  datatype Undergarment = Undergarment(garment: Garment, userId: string)

  /** The three tiers the hard-coded evaluator knows: the shipped catalog without its legendary entry. */
  const BACKEND_CATALOG: seq<CatalogEntry> := ACHIEVEMENTS_DATA[..3]

  lemma BackendCatalogWellFormed()
    ensures WellFormedCatalog(BACKEND_CATALOG)
    ensures BACKEND_CATALOG == [FRESH_PRINCE, CLEAN_MACHINE, WASH_WARRIOR]
    ensures forall k :: 0 <= k < |BACKEND_CATALOG| ==> BACKEND_CATALOG[k].requiredWashes > 0
  {
    AchievementsDataWellFormed();
    PrefixWellFormed(ACHIEVEMENTS_DATA, 3);
  }

  /**
   * `checkAchievements`: fresh-prince at 10, clean-machine at 25, wash-warrior
   * at 50, each only when the garment does not hold it yet; never a legendary one.
   */
  method CheckAchievements(u: Garment, now: int) returns (r: seq<Achievement>)
    ensures r == Unlocked(BACKEND_CATALOG, Ids(u.achievements), u.washCount, now)
    ensures forall i :: 0 <= i < |r| ==> r[i].tier != Legendary
    ensures DistinctIds(r) && forall i :: 0 <= i < |r| ==> r[i].id !in Ids(u.achievements)
  {
    var held := Ids(u.achievements);
    r := [];
    if u.washCount >= 10 && "fresh-prince" !in held {
      r := r + [Achievement("fresh-prince", "Fresh Prince", "Washed 10 times - still looking royal!",
                            "\U{1F451}", Bronze, now)];
    }
    if u.washCount >= 25 && "clean-machine" !in held {
      r := r + [Achievement("clean-machine", "Clean Machine", "Reached 25 washes - squeaky clean champion!",
                            "\U{1F9FD}", Silver, now)];
    }
    if u.washCount >= 50 && "wash-warrior" !in held {
      r := r + [Achievement("wash-warrior", "Wash Warrior", "Survived 50 washes - legendary durability!",
                            "\U{2694}\U{FE0F}", Gold, now)];
    }
    BackendUnlocked(held, u.washCount, now);
    BackendCatalogWellFormed();
    UnlockedFresh(BACKEND_CATALOG, held, u.washCount, now);
  }

  /** Over the three-tier catalog, the evaluator returns the due entries among the three, in order. */
  lemma BackendUnlocked(held: seq<string>, washCount: int, now: int)
    ensures Unlocked(BACKEND_CATALOG, held, washCount, now) ==
      (if Qualifies(FRESH_PRINCE, held, washCount) then [Stamp(FRESH_PRINCE, now)] else []) +
      (if Qualifies(CLEAN_MACHINE, held, washCount) then [Stamp(CLEAN_MACHINE, now)] else []) +
      (if Qualifies(WASH_WARRIOR, held, washCount) then [Stamp(WASH_WARRIOR, now)] else [])
  {
    var c := BACKEND_CATALOG;
    assert c == [FRESH_PRINCE, CLEAN_MACHINE, WASH_WARRIOR];
    assert c[..2] == [FRESH_PRINCE, CLEAN_MACHINE];
    assert c[..2][..1] == [FRESH_PRINCE];
    assert c[..2][..1][..0] == [];
    assert Unlocked([FRESH_PRINCE], held, washCount, now) ==
      (if Qualifies(FRESH_PRINCE, held, washCount) then [Stamp(FRESH_PRINCE, now)] else []);
  }

  /**
   * Where the two evaluators part: past 75 washes the catalog-driven one grants
   * immortal-briefs, which the hard-coded one can never produce.
   */
  lemma BackendMissesLegendary(u: Garment, now: int)
    requires u.washCount >= 75 && "immortal-briefs" !in Ids(u.achievements)
    ensures Stamp(IMMORTAL_BRIEFS, now) in Unlocked(ACHIEVEMENTS_DATA, Ids(u.achievements), u.washCount, now)
    ensures Stamp(IMMORTAL_BRIEFS, now) !in Unlocked(BACKEND_CATALOG, Ids(u.achievements), u.washCount, now)
  {
    UnlockedComplete(ACHIEVEMENTS_DATA, Ids(u.achievements), u.washCount, now, 3);
    BackendCatalogWellFormed();
    UnlockedSound(BACKEND_CATALOG, Ids(u.achievements), u.washCount, now);
  }

  /** The `map` callback of `washUndergarment`: no retired guard. */
  function WashOne(u: Undergarment, id: string, now: int): (v: Undergarment)
    ensures v.userId == u.userId && v.garment.id == u.garment.id
    ensures u.garment.id != id ==> v == u
    ensures u.garment.id == id ==> v.garment.washCount == u.garment.washCount + 1
  {
    if u.garment.id == id then u.(garment := WithWash(BACKEND_CATALOG, u.garment, now)) else u
  }

  /** `undergarments.find(u => u.id === id)`: the first garment with that id. */
  function Find(us: seq<Undergarment>, id: string): (r: Option<Undergarment>)
    ensures r.None? <==> forall i :: 0 <= i < |us| ==> us[i].garment.id != id
    ensures r.Some? ==> (exists i :: 0 <= i < |us| && us[i] == r.value && r.value.garment.id == id
                                     && forall j :: 0 <= j < i ==> us[j].garment.id != id)
    decreases |us|
  {
    if us == [] then None
    else if us[0].garment.id == id then Some(us[0])
    else
      var r := Find(us[1..], id);
      assert forall i :: 1 <= i < |us| ==> us[i] == us[1..][i - 1];
      r
  }

  /**
   * The notification check as written: the evaluator re-run on the garment
   * AFTER the merge. Whatever it would report was already appended.
   */
  function WashNoticeAsWritten(updated: seq<Undergarment>, id: string, now: int): Option<Achievement> {
    match Find(updated, id)
    case None => None
    case Some(u) =>
      var again := Unlocked(BACKEND_CATALOG, Ids(u.garment.achievements), u.garment.washCount, now);
      if |again| > 0 then Some(again[0]) else None
  }

  /** One step of the wash loop: the garment with the id gets a wash and the newly due achievements. */
  method WashEntry(u: Undergarment, id: string, now: int) returns (v: Undergarment)
    requires Consistent(BACKEND_CATALOG, u.garment)
    ensures v == WashOne(u, id, now)
    ensures Consistent(BACKEND_CATALOG, v.garment)
  {
    if u.garment.id == id {
      var newWashCount := u.garment.washCount + 1;
      var added := CheckAchievements(u.garment.(washCount := newWashCount), now);
      BackendCatalogWellFormed();
      WashKeepsConsistent(BACKEND_CATALOG, u.garment, now);
      v := u.(garment := u.garment.(washCount := newWashCount, achievements := u.garment.achievements + added));
    } else {
      v := u;
    }
  }

  /** The notification of a wash: the first achievement that wash newly unlocked, if any. */
  function WashNotice(u: Garment, now: int): Option<Achievement> {
    var added := Unlocked(BACKEND_CATALOG, Ids(u.achievements), u.washCount + 1, now);
    if |added| > 0 then Some(added[0]) else None
  }

  /** The state of the hook: the current user's garments. */
  class BackendRegistry {
    var undergarments: seq<Undergarment>

    ghost predicate Valid()
      reads this
    {
      && DistinctGarmentIds(GarmentsOf(undergarments))
      && forall i :: 0 <= i < |undergarments| ==> Consistent(BACKEND_CATALOG, undergarments[i].garment)
    }

    constructor ()
      ensures Valid() && undergarments == []
    {
      undergarments := [];
    }

    /**
     * `addUndergarment`: without a current user nothing changes; otherwise a
     * fresh garment owned by that user is appended. The id stands for the
     * clock-and-random id the hook builds.
     */
    method Add(draft: Draft, currentUser: Option<string>, id: string)
      requires Valid()
      requires id !in GarmentIds(GarmentsOf(undergarments))
      modifies this
      ensures Valid()
      ensures currentUser.None? ==> undergarments == old(undergarments)
      ensures currentUser.Some? ==>
        undergarments == old(undergarments) + [Undergarment(FromDraft(draft, id), currentUser.value)]
    {
      if currentUser.None? {
        return;
      }
      var g := FromDraft(draft, id);
      BackendCatalogWellFormed();
      NewGarmentConsistent(BACKEND_CATALOG, draft, id);
      assert GarmentsOf(undergarments + [Undergarment(g, currentUser.value)]) == GarmentsOf(undergarments) + [g];
      undergarments := undergarments + [Undergarment(g, currentUser.value)];
    }

    /**
     * `washUndergarment`: without a current user nothing changes; otherwise the
     * garment with that id gains one wash (retired or not) and the achievements
     * due at the new count. Returns the achievement the notification announces,
     * computed as written: the evaluator re-run on the merged garment, which
     * never finds anything (see `WashNoticeAsWrittenNeverFires`; `WashNotice`
     * is the corrected notice).
     */
    method Wash(id: string, currentUser: Option<string>, now: int) returns (notice: Option<Achievement>)
      requires Valid()
      modifies this
      ensures Valid()
      ensures currentUser.None? ==> undergarments == old(undergarments) && notice.None?
      ensures currentUser.Some? ==> |undergarments| == |old(undergarments)|
      ensures currentUser.Some? ==>
        forall i :: 0 <= i < |undergarments| ==> undergarments[i] == WashOne(old(undergarments)[i], id, now)
      ensures currentUser.Some? ==> notice == WashNoticeAsWritten(undergarments, id, now)
      ensures notice.None?
    {
      notice := None;
      if currentUser.None? {
        return;
      }
      var prev := undergarments;
      var next: seq<Undergarment> := [];
      for i := 0 to |prev|
        invariant |next| == i
        invariant forall k :: 0 <= k < i ==> next[k] == WashOne(prev[k], id, now)
        invariant forall k :: 0 <= k < i ==> Consistent(BACKEND_CATALOG, next[k].garment)
      {
        var v := WashEntry(prev[i], id, now);
        next := next + [v];
      }
      assert GarmentIds(GarmentsOf(next)) == GarmentIds(GarmentsOf(prev));
      undergarments := next;
      var found := Find(next, id);
      if found.Some? {
        var again := CheckAchievements(found.value.garment, now);
        notice := if |again| > 0 then Some(again[0]) else None;
      }
      assert next == seq(|prev|, i requires 0 <= i < |prev| => WashOne(prev[i], id, now));
      WashNoticeAsWrittenNeverFires(prev, id, now, now);
    }

    /** `retireUndergarment`: without a current user nothing changes; otherwise the garment is retired and its date overwritten. */
    method Retire(id: string, currentUser: Option<string>, now: int)
      requires Valid()
      modifies this
      ensures Valid()
      ensures currentUser.None? ==> undergarments == old(undergarments)
      ensures currentUser.Some? ==> |undergarments| == |old(undergarments)|
      ensures currentUser.Some? ==>
        forall i :: 0 <= i < |undergarments| ==>
                      (undergarments[i] ==
                       if old(undergarments)[i].garment.id == id
                       then old(undergarments)[i].(garment := WithRetire(old(undergarments)[i].garment, now))
                       else old(undergarments)[i])
    {
      if currentUser.None? {
        return;
      }
      var next := seq(|undergarments|, i requires 0 <= i < |undergarments| reads this =>
        if undergarments[i].garment.id == id
        then undergarments[i].(garment := WithRetire(undergarments[i].garment, now))
        else undergarments[i]);
      assert GarmentIds(GarmentsOf(next)) == GarmentIds(GarmentsOf(undergarments));
      undergarments := next;
    }

    /** `deleteUndergarment`: without a current user nothing changes; otherwise every garment with that id goes. */
    method Delete(id: string, currentUser: Option<string>)
      requires Valid()
      modifies this
      ensures Valid()
      ensures currentUser.None? ==> undergarments == old(undergarments)
      ensures currentUser.Some? ==> undergarments == WithoutUndergarment(old(undergarments), id)
    {
      if currentUser.None? {
        return;
      }
      WithoutUndergarmentKeeps(undergarments, id);
      undergarments := WithoutUndergarment(undergarments, id);
    }
  }

  /** The garments of a list of undergarments, owners dropped. */
  function GarmentsOf(us: seq<Undergarment>): (r: seq<Garment>)
    ensures |r| == |us| && forall i :: 0 <= i < |us| ==> r[i] == us[i].garment
  {
    seq(|us|, i requires 0 <= i < |us| => us[i].garment)
  }

  /** `undergarments.filter(u => u.id !== id)`. */
  function WithoutUndergarment(us: seq<Undergarment>, id: string): (r: seq<Undergarment>)
    ensures forall i :: 0 <= i < |r| ==> r[i].garment.id != id && r[i] in us
    ensures forall i :: 0 <= i < |us| && us[i].garment.id != id ==> us[i] in r
    decreases |us|
  {
    if us == [] then []
    else
      var last := us[|us| - 1];
      WithoutUndergarment(us[..|us| - 1], id) + (if last.garment.id != id then [last] else [])
  }

  /** Deleting keeps owners' garments consistent and their ids distinct. */
  lemma {:induction false} WithoutUndergarmentKeeps(us: seq<Undergarment>, id: string)
    requires DistinctGarmentIds(GarmentsOf(us))
    ensures DistinctGarmentIds(GarmentsOf(WithoutUndergarment(us, id)))
    decreases |us|
  {
    if us != [] {
      var us' := us[..|us| - 1];
      var last := us[|us| - 1];
      assert forall i :: 0 <= i < |us'| ==> GarmentsOf(us')[i] == GarmentsOf(us)[i];
      assert DistinctGarmentIds(GarmentsOf(us'));
      WithoutUndergarmentKeeps(us', id);
      var r' := WithoutUndergarment(us', id);
      forall i | 0 <= i < |r'| ensures r'[i].garment.id != last.garment.id {
        assert r'[i] in us';
        var k :| 0 <= k < |us'| && us'[k] == r'[i];
        assert GarmentsOf(us)[k] == r'[i].garment;
      }
      var r := WithoutUndergarment(us, id);
      assert forall i :: 0 <= i < |r'| ==> GarmentsOf(r)[i] == GarmentsOf(r')[i];
    }
  }

  /**
   * The notification as written never fires: after the merge, the garment
   * already holds everything the evaluator could report at its count.
   */
  lemma WashNoticeAsWrittenNeverFires(prev: seq<Undergarment>, id: string, now: int, later: int)
    ensures WashNoticeAsWritten(seq(|prev|, i requires 0 <= i < |prev| => WashOne(prev[i], id, now)), id, later).None?
  {
    var updated := seq(|prev|, i requires 0 <= i < |prev| => WashOne(prev[i], id, now));
    match Find(updated, id)
    case None =>
    case Some(u) =>
      var i :| 0 <= i < |updated| && updated[i] == u && u.garment.id == id;
      var old_g := prev[i].garment;
      assert u.garment == WithWash(BACKEND_CATALOG, old_g, now);
      ReevaluationFindsNothing(BACKEND_CATALOG, old_g.achievements, old_g.washCount + 1, now, later);
  }

  /**
   * The corrected notification fires exactly when the wash crosses one of the
   * three thresholds, for a garment consistent with the three-tier catalog.
   */
  lemma WashNoticeFiresAtThresholds(u: Garment, now: int)
    requires Consistent(BACKEND_CATALOG, u)
    ensures WashNotice(u, now).Some? <==> u.washCount + 1 in {10, 25, 50}
  {
    BackendCatalogWellFormed();
    WashKeepsReached(BACKEND_CATALOG, u.achievements, u.washCount, now);
    var added := Unlocked(BACKEND_CATALOG, Ids(u.achievements), u.washCount + 1, now);
    IdsConcat(u.achievements, added);
    ShippedReached(u.washCount);
    ShippedReached(u.washCount + 1);
    BackendReached(u.washCount);
    BackendReached(u.washCount + 1);
  }

  /** The reached ids of the three-tier catalog are those of the shipped catalog without immortal-briefs. */
  lemma BackendReached(washCount: int)
    ensures ReachedIds(BACKEND_CATALOG, washCount) ==
      (if washCount >= 10 then ["fresh-prince"] else []) +
      (if washCount >= 25 then ["clean-machine"] else []) +
      (if washCount >= 50 then ["wash-warrior"] else [])
  {
    var c := BACKEND_CATALOG;
    assert c == [FRESH_PRINCE, CLEAN_MACHINE, WASH_WARRIOR];
    assert c[..2] == [FRESH_PRINCE, CLEAN_MACHINE];
    assert c[..2][..1] == [FRESH_PRINCE];
    assert c[..2][..1][..0] == [];
    assert ReachedIds([FRESH_PRINCE], washCount) == (if washCount >= 10 then ["fresh-prince"] else []);
  }
}
