/**
 * The REST views of the Django service (api/views.py): owner-scoped lookup,
 * the `wash`/`retire` action dispatch, the cascade on delete, and the
 * achievement rows created through `get_or_create` when a count hits 10, 25
 * or 50 exactly. The two tables are fields of one `Database` object.
 */
module ApiViews {
  import opened Wrappers
  import opened Catalog
  import opened Seqs

  /** A row of the garment table; `pk` is its primary key, `owner` the id of its user. */
  datatype Record = Record(
    pk: nat, owner: nat, name: string, color: string, material: Material, customWashes: int,
    accessories: seq<string>, purchaseDate: int, washCount: int, retired: bool, retiredDate: Option<int>)

  /** A row of the achievement table, keyed by its garment and its name. */
  datatype AchievementRow = AchievementRow(
    garment: nat, name: string, description: string, icon: string, tier: Tier, unlockedAt: int)

  /** What `undergarment_update` answers: 404, or the garment as it now is. */
  datatype Response = NotFound | Ok(record: Record)

  /** The three milestones the service knows, with the texts it stores. */
  const API_MILESTONES: seq<CatalogEntry> := [FRESH_PRINCE, CLEAN_MACHINE, WASH_WARRIOR]

  /** The milestone whose count is exactly `washCount`, if any: what `check_achievements` looks at. */
  function ExactMilestone(washCount: int): (m: Option<CatalogEntry>)
    ensures forall k :: 0 <= k < |API_MILESTONES| && API_MILESTONES[k].requiredWashes == washCount ==>
                          m == Some(API_MILESTONES[k])
    ensures m.Some? ==> m.value in API_MILESTONES && m.value.requiredWashes == washCount
  {
    if washCount == 10 then Some(FRESH_PRINCE)
    else if washCount == 25 then Some(CLEAN_MACHINE)
    else if washCount == 50 then Some(WASH_WARRIOR)
    else None
  }

  /** The count a milestone name stands for, if the name is one of the three. */
  function ThresholdOf(name: string): (t: Option<nat>)
    ensures t.Some? ==> t.value in {10, 25, 50}
    ensures forall k :: 0 <= k < |API_MILESTONES| && API_MILESTONES[k].name == name ==>
                          t == Some(API_MILESTONES[k].requiredWashes)
  {
    if name == "Fresh Prince" then Some(10)
    else if name == "Clean Machine" then Some(25)
    else if name == "Wash Warrior" then Some(50)
    else None
  }

  /** Two achievement rows collide on the `get_or_create` key. */
  predicate SameKey(a: AchievementRow, b: AchievementRow) {
    a.garment == b.garment && a.name == b.name
  }

  /** Some row of table `a` has garment `pk` and name `name`. */
  predicate HasRow(a: seq<AchievementRow>, pk: nat, name: string) {
    exists i :: 0 <= i < |a| && a[i].garment == pk && a[i].name == name
  }

  /** The garment after an action: `wash` adds one (retired or not), `retire` sets the flag and the date, anything else changes nothing. */
  function Acted(g: Record, action: Option<string>, now: int): Record {
    if action == Some("wash") then g.(washCount := g.washCount + 1)
    else if action == Some("retire") then g.(retired := true, retiredDate := Some(now))
    else g
  }

  /** Washing ignores the retired flag and touches only the count. */
  lemma WashActionCounts(g: Record, now: int)
    ensures var v := Acted(g, Some("wash"), now);
      && v.washCount == g.washCount + 1
      && v.retired == g.retired && v.retiredDate == g.retiredDate
      && v.(washCount := g.washCount) == g
  {
  }

  /** Retiring twice keeps only the later date: there is no guard against re-retiring. */
  lemma RetireOverwrites(g: Record, t1: int, t2: int)
    ensures Acted(Acted(g, Some("retire"), t1), Some("retire"), t2) == Acted(g, Some("retire"), t2)
    ensures Acted(g, Some("retire"), t2).washCount == g.washCount
  {
  }

  /** Every action other than `wash` and `retire` (a missing one included) leaves the garment as it was. */
  lemma OtherActionsChangeNothing(g: Record, action: Option<string>, now: int)
    requires action != Some("wash") && action != Some("retire")
    ensures Acted(g, action, now) == g
  {
  }

  /**
   * The names granted to a garment washed one at a time from 0 to n: at each
   * count, the milestone hit exactly then.
   */
  function GrantedUpTo(n: nat): seq<string>
  {
    if n == 0 then []
    else GrantedUpTo(n - 1) + (if ExactMilestone(n).Some? then [ExactMilestone(n).value.name] else [])
  }

  /**
   * On a counter that moves by one, the exact-equality check grants exactly
   * the milestones whose count has been reached, in order, each once.
   */
  lemma {:induction false} GrantedUpToReached(n: nat)
    ensures GrantedUpTo(n) ==
      (if n >= 10 then ["Fresh Prince"] else []) +
      (if n >= 25 then ["Clean Machine"] else []) +
      (if n >= 50 then ["Wash Warrior"] else [])
  {
    if n > 0 {
      GrantedUpToReached(n - 1);
    }
  }

  /**
   * Where equality and "at least" differ: a count that skips a milestone
   * (here 12, without anything at 10) gets nothing from this check.
   */
  lemma ExactMissesSkippedCount()
    ensures ExactMilestone(12).None?
    ensures exists k :: 0 <= k < |API_MILESTONES| && API_MILESTONES[k].requiredWashes <= 12
  {
    assert API_MILESTONES[0].requiredWashes == 10;
  }

  /** The two tables of the service. */
  class Database {
    var garments: map<nat, Record>
    var achievements: seq<AchievementRow>

    /** Primary keys match, every achievement row points at a garment, and no two rows share a key. */
    ghost predicate Keyed()
      reads this
    {
      && (forall pk :: pk in garments ==> garments[pk].pk == pk)
      && (forall i :: 0 <= i < |achievements| ==> achievements[i].garment in garments)
      && (forall i, j :: 0 <= i < j < |achievements| ==> !SameKey(achievements[i], achievements[j]))
    }

    /**
     * Every row is a milestone its garment has reached, and every milestone a
     * garment has reached has its row.
     */
    ghost predicate Tracked()
      reads this
      requires Keyed()
    {
      && (forall i :: 0 <= i < |achievements| ==>
            ThresholdOf(achievements[i].name).Some? &&
            ThresholdOf(achievements[i].name).value <= garments[achievements[i].garment].washCount)
      && (forall pk, k ::
            (pk in garments && 0 <= k < |API_MILESTONES| && API_MILESTONES[k].requiredWashes <= garments[pk].washCount)
            ==> HasRow(achievements, pk, API_MILESTONES[k].name))
    }

    ghost predicate Valid()
      reads this
    {
      Keyed() && Tracked()
    }

    constructor ()
      ensures Valid() && garments == map[] && achievements == []
    {
      garments := map[];
      achievements := [];
    }

    /** `undergarment_list`: the requester's garments. */
    function List(requester: nat): (r: set<Record>)
      reads this
      ensures forall g :: g in r <==> g in garments.Values && g.owner == requester
    {
      set pk | pk in garments && garments[pk].owner == requester :: garments[pk]
    }

    /** `leaderboard`: every garment of every user. */
    function Leaderboard(): (r: set<Record>)
      reads this
      ensures forall pk :: pk in garments ==> garments[pk] in r
      ensures forall g :: g in r ==> g in garments.Values
    {
      garments.Values
    }

    /** `undergarment_create`: a garment of the requester with no washes, not retired, under a fresh key. */
    method Create(requester: nat, pk: nat, name: string, color: string, material: Material, customWashes: int,
                  accessories: seq<string>, purchaseDate: int) returns (g: Record)
      requires Valid() && pk !in garments
      modifies this
      ensures Valid()
      ensures g.pk == pk && g.owner == requester && g.washCount == 0 && !g.retired && g.retiredDate.None?
      ensures g.name == name && g.color == color && g.material == material && g.customWashes == customWashes
      ensures g.accessories == accessories && g.purchaseDate == purchaseDate
      ensures garments == old(garments)[pk := g] && achievements == old(achievements)
    {
      g := Record(pk, requester, name, color, material, customWashes, accessories, purchaseDate, 0, false, None);
      garments := garments[pk := g];
    }

    /**
     * `Achievement.objects.get_or_create`: the row with this key if there is
     * one, otherwise a new row with these values.
     */
    method GetOrCreate(garment: nat, e: CatalogEntry, now: int) returns (row: AchievementRow, created: bool)
      requires Keyed() && garment in garments
      modifies this
      ensures Keyed() && garments == old(garments)
      ensures created <==> !HasRow(old(achievements), garment, e.name)
      ensures created ==> row == AchievementRow(garment, e.name, e.description, e.icon, e.tier, now)
                          && achievements == old(achievements) + [row]
      ensures !created ==> achievements == old(achievements) && row in achievements
                           && row.garment == garment && row.name == e.name
    {
      var i := 0;
      while i < |achievements|
        invariant 0 <= i <= |achievements|
        invariant forall k :: 0 <= k < i ==> !(achievements[k].garment == garment && achievements[k].name == e.name)
      {
        if achievements[i].garment == garment && achievements[i].name == e.name {
          return achievements[i], false;
        }
        i := i + 1;
      }
      row := AchievementRow(garment, e.name, e.description, e.icon, e.tier, now);
      achievements := achievements + [row];
      created := true;
    }

    /** `check_achievements`: a row for the milestone whose count is exactly the garment's, unless it exists. */
    method CheckAchievements(pk: nat, now: int)
      requires Keyed() && pk in garments
      modifies this
      ensures Keyed() && garments == old(garments)
      ensures ExactMilestone(garments[pk].washCount).None? ==> achievements == old(achievements)
      ensures ExactMilestone(garments[pk].washCount).Some? ==>
        var e := ExactMilestone(garments[pk].washCount).value;
        && (HasRow(old(achievements), pk, e.name) ==> achievements == old(achievements))
        && (!HasRow(old(achievements), pk, e.name) ==>
              achievements == old(achievements) + [AchievementRow(pk, e.name, e.description, e.icon, e.tier, now)])
    {
      var washCount := garments[pk].washCount;
      if washCount == 10 {
        var _, _ := GetOrCreate(pk, FRESH_PRINCE, now);
      }
      if washCount == 25 {
        var _, _ := GetOrCreate(pk, CLEAN_MACHINE, now);
      }
      if washCount == 50 {
        var _, _ := GetOrCreate(pk, WASH_WARRIOR, now);
      }
    }

    /** The `wash` branch: one more wash, then the milestone check. */
    method Wash(pk: nat, now: int)
      requires Valid() && pk in garments
      modifies this
      ensures Valid()
      ensures garments == old(garments)[pk := Acted(old(garments)[pk], Some("wash"), now)]
      ensures |old(achievements)| <= |achievements| && achievements[..|old(achievements)|] == old(achievements)
      ensures forall i :: |old(achievements)| <= i < |achievements| ==>
                achievements[i].garment == pk && ThresholdOf(achievements[i].name) == Some(garments[pk].washCount)
    {
      var g := garments[pk];
      garments := garments[pk := g.(washCount := g.washCount + 1)];
      ghost var before := achievements;
      CheckAchievements(pk, now);
      forall pk', k | pk' in garments && 0 <= k < |API_MILESTONES| &&
                      API_MILESTONES[k].requiredWashes <= garments[pk'].washCount
        ensures HasRow(achievements, pk', API_MILESTONES[k].name)
      {
        var name := API_MILESTONES[k].name;
        if pk' == pk && API_MILESTONES[k].requiredWashes == g.washCount + 1 {
          assert ExactMilestone(g.washCount + 1) == Some(API_MILESTONES[k]);
          if !HasRow(before, pk, name) {
            assert achievements[|before|].garment == pk && achievements[|before|].name == name;
          }
        } else {
          assert HasRow(before, pk', name);
          var i :| 0 <= i < |before| && before[i].garment == pk' && before[i].name == name;
          assert achievements[i] == before[i];
        }
      }
    }

    /** The `retire` branch: the flag and the date, whether or not it was retired already. */
    method Retire(pk: nat, now: int)
      requires Valid() && pk in garments
      modifies this
      ensures Valid()
      ensures garments == old(garments)[pk := Acted(old(garments)[pk], Some("retire"), now)]
      ensures achievements == old(achievements)
    {
      var g := garments[pk];
      garments := garments[pk := g.(retired := true, retiredDate := Some(now))];
      forall pk', k | pk' in garments && 0 <= k < |API_MILESTONES| &&
                      API_MILESTONES[k].requiredWashes <= garments[pk'].washCount
        ensures HasRow(achievements, pk', API_MILESTONES[k].name)
      {
        assert garments[pk'].washCount == old(garments)[pk'].washCount;
      }
    }

    /**
     * `undergarment_update`: 404 with nothing changed unless the garment
     * exists and belongs to the requester; otherwise the action is applied
     * and the garment returned.
     */
    method Update(requester: nat, pk: nat, action: Option<string>, now: int) returns (resp: Response)
      requires Valid()
      modifies this
      ensures Valid()
      ensures !(pk in old(garments) && old(garments)[pk].owner == requester) ==>
                resp == NotFound && garments == old(garments) && achievements == old(achievements)
      ensures pk in old(garments) && old(garments)[pk].owner == requester ==>
                && garments == old(garments)[pk := Acted(old(garments)[pk], action, now)]
                && resp == Ok(garments[pk])
      ensures action != Some("wash") ==> achievements == old(achievements)
    {
      if !(pk in garments && garments[pk].owner == requester) {
        return NotFound;
      }
      if action == Some("wash") {
        Wash(pk, now);
      } else if action == Some("retire") {
        Retire(pk, now);
      }
      resp := Ok(garments[pk]);
    }

    /**
     * `undergarment_delete`: 404 with nothing changed unless the garment
     * exists and belongs to the requester; otherwise 204, the garment gone and
     * its achievement rows with it.
     */
    method Delete(requester: nat, pk: nat) returns (status: int)
      requires Valid()
      modifies this
      ensures Valid()
      ensures status == 204 || status == 404
      ensures status == 404 <==> !(pk in old(garments) && old(garments)[pk].owner == requester)
      ensures status == 404 ==> garments == old(garments) && achievements == old(achievements)
      ensures status == 204 ==> garments == old(garments) - {pk}
                                && achievements == Cascade(old(achievements), pk)
    {
      if !(pk in garments && garments[pk].owner == requester) {
        return 404;
      }
      CascadeKeepsKeys(achievements, pk);
      CascadeKeepsRows(achievements, pk);
      garments := garments - {pk};
      achievements := Cascade(achievements, pk);
      status := 204;
    }
  }

  /** The rows that survive deleting garment pk (`on_delete=CASCADE`): those of every other garment, in order. */
  function Cascade(a: seq<AchievementRow>, pk: nat): (r: seq<AchievementRow>)
    ensures forall i :: 0 <= i < |r| ==> r[i].garment != pk && r[i] in a
  {
    Filter(a, OtherGarment(pk))
  }

  /** The row belongs to a garment other than pk. */
  function OtherGarment(pk: nat): AchievementRow -> bool {
    (row: AchievementRow) => row.garment != pk
  }

  /** The cascade removes no row of another garment. */
  lemma CascadeKeepsRows(a: seq<AchievementRow>, pk: nat)
    ensures forall pk', name :: pk' != pk && HasRow(a, pk', name) ==> HasRow(Cascade(a, pk), pk', name)
  {
    forall pk', name | pk' != pk && HasRow(a, pk', name) ensures HasRow(Cascade(a, pk), pk', name) {
      var i :| 0 <= i < |a| && a[i].garment == pk' && a[i].name == name;
      assert a[i] in Cascade(a, pk);
    }
  }

  /** Two rows have different keys. */
  function Apart(x: AchievementRow, y: AchievementRow): bool {
    !SameKey(x, y)
  }

  /** The cascade keeps the rows' keys distinct. */
  lemma CascadeKeepsKeys(a: seq<AchievementRow>, pk: nat)
    requires forall i, j :: 0 <= i < j < |a| ==> !SameKey(a[i], a[j])
    ensures var r := Cascade(a, pk); forall i, j :: 0 <= i < j < |r| ==> !SameKey(r[i], r[j])
  {
    assert Pairwise(a, Apart);
    FilterKeepsPairwise(a, OtherGarment(pk),
                        Apart);
    var r := Cascade(a, pk);
    assert Pairwise(r, Apart);
    forall i, j | 0 <= i < j < |r| ensures !SameKey(r[i], r[j]) {
      assert Apart(r[i], r[j]);
    }
  }

  /** The list of a user holds only that user's garments, all of which the leaderboard holds too. */
  lemma ListWithinLeaderboard(db: Database, requester: nat)
    ensures db.List(requester) <= db.Leaderboard()
    ensures forall g :: g in db.List(requester) ==> g.owner == requester
  {
  }

  /** Every garment on the leaderboard is in its owner's list. */
  lemma LeaderboardIsUnionOfLists(db: Database)
    ensures forall g :: g in db.Leaderboard() ==> g in db.List(g.owner)
  {
  }
}
