/**
 * The "add underwear" form (src/components/AddUnderwearForm.tsx): its open
 * flag and form data, the submit that rejects a blank name and resets the
 * form, the accessory check boxes, the custom-wash input and the random name.
 * The random picks and today's date are parameters.
 */
module AddForm {
  import opened Wrappers
  import opened Seqs
  import opened Text
  import opened Catalog
  import opened Garments

  /** The fifteen preset swatches; the reset colour is drawn from them. */
  const PRESET_COLORS: seq<string> := [
    "#FF6B6B", "#4ECDC4", "#45B7D1", "#96CEB4", "#FFEAA7",
    "#DDA0DD", "#FFB347", "#87CEEB", "#F0E68C", "#FA8072",
    "#98D8C8", "#F7DC6F", "#BB8FCE", "#85C1E9", "#F8C471"]

  const ADJECTIVES: seq<string> := [
    "Mighty", "Brave", "Royal", "Golden", "Super", "Mega", "Ultra",
    "Cosmic", "Legendary", "Epic", "Fantastic", "Magical", "Wonder",
    "Champion", "Supreme", "Divine", "Heroic", "Majestic", "Noble"]

  const NOUNS: seq<string> := [
    "Briefs", "Boxers", "Trunks", "Shorts", "Bloomers", "Undies",
    "Panties", "Drawers", "Skivvies", "Intimates", "Smalls",
    "Unmentionables", "Delicates", "Foundation", "Support"]

  /** The data a fresh form holds: empty name, the given colour, cotton, 60 washes, no accessories, today's date. */
  function EmptyDraft(color: string, today: int): (d: Draft)
    ensures d.name == [] && d.material == Cotton && d.customWashes == 60 && d.accessories == []
    ensures d.color == color && d.purchaseDate == today
  {
    Draft("", color, Cotton, 60, [], today)
  }

  /** `Array.from(new Set(s))`: the first occurrence of each value, in order. */
  function Dedup(s: seq<string>): seq<string> {
    DedupInto([], s)
  }

  /** Inserting the values of `s` one by one into a set that already holds `acc`, in insertion order. */
  function DedupInto(acc: seq<string>, s: seq<string>): seq<string>
    decreases |s|
  {
    if s == [] then acc
    else DedupInto(if s[0] in acc then acc else acc + [s[0]], s[1..])
  }

  /**
   * Inserting keeps what the set held in front, ends up holding exactly the
   * values of both, and never lists a value twice.
   */
  lemma {:induction false} DedupIntoSpec(acc: seq<string>, s: seq<string>)
    ensures var r := DedupInto(acc, s);
      && |acc| <= |r| && r[..|acc|] == acc
      && (forall x :: x in r <==> x in acc || x in s)
      && (Distinct(acc) ==> Distinct(r))
    decreases |s|
  {
    if s != [] {
      var acc' := if s[0] in acc then acc else acc + [s[0]];
      DedupIntoSpec(acc', s[1..]);
      var r := DedupInto(acc, s);
      assert r == DedupInto(acc', s[1..]);
      assert r[..|acc|] == acc'[..|acc|] == acc;
      forall x ensures x in r <==> x in acc || x in s {
        assert x in s <==> x == s[0] || x in s[1..];
      }
      if Distinct(acc) {
        AppendNewKeepsDistinct(acc, s[0]);
      }
    }
  }

  /** Appending a value the list lacks keeps it free of repeats. */
  lemma AppendNewKeepsDistinct(acc: seq<string>, v: string)
    requires Distinct(acc)
    ensures v !in acc ==> Distinct(acc + [v])
  {
    if v !in acc {
      var t := acc + [v];
      forall i, j | 0 <= i < j < |t| ensures t[i] != t[j] {
        if j < |acc| {
          assert t[i] == acc[i] && t[j] == acc[j];
        } else {
          assert t[i] == acc[i] && t[j] == v;
        }
      }
    }
  }

  /** No value occurs twice. */
  predicate Distinct(s: seq<string>) {
    forall i, j :: 0 <= i < j < |s| ==> s[i] != s[j]
  }

  /** The list holds no value except `v`. */
  function IsNot(v: string): string -> bool {
    (x: string) => x != v
  }

  /**
   * The check box handler for accessory `a`: checking adds it through a set
   * (so nothing is listed twice), unchecking filters out every occurrence.
   */
  function Toggled(accessories: seq<string>, a: string, checked: bool): seq<string> {
    if checked then Dedup(accessories + [a]) else Filter(accessories, IsNot(a))
  }

  /**
   * After checking, `a` is listed, nothing is listed twice and the listed
   * values are the old ones plus `a`; after unchecking, `a` is gone and every
   * other value is listed exactly when it was before.
   */
  lemma ToggledSpec(accessories: seq<string>, a: string, checked: bool)
    ensures var r := Toggled(accessories, a, checked);
      && (checked ==> a in r && Distinct(r) && forall x :: x in r <==> x in accessories || x == a)
      && (!checked ==> a !in r && forall x :: x != a ==> (x in r <==> x in accessories))
  {
    if checked {
      DedupIntoSpec([], accessories + [a]);
    }
  }

  /** On a list without repeats that lacks `a`, checking appends `a` at the end and keeps the rest in order. */
  lemma {:induction false} CheckAppends(accessories: seq<string>, a: string)
    requires Distinct(accessories) && a !in accessories
    ensures Toggled(accessories, a, true) == accessories + [a]
  {
    DedupOfDistinct([], accessories + [a]);
  }

  /** Inserting values that are distinct and new one by one appends them all. */
  lemma {:induction false} DedupOfDistinct(acc: seq<string>, s: seq<string>)
    requires Distinct(acc + s)
    ensures DedupInto(acc, s) == acc + s
    decreases |s|
  {
    if s != [] {
      forall i | 0 <= i < |acc| ensures acc[i] != s[0] {
        assert (acc + s)[i] == acc[i] && (acc + s)[|acc|] == s[0];
      }
      assert DedupInto(acc, s) == DedupInto(acc + [s[0]], s[1..]);
      assert acc + [s[0]] + s[1..] == acc + s;
      DedupOfDistinct(acc + [s[0]], s[1..]);
    }
  }

  /** Checking and then unchecking an accessory that was not there gives the list back. */
  lemma CheckThenUncheck(accessories: seq<string>, a: string)
    requires Distinct(accessories) && a !in accessories
    ensures Toggled(Toggled(accessories, a, true), a, false) == accessories
  {
    var t := accessories + [a];
    CheckAppends(accessories, a);
    FilterConcat(accessories, [a], IsNot(a));
    FilterOutAbsent(accessories, a);
    FilterOutAbsent([], a);
    assert Filter([a], IsNot(a)) == Filter([], IsNot(a)) + [];
  }

  /** Unchecking a value the list lacks keeps the list. */
  lemma FilterOutAbsent(s: seq<string>, a: string)
    requires a !in s
    ensures Filter(s, IsNot(a)) == s
  {
    forall i | 0 <= i < |s| ensures IsNot(a)(s[i]) {
      assert s[i] != a;
    }
    FilterAll(s, IsNot(a));
  }

  /** Unchecking twice is unchecking once. */
  lemma UncheckIdempotent(accessories: seq<string>, a: string)
    ensures Toggled(Toggled(accessories, a, false), a, false) == Toggled(accessories, a, false)
  {
    var r := Toggled(accessories, a, false);
    FilterAll(r, IsNot(a));
  }

  /** `Number(e.target.value || 1)`: an empty field becomes 1; a filled one is its parsed number. */
  function CoercedCustomWashes(entry: Option<int>): (n: int)
    ensures entry.None? ==> n == 1
    ensures entry.Some? ==> n == entry.value
  {
    match entry
    case None => 1
    case Some(v) => v
  }

  /** `${adj} ${noun}` for the picked indices. */
  function GeneratedName(i: nat, j: nat): string
    requires i < |ADJECTIVES| && j < |NOUNS|
  {
    ADJECTIVES[i] + " " + NOUNS[j]
  }

  /** A generated name starts with a capital letter, so it is never blank and always passes the submit check. */
  lemma GeneratedNameNotBlank(i: nat, j: nat)
    requires i < |ADJECTIVES| && j < |NOUNS|
    ensures !IsBlank(GeneratedName(i, j))
    ensures Trim(GeneratedName(i, j)) != []
  {
    var name := GeneratedName(i, j);
    assert name[0] == ADJECTIVES[i][0];
    assert 'A' <= name[0] <= 'Z';
    TrimEmptyIffBlank(name);
  }

  /** The form component: open flag and form data. */
  class Form {
    var isOpen: bool
    var formData: Draft

    /** The initial state: closed, first preset colour, today's date. */
    constructor (today: int)
      ensures !isOpen && formData == EmptyDraft(PRESET_COLORS[0], today)
    {
      isOpen := false;
      formData := EmptyDraft(PRESET_COLORS[0], today);
    }

    /** Clicking the placeholder card opens the form. */
    method Open()
      modifies this
      ensures isOpen && formData == old(formData)
    {
      isOpen := true;
    }

    /** The close button closes it and keeps what was typed. */
    method Close()
      modifies this
      ensures !isOpen && formData == old(formData)
    {
      isOpen := false;
    }

    /**
     * `handleSubmit`: a blank name changes nothing and adds nothing; otherwise
     * the current data is handed to `onAdd` (returned here), the form is reset
     * with the preset colour at `colorIndex`, and it closes.
     */
    method HandleSubmit(colorIndex: nat, today: int) returns (added: Option<Draft>)
      requires colorIndex < |PRESET_COLORS|
      modifies this
      ensures IsBlank(old(formData.name)) ==> added == None && isOpen == old(isOpen) && formData == old(formData)
      ensures !IsBlank(old(formData.name)) ==>
        && added == Some(old(formData))
        && !isOpen
        && formData == EmptyDraft(PRESET_COLORS[colorIndex], today)
      ensures formData.color in PRESET_COLORS || formData == old(formData)
    {
      TrimEmptyIffBlank(formData.name);
      if Trim(formData.name) == [] {
        return None;
      }
      added := Some(formData);
      formData := EmptyDraft(PRESET_COLORS[colorIndex], today);
      isOpen := false;
    }

    /** One of the two accessory check boxes changed. */
    method ToggleAccessory(a: string, checked: bool)
      modifies this
      ensures formData == old(formData).(accessories := Toggled(old(formData.accessories), a, checked))
      ensures isOpen == old(isOpen)
    {
      formData := formData.(accessories := Toggled(formData.accessories, a, checked));
    }

    /** The custom-wash input changed. */
    method SetCustomWashes(entry: Option<int>)
      modifies this
      ensures formData == old(formData).(customWashes := CoercedCustomWashes(entry))
      ensures isOpen == old(isOpen)
    {
      formData := formData.(customWashes := CoercedCustomWashes(entry));
    }

    /** The dice button: the name becomes a generated one, nothing else changes. */
    method GenerateRandomName(i: nat, j: nat)
      requires i < |ADJECTIVES| && j < |NOUNS|
      modifies this
      ensures formData == old(formData).(name := GeneratedName(i, j))
      ensures !IsBlank(formData.name)
      ensures isOpen == old(isOpen)
    {
      GeneratedNameNotBlank(i, j);
      formData := formData.(name := GeneratedName(i, j));
    }
  }
}
