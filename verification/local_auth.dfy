/**
 * The local sign-in hook of the UnderLiv variant (src/hooks/useLocalAuth.ts):
 * a user record built from a typed name and optional email, kept in state
 * and under one storage key. The random id and the clock are parameters.
 */
module LocalAuth {
  import opened Wrappers
  import opened Text

  datatype LocalUser = LocalUser(id: string, name: string, email: Option<string>, createdAt: int)

  /** What is stored under the user key: nothing, text `JSON.parse` rejects, or a user. */
  datatype StoredEntry = Absent | Unparseable | Parsed(user: LocalUser)

  const DEFAULT_NAME: string := "Mysterious Laundry Hero"

  /** `name.trim() || 'Mysterious Laundry Hero'`. */
  function DisplayName(name: string): (r: string)
    ensures !IsBlank(name) ==> r == Trim(name)
    ensures IsBlank(name) ==> r == DEFAULT_NAME
  {
    TrimEmptyIffBlank(name);
    if Trim(name) == [] then DEFAULT_NAME else Trim(name)
  }

  /** `email?.trim() || undefined`. */
  function NormalEmail(email: Option<string>): (r: Option<string>)
    ensures email.None? ==> r.None?
    ensures email.Some? && IsBlank(email.value) ==> r.None?
    ensures email.Some? && !IsBlank(email.value) ==> r == Some(Trim(email.value))
  {
    match email
    case None => None
    case Some(e) =>
      TrimEmptyIffBlank(e);
      if Trim(e) == [] then None else Some(Trim(e))
  }

  /** The record `login` builds. */
  function MakeUser(id: string, name: string, email: Option<string>, now: int): LocalUser {
    LocalUser(id, DisplayName(name), NormalEmail(email), now)
  }

  /** A display name is never blank, has nothing left to trim, and normalising it again keeps it. */
  lemma DisplayNameNormal(name: string)
    ensures var r := DisplayName(name);
      !IsBlank(r) && Trim(r) == r && DisplayName(r) == r
  {
    if IsBlank(name) {
      TrimOfDefault();
    } else {
      TrimmedNormal(name);
    }
  }

  /** The trim of a non-blank string is non-blank and trims to itself. */
  lemma TrimmedNormal(s: string)
    requires !IsBlank(s)
    ensures !IsBlank(Trim(s)) && Trim(Trim(s)) == Trim(s)
  {
    TrimIdempotent(s);
    TrimEmptyIffBlank(s);
    TrimEmptyIffBlank(Trim(s));
  }

  /** A normalised email is never blank, has nothing left to trim, and normalising it again keeps it. */
  lemma NormalEmailNormal(email: Option<string>)
    ensures var r := NormalEmail(email);
      && (r.Some? ==> !IsBlank(r.value) && Trim(r.value) == r.value)
      && NormalEmail(r) == r
  {
    if email.Some? && !IsBlank(email.value) {
      TrimmedNormal(email.value);
    }
  }

  /** Building a record from an already built one's name and email gives the same record. */
  lemma MakeUserIdempotent(id: string, name: string, email: Option<string>, now: int)
    ensures var u := MakeUser(id, name, email, now);
      MakeUser(id, u.name, u.email, now) == u
  {
    DisplayNameNormal(name);
    NormalEmailNormal(email);
  }

  /** The default name is not blank and has nothing to trim. */
  lemma TrimOfDefault()
    ensures !IsBlank(DEFAULT_NAME) && Trim(DEFAULT_NAME) == DEFAULT_NAME
  {
    assert !IsWhitespace(DEFAULT_NAME[0]);
    assert TrimStart(DEFAULT_NAME) == DEFAULT_NAME;
    assert !IsWhitespace(DEFAULT_NAME[|DEFAULT_NAME| - 1]);
  }

  /** `getStoredUser`: the stored user, or null when the entry is absent or unparseable. */
  function GetStoredUser(entry: StoredEntry): (r: Option<LocalUser>)
    ensures r.Some? <==> entry.Parsed?
    ensures r.Some? ==> r.value == entry.user
  {
    match entry
    case Parsed(u) => Some(u)
    case _ => None
  }

  /** The hook: its `user` state and the stored entry. */
  class Session {
    var user: Option<LocalUser>
    var entry: StoredEntry

    /** Mounting with whatever is stored: an absent entry leaves `user` null, an unparseable one sets it to null. */
    constructor (entry: StoredEntry)
      ensures user == GetStoredUser(entry) && this.entry == entry
    {
      this.entry := entry;
      match entry {
        case Parsed(u) => user := Some(u);
        case Unparseable => user := None;
        case Absent => user := None;
      }
    }

    /** `login`: the new record is stored and becomes the user; reading the store back gives it. */
    method Login(id: string, name: string, email: Option<string>, now: int)
      modifies this
      ensures user == Some(MakeUser(id, name, email, now))
      ensures entry == Parsed(MakeUser(id, name, email, now))
      ensures GetStoredUser(entry) == user
    {
      var u := MakeUser(id, name, email, now);
      entry := Parsed(u);
      user := Some(u);
    }

    /** `logout`: the key is removed and the user is null. */
    method Logout()
      modifies this
      ensures user == None && entry == Absent
      ensures GetStoredUser(entry) == None
    {
      entry := Absent;
      user := None;
    }
  }
}
