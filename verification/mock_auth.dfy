/**
 * The mock authentication hook of the backend-style frontend
 * (frontend/src/hooks/useAuth.ts): a shared user table and password table,
 * `login`, `register`, `logout`, and the session check on mount. The stored
 * session entry is a field; the clock-based id of a new user is a parameter.
 */
module MockAuth {
  import opened Wrappers

  datatype User = User(id: string, username: string, email: string)

  /** The seeded table. */
  const MOCK_USERS: seq<User> := [
    User("1", "admin", "admin@example.com"),
    User("2", "user1", "user1@example.com"),
    User("3", "user2", "user2@example.com")]

  const MOCK_PASSWORDS: map<string, string> := map[
    "admin" := "admin123",
    "user1" := "password123",
    "user2" := "password123"]

  /** What the session check finds under the session key: nothing, something `JSON.parse` rejects, or a user. */
  datatype SessionEntry = Absent | Unparseable | Parsed(user: User)

  /** Why `register` answered as it did (the toast it shows). */
  datatype RegisterOutcome = Registered | UsernameTaken | EmailTaken

  /** `MOCK_USERS.find(u => u.username === username)`. */
  function FindByUsername(users: seq<User>, username: string): (r: Option<User>)
    ensures r.Some? ==> r.value in users && r.value.username == username
    ensures r.None? <==> forall i :: 0 <= i < |users| ==> users[i].username != username
  {
    if users == [] then None
    else if users[0].username == username then Some(users[0])
    else FindByUsername(users[1..], username)
  }

  /** `MOCK_USERS.find(u => u.email === email)` found something. */
  predicate EmailTakenIn(users: seq<User>, email: string) {
    exists i :: 0 <= i < |users| && users[i].email == email
  }

  /** Usernames and emails are unique, and every listed user has a password. */
  predicate TableValid(users: seq<User>, passwords: map<string, string>) {
    && (forall i, j :: 0 <= i < j < |users| ==> users[i].username != users[j].username)
    && (forall i, j :: 0 <= i < j < |users| ==> users[i].email != users[j].email)
    && (forall i :: 0 <= i < |users| ==> users[i].username in passwords)
  }

  /** The login check: a user with that name exists and the password is the stored one. */
  predicate Accepts(users: seq<User>, passwords: map<string, string>, username: string, password: string) {
    FindByUsername(users, username).Some? && username in passwords && passwords[username] == password
  }

  /** In a valid table the user `login` finds is the only one with that name. */
  lemma FoundUserIsUnique(users: seq<User>, passwords: map<string, string>, username: string, i: nat)
    requires TableValid(users, passwords)
    requires i < |users| && users[i].username == username
    ensures FindByUsername(users, username) == Some(users[i])
  {
    var r := FindByUsername(users, username);
    var k :| 0 <= k < |users| && users[k] == r.value;
  }

  /**
   * Appending a user whose name and email are both new keeps the table valid,
   * and the new credentials are then accepted.
   */
  lemma AppendKeepsValid(users: seq<User>, passwords: map<string, string>, u: User, password: string)
    requires TableValid(users, passwords)
    requires FindByUsername(users, u.username).None? && !EmailTakenIn(users, u.email)
    ensures TableValid(users + [u], passwords[u.username := password])
    ensures Accepts(users + [u], passwords[u.username := password], u.username, password)
  {
    var users' := users + [u];
    var passwords' := passwords[u.username := password];
    forall i | 0 <= i < |users| ensures users'[i] == users[i] && users[i].username != u.username && users[i].email != u.email {
    }
    FoundUserIsUnique(users', passwords', u.username, |users|);
  }

  /** The seeded table is valid, and the seeded credentials are the only ones accepted for `admin`. */
  lemma SeedTable()
    ensures TableValid(MOCK_USERS, MOCK_PASSWORDS)
    ensures Accepts(MOCK_USERS, MOCK_PASSWORDS, "admin", "admin123")
    ensures Accepts(MOCK_USERS, MOCK_PASSWORDS, "user2", "password123")
    ensures !Accepts(MOCK_USERS, MOCK_PASSWORDS, "admin", "password123")
    ensures !Accepts(MOCK_USERS, MOCK_PASSWORDS, "guest", "")
  {
    assert MOCK_USERS[0].username == "admin";
    assert MOCK_USERS[2].username == "user2";
  }

  /** The hook's state plus the shared tables and the stored session. */
  class Auth {
    var users: seq<User>
    var passwords: map<string, string>
    var user: Option<User>
    var isAuthenticated: bool
    var isLoading: bool
    var session: Option<User>

    ghost predicate Valid()
      reads this
    {
      && TableValid(users, passwords)
      && (isAuthenticated <==> user.Some?)
    }

    /** Mounting: the seeded tables, nobody signed in, still loading. */
    constructor (session: Option<User>)
      ensures Valid()
      ensures users == MOCK_USERS && passwords == MOCK_PASSWORDS
      ensures user == None && !isAuthenticated && isLoading && this.session == session
    {
      users := MOCK_USERS;
      passwords := MOCK_PASSWORDS;
      user := None;
      isAuthenticated := false;
      isLoading := true;
      this.session := session;
      SeedTable();
    }

    /** `checkAuth`: signed in exactly when the entry parses; loading ends on every branch. */
    method CheckAuth(entry: SessionEntry)
      requires Valid()
      modifies this
      ensures Valid()
      ensures !isLoading
      ensures isAuthenticated <==> entry.Parsed?
      ensures user == (if entry.Parsed? then Some(entry.user) else None)
      ensures users == old(users) && passwords == old(passwords) && session == old(session)
    {
      match entry {
        case Parsed(u) =>
          user, isAuthenticated, isLoading := Some(u), true, false;
        case _ =>
          user, isAuthenticated, isLoading := None, false, false;
      }
    }

    /**
     * `login`: succeeds exactly when the check accepts the credentials; then
     * the found user is signed in and stored. A failure changes nothing.
     */
    method Login(username: string, password: string) returns (ok: bool)
      requires Valid()
      modifies this
      ensures Valid()
      ensures ok <==> Accepts(old(users), old(passwords), username, password)
      ensures users == old(users) && passwords == old(passwords)
      ensures ok ==>
        && user == FindByUsername(users, username) && user.Some? && user.value.username == username
        && isAuthenticated && !isLoading && session == user
      ensures !ok ==>
        && user == old(user) && isAuthenticated == old(isAuthenticated)
        && isLoading == old(isLoading) && session == old(session)
    {
      var found := FindByUsername(users, username);
      if found.None? || username !in passwords || password != passwords[username] {
        return false;
      }
      session := found;
      user, isAuthenticated, isLoading := found, true, false;
      ok := true;
    }

    /**
     * `register`: a taken username is refused first, then a taken email;
     * otherwise the user is appended, the password stored, and the new user
     * signed in, after which the same credentials are accepted.
     */
    method Register(username: string, email: string, password: string, id: string) returns (outcome: RegisterOutcome)
      requires Valid()
      modifies this
      ensures Valid()
      ensures FindByUsername(old(users), username).Some? ==> outcome == UsernameTaken
      ensures FindByUsername(old(users), username).None? && EmailTakenIn(old(users), email) ==> outcome == EmailTaken
      ensures FindByUsername(old(users), username).None? && !EmailTakenIn(old(users), email) ==> outcome == Registered
      ensures outcome != Registered ==>
        && users == old(users) && passwords == old(passwords) && user == old(user)
        && isAuthenticated == old(isAuthenticated) && isLoading == old(isLoading) && session == old(session)
      ensures outcome == Registered ==>
        && users == old(users) + [User(id, username, email)]
        && passwords == old(passwords)[username := password]
        && user == Some(User(id, username, email)) && isAuthenticated && !isLoading
        && session == user
        && Accepts(users, passwords, username, password)
    {
      if FindByUsername(users, username).Some? {
        return UsernameTaken;
      }
      if exists i :: 0 <= i < |users| && users[i].email == email {
        return EmailTaken;
      }
      var newUser := User(id, username, email);
      AppendKeepsValid(users, passwords, newUser, password);
      users := users + [newUser];
      passwords := passwords[username := password];
      session := Some(newUser);
      user, isAuthenticated, isLoading := Some(newUser), true, false;
      outcome := Registered;
    }

    /** `logout`: the stored session is removed and nobody is signed in; the tables stay. */
    method Logout()
      requires Valid()
      modifies this
      ensures Valid()
      ensures user == None && !isAuthenticated && !isLoading && session == None
      ensures users == old(users) && passwords == old(passwords)
    {
      session := None;
      user, isAuthenticated, isLoading := None, false, false;
    }
  }
}
