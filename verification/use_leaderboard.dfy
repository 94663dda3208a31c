/**
 * The cross-user leaderboard hook of the second frontend
 * (frontend/src/hooks/useLeaderboard.ts): every mock user's stored list is
 * read, tagged with its owner and appended, then the whole list is sorted by
 * descending wash count. Storage is a map from key to what is stored there.
 */
module UseLeaderboard {
  import opened Wrappers
  import opened Garments
  import opened Seqs
  import opened Ranking

  /** A user of the demonstration table. */
  datatype MockUser = MockUser(id: string, username: string, email: string)

  /** `MOCK_USERS`. */
  const MOCK_USERS: seq<MockUser> := [
    MockUser("1", "admin", "admin@example.com"),
    MockUser("2", "user1", "user1@example.com"),
    MockUser("3", "user2", "user2@example.com")
  ]

  /** A stored garment, with whatever `user` field it was saved with. */
  datatype StoredItem = StoredItem(garment: Garment, user: Option<MockUser>)

  /** What a storage key holds: text that does not parse as a list, or a parsed list. */
  datatype Stored = Unparseable | Parsed(items: seq<StoredItem>)

  /** A leaderboard entry: a garment and its owner. */
  datatype Entry = Entry(garment: Garment, user: MockUser)

  /** `pantheon_undergarments_${user.id}`. */
  function StorageKey(userId: string): (k: string)
    ensures |k| == |"pantheon_undergarments_"| + |userId| && k[|"pantheon_undergarments_"|..] == userId
  {
    "pantheon_undergarments_" + userId
  }

  /** The map that spreads each stored garment and sets its `user` to the owner. */
  function Tagged(items: seq<StoredItem>, user: MockUser): (r: seq<Entry>)
    ensures |r| == |items|
    ensures forall i :: 0 <= i < |items| ==> r[i] == Entry(items[i].garment, user)
  {
    seq(|items|, i requires 0 <= i < |items| => Entry(items[i].garment, user))
  }

  /** What one user adds: the tagged stored list, or nothing when the key is missing or does not parse. */
  function Contribution(storage: map<string, Stored>, user: MockUser): seq<Entry> {
    var key := StorageKey(user.id);
    if key in storage && storage[key].Parsed? then Tagged(storage[key].items, user) else []
  }

  /** The entries collected from `users`, in user order and, within a user, in storage order. */
  function Collected(storage: map<string, Stored>, users: seq<MockUser>): seq<Entry>
    decreases |users|
  {
    if users == [] then []
    else Collected(storage, users[..|users| - 1]) + Contribution(storage, users[|users| - 1])
  }

  function EntryWashKey(e: Entry): real {
    e.garment.washCount as real
  }

  /**
   * `fetchLeaderboard`: the `forEach` over the mock users pushing each one's
   * tagged list, then the sort by descending wash count.
   */
  method FetchLeaderboard(storage: map<string, Stored>) returns (r: seq<Entry>)
    ensures r == SortDesc(Collected(storage, MOCK_USERS), EntryWashKey)
  {
    var all: seq<Entry> := [];
    for i := 0 to |MOCK_USERS|
      invariant all == Collected(storage, MOCK_USERS[..i])
    {
      assert MOCK_USERS[..i + 1][..i] == MOCK_USERS[..i];
      var user := MOCK_USERS[i];
      var key := StorageKey(user.id);
      if key in storage {
        match storage[key]
        case Parsed(items) =>
          var leaderboardItems := Tagged(items, user);
          all := all + leaderboardItems;
        case Unparseable =>
      }
    }
    assert MOCK_USERS[..|MOCK_USERS|] == MOCK_USERS;
    r := SortDesc(all, EntryWashKey);
  }

  /** The leaderboard is as long as the users' lists together. */
  lemma {:induction false} CollectedLength(storage: map<string, Stored>, users: seq<MockUser>)
    ensures |Collected(storage, users)| == SumOf(users, (u: MockUser) => |Contribution(storage, u)|)
    decreases |users|
  {
    if users != [] {
      CollectedLength(storage, users[..|users| - 1]);
    }
  }

  /**
   * The leaderboard is in non-increasing wash order, holds the collected
   * entries exactly, and keeps their collected order among equal counts.
   */
  lemma LeaderboardOrdered(storage: map<string, Stored>, count: nat)
    ensures var r := SortDesc(Collected(storage, MOCK_USERS), EntryWashKey);
      && (forall i, j :: 0 <= i < j < |r| ==> r[i].garment.washCount >= r[j].garment.washCount)
      && multiset(r) == multiset(Collected(storage, MOCK_USERS))
      && Filter(r, KeyIs(EntryWashKey, count as real)) == Filter(Collected(storage, MOCK_USERS), KeyIs(EntryWashKey, count as real))
  {
    var c := Collected(storage, MOCK_USERS);
    SortDescSorted(c, EntryWashKey);
    SortStable(c, EntryWashKey, count as real);
    var r := SortDesc(c, EntryWashKey);
    forall i, j | 0 <= i < j < |r| ensures r[i].garment.washCount >= r[j].garment.washCount {
      assert EntryWashKey(r[i]) >= EntryWashKey(r[j]);
    }
  }

  /**
   * Every collected entry is a garment stored under its owner's key, tagged
   * with that owner whatever `user` it was stored with.
   */
  lemma {:induction false} CollectedFromOwners(storage: map<string, Stored>, users: seq<MockUser>)
    ensures forall e :: e in Collected(storage, users) ==>
      && e.user in users
      && StorageKey(e.user.id) in storage && storage[StorageKey(e.user.id)].Parsed?
      && exists item :: item in storage[StorageKey(e.user.id)].items && item.garment == e.garment
    decreases |users|
  {
    if users != [] {
      var users' := users[..|users| - 1];
      CollectedFromOwners(storage, users');
      var last := users[|users| - 1];
      forall e | e in Contribution(storage, last)
        ensures StorageKey(e.user.id) in storage && storage[StorageKey(e.user.id)].Parsed?
        ensures exists item :: item in storage[StorageKey(e.user.id)].items && item.garment == e.garment
      {
        var items := storage[StorageKey(last.id)].items;
        var i :| 0 <= i < |items| && Tagged(items, last)[i] == e;
        assert items[i] in items;
      }
    }
  }

  /** Collecting from two groups of users in turn is collecting from each and appending. */
  lemma {:induction false} CollectedConcat(storage: map<string, Stored>, a: seq<MockUser>, b: seq<MockUser>)
    ensures Collected(storage, a + b) == Collected(storage, a) + Collected(storage, b)
    decreases |b|
  {
    if b == [] {
      assert a + b == a;
    } else {
      var b' := b[..|b| - 1];
      assert (a + b)[..|a + b| - 1] == a + b';
      CollectedConcat(storage, a, b');
    }
  }

  /** A user whose key is missing or does not parse adds nothing, and the others are collected as before. */
  lemma UnreadableUserSkipped(storage: map<string, Stored>, users: seq<MockUser>, k: nat)
    requires k < |users|
    requires StorageKey(users[k].id) !in storage || storage[StorageKey(users[k].id)].Unparseable?
    ensures Collected(storage, users) == Collected(storage, users[..k]) + Collected(storage, users[k + 1..])
  {
    var pre, mid, post := users[..k], [users[k]], users[k + 1..];
    calc {
      Collected(storage, users);
      { assert users == pre + mid + post; }
      Collected(storage, pre + mid + post);
      { CollectedConcat(storage, pre + mid, post); }
      Collected(storage, pre + mid) + Collected(storage, post);
      { CollectedConcat(storage, pre, mid); }
      Collected(storage, pre) + Collected(storage, mid) + Collected(storage, post);
      { NothingFromUnreadable(storage, users[k]); }
      Collected(storage, pre) + Collected(storage, post);
    }
  }

  /** A user alone whose key is missing or does not parse contributes nothing. */
  lemma NothingFromUnreadable(storage: map<string, Stored>, user: MockUser)
    requires StorageKey(user.id) !in storage || storage[StorageKey(user.id)].Unparseable?
    ensures Collected(storage, [user]) == []
  {
    assert [user][..0] == [];
  }
}
