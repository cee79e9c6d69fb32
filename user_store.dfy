/** The user store: what each statement on `users` selects or changes, and
    the Go loops that collect its rows. */
module UserStore {
  import opened LaundryNotify
  import opened Relational
  import opened Sqlite

  /** UserFilter: both conditions apply when both are given. */
  datatype UserFilter = UserFilter(id: Option<int>, name: Option<string>, limit: int, offset: int)

  predicate Matches(f: UserFilter, u: User) {
    (f.id.Some? ==> u.id == f.id.value) && (f.name.Some? ==> u.name == f.name.value)
  }

  function Where(f: UserFilter): User -> bool {
    (u: User) => Matches(f, u)
  }

  /** The statement of findUsers: matching users in id order, then the page. */
  function Query(users: seq<User>, f: UserFilter): Result<seq<User>> {
    Page(Filter(users, Where(f)), f.limit, f.offset)
  }

  /** findUsers: the page of matching users and the number of matches; with
      no match, no users and a count of 0. */
  method FindUsers(db: DB, f: UserFilter) returns (users: seq<User>, n: int, err: Option<Error>)
    ensures Query(db.users, f).Err? ==> err == Some(Query(db.users, f).error) && users == [] && n == 0
    ensures Query(db.users, f).Ok? ==> err.None? && users == Query(db.users, f).value
    ensures Query(db.users, f).Ok? ==> n == CountRead(|Filter(db.users, Where(f))|, |users|)
  {
    var matches := Filter(db.users, Where(f));
    var query := Query(db.users, f);
    if query.Err? {
      return [], 0, Some(query.error);
    }
    users, n := ReadRows(query.value, |matches|);
    err := None;
  }

  /** The user ids in a query's answer increase, as ORDER BY id asks. */
  lemma FindUsersOrderedById(db: DB, f: UserFilter)
    requires db.Valid()
    requires Query(db.users, f).Ok?
    ensures IdsIncreasing(Query(db.users, f).value, UserIdOf)
  {
    FilterKeepsIdsIncreasing(db.users, Where(f), UserIdOf);
    PageKeepsIdsIncreasing(Filter(db.users, Where(f)), f.limit, f.offset, UserIdOf);
  }

  /** findUserById: the user with that id, or nothing, and then no error. */
  method FindUserById(db: DB, id: int) returns (user: Option<User>)
    requires db.Valid()
    ensures match IndexOf(db.users, UserIdOf, id)
            case None => user.None?
            case Some(k) => user == Some(db.users[k])
  {
    var f := UserFilter(Some(id), None, 0, 0);
    var users, _, _ := FindUsers(db, f);
    var index := IndexOf(db.users, UserIdOf, id);
    if index.None? {
      FilterNone(db.users, Where(f));
      return None;
    }
    var k := index.value;
    forall i | 0 <= i < |db.users| ensures Where(f)(db.users[i]) <==> i == k {
      if i < k {
        assert db.users[i].id < db.users[k].id;
      } else if i > k {
        assert db.users[k].id < db.users[i].id;
      }
    }
    FilterSingle(db.users, Where(f), k);
    return Some(users[0]);
  }

  /** FindUserByName: the user with that name, or nothing, and then no
      error. Names are UNIQUE, so the query's `ORDER BY id LIMIT 1` has at
      most one row to choose from. */
  method FindUserByName(db: DB, name: string) returns (user: Option<User>)
    requires db.Valid()
    ensures user.None? <==> forall i :: 0 <= i < |db.users| ==> db.users[i].name != name
    ensures user.Some? ==> user.value in db.users && user.value.name == name
    ensures user.Some? ==> forall i :: 0 <= i < |db.users| && db.users[i].name == name ==> db.users[i] == user.value
  {
    var f := UserFilter(None, Some(name), 0, 0);
    var users, _, _ := FindUsers(db, f);
    if |users| == 0 {
      forall i | 0 <= i < |db.users| ensures db.users[i].name != name {
        assert !Where(f)(db.users[i]);
      }
      return None;
    }
    assert users[0] in db.users;
    return Some(users[0]);
  }

  /** createUser: stamps the creation time, validates, inserts (the name must
      be new: it is UNIQUE), and on success sets the id SQLite assigned. */
  method CreateUser(db: DB, user: User, now: Time) returns (created: User, err: Option<Error>)
    requires db.Valid()
    modifies db
    ensures db.Valid()
    ensures ValidateUser(user).Some? ==> err == ValidateUser(user)
    ensures ValidateUser(user).None? ==>
              err == (if exists i :: 0 <= i < |old(db.users)| && old(db.users)[i].name == user.name
                      then Some(ConstraintError) else None)
    ensures err.Some? ==> created == user.(createdAt := now) && db.users == old(db.users)
    ensures err.None? ==>
              && created == User(NextRowId(old(db.users), UserIdOf), user.name, now)
              && db.users == old(db.users) + [created]
    ensures db.events == old(db.events) && db.userEvents == old(db.userEvents)
  {
    created := user.(createdAt := now);
    err := ValidateUser(created);
    if err.Some? {
      return;
    }
    if exists i :: 0 <= i < |db.users| && db.users[i].name == user.name {
      return created, Some(ConstraintError);
    }
    created := created.(id := NextRowId(db.users, UserIdOf));
    AppendKeepsWellKeyed(db.users, UserIdOf, created);
    db.users := db.users + [created];
  }

  function CreatedKey(u: User): int { u.createdAt }

  /** The WHERE clause of findMostRecentUsers. */
  function NameLike(name: string): User -> bool {
    (u: User) => name == "" || Like("%" + name + "%", u.name)
  }

  /** The columns findMostRecentUsers selects: the creation time is not among
      them, so it stays zero. */
  function WithoutCreation(users: seq<User>): (r: seq<User>)
    ensures |r| == |users|
    ensures forall i :: 0 <= i < |users| ==> r[i] == users[i].(createdAt := 0)
  {
    seq(|users|, i requires 0 <= i < |users| => users[i].(createdAt := 0))
  }

  /** findMostRecentUsers: at most five users whose name holds `name`, newest
      first, and how many match in all; nothing and 0 when none do. */
  method FindMostRecentUsers(db: DB, name: string) returns (users: seq<User>, n: int)
    ensures var top := Top(db.users, NameLike(name), CreatedKey, 5);
            users == WithoutCreation(top) && n == CountRead(|Filter(db.users, NameLike(name))|, |top|)
    ensures users == [] <==> n == 0
  {
    var p := NameLike(name);
    var top := Top(db.users, p, CreatedKey, 5);
    TopIsTop(db.users, p, CreatedKey, 5);
    users, n := ReadNameRows(top, |Filter(db.users, p)|);
  }

  /** The row loop of findMostRecentUsers: each row fills a user's id and
      name only. */
  method ReadNameRows(rows: seq<User>, matches: nat) returns (users: seq<User>, n: int)
    ensures users == WithoutCreation(rows)
    ensures n == CountRead(matches, |rows|)
  {
    users, n := [], 0;
    var i := 0;
    while i < |rows|
      invariant 0 <= i <= |rows|
      invariant |users| == i
      invariant forall j :: 0 <= j < i ==> users[j] == rows[j].(createdAt := 0)
      invariant n == CountRead(matches, i)
    {
      users := users + [User(rows[i].id, rows[i].name, 0)];
      n := matches;
      i := i + 1;
    }
  }

  /** With an empty name every user is a candidate; otherwise the name is
      searched for anywhere, ignoring ASCII case, when it holds no LIKE
      wildcard. */
  lemma NameFilterIsSubstringSearch(name: string, u: User)
    ensures name == "" ==> NameLike(name)(u)
    ensures name != "" && NoWildcards(name) ==> (NameLike(name)(u) <==> ContainsFolded(u.name, name))
  {
    if name != "" && NoWildcards(name) {
      LikeContains(name, u.name);
    }
  }
}
