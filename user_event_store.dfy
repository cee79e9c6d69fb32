/** The registration store: what each statement on `user_events` selects or
    changes, and the Go loops that scan its rows. */
module UserEventStore {
  import opened LaundryNotify
  import opened GoStrings
  import opened Relational
  import opened Sqlite

  /** UserEventUpdate: only the event id can be changed. */
  datatype UserEventUpdate = UserEventUpdate(eventId: int)

  /** Scanning a row into the Go struct. Its EventId is an int, so a NULL
      event id cannot be stored in it and the scan fails. */
  function ScanRow(r: UserEventRow): (u: Result<UserEvent>)
    ensures u.Ok? <==> r.eventId.Some?
    ensures u.Ok? ==> u.value == UserEvent(r.id, r.userId, r.eventId.value, r.createdAt, r.kind)
    ensures u.Err? ==> u.error == ScanError
  {
    if r.eventId.None? then Err(ScanError)
    else Ok(UserEvent(r.id, r.userId, r.eventId.value, r.createdAt, r.kind))
  }

  /** Scanning rows in order; the first row that fails stops everything. */
  function ScanRows(rows: seq<UserEventRow>): (r: Result<seq<UserEvent>>)
    ensures r.Ok? <==> forall i :: 0 <= i < |rows| ==> rows[i].eventId.Some?
    ensures r.Ok? ==> |r.value| == |rows| && forall i :: 0 <= i < |rows| ==> Ok(r.value[i]) == ScanRow(rows[i])
    ensures r.Err? ==> r.error == ScanError
  {
    if rows == [] then Ok([])
    else match ScanRow(rows[0])
      case Err(e) => Err(e)
      case Ok(u) =>
        match ScanRows(rows[1..])
        case Err(e) => Err(e)
        case Ok(us) => Ok([u] + us)
  }

  /** The `rows.Next()` loop of the registration queries: scan each row and
      append it, read the count column on every row, and give up with nil and
      0 at the first row that does not scan. */
  method ReadRows(rows: seq<UserEventRow>, matches: nat) returns (events: seq<UserEvent>, n: int, err: Option<Error>)
    ensures ScanRows(rows).Err? ==> events == [] && n == 0 && err == Some(ScanError)
    ensures ScanRows(rows).Ok? ==> events == ScanRows(rows).value && err.None?
    ensures ScanRows(rows).Ok? ==> n == CountRead(matches, |rows|)
  {
    events, n, err := [], 0, None;
    var i := 0;
    while i < |rows|
      invariant 0 <= i <= |rows|
      invariant ScanRows(rows[..i]).Ok? && events == ScanRows(rows[..i]).value
      invariant n == CountRead(matches, i)
    {
      assert rows[..i + 1][..i] == rows[..i];
      var scanned := ScanRow(rows[i]);
      if scanned.Err? {
        assert !rows[i].eventId.Some?;
        return [], 0, Some(ScanError);
      }
      events := events + [scanned.value];
      n := matches;
      i := i + 1;
      assert ScanRows(rows[..i]).Ok? && |ScanRows(rows[..i]).value| == i;
      assert ScanRows(rows[..i]).value == events;
    }
    assert rows[..i] == rows;
  }

  function CreatedKey(r: UserEventRow): int { r.createdAt }

  /** `event_id IS NULL OR event_id = 0`: a registration for the next cycle. */
  predicate Pending(r: UserEventRow) {
    r.eventId.None? || r.eventId == Some(0)
  }

  function UpcomingOf(kind: string): UserEventRow -> bool {
    (r: UserEventRow) => r.kind == kind && Pending(r)
  }

  function UserNamed(users: seq<User>, userId: int, name: string): bool {
    exists j :: 0 <= j < |users| && users[j].id == userId && users[j].name == name
  }

  /** The join with `users`: pending registrations of that type whose user has
      that name. User ids are unique, so each registration joins at most once. */
  function UpcomingOfUser(users: seq<User>, name: string, kind: string): UserEventRow -> bool {
    (r: UserEventRow) => r.kind == kind && Pending(r) && UserNamed(users, r.userId, name)
  }

  /** findUpcomingUserEvents: the (at most five) newest pending registrations
      of that type, and how many there are in all. */
  method FindUpcomingUserEvents(db: DB, kind: string) returns (events: seq<UserEvent>, n: int, err: Option<Error>)
    ensures var top := Top(db.userEvents, UpcomingOf(kind), CreatedKey, 5);
            && (ScanRows(top).Err? ==> events == [] && n == 0 && err == Some(ScanError))
            && (ScanRows(top).Ok? ==>
                  events == ScanRows(top).value && err.None? &&
                  n == CountRead(|Filter(db.userEvents, UpcomingOf(kind))|, |top|))
    ensures |events| <= 5
    ensures forall i :: 0 <= i < |events| ==> events[i].kind == kind && events[i].eventId == 0
    ensures forall i :: 0 <= i < |events| ==> exists j :: 0 <= j < |db.userEvents| && db.userEvents[j].id == events[i].id
    ensures forall i, j :: 0 <= i < j < |events| ==> events[i].createdAt >= events[j].createdAt
  {
    var matches := Filter(db.userEvents, UpcomingOf(kind));
    var top := Top(db.userEvents, UpcomingOf(kind), CreatedKey, 5);
    TopIsTop(db.userEvents, UpcomingOf(kind), CreatedKey, 5);
    events, n, err := ReadRows(top, |matches|);
    ScannedFacts(top, db.userEvents, events);
    forall i | 0 <= i < |events| ensures events[i].kind == kind && events[i].eventId == 0 {
      assert UpcomingOf(kind)(top[i]);
    }
  }

  /** What scanning keeps of the rows: ids, creation times, types, and the
      order, and each row comes from the table. */
  lemma ScannedFacts(top: seq<UserEventRow>, table: seq<UserEventRow>, events: seq<UserEvent>)
    requires forall i :: 0 <= i < |top| ==> top[i] in table
    requires SortedDesc(top, CreatedKey)
    requires events == [] || (ScanRows(top).Ok? && events == ScanRows(top).value)
    ensures forall i :: 0 <= i < |events| ==>
              events[i].id == top[i].id && events[i].kind == top[i].kind && Some(events[i].eventId) == top[i].eventId
    ensures forall i :: 0 <= i < |events| ==> exists j :: 0 <= j < |table| && table[j].id == events[i].id
    ensures forall i, j :: 0 <= i < j < |events| ==> events[i].createdAt >= events[j].createdAt
  {
    forall i | 0 <= i < |events|
      ensures events[i].id == top[i].id && events[i].kind == top[i].kind && Some(events[i].eventId) == top[i].eventId
      ensures events[i].createdAt == top[i].createdAt
    {
      assert Ok(events[i]) == ScanRow(top[i]);
    }
    forall i | 0 <= i < |events| ensures exists j :: 0 <= j < |table| && table[j].id == events[i].id {
      var j :| 0 <= j < |table| && table[j] == top[i];
    }
    forall i, j | 0 <= i < j < |events| ensures events[i].createdAt >= events[j].createdAt {
      assert CreatedKey(top[i]) >= CreatedKey(top[j]);
    }
  }

  /** findByUserName: the (at most five) newest pending registrations of that
      type made by the user with that name, and how many there are in all. */
  method FindByUserName(db: DB, name: string, kind: string) returns (events: seq<UserEvent>, n: int, err: Option<Error>)
    requires db.Valid()
    ensures var top := Top(db.userEvents, UpcomingOfUser(db.users, name, kind), CreatedKey, 5);
            && (ScanRows(top).Err? ==> events == [] && n == 0 && err == Some(ScanError))
            && (ScanRows(top).Ok? ==>
                  events == ScanRows(top).value && err.None? &&
                  n == CountRead(|Filter(db.userEvents, UpcomingOfUser(db.users, name, kind))|, |top|))
    ensures |events| <= 5
    ensures forall i :: 0 <= i < |events| ==>
              events[i].kind == kind && events[i].eventId == 0 && UserNamed(db.users, events[i].userId, name)
  {
    var p := UpcomingOfUser(db.users, name, kind);
    var top := Top(db.userEvents, p, CreatedKey, 5);
    TopIsTop(db.userEvents, p, CreatedKey, 5);
    events, n, err := ReadRows(top, |Filter(db.userEvents, p)|);
    forall i | 0 <= i < |events|
      ensures events[i].kind == kind && events[i].eventId == 0 && UserNamed(db.users, events[i].userId, name)
    {
      assert Ok(events[i]) == ScanRow(top[i]);
      assert p(top[i]);
    }
  }

  function IdIs(id: int): UserEventRow -> bool {
    (r: UserEventRow) => r.id == id
  }

  /** findUserEvents with an id filter: ORDER BY created_at DESC LIMIT 1, and
      the count is the number of rows read. */
  method FindUserEvents(db: DB, id: int) returns (events: seq<UserEvent>, n: int, err: Option<Error>)
    ensures var top := Top(db.userEvents, IdIs(id), CreatedKey, 1);
            && (ScanRows(top).Err? ==> events == [] && n == 0 && err == Some(ScanError))
            && (ScanRows(top).Ok? ==> events == ScanRows(top).value && err.None? && n == |events|)
  {
    var top := Top(db.userEvents, IdIs(id), CreatedKey, 1);
    var count;
    events, count, err := ReadRows(top, |Filter(db.userEvents, IdIs(id))|);
    n := |events|;
  }

  function NotFound(id: int): Error {
    AppError(ENotFound, "UserEvent not found: " + FormatInt(id))
  }

  /** findUserEventById: the registration with that id (a NULL event id makes
      the scan fail), or ENOTFOUND. */
  method FindUserEventById(db: DB, id: int) returns (r: Result<UserEvent>)
    requires db.Valid()
    ensures match IndexOf(db.userEvents, UserEventIdOf, id)
            case None => r == Err(NotFound(id))
            case Some(k) => r == ScanRow(db.userEvents[k])
  {
    var events, _, err := FindUserEvents(db, id);
    var rows := db.userEvents;
    var index := IndexOf(rows, UserEventIdOf, id);
    if index.None? {
      FilterNone(rows, IdIs(id));
      return Err(NotFound(id));
    }
    var k := index.value;
    forall i | 0 <= i < |rows| ensures IdIs(id)(rows[i]) <==> i == k {
      if i < k {
        assert rows[i].id < rows[k].id;
      } else if i > k {
        assert rows[k].id < rows[i].id;
      }
    }
    FilterSingle(rows, IdIs(id), k);
    assert Top(rows, IdIs(id), CreatedKey, 1) == SortDesc([rows[k]], CreatedKey);
    SortSingle(rows[k]);
    if err.Some? {
      return Err(ScanError);
    }
    return Ok(events[0]);
  }

  lemma SortSingle(r: UserEventRow)
    ensures SortDesc([r], CreatedKey) == [r]
  {
    assert [r][1..] == [];
  }

  /** The registration after the update: a positive event id replaces the
      old one, anything else leaves it. */
  function Updated(ue: UserEvent, upd: UserEventUpdate): (r: UserEvent)
    ensures upd.eventId > 0 ==> r == ue.(eventId := upd.eventId)
    ensures upd.eventId <= 0 ==> r == ue
  {
    if upd.eventId > 0 then ue.(eventId := upd.eventId) else ue
  }

  /** Another row than `k` already holds this user and event. */
  predicate ClashElsewhere(rows: seq<UserEventRow>, k: int, userId: int, eventId: int) {
    exists j :: 0 <= j < |rows| && j != k && rows[j].userId == userId && rows[j].eventId == Some(eventId)
  }

  /** What updateUserEvent returns. */
  function UpdateResult(rows: seq<UserEventRow>, id: int, upd: UserEventUpdate): Result<UserEvent> {
    match IndexOf(rows, UserEventIdOf, id)
    case None => Err(NotFound(id))
    case Some(k) =>
      match ScanRow(rows[k])
      case Err(e) => Err(e)
      case Ok(ue) =>
        var u := Updated(ue, upd);
        if ValidateUserEvent(u).Some? then Err(ValidateUserEvent(u).value)
        else if ClashElsewhere(rows, k, u.userId, u.eventId) then Err(ConstraintError)
        else Ok(u)
  }

  /** The table after updateUserEvent: on success only the event id of that
      one row is written. */
  function UpdateRows(rows: seq<UserEventRow>, id: int, upd: UserEventUpdate): seq<UserEventRow> {
    match UpdateResult(rows, id, upd)
    case Err(_) => rows
    case Ok(u) =>
      var k := IndexOf(rows, UserEventIdOf, id).value;
      rows[k := rows[k].(eventId := Some(u.eventId))]
  }

  /** An update, successful or not, keeps the table's keys and
      UNIQUE (user_id, event_id). */
  lemma UpdateRowsKeepsConstraints(rows: seq<UserEventRow>, id: int, upd: UserEventUpdate)
    requires WellKeyed(rows, UserEventIdOf) && RegistrationsUnique(rows)
    ensures WellKeyed(UpdateRows(rows, id, upd), UserEventIdOf)
    ensures RegistrationsUnique(UpdateRows(rows, id, upd))
  {
    match UpdateResult(rows, id, upd)
    case Err(_) =>
    case Ok(u) =>
      var k := IndexOf(rows, UserEventIdOf, id).value;
      ReplaceKeepsWellKeyed(rows, UserEventIdOf, k, rows[k].(eventId := Some(u.eventId)));
      SetEventKeepsUnique(rows, k, u.eventId);
  }

  /** updateUserEvent. */
  method UpdateUserEvent(db: DB, id: int, upd: UserEventUpdate) returns (r: Result<UserEvent>)
    requires db.Valid()
    modifies db
    ensures db.Valid()
    ensures r == UpdateResult(old(db.userEvents), id, upd)
    ensures db.userEvents == UpdateRows(old(db.userEvents), id, upd)
    ensures db.events == old(db.events) && db.users == old(db.users)
  {
    var found := FindUserEventById(db, id);
    if found.Err? {
      return Err(found.error);
    }
    var k := IndexOf(db.userEvents, UserEventIdOf, id).value;
    var u := Updated(found.value, upd);
    var invalid := ValidateUserEvent(u);
    if invalid.Some? {
      return Err(invalid.value);
    }
    if ClashElsewhere(db.userEvents, k, u.userId, u.eventId) {
      return Err(ConstraintError);
    }
    var row := db.userEvents[k].(eventId := Some(u.eventId));
    ReplaceKeepsWellKeyed(db.userEvents, UserEventIdOf, k, row);
    SetEventKeepsUnique(db.userEvents, k, u.eventId);
    db.userEvents := db.userEvents[k := row];
    return Ok(u);
  }

  /** Setting a row's event id where no other row of that user has it keeps
      UNIQUE (user_id, event_id). */
  lemma SetEventKeepsUnique(rows: seq<UserEventRow>, k: int, eventId: int)
    requires RegistrationsUnique(rows) && 0 <= k < |rows|
    requires !ClashElsewhere(rows, k, rows[k].userId, eventId)
    ensures RegistrationsUnique(rows[k := rows[k].(eventId := Some(eventId))])
  {
    var s := rows[k := rows[k].(eventId := Some(eventId))];
    forall i, j | 0 <= i < j < |s| && s[i].eventId.Some?
      ensures !(s[i].userId == s[j].userId && s[i].eventId == s[j].eventId)
    {
      if i == k {
        assert s[j] == rows[j];
      } else if j == k {
        assert s[i] == rows[i];
      } else {
        assert s[i] == rows[i] && s[j] == rows[j];
      }
    }
  }

  /** An update writes at most the event id of the row with that id, and
      nothing when it fails. */
  lemma UpdateWritesOnlyEventId(rows: seq<UserEventRow>, id: int, upd: UserEventUpdate)
    ensures |UpdateRows(rows, id, upd)| == |rows|
    ensures forall i :: 0 <= i < |rows| && rows[i].id != id ==> UpdateRows(rows, id, upd)[i] == rows[i]
    ensures forall i :: 0 <= i < |rows| ==>
              UpdateRows(rows, id, upd)[i] == rows[i].(eventId := UpdateRows(rows, id, upd)[i].eventId)
    ensures UpdateResult(rows, id, upd).Err? ==> UpdateRows(rows, id, upd) == rows
  {
  }

  /** A zero or negative event id in the update changes nothing: the row keeps
      the event id it had, and a pending one fails validation. */
  lemma NonPositiveUpdateChangesNothing(rows: seq<UserEventRow>, id: int, upd: UserEventUpdate)
    requires upd.eventId <= 0
    ensures UpdateRows(rows, id, upd) == rows
    ensures UpdateResult(rows, id, upd).Ok? ==> Some(UpdateResult(rows, id, upd).value.eventId) == rows[IndexOf(rows, UserEventIdOf, id).value].eventId
  {
    match UpdateResult(rows, id, upd)
    case Err(_) =>
    case Ok(u) =>
      var k := IndexOf(rows, UserEventIdOf, id).value;
      assert rows[k].(eventId := Some(u.eventId)) == rows[k];
  }

  /** A pending registration with a user and a creation time is attached to
      a positive event id that its user is not yet registered to. */
  lemma UpdateAttachesPending(rows: seq<UserEventRow>, k: int, eventId: int)
    requires 0 <= k < |rows| && IndexOf(rows, UserEventIdOf, rows[k].id) == Some(k)
    requires rows[k].eventId == Some(0) && rows[k].userId > 0 && rows[k].createdAt != 0
    requires eventId > 0 && !ClashElsewhere(rows, k, rows[k].userId, eventId)
    ensures UpdateResult(rows, rows[k].id, UserEventUpdate(eventId)).Ok?
    ensures UpdateRows(rows, rows[k].id, UserEventUpdate(eventId)) == rows[k := rows[k].(eventId := Some(eventId))]
  {
  }

  /** createUserEvent: stamps the creation time with the transaction's time,
      validates, and inserts under the next id unless the user is already
      registered to that event. */
  method CreateUserEvent(db: DB, userEvent: UserEvent, now: Time) returns (stamped: UserEvent, err: Option<Error>)
    requires db.Valid()
    modifies db
    ensures db.Valid()
    ensures stamped == userEvent.(createdAt := now)
    ensures ValidateUserEvent(stamped).Some? ==> err == ValidateUserEvent(stamped)
    ensures ValidateUserEvent(stamped).None? ==>
              err == (if RegistrationClash(old(db.userEvents), stamped.userId, Some(stamped.eventId))
                      then Some(ConstraintError) else None)
    ensures err.None? ==>
              db.userEvents == old(db.userEvents) +
                [UserEventRow(NextRowId(old(db.userEvents), UserEventIdOf), stamped.userId, Some(stamped.eventId), now, stamped.kind)]
    ensures err.Some? ==> db.userEvents == old(db.userEvents)
    ensures db.events == old(db.events) && db.users == old(db.users)
  {
    stamped := userEvent.(createdAt := now);
    err := ValidateUserEvent(stamped);
    if err.Some? {
      return;
    }
    if RegistrationClash(db.userEvents, stamped.userId, Some(stamped.eventId)) {
      return stamped, Some(ConstraintError);
    }
    InsertRow(db, stamped.userId, Some(stamped.eventId), now, stamped.kind);
  }

  /** INSERT INTO user_events: the row gets the next id. */
  method InsertRow(db: DB, userId: int, eventId: Option<int>, createdAt: Time, kind: string)
    requires db.Valid()
    requires !RegistrationClash(db.userEvents, userId, eventId)
    modifies db
    ensures db.Valid()
    ensures db.userEvents == old(db.userEvents) +
              [UserEventRow(NextRowId(old(db.userEvents), UserEventIdOf), userId, eventId, createdAt, kind)]
    ensures db.events == old(db.events) && db.users == old(db.users)
  {
    var row := UserEventRow(NextRowId(db.userEvents, UserEventIdOf), userId, eventId, createdAt, kind);
    AppendKeepsWellKeyed(db.userEvents, UserEventIdOf, row);
    var s := db.userEvents + [row];
    forall i, j | 0 <= i < j < |s| && s[i].eventId.Some?
      ensures !(s[i].userId == s[j].userId && s[i].eventId == s[j].eventId)
    {
      if j == |s| - 1 {
        assert s[i] == db.userEvents[i];
      } else {
        assert s[i] == db.userEvents[i] && s[j] == db.userEvents[j];
      }
    }
    db.userEvents := s;
  }

  /** The names the join gives for one registration: those of the users with
      its user id, in id order. */
  function NamesOf(users: seq<User>, userId: int): seq<string> {
    if users == [] then []
    else (if users[0].id == userId then [users[0].name] else []) + NamesOf(users[1..], userId)
  }

  /** The join of findUserNamesEventByEventId: one name per registration to
      that event, and no deduplication. The query has no ORDER BY, so SQLite
      may return the names in any order; the model chooses user_events id
      order. */
  function NamesFor(rows: seq<UserEventRow>, users: seq<User>, eventId: int): seq<string> {
    if rows == [] then []
    else (if rows[0].eventId == Some(eventId) then NamesOf(users, rows[0].userId) else []) +
         NamesFor(rows[1..], users, eventId)
  }

  lemma {:induction false} NamesForAppend(rows: seq<UserEventRow>, r: UserEventRow, users: seq<User>, eventId: int)
    ensures NamesFor(rows + [r], users, eventId) ==
            NamesFor(rows, users, eventId) + (if r.eventId == Some(eventId) then NamesOf(users, r.userId) else [])
  {
    if rows != [] {
      assert (rows + [r])[1..] == rows[1..] + [r];
      NamesForAppend(rows[1..], r, users, eventId);
    } else {
      assert [r][1..] == [];
    }
  }

  /** findUserNamesEventByEventId. */
  method FindUserNamesByEventId(db: DB, eventId: int) returns (names: seq<string>)
    ensures names == NamesFor(db.userEvents, db.users, eventId)
  {
    var rows := db.userEvents;
    names := [];
    var i := 0;
    while i < |rows|
      invariant 0 <= i <= |rows|
      invariant names == NamesFor(rows[..i], db.users, eventId)
    {
      assert rows[..i + 1] == rows[..i] + [rows[i]];
      NamesForAppend(rows[..i], rows[i], db.users, eventId);
      if rows[i].eventId == Some(eventId) {
        names := names + NamesOf(db.users, rows[i].userId);
      }
      i := i + 1;
    }
    assert rows[..i] == rows;
  }

  function RegisteredTo(users: seq<User>, eventId: int): UserEventRow -> bool {
    (r: UserEventRow) => r.eventId == Some(eventId) && exists j :: 0 <= j < |users| && users[j].id == r.userId
  }

  /** With unique user ids a user id names at most one user. */
  lemma {:induction false} NamesOfUnique(users: seq<User>, userId: int)
    requires IdsIncreasing(users, UserIdOf)
    ensures (exists j :: 0 <= j < |users| && users[j].id == userId) ==>
              exists j :: 0 <= j < |users| && users[j].id == userId && NamesOf(users, userId) == [users[j].name]
    ensures (forall j :: 0 <= j < |users| ==> users[j].id != userId) ==> NamesOf(users, userId) == []
  {
    if users != [] {
      assert IdsIncreasing(users[1..], UserIdOf) by {
        forall i, j | 0 <= i < j < |users[1..]| ensures users[1..][i].id < users[1..][j].id {
          assert users[i + 1].id < users[j + 1].id;
        }
      }
      NamesOfUnique(users[1..], userId);
      if users[0].id == userId {
        forall j | 0 <= j < |users[1..]| ensures users[1..][j].id != userId {
          assert users[0].id < users[j + 1].id;
        }
      } else if exists j :: 0 <= j < |users| && users[j].id == userId {
        var j :| 0 <= j < |users| && users[j].id == userId;
        assert users[1..][j - 1] == users[j];
      }
    }
  }

  /** One name per registration: with unique user ids, the names are exactly
      as many as the registrations to that event whose user exists. */
  lemma {:induction false} OneNamePerRegistration(rows: seq<UserEventRow>, users: seq<User>, eventId: int)
    requires IdsIncreasing(users, UserIdOf)
    ensures |NamesFor(rows, users, eventId)| == |Filter(rows, RegisteredTo(users, eventId))|
  {
    if rows != [] {
      OneNamePerRegistration(rows[1..], users, eventId);
      NamesOfUnique(users, rows[0].userId);
    }
  }
}
