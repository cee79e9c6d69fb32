/** The event store: what each statement on the `events` table selects or
    changes, and the Go loops that read its rows. */
module EventStore {
  import opened LaundryNotify
  import opened GoStrings
  import opened Relational
  import opened Sqlite

  /** The two orders a caller asks for: the default ORDER BY id, and the
      "started_at DESC" that findMostRecentEvent passes. */
  datatype EventOrder = ById | StartedAtDesc

  /** EventFilter. A zero `startedAt` or `finishedAt` means "not given";
      `orderBy` None stands for a nil OrderBy slice. */
  datatype EventFilter = EventFilter(
    id: Option<int>,
    kind: Option<string>,
    startedAt: Time,
    finishedAt: Time,
    limit: int,
    offset: int,
    orderBy: Option<EventOrder>)

  /** EventUpdate: only the finish time can be changed. */
  datatype EventUpdate = EventUpdate(finishedAt: Option<Time>)

  function NoFilter(): EventFilter {
    EventFilter(None, None, 0, 0, 0, 0, None)
  }

  /** The WHERE clause findEvents builds: one condition at most, the first
      given among the id, the type, the start time and the finish time. */
  predicate Matches(f: EventFilter, e: Event) {
    if f.id.Some? then e.id == f.id.value
    else if f.kind.Some? then e.kind == f.kind.value
    else if f.startedAt != 0 then e.startedAt == f.startedAt
    else if f.finishedAt != 0 then e.finishedAt == Some(f.finishedAt)
    else true
  }

  function Where(f: EventFilter): Event -> bool {
    e => Matches(f, e)
  }

  function StartedKey(e: Event): int { e.startedAt }

  /** ORDER BY: table order is id order, so ById keeps the rows as they are. */
  function Ordered(rows: seq<Event>, order: Option<EventOrder>): seq<Event> {
    if order == Some(StartedAtDesc) then SortDesc(rows, StartedKey) else rows
  }

  /** The rows the statement returns before LIMIT and OFFSET. */
  function Selected(events: seq<Event>, f: EventFilter): seq<Event> {
    Ordered(Filter(events, Where(f)), f.orderBy)
  }

  /** The statement's result: the page of selected rows, or SQLite's refusal. */
  function Query(events: seq<Event>, f: EventFilter): Result<seq<Event>> {
    Page(Selected(events, f), f.limit, f.offset)
  }

  /** findEvents: the page of matching rows and the number of matches. When
      SQLite refuses the clause, no rows and a zero count come back. */
  method FindEvents(db: DB, f: EventFilter) returns (events: seq<Event>, n: int, err: Option<Error>)
    ensures Query(db.events, f).Err? ==> err == Some(Query(db.events, f).error) && events == [] && n == 0
    ensures Query(db.events, f).Ok? ==> err.None? && events == Query(db.events, f).value
    ensures Query(db.events, f).Ok? ==> n == CountRead(|Filter(db.events, Where(f))|, |events|)
  {
    var matches := Filter(db.events, Where(f));
    var query := Query(db.events, f);
    if query.Err? {
      return [], 0, Some(query.error);
    }
    events, n := ReadRows(query.value, |matches|);
    err := None;
  }

  /** Only the first condition given is applied: two filters that agree on it
      select the same rows, whatever the later fields say. */
  lemma FirstFilterWins(events: seq<Event>, f: EventFilter, g: EventFilter)
    requires f.orderBy == g.orderBy
    requires f.id == g.id
    requires f.id.None? ==> f.kind == g.kind
    requires f.id.None? && f.kind.None? ==> f.startedAt == g.startedAt
    requires f.id.None? && f.kind.None? && f.startedAt == 0 ==> f.finishedAt == g.finishedAt
    ensures Selected(events, f) == Selected(events, g)
  {
    FilterSame(events, Where(f), Where(g));
  }

  /** Without an ORDER BY the rows come back in increasing id order. */
  lemma DefaultOrderIsById(db: DB, f: EventFilter)
    requires db.Valid() && f.orderBy.None?
    ensures IdsIncreasing(Selected(db.events, f), EventIdOf)
  {
    FilterKeepsIdsIncreasing(db.events, Where(f), EventIdOf);
  }

  function ByIdFilter(id: int): EventFilter {
    NoFilter().(id := Some(id))
  }

  function NotFound(id: int): Error {
    AppError(ENotFound, "Event not found: " + FormatInt(id))
  }

  /** findEventById: the event with that id, or ENOTFOUND. */
  method FindEventById(db: DB, id: int) returns (r: Result<Event>)
    ensures r.Ok? <==> exists i :: 0 <= i < |db.events| && db.events[i].id == id
    ensures r.Ok? ==> r.value in db.events && r.value.id == id
    ensures r.Err? ==> r.error == NotFound(id)
  {
    // The filter sets neither LIMIT nor OFFSET, so the query cannot be refused.
    var events, _, _ := FindEvents(db, ByIdFilter(id));
    if |events| == 0 {
      forall i | 0 <= i < |db.events| ensures db.events[i].id != id {
        assert !Where(ByIdFilter(id))(db.events[i]);
      }
      return Err(NotFound(id));
    }
    return Ok(events[0]);
  }

  function KindFilter(kind: string): EventFilter {
    NoFilter().(kind := Some(kind), orderBy := Some(StartedAtDesc))
  }

  /** The answer of findMostRecentEvent's statement: the first row of that
      type once sorted by start time, newest first. */
  function MostRecentOf(events: seq<Event>, kind: string): (r: Option<Event>)
    ensures r.None? <==> forall i :: 0 <= i < |events| ==> events[i].kind != kind
    ensures r.Some? ==> r.value in events && r.value.kind == kind
    ensures r.Some? ==> forall i :: 0 <= i < |events| && events[i].kind == kind ==>
                          events[i].startedAt <= r.value.startedAt
  {
    var sorted := Selected(events, KindFilter(kind));
    MostRecentFacts(events, kind);
    if sorted == [] then None else Some(sorted[0])
  }

  /** The first row of the sorted selection has the type and the latest start. */
  lemma MostRecentFacts(events: seq<Event>, kind: string)
    ensures var sorted := Selected(events, KindFilter(kind));
            && (sorted == [] <==> forall i :: 0 <= i < |events| ==> events[i].kind != kind)
            && (sorted != [] ==> sorted[0] in events && sorted[0].kind == kind)
            && (sorted != [] ==> forall i :: 0 <= i < |events| && events[i].kind == kind ==>
                                   events[i].startedAt <= sorted[0].startedAt)
  {
    var f := KindFilter(kind);
    var matches := Filter(events, Where(f));
    var sorted := SortDesc(matches, StartedKey);
    assert Selected(events, f) == sorted;
    if sorted == [] {
      forall i | 0 <= i < |events| ensures events[i].kind != kind {
        assert !Where(f)(events[i]);
      }
    } else {
      assert sorted[0] in multiset(matches);
      forall i | 0 <= i < |events| && events[i].kind == kind
        ensures events[i].startedAt <= sorted[0].startedAt
      {
        assert Where(f)(events[i]);
        assert events[i] in multiset(sorted);
        var j :| 0 <= j < |sorted| && sorted[j] == events[i];
        assert StartedKey(sorted[0]) >= StartedKey(sorted[j]);
      }
    }
  }

  /** findMostRecentEvent: the event of that type that started last, or
      nothing (and no error) when there is none. */
  method FindMostRecentEvent(db: DB, kind: string) returns (r: Option<Event>)
    ensures r == MostRecentOf(db.events, kind)
  {
    var events, _, _ := FindEvents(db, KindFilter(kind));
    if |events| == 0 {
      return None;
    }
    return Some(events[0]);
  }

  /** createEvent: validates, then inserts the row under the next id. The
      caller's event keeps its id, since the inserted id is never read back. */
  method CreateEvent(db: DB, event: Event) returns (err: Option<Error>)
    requires db.Valid()
    modifies db
    ensures db.Valid()
    ensures err == ValidateEvent(event)
    ensures err.None? ==> db.events == old(db.events) + [event.(id := NextRowId(old(db.events), EventIdOf))]
    ensures err.Some? ==> db.events == old(db.events)
    ensures db.userEvents == old(db.userEvents) && db.users == old(db.users)
  {
    err := ValidateEvent(event);
    if err.Some? {
      return;
    }
    Insert(db, event);
  }

  /** The INSERT: the row gets the next id, the other tables do not change. */
  method Insert(db: DB, event: Event)
    requires db.Valid()
    modifies db
    ensures db.Valid()
    ensures db.events == old(db.events) + [event.(id := NextRowId(old(db.events), EventIdOf))]
    ensures db.userEvents == old(db.userEvents) && db.users == old(db.users)
  {
    var row := event.(id := NextRowId(db.events, EventIdOf));
    AppendKeepsWellKeyed(db.events, EventIdOf, row);
    db.events := db.events + [row];
  }

  /** createEvent as a cycle that has just started needs it: only the type and
      the start time are checked, and the id SQLite gave the row is returned,
      as LastInsertId would give it. */
  method CreateEventCorrected(db: DB, event: Event) returns (id: int, err: Option<Error>)
    requires db.Valid()
    modifies db
    ensures db.Valid()
    ensures err == ValidateNewEvent(event)
    ensures err.None? ==> id == NextRowId(old(db.events), EventIdOf) && id >= 1
    ensures err.None? ==> db.events == old(db.events) + [event.(id := id)]
    ensures err.Some? ==> db.events == old(db.events) && id == event.id
    ensures db.userEvents == old(db.userEvents) && db.users == old(db.users)
  {
    err := ValidateNewEvent(event);
    if err.Some? {
      return event.id, err;
    }
    id := NextRowId(db.events, EventIdOf);
    Insert(db, event);
  }

  /** The event after the update is applied: a valid finish time replaces the
      old one, finished or not; an invalid one leaves it as it was. */
  function Updated(e: Event, upd: EventUpdate): (r: Event)
    ensures r.id == e.id && r.kind == e.kind && r.startedAt == e.startedAt
    ensures upd.finishedAt.Some? ==> r.finishedAt == upd.finishedAt
    ensures upd.finishedAt.None? ==> r == e
  {
    if upd.finishedAt.Some? then e.(finishedAt := upd.finishedAt) else e
  }

  /** updateEvent: finds the row, applies the update, validates, and writes
      back the finish time of that one row. The updated event comes back even
      when validation fails, and then nothing is written. */
  method UpdateEvent(db: DB, id: int, upd: EventUpdate) returns (event: Option<Event>, err: Option<Error>)
    requires db.Valid()
    modifies db
    ensures db.Valid()
    ensures db.userEvents == old(db.userEvents) && db.users == old(db.users)
    ensures match IndexOf(old(db.events), EventIdOf, id)
            case None => event.None? && err == Some(NotFound(id)) && db.events == old(db.events)
            case Some(k) =>
              var e := Updated(old(db.events)[k], upd);
              && event == Some(e)
              && err == ValidateEvent(e)
              && (err.None? ==> db.events == old(db.events)[k := e])
              && (err.Some? ==> db.events == old(db.events))
  {
    var found := FindEventById(db, id);
    var index := IndexOf(db.events, EventIdOf, id);
    if found.Err? {
      return None, Some(found.error);
    }
    var k := index.value;
    IdsIncreasingUnique(db.events, EventIdOf, found.value, db.events[k]);
    var e := Updated(found.value, upd);
    err := ValidateEvent(e);
    event := Some(e);
    if err.Some? {
      return;
    }
    ReplaceKeepsWellKeyed(db.events, EventIdOf, k, e);
    db.events := db.events[k := e];
  }
}
