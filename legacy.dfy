/** The first engine, in the root package's main.go: one loop that writes
    the bus messages to the database and posts to ntfy.sh directly, and the
    registration handler of the web page. It keeps the same three tables as
    the subscriber (its user_events has no type column, so its rows carry
    the empty type), and it follows other rules: every start opens an event,
    a finish closes the newest event that is still open, and a refused post
    skips only that user. */
module Legacy {
  import opened LaundryNotify
  import opened GoStrings
  import opened Relational
  import opened Sqlite
  import Mqtt
  import EventStore
  import UserEventStore
  import UserStore

  /** NTFY_URL. */
  const NtfyUrl := "https://ntfy.sh/LaundryTest"

  /** A POST to ntfy.sh: the URL, the Title header and the body. */
  datatype Request = Request(url: string, title: string, body: string)

  /** The library calls of the loop:
      - `stamp`: how the text the loop stores in a datetime column reads back
        as a time (the loop stores the payload's text as it is);
      - `titleCase`: the English title-casing;
      - `parsesUrl`: whether http.NewRequest accepts a URL;
      - `post`: whether ntfy.sh answers a request with 200. */
  datatype LegacyEnv = LegacyEnv(
    stamp: string -> Time,
    titleCase: string -> string,
    parsesUrl: string -> bool,
    post: Request -> bool)

  /** The tables and every request posted so far. */
  datatype LegacyState = LegacyState(tables: Tables, requests: seq<Request>)

  datatype LegacyAfter = LegacyAfter(state: LegacyState, outcome: Mqtt.Outcome)

  // ---------------------------------------------------------------------
  // The message loop
  // ---------------------------------------------------------------------

  predicate IsOpen(e: Event) { e.finishedAt.None? }

  function OpenOf(kind: string): Event -> bool {
    (e: Event) => e.kind == kind && IsOpen(e)
  }

  /** `select id from events where type = ? and finished_at is null order by
      started_at desc limit 1`. */
  function NewestOpen(events: seq<Event>, kind: string): (r: Option<Event>)
    ensures r.None? <==> forall i :: 0 <= i < |events| ==> !(events[i].kind == kind && IsOpen(events[i]))
    ensures r.Some? ==> r.value in events && r.value.kind == kind && IsOpen(r.value)
    ensures r.Some? ==> forall i :: 0 <= i < |events| && events[i].kind == kind && IsOpen(events[i]) ==>
                          events[i].startedAt <= r.value.startedAt
  {
    var open := Filter(events, OpenOf(kind));
    NewestOpenFacts(events, kind);
    if open == [] then None else Some(SortDesc(open, EventStore.StartedKey)[0])
  }

  /** The first row of the sorted open events of that type is one of them,
      with the latest start. */
  lemma NewestOpenFacts(events: seq<Event>, kind: string)
    ensures var open := Filter(events, OpenOf(kind));
            && (open == [] <==> forall i :: 0 <= i < |events| ==> !(events[i].kind == kind && IsOpen(events[i])))
            && (open != [] ==> var first := SortDesc(open, EventStore.StartedKey)[0];
                  && first in events && first.kind == kind && IsOpen(first)
                  && forall i :: 0 <= i < |events| && events[i].kind == kind && IsOpen(events[i]) ==>
                       events[i].startedAt <= first.startedAt)
  {
    var open := Filter(events, OpenOf(kind));
    if open == [] {
      forall i | 0 <= i < |events| ensures !(events[i].kind == kind && IsOpen(events[i])) {
        assert !OpenOf(kind)(events[i]);
      }
    } else {
      SortDescFirst(open, EventStore.StartedKey);
      var first := SortDesc(open, EventStore.StartedKey)[0];
      assert OpenOf(kind)(first);
      forall i | 0 <= i < |events| && events[i].kind == kind && IsOpen(events[i])
        ensures events[i].startedAt <= first.startedAt
      {
        assert OpenOf(kind)(events[i]);
        var j :| 0 <= j < |open| && open[j] == events[i];
        assert EventStore.StartedKey(open[j]) <= EventStore.StartedKey(first);
      }
    }
  }

  /** The request for one registered user: spaces in the name become '-'. */
  function Notice(env: LegacyEnv, kind: string, name: string): (r: Request)
    ensures |r.url| == |NtfyUrl| + 1 + |name| && r.url[..|NtfyUrl| + 1] == NtfyUrl + "-"
    ensures forall i :: 0 <= i < |name| ==> r.url[|NtfyUrl| + 1 + i] == (if name[i] == ' ' then '-' else name[i])
    ensures r.title == env.titleCase(kind) && r.body == env.titleCase(kind) + " has finished"
  {
    var url := NtfyUrl + "-" + ReplaceAll(name, ' ', '-');
    assert url[..|NtfyUrl| + 1] == NtfyUrl + "-";
    Request(url, env.titleCase(kind), env.titleCase(kind) + " has finished")
  }

  function Notices(env: LegacyEnv, kind: string, names: seq<string>): (r: seq<Request>)
    ensures |r| == |names|
    ensures forall i :: 0 <= i < |names| ==> r[i] == Notice(env, kind, names[i])
  {
    seq(|names|, i requires 0 <= i < |names| => Notice(env, kind, names[i]))
  }

  /** The first request whose URL http.NewRequest refuses: its nil request
      is dereferenced at `req.Header.Set`. */
  function FirstBadUrl(reqs: seq<Request>, parsesUrl: string -> bool): (r: Option<nat>)
    ensures r.None? <==> forall i :: 0 <= i < |reqs| ==> parsesUrl(reqs[i].url)
    ensures r.Some? ==> r.value < |reqs| && !parsesUrl(reqs[r.value].url) &&
                        forall i :: 0 <= i < r.value ==> parsesUrl(reqs[i].url)
  {
    if reqs == [] then None
    else if !parsesUrl(reqs[0].url) then Some(0)
    else match FirstBadUrl(reqs[1..], parsesUrl)
      case None => None
      case Some(j) => Some(j + 1)
  }

  /** The finish branch (lines 153-215). The writes happen in the message's
      transaction, so a panic in the send loop leaves the tables as they
      were, while the requests posted before it stay posted. */
  function LegacyFinish(env: LegacyEnv, s: LegacyState, kind: string, t: Time): LegacyAfter {
    var events := s.tables.events;
    match NewestOpen(events, kind)
    case None => LegacyAfter(s, Mqtt.Done(None))
    case Some(e) =>
      var notices := Notices(env, kind, UserEventStore.NamesFor(s.tables.userEvents, s.tables.users, e.id));
      match FirstBadUrl(notices, env.parsesUrl)
      case Some(j) => LegacyAfter(s.(requests := s.requests + notices[..j]), Mqtt.Panic(Mqtt.NilDereference))
      case None =>
        match IndexOf(events, EventIdOf, e.id)
        case None => LegacyAfter(s.(requests := s.requests + notices), Mqtt.Done(None))
        case Some(k) =>
          var closed := events[k := events[k].(finishedAt := Some(t))];
          LegacyAfter(LegacyState(s.tables.(events := closed), s.requests + notices), Mqtt.Done(None))
  }

  /** One message of the loop (lines 122-224). */
  function LegacyStep(env: LegacyEnv, s: LegacyState, topic: string, payload: string): (a: LegacyAfter)
    requires ValidTables(s.tables)
    ensures ValidTables(a.state.tables)
  {
    match Mqtt.SplitMessage(topic, payload)
    case None => LegacyAfter(s, Mqtt.Panic(Mqtt.IndexOutOfRange))
    case Some(p) =>
      if p.key == Mqtt.StartedAtKey then
        var events := s.tables.events;
        var e := Event(NextRowId(events, EventIdOf), p.machine, env.stamp(p.value), None);
        AppendKeepsWellKeyed(events, EventIdOf, e);
        LegacyAfter(s.(tables := s.tables.(events := events + [e])), Mqtt.Done(None))
      else if p.key == Mqtt.FinishedAtKey then
        FinishKeepsValid(env, s, p.machine, env.stamp(p.value));
        LegacyFinish(env, s, p.machine, env.stamp(p.value))
      else LegacyAfter(s, Mqtt.Done(None))
  }

  lemma FinishKeepsValid(env: LegacyEnv, s: LegacyState, kind: string, t: Time)
    requires ValidTables(s.tables)
    ensures ValidTables(LegacyFinish(env, s, kind, t).state.tables)
  {
    var events := s.tables.events;
    match NewestOpen(events, kind)
    case None =>
    case Some(e) =>
      match IndexOf(events, EventIdOf, e.id)
      case None =>
      case Some(k) =>
        ReplaceKeepsWellKeyed(events, EventIdOf, k, events[k].(finishedAt := Some(t)));
  }

  /** The loop over a sequence of messages, until one panics. */
  function LegacyRunFrom(env: LegacyEnv, s: LegacyState, msgs: seq<(string, string)>): LegacyAfter
    requires ValidTables(s.tables)
    decreases |msgs|
  {
    if msgs == [] then LegacyAfter(s, Mqtt.Done(None))
    else
      var a := LegacyStep(env, s, msgs[0].0, msgs[0].1);
      if a.outcome.Panic? then a else LegacyRunFrom(env, a.state, msgs[1..])
  }

  // ---------------------------------------------------------------------
  // The registration handler
  // ---------------------------------------------------------------------

  /** What handleRegister renders: the "register" page with an error, the
      "registered" page with an error, or the "registered" page with the
      name and the event. */
  datatype Render = RegisterError(err: Error) | RegisteredError(err: Error) | Registered(name: string, event: Event)

  /** The tables after a request and the pages rendered, in order. */
  datatype Registration = Registration(tables: Tables, renders: seq<Render>)

  /** The zero Event a failed scan leaves behind. */
  const ZeroEvent := Event(0, "", 0, None)

  function LastActivity(e: Event): int {
    var finished := e.finishedAt.GetOr(e.startedAt);
    if e.startedAt >= finished then e.startedAt else finished
  }

  /** getMostRecentEvent: the first row of ORDER BY
      MAX(started_at, IFNULL(finished_at, started_at)) DESC, across every
      type, or None (sql.ErrNoRows) in an empty table. */
  function MostRecentEvent(events: seq<Event>): (r: Option<Event>)
    ensures r.None? <==> events == []
    ensures r.Some? ==> r.value in events
    ensures r.Some? ==> forall i :: 0 <= i < |events| ==> LastActivity(events[i]) <= LastActivity(r.value)
  {
    if events == [] then None
    else
      SortDescFirst(events, LastActivity);
      Some(SortDesc(events, LastActivity)[0])
  }

  /** `(select id from users where name = ?)`: NULL when no user has it. */
  function IdOfName(users: seq<User>, name: string): (r: Option<int>)
    ensures r.None? <==> forall i :: 0 <= i < |users| ==> users[i].name != name
    ensures r.Some? ==> exists i :: 0 <= i < |users| && users[i].name == name && users[i].id == r.value
  {
    if users == [] then None
    else if users[0].name == name then Some(users[0].id)
    else
      var r := IdOfName(users[1..], name);
      assert r.Some? ==> exists i :: 1 <= i < |users| && users[i].name == name && users[i].id == r.value by {
        if r.Some? {
          var i :| 0 <= i < |users[1..]| && users[1..][i].name == name && users[1..][i].id == r.value;
          assert users[i + 1] == users[1..][i];
        }
      }
      r
  }

  predicate HasUser(users: seq<User>, name: string) {
    exists i :: 0 <= i < |users| && users[i].name == name
  }

  /** A registration of that user still waiting for an event (NULL). */
  predicate HasWaiting(rows: seq<UserEventRow>, userId: int) {
    exists k :: 0 <= k < |rows| && rows[k].userId == userId && rows[k].eventId.None?
  }

  /** Lines 367-380: insert the user unless the first lookup found it. A
      UNIQUE failure renders the error page, and the handler goes on. */
  function AddUser(t: Tables, name: string, now: Time): (r: Registration)
    requires ValidTables(t)
    ensures ValidTables(r.tables)
  {
    if HasUser(t.users, name) then Registration(t, [RegisterError(ConstraintError)])
    else
      var u := User(NextRowId(t.users, UserIdOf), name, now);
      AppendKeepsWellKeyed(t.users, UserIdOf, u);
      Registration(t.(users := t.users + [u]), [])
  }

  /** Lines 394-446: register the user called `name` for the event, or for
      the next one when the event is finished. A NULL user id breaks the
      NOT NULL constraint on user_events.user_id. */
  function Enrol(t: Tables, name: string, event: Event, now: Time): (r: Registration)
    requires ValidTables(t)
    ensures ValidTables(r.tables)
  {
    var rows := t.userEvents;
    var uid := IdOfName(t.users, name);
    if uid.None? then Registration(t, [RegisteredError(ConstraintError)])
    else if !IsZeroTime(event.finishedAt) then
      if HasWaiting(rows, uid.value) then Registration(t, [Registered(name, event)])
      else
        var row := UserEventRow(NextRowId(rows, UserEventIdOf), uid.value, None, now, "");
        AppendKeepsWellKeyed(rows, UserEventIdOf, row);
        Registration(t.(userEvents := rows + [row]), [Registered(name, event)])
    else if RegistrationClash(rows, uid.value, Some(event.id)) then Registration(t, [RegisteredError(ConstraintError)])
    else
      var row := UserEventRow(NextRowId(rows, UserEventIdOf), uid.value, Some(event.id), now, "");
      AppendKeepsWellKeyed(rows, UserEventIdOf, row);
      Registration(t.(userEvents := rows + [row]), [Registered(name, event)])
  }

  /** handleRegister as written: `name` is only set by the first lookup, so
      for a new user the later steps look up the empty name. */
  function Register(t: Tables, reqName: string, now: Time): (r: Registration)
    requires ValidTables(t)
    ensures ValidTables(r.tables)
  {
    var name := if HasUser(t.users, reqName) then reqName else "";
    var added := if name != "" then Registration(t, []) else AddUser(t, reqName, now);
    var event := MostRecentEvent(added.tables.events).GetOr(ZeroEvent);
    var enrolled := Enrol(added.tables, name, event, now);
    Registration(enrolled.tables, added.renders + enrolled.renders)
  }

  /** handleRegister as evidently intended: the requested name is used
      throughout. */
  function RegisterCorrected(t: Tables, reqName: string, now: Time): (r: Registration)
    requires ValidTables(t)
    ensures ValidTables(r.tables)
  {
    var added := if HasUser(t.users, reqName) then Registration(t, []) else AddUser(t, reqName, now);
    var event := MostRecentEvent(added.tables.events).GetOr(ZeroEvent);
    var enrolled := Enrol(added.tables, reqName, event, now);
    Registration(enrolled.tables, added.renders + enrolled.renders)
  }

  // ---------------------------------------------------------------------
  // The engine
  // ---------------------------------------------------------------------

  /** main's loop and handleRegister over the shared database. */
  class LegacyEngine {
    const db: DB
    const env: LegacyEnv
    var requests: seq<Request>

    constructor (db: DB, env: LegacyEnv)
      ensures this.db == db && this.env == env && requests == []
    {
      this.db := db;
      this.env := env;
      requests := [];
    }

    function Snapshot(): LegacyState
      reads this, db
    {
      LegacyState(db.Contents(), requests)
    }

    /** One message of the loop. */
    method HandleMessage(topic: string, payload: string) returns (o: Mqtt.Outcome)
      requires db.Valid()
      modifies db, this
      ensures db.Valid()
      ensures LegacyAfter(Snapshot(), o) == LegacyStep(env, old(Snapshot()), topic, payload)
    {
      var parsed := Mqtt.SplitMessage(topic, payload);
      if parsed.None? {
        return Mqtt.Panic(Mqtt.IndexOutOfRange);
      }
      var p := parsed.value;
      if p.key == Mqtt.StartedAtKey {
        var e := Event(NextRowId(db.events, EventIdOf), p.machine, env.stamp(p.value), None);
        AppendKeepsWellKeyed(db.events, EventIdOf, e);
        db.events := db.events + [e];
        return Mqtt.Done(None);
      }
      if p.key == Mqtt.FinishedAtKey {
        o := Close(p.machine, env.stamp(p.value));
        return;
      }
      o := Mqtt.Done(None);
    }

    /** The finish branch: find the newest open event, post to every user
        registered to it, and commit its finish time. */
    method Close(kind: string, t: Time) returns (o: Mqtt.Outcome)
      requires db.Valid()
      modifies db, this
      ensures db.Valid()
      ensures LegacyAfter(Snapshot(), o) == LegacyFinish(env, old(Snapshot()), kind, t)
    {
      var newest := NewestOpen(db.events, kind);
      if newest.None? {
        return Mqtt.Done(None);
      }
      var e := newest.value;
      var names := UserEventStore.FindUserNamesByEventId(db, e.id);
      o := PostAll(kind, names);
      if o.Panic? {
        return;
      }
      var index := IndexOf(db.events, EventIdOf, e.id);
      if index.Some? {
        var k := index.value;
        ReplaceKeepsWellKeyed(db.events, EventIdOf, k, db.events[k].(finishedAt := Some(t)));
        db.events := db.events[k := db.events[k].(finishedAt := Some(t))];
      }
    }

    /** The `rows.Next()` loop: a request per user, whatever ntfy.sh
        answered to the previous one; a URL that does not parse panics. */
    method PostAll(kind: string, names: seq<string>) returns (o: Mqtt.Outcome)
      modifies this
      ensures var notices := Notices(env, kind, names);
              match FirstBadUrl(notices, env.parsesUrl)
              case None => requests == old(requests) + notices && o == Mqtt.Done(None)
              case Some(j) => requests == old(requests) + notices[..j] && o == Mqtt.Panic(Mqtt.NilDereference)
    {
      ghost var notices := Notices(env, kind, names);
      var i := 0;
      while i < |names|
        invariant 0 <= i <= |names|
        invariant requests == old(requests) + notices[..i]
        invariant forall j :: 0 <= j < i ==> env.parsesUrl(notices[j].url)
      {
        var req := Notice(env, kind, names[i]);
        if !env.parsesUrl(req.url) {
          return Mqtt.Panic(Mqtt.NilDereference);
        }
        requests := requests + [req];
        // A refused request is only logged.
        var _ := env.post(req);
        assert notices[..i + 1] == notices[..i] + [notices[i]];
        i := i + 1;
      }
      assert notices[..i] == notices;
      o := Mqtt.Done(None);
    }

    /** The `for incomingEvent := range events` loop. */
    method Run(msgs: seq<(string, string)>) returns (o: Mqtt.Outcome)
      requires db.Valid()
      modifies db, this
      ensures db.Valid()
      ensures LegacyAfter(Snapshot(), o) == LegacyRunFrom(env, old(Snapshot()), msgs)
    {
      var i := 0;
      while i < |msgs|
        invariant 0 <= i <= |msgs|
        invariant db.Valid()
        invariant LegacyRunFrom(env, old(Snapshot()), msgs) == LegacyRunFrom(env, Snapshot(), msgs[i..])
      {
        assert msgs[i..][1..] == msgs[i + 1..];
        o := HandleMessage(msgs[i].0, msgs[i].1);
        if o.Panic? {
          return;
        }
        i := i + 1;
      }
      o := Mqtt.Done(None);
    }

    /** handleRegister, with `now` the time of SQLite's datetime(). */
    method HandleRegister(reqName: string, now: Time) returns (renders: seq<Render>)
      requires db.Valid()
      modifies db
      ensures db.Valid()
      ensures Registration(db.Contents(), renders) == Register(old(db.Contents()), reqName, now)
    {
      var found := UserStore.FindUserByName(db, reqName);
      var name := if found.Some? then reqName else "";
      renders := [];
      if name == "" {
        renders := AddUserTo(reqName, now);
      }
      var event := MostRecentEvent(db.events).GetOr(ZeroEvent);
      var more := EnrolIn(name, event, now);
      renders := renders + more;
    }

    /** handleRegister, with the requested name used throughout. */
    method HandleRegisterCorrected(reqName: string, now: Time) returns (renders: seq<Render>)
      requires db.Valid()
      modifies db
      ensures db.Valid()
      ensures Registration(db.Contents(), renders) == RegisterCorrected(old(db.Contents()), reqName, now)
    {
      var found := UserStore.FindUserByName(db, reqName);
      renders := [];
      if found.None? {
        renders := AddUserTo(reqName, now);
      }
      var event := MostRecentEvent(db.events).GetOr(ZeroEvent);
      var more := EnrolIn(reqName, event, now);
      renders := renders + more;
    }

    /** `insert into users (name, created_at) values (?, datetime())`. */
    method AddUserTo(name: string, now: Time) returns (renders: seq<Render>)
      requires db.Valid()
      modifies db
      ensures db.Valid()
      ensures Registration(db.Contents(), renders) == AddUser(old(db.Contents()), name, now)
    {
      if HasUser(db.users, name) {
        return [RegisterError(ConstraintError)];
      }
      var u := User(NextRowId(db.users, UserIdOf), name, now);
      AppendKeepsWellKeyed(db.users, UserIdOf, u);
      db.users := db.users + [u];
      renders := [];
    }

    /** Lines 394-446. */
    method EnrolIn(name: string, event: Event, now: Time) returns (renders: seq<Render>)
      requires db.Valid()
      modifies db
      ensures db.Valid()
      ensures Registration(db.Contents(), renders) == Enrol(old(db.Contents()), name, event, now)
    {
      var uid := IdOfName(db.users, name);
      if uid.None? {
        return [RegisteredError(ConstraintError)];
      }
      var eventId: Option<int> := None;
      if !IsZeroTime(event.finishedAt) {
        if HasWaiting(db.userEvents, uid.value) {
          return [Registered(name, event)];
        }
      } else {
        if RegistrationClash(db.userEvents, uid.value, Some(event.id)) {
          return [RegisteredError(ConstraintError)];
        }
        eventId := Some(event.id);
      }
      var row := UserEventRow(NextRowId(db.userEvents, UserEventIdOf), uid.value, eventId, now, "");
      AppendKeepsWellKeyed(db.userEvents, UserEventIdOf, row);
      db.userEvents := db.userEvents + [row];
      renders := [Registered(name, event)];
    }
  }
}

/** What the first engine does, and where it parts from the subscriber. */
module LegacyProperties {
  import opened LaundryNotify
  import opened Relational
  import opened Sqlite
  import opened Legacy
  import Mqtt
  import EventStore
  import UserEventStore
  import GoStrings

  /** Every start opens a new event, even while the machine runs. */
  lemma StartAlwaysOpens(env: LegacyEnv, s: LegacyState, topic: string, payload: string)
    requires ValidTables(s.tables)
    requires Mqtt.SplitMessage(topic, payload).Some? && Mqtt.SplitMessage(topic, payload).value.key == Mqtt.StartedAtKey
    ensures var p := Mqtt.SplitMessage(topic, payload).value;
            var a := LegacyStep(env, s, topic, payload);
            && a.outcome == Mqtt.Done(None) && a.state.requests == s.requests
            && a.state.tables == s.tables.(events := s.tables.events +
                 [Event(NextRowId(s.tables.events, EventIdOf), p.machine, env.stamp(p.value), None)])
  {
  }

  /** So two starts of one machine with no finish between them leave two
      open events of that type, where the subscriber keeps one. */
  lemma DoubleStartOpensTwo(env: LegacyEnv, s: LegacyState, topic: string, first: string, second: string)
    requires ValidTables(s.tables)
    requires Mqtt.SplitMessage(topic, first).Some? && Mqtt.SplitMessage(topic, first).value.key == Mqtt.StartedAtKey
    requires Mqtt.SplitMessage(topic, second).Some? && Mqtt.SplitMessage(topic, second).value.key == Mqtt.StartedAtKey
    ensures var a1 := LegacyStep(env, s, topic, first);
            var a2 := LegacyStep(env, a1.state, topic, second);
            var m := Mqtt.SplitMessage(topic, first).value.machine;
            var events := a2.state.tables.events;
            && |events| == |s.tables.events| + 2 && events[..|s.tables.events|] == s.tables.events
            && events[|events| - 2].kind == m && events[|events| - 1].kind == m
            && IsOpen(events[|events| - 2]) && IsOpen(events[|events| - 1])
            && events[|events| - 2].id < events[|events| - 1].id
  {
    var a1 := LegacyStep(env, s, topic, first);
    StartAlwaysOpens(env, s, topic, first);
    StartAlwaysOpens(env, a1.state, topic, second);
    var events := LegacyStep(env, a1.state, topic, second).state.tables.events;
    assert events[..|s.tables.events|] == s.tables.events;
  }

  /** With no open event of that type, a finish changes nothing and posts
      nothing. */
  lemma FinishWithoutOpenChangesNothing(env: LegacyEnv, s: LegacyState, kind: string, t: Time)
    requires NewestOpen(s.tables.events, kind).None?
    ensures LegacyFinish(env, s, kind, t) == LegacyAfter(s, Mqtt.Done(None))
  {
  }

  /** A finish closes the newest open event of that type and no other row,
      and posts to every user registered to it, in order. */
  lemma FinishClosesNewestOpen(env: LegacyEnv, s: LegacyState, kind: string, t: Time)
    requires ValidTables(s.tables)
    requires NewestOpen(s.tables.events, kind).Some?
    requires var e := NewestOpen(s.tables.events, kind).value;
             FirstBadUrl(Notices(env, kind, UserEventStore.NamesFor(s.tables.userEvents, s.tables.users, e.id)), env.parsesUrl).None?
    ensures var e := NewestOpen(s.tables.events, kind).value;
            var a := LegacyFinish(env, s, kind, t);
            && a.outcome == Mqtt.Done(None)
            && (exists k :: 0 <= k < |s.tables.events| && s.tables.events[k] == e &&
                  a.state.tables.events == s.tables.events[k := e.(finishedAt := Some(t))])
            && a.state.tables.userEvents == s.tables.userEvents && a.state.tables.users == s.tables.users
            && a.state.requests == s.requests + Notices(env, kind, UserEventStore.NamesFor(s.tables.userEvents, s.tables.users, e.id))
  {
    var events := s.tables.events;
    var e := NewestOpen(events, kind).value;
    var i :| 0 <= i < |events| && events[i] == e;
    IndexOfIncreasing(events, EventIdOf, i);
  }

  /** A URL that http.NewRequest refuses panics: the requests before it are
      posted, and the finish time is never committed. */
  lemma BadUrlRollsBack(env: LegacyEnv, s: LegacyState, kind: string, t: Time)
    requires NewestOpen(s.tables.events, kind).Some?
    requires var e := NewestOpen(s.tables.events, kind).value;
             FirstBadUrl(Notices(env, kind, UserEventStore.NamesFor(s.tables.userEvents, s.tables.users, e.id)), env.parsesUrl).Some?
    ensures var e := NewestOpen(s.tables.events, kind).value;
            var notices := Notices(env, kind, UserEventStore.NamesFor(s.tables.userEvents, s.tables.users, e.id));
            var j := FirstBadUrl(notices, env.parsesUrl).value;
            LegacyFinish(env, s, kind, t) ==
              LegacyAfter(LegacyState(s.tables, s.requests + notices[..j]), Mqtt.Panic(Mqtt.NilDereference))
  {
  }

  /** When the newest event of a type is finished but an older one is still
      open, the subscriber ignores a finish while the first engine closes the
      older event. */
  lemma EnginesDisagreeOnStaleOpen(menv: Mqtt.Env, lenv: LegacyEnv, s: Mqtt.State, kind: string, ts: string, missing: Mqtt.Outcome)
    requires ValidTables(s.tables)
    requires menv.parse(ts).Some?
    requires EventStore.MostRecentOf(s.tables.events, kind).Some?
    requires EventStore.MostRecentOf(s.tables.events, kind).value.finishedAt.Some?
    requires NewestOpen(s.tables.events, kind).Some?
    requires var e := NewestOpen(s.tables.events, kind).value;
             FirstBadUrl(Notices(lenv, kind, UserEventStore.NamesFor(s.tables.userEvents, s.tables.users, e.id)), lenv.parsesUrl).None?
    ensures Mqtt.Finish(menv, s, kind, ts, missing) == Mqtt.After(s, Mqtt.Done(None))
    ensures LegacyFinish(lenv, LegacyState(s.tables, []), kind, menv.parse(ts).value).state.tables.events != s.tables.events
  {
    var t := menv.parse(ts).value;
    var ls := LegacyState(s.tables, []);
    FinishClosesNewestOpen(lenv, ls, kind, t);
    var e := NewestOpen(s.tables.events, kind).value;
    var k :| 0 <= k < |s.tables.events| && s.tables.events[k] == e &&
             LegacyFinish(lenv, ls, kind, t).state.tables.events == s.tables.events[k := e.(finishedAt := Some(t))];
    assert LegacyFinish(lenv, ls, kind, t).state.tables.events[k] != s.tables.events[k];
  }

  /** As written, a new user is inserted but not registered: the later
      lookups use the empty name, which no user has, and the NULL user id
      is refused. */
  lemma NewUserNotEnrolled(t: Tables, reqName: string, now: Time)
    requires ValidTables(t)
    requires reqName != "" && !HasUser(t.users, reqName) && !HasUser(t.users, "")
    ensures var r := Register(t, reqName, now);
            && r.tables.users == t.users + [User(NextRowId(t.users, UserIdOf), reqName, now)]
            && r.tables.events == t.events && r.tables.userEvents == t.userEvents
            && r.renders == [RegisteredError(ConstraintError)]
  {
    var u := User(NextRowId(t.users, UserIdOf), reqName, now);
    assert !HasUser(t.users + [u], "") by {
      forall i | 0 <= i < |t.users + [u]| ensures (t.users + [u])[i].name != "" {
        if i < |t.users| {
          assert (t.users + [u])[i] == t.users[i];
        }
      }
    }
  }

  /** A name only the last user has gives that user's id. */
  lemma IdOfNewName(users: seq<User>, u: User)
    requires !HasUser(users, u.name)
    ensures IdOfName(users + [u], u.name) == Some(u.id)
  {
    var all := users + [u];
    var i :| 0 <= i < |all| && all[i].name == u.name && all[i].id == IdOfName(all, u.name).value;
  }

  /** Appending a user leaves the id of a name already taken alone: the
      subquery finds the first user with it. */
  lemma {:induction false} IdOfNameKept(users: seq<User>, u: User, name: string)
    requires HasUser(users, name)
    ensures IdOfName(users + [u], name) == IdOfName(users, name)
  {
    assert (users + [u])[0] == users[0];
    if users[0].name != name {
      var i :| 0 <= i < |users| && users[i].name == name;
      assert users[1..][i - 1] == users[i];
      IdOfNameKept(users[1..], u, name);
      assert (users + [u])[1..] == users[1..] + [u];
    }
  }

  /** As written, a new name while a user called "" exists: the new user is
      inserted, and the later lookups, using "", register that stored user
      in its place, with no NOT NULL error. */
  lemma NewNameEnrolsEmptyUser(t: Tables, reqName: string, now: Time)
    requires ValidTables(t)
    requires reqName != "" && !HasUser(t.users, reqName) && HasUser(t.users, "")
    ensures var r := Register(t, reqName, now);
            var u := User(NextRowId(t.users, UserIdOf), reqName, now);
            var t1 := t.(users := t.users + [u]);
            var event := MostRecentEvent(t.events).GetOr(ZeroEvent);
            && r.tables.users == t.users + [u]
            && r.tables.events == t.events
            && r.tables.userEvents == Enrol(t1, "", event, now).tables.userEvents
            && r.renders == Enrol(t1, "", event, now).renders
            && IdOfName(t1.users, "") == IdOfName(t.users, "")
            && IdOfName(t1.users, "").value != u.id
  {
    var u := User(NextRowId(t.users, UserIdOf), reqName, now);
    IdOfNameKept(t.users, u, "");
    var id := IdOfName(t.users, "").value;
    var i :| 0 <= i < |t.users| && t.users[i].name == "" && t.users[i].id == id;
    assert UserIdOf(t.users[i]) < NextRowId(t.users, UserIdOf);
  }

  /** As written, a new empty name: the user "" is inserted, and the later
      lookups, using "", find it, so it is registered like a known user. */
  lemma NewEmptyNameEnrolled(t: Tables, now: Time)
    requires ValidTables(t) && !HasUser(t.users, "")
    ensures var r := Register(t, "", now);
            var u := User(NextRowId(t.users, UserIdOf), "", now);
            var t1 := t.(users := t.users + [u]);
            var event := MostRecentEvent(t.events).GetOr(ZeroEvent);
            && r.tables.users == t.users + [u]
            && r.tables.events == t.events
            && r.tables.userEvents == Enrol(t1, "", event, now).tables.userEvents
            && r.renders == Enrol(t1, "", event, now).renders
            && IdOfName(t1.users, "") == Some(u.id)
  {
    var u := User(NextRowId(t.users, UserIdOf), "", now);
    IdOfNewName(t.users, u);
  }

  /** As intended, a new user is inserted and registered: for the next
      event when the most recent one is finished, otherwise for it. */
  lemma NewUserEnrolled(t: Tables, reqName: string, now: Time)
    requires ValidTables(t)
    requires !HasUser(t.users, reqName)
    requires forall k :: 0 <= k < |t.userEvents| ==> t.userEvents[k].userId < NextRowId(t.users, UserIdOf)
    ensures var r := RegisterCorrected(t, reqName, now);
            var u := User(NextRowId(t.users, UserIdOf), reqName, now);
            var event := MostRecentEvent(t.events).GetOr(ZeroEvent);
            && r.tables.users == t.users + [u]
            && r.tables.events == t.events
            && r.tables.userEvents == t.userEvents +
                 [UserEventRow(NextRowId(t.userEvents, UserEventIdOf), u.id,
                               if IsZeroTime(event.finishedAt) then Some(event.id) else None, now, "")]
            && r.renders == [Registered(reqName, event)]
  {
    var u := User(NextRowId(t.users, UserIdOf), reqName, now);
    IdOfNewName(t.users, u);
  }

  /** For a user who already exists both versions agree. */
  lemma CorrectedAgreesOnKnownUsers(t: Tables, reqName: string, now: Time)
    requires ValidTables(t) && HasUser(t.users, reqName) && reqName != ""
    ensures RegisterCorrected(t, reqName, now) == Register(t, reqName, now)
  {
  }

  /** A user who registers again changes nothing: the waiting registration
      or the one for the running event is already there. */
  lemma RegisterAgainChangesNothing(t: Tables, reqName: string, now: Time, later: Time)
    requires ValidTables(t) && HasUser(t.users, reqName)
    ensures var r := Register(t, reqName, now);
            Register(r.tables, reqName, later).tables == r.tables
  {
    var event := MostRecentEvent(t.events).GetOr(ZeroEvent);
    var r := Register(t, reqName, now);
    KnownUserEnrols(t, reqName, now);
    KnownUserEnrols(r.tables, reqName, later);
    EnrolAgain(t, reqName, event, now, later);
  }

  /** For a known user the tables change only by the enrolment. */
  lemma KnownUserEnrols(t: Tables, reqName: string, now: Time)
    requires ValidTables(t) && HasUser(t.users, reqName)
    ensures var r := Register(t, reqName, now);
            && r.tables == Enrol(t, reqName, MostRecentEvent(t.events).GetOr(ZeroEvent), now).tables
            && r.tables.users == t.users && r.tables.events == t.events
  {
    var added := if reqName != "" then Registration(t, []) else AddUser(t, reqName, now);
    assert added.tables == t;
    var event := MostRecentEvent(t.events).GetOr(ZeroEvent);
    assert Register(t, reqName, now).tables == Enrol(t, reqName, event, now).tables;
    EnrolWritesOnlyRegistrations(t, reqName, event, now);
  }

  /** What a request of a known user writes and renders. When the most
      recent event is finished, a waiting registration answers at once and
      otherwise one with a NULL event is inserted; when it is unfinished, a
      registration for its id is inserted unless UNIQUE(user_id, event_id)
      refuses it. Only the empty name, which the first lookup cannot tell
      from "not found", first renders the refused insertion of the user. */
  lemma KnownUserDecision(t: Tables, reqName: string, now: Time)
    requires ValidTables(t) && HasUser(t.users, reqName)
    ensures var r := Register(t, reqName, now);
            var event := MostRecentEvent(t.events).GetOr(ZeroEvent);
            var uid := IdOfName(t.users, reqName).value;
            var pre := if reqName == "" then [RegisterError(ConstraintError)] else [];
            var row := UserEventRow(NextRowId(t.userEvents, UserEventIdOf), uid,
                                    if IsZeroTime(event.finishedAt) then Some(event.id) else None, now, "");
            && (!IsZeroTime(event.finishedAt) && HasWaiting(t.userEvents, uid) ==>
                  r.tables == t && r.renders == pre + [Registered(reqName, event)])
            && (!IsZeroTime(event.finishedAt) && !HasWaiting(t.userEvents, uid) ==>
                  r.tables == t.(userEvents := t.userEvents + [row]) && r.renders == pre + [Registered(reqName, event)])
            && (IsZeroTime(event.finishedAt) && RegistrationClash(t.userEvents, uid, Some(event.id)) ==>
                  r.tables == t && r.renders == pre + [RegisteredError(ConstraintError)])
            && (IsZeroTime(event.finishedAt) && !RegistrationClash(t.userEvents, uid, Some(event.id)) ==>
                  r.tables == t.(userEvents := t.userEvents + [row]) && r.renders == pre + [Registered(reqName, event)])
  {
  }

  /** Enrolling writes only user_events. */
  lemma EnrolWritesOnlyRegistrations(t: Tables, name: string, event: Event, now: Time)
    requires ValidTables(t)
    ensures Enrol(t, name, event, now).tables.users == t.users
    ensures Enrol(t, name, event, now).tables.events == t.events
  {
  }

  /** Enrolling a known user twice for the same event leaves the tables of
      the first time. */
  lemma EnrolAgain(t: Tables, name: string, event: Event, now: Time, later: Time)
    requires ValidTables(t) && HasUser(t.users, name)
    ensures var r := Enrol(t, name, event, now);
            Enrol(r.tables, name, event, later).tables == r.tables
  {
    var r := Enrol(t, name, event, now);
    assert r.tables.users == t.users;
    var uid := IdOfName(t.users, name).value;
    var rows := r.tables.userEvents;
    if !IsZeroTime(event.finishedAt) {
      assert HasWaiting(rows, uid) by {
        if !HasWaiting(t.userEvents, uid) {
          assert rows[|rows| - 1].userId == uid && rows[|rows| - 1].eventId.None?;
        } else {
          var k :| 0 <= k < |t.userEvents| && t.userEvents[k].userId == uid && t.userEvents[k].eventId.None?;
          assert rows[k] == t.userEvents[k];
        }
      }
    } else {
      assert RegistrationClash(rows, uid, Some(event.id)) by {
        if !RegistrationClash(t.userEvents, uid, Some(event.id)) {
          assert rows[|rows| - 1].userId == uid && rows[|rows| - 1].eventId == Some(event.id);
        } else {
          var k :| 0 <= k < |t.userEvents| && t.userEvents[k].userId == uid && t.userEvents[k].eventId == Some(event.id);
          assert rows[k] == t.userEvents[k];
        }
      }
    }
  }

  /** With no event at all, the zero Event is used: a known user is
      registered to event id 0. */
  lemma NoEventsEnrolsEventZero(t: Tables, reqName: string, now: Time)
    requires ValidTables(t) && t.events == [] && HasUser(t.users, reqName) && reqName != ""
    requires !RegistrationClash(t.userEvents, IdOfName(t.users, reqName).value, Some(0))
    ensures var r := Register(t, reqName, now);
            && r.tables.userEvents == t.userEvents +
                 [UserEventRow(NextRowId(t.userEvents, UserEventIdOf), IdOfName(t.users, reqName).value, Some(0), now, "")]
            && r.renders == [Registered(reqName, ZeroEvent)]
  {
  }

  /** Two names are posted to the same URL exactly when they have the same
      length and differ only where both hold a space or a '-': "Ann Lee" and
      "Ann-Lee" share one. */
  lemma NamesShareUrl(env: LegacyEnv, kind: string, a: string, b: string)
    ensures Notice(env, kind, a).url == Notice(env, kind, b).url <==>
              && |a| == |b|
              && forall i :: 0 <= i < |a| ==> a[i] == b[i] || ((a[i] == ' ' || a[i] == '-') && (b[i] == ' ' || b[i] == '-'))
  {
    var p := NtfyUrl + "-";
    var ra, rb := GoStrings.ReplaceAll(a, ' ', '-'), GoStrings.ReplaceAll(b, ' ', '-');
    assert Notice(env, kind, a).url == p + ra && Notice(env, kind, b).url == p + rb;
    assert p + ra == p + rb ==> ra == rb by {
      if p + ra == p + rb {
        assert (p + ra)[|p|..] == ra && (p + rb)[|p|..] == rb;
      }
    }
    GoStrings.ReplaceAllSame(a, b, ' ', '-');
  }

}
