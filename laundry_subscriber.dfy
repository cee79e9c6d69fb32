/** The MQTT subscriber: it reads (topic, payload) messages from the bus, keeps
    one event per machine cycle in the stores, and notifies the users
    registered to a cycle when it finishes.

    What one message does is defined by pure functions over the tables and
    the notifications handed out so far (`Step` and the functions it calls);
    the methods of `LaundrySubscriber` run the Go code's steps against the
    stores and are proved to do exactly that. */
module Mqtt {
  import opened LaundryNotify
  import opened GoStrings
  import opened Relational
  import opened Sqlite
  import opened Ntfy
  import EventStore
  import UserEventStore

  // ---------------------------------------------------------------------
  // Reading a message
  // ---------------------------------------------------------------------

  /** The machine type (the topic's leaf), the key and the value of a message. */
  datatype Parsed = Parsed(machine: string, key: string, value: string)

  /** The slicing at the top of the message loop: the last piece of the topic
      split on '/', and the first two pieces of the payload split on '='.
      None when the payload has no '=': `messageSlice[1]` is then out of
      range. */
  function SplitMessage(topic: string, payload: string): (r: Option<Parsed>)
    ensures r.None? <==> '=' !in payload
    ensures r.Some? ==>
              var m := r.value.machine;
              && '/' !in m && |m| <= |topic| && topic[|topic| - |m|..] == m
              && (|m| < |topic| ==> topic[|topic| - |m| - 1] == '/')
    ensures r.Some? ==>
              var k := r.value.key;
              var v := r.value.value;
              && '=' !in k && '=' !in v
              && |k| + 1 + |v| <= |payload| && payload[..|k|] == k && payload[|k|] == '='
              && payload[|k| + 1..|k| + 1 + |v|] == v
              && (|k| + 1 + |v| < |payload| ==> payload[|k| + 1 + |v|] == '=')
  {
    var topicSlice := Split(topic, '/');
    var messageSlice := Split(payload, '=');
    SplitLast(topic, '/');
    SplitCount(payload, '=');
    SplitFirst(payload, '=');
    if |messageSlice| < 2 then None
    else
      SplitSecond(payload, '=');
      var after := payload[|messageSlice[0]| + 1..];
      SplitFirst(after, '=');
      assert after[..|messageSlice[1]|] == messageSlice[1];
      assert payload[|messageSlice[0]| + 1..|messageSlice[0]| + 1 + |messageSlice[1]|] == after[..|messageSlice[1]|];
      Some(Parsed(topicSlice[|topicSlice| - 1], messageSlice[0], messageSlice[1]))
  }

  /** A topic ending in "/<machine>" and a payload "<key>=<value>", possibly
      followed by more text from a second '=' on, read as that machine, key
      and value. */
  lemma SplitMessageOf(prefix: string, machine: string, key: string, value: string, tail: string)
    requires '/' !in machine && '=' !in key && '=' !in value
    requires tail == [] || tail[0] == '='
    ensures SplitMessage(prefix + "/" + machine, key + "=" + value + tail) == Some(Parsed(machine, key, value))
  {
    var topic := prefix + "/" + machine;
    var payload := key + "=" + value + tail;
    assert payload[|key|] == '=';
    var p := SplitMessage(topic, payload).value;
    LeafOf(topic, machine, p.machine);
    FieldOf(payload, key, p.key);
    var after := payload[|key| + 1..];
    assert after == value + tail;
    FieldOf(after, value, p.value);
  }

  /** Two suffixes without '/' that both start the string or follow a '/'
      are the same. */
  lemma LeafOf(topic: string, machine: string, m: string)
    requires '/' !in machine && '/' !in m
    requires |machine| < |topic| && topic[|topic| - |machine|..] == machine && topic[|topic| - |machine| - 1] == '/'
    requires |m| <= |topic| && topic[|topic| - |m|..] == m && (|m| < |topic| ==> topic[|topic| - |m| - 1] == '/')
    ensures m == machine
  {
  }

  /** Two prefixes without '=' that both end the string or precede a '='
      are the same. */
  lemma FieldOf(s: string, field: string, k: string)
    requires '=' !in field && '=' !in k
    requires |field| <= |s| && s[..|field|] == field && (|field| < |s| ==> s[|field|] == '=')
    requires |k| <= |s| && s[..|k|] == k && (|k| < |s| ==> s[|k|] == '=')
    ensures k == field
  {
  }

  const StartedAtKey := "started_at"
  const FinishedAtKey := "finished_at"
  const ReadyMessage := "Your laundry is ready!"

  // ---------------------------------------------------------------------
  // What one message does
  // ---------------------------------------------------------------------

  /** The library calls the engine makes: time.Parse with RFC 3339, the
      English title-casing, the ntfy manager's answer to a message, and the
      manager's base topic. */
  datatype Env = Env(
    parse: string -> Option<Time>,
    titleCase: string -> string,
    publish: Message -> Option<Error>,
    baseTopic: string)

  /** The stores' tables, and the messages handed to the ntfy manager. */
  datatype State = State(tables: Tables, sent: seq<Message>)

  /** The two ways the Go code panics on a message. */
  datatype PanicCause = IndexOutOfRange | NilDereference

  /** How handling a message ends: returning an error or nil (which the
      message loop only logs), or panicking, which ends the process. */
  datatype Outcome = Done(err: Option<Error>) | Panic(cause: PanicCause)

  datatype After = After(state: State, outcome: Outcome)

  /** The newest event of that type has no finish time: the machine runs. */
  predicate Running(events: seq<Event>, kind: string) {
    var newest := EventStore.MostRecentOf(events, kind);
    newest.Some? && newest.value.finishedAt.None?
  }

  /** addNewEvent as written. The event it creates has no finish time, so
      createEvent's validation always refuses it and the attach step after
      it never runs. */
  function Start(env: Env, s: State, kind: string, ts: string): After {
    match env.parse(ts)
    case None => After(s, Done(Some(ParseError(ts))))
    case Some(t) =>
      if Running(s.tables.events, kind) then After(s, Done(None))
      else After(s, Done(ValidateEvent(Event(0, kind, t, None))))
  }

  /** The pending registrations findUpcomingUserEvents returns. */
  function Upcoming(rows: seq<UserEventRow>, kind: string): Result<seq<UserEvent>> {
    UserEventStore.ScanRows(Top(rows, UserEventStore.UpcomingOf(kind), UserEventStore.CreatedKey, 5))
  }

  /** The updates of the attach loop, one per registration in order. A
      failing update changes nothing and the loop goes on. */
  function AttachAll(rows: seq<UserEventRow>, ues: seq<UserEvent>, eventId: int): seq<UserEventRow>
    decreases |ues|
  {
    if ues == [] then rows
    else AttachAll(UserEventStore.UpdateRows(rows, ues[0].id, UserEventStore.UserEventUpdate(eventId)), ues[1..], eventId)
  }

  /** Lines 96-113 of addNewEvent: attach the upcoming registrations of that
      type to the event. */
  function Attach(s: State, kind: string, eventId: int): After {
    match Upcoming(s.tables.userEvents, kind)
    case Err(e) => After(s, Done(Some(e)))
    case Ok(ues) =>
      After(s.(tables := s.tables.(userEvents := AttachAll(s.tables.userEvents, ues, eventId))), Done(None))
  }

  /** addNewEvent as evidently intended: a cycle that starts is stored without
      a finish time, and the id SQLite gave it is the one the registrations
      are attached to. */
  function StartCorrected(env: Env, s: State, kind: string, ts: string): After
    requires ValidTables(s.tables)
  {
    match env.parse(ts)
    case None => After(s, Done(Some(ParseError(ts))))
    case Some(t) =>
      if Running(s.tables.events, kind) then After(s, Done(None))
      else
        var event := Event(0, kind, t, None);
        if ValidateNewEvent(event).Some? then After(s, Done(ValidateNewEvent(event)))
        else
          var id := NextRowId(s.tables.events, EventIdOf);
          Attach(s.(tables := s.tables.(events := s.tables.events + [event.(id := id)])), kind, id)
  }

  /** The message for one registered user: the name with spaces replaced by
      '_' as the user's topic. */
  function Notification(env: Env, kind: string, name: string): Message {
    Compose(env.baseTopic, ReplaceAll(name, ' ', '_'), env.titleCase(kind) + " event finished", ReadyMessage)
  }

  function Notifications(env: Env, kind: string, names: seq<string>): (msgs: seq<Message>)
    ensures |msgs| == |names|
    ensures forall i :: 0 <= i < |names| ==> msgs[i] == Notification(env, kind, names[i])
  {
    seq(|names|, i requires 0 <= i < |names| => Notification(env, kind, names[i]))
  }

  /** The messages handed to the manager: one after the other, up to and
      including the first one it refuses. */
  function Attempted(msgs: seq<Message>, publish: Message -> Option<Error>): (r: seq<Message>)
    ensures r <= msgs
    ensures forall i :: 0 <= i < |r| - 1 ==> publish(r[i]).None?
    ensures |r| < |msgs| ==> r != [] && publish(r[|r| - 1]).Some?
  {
    if msgs == [] then []
    else if publish(msgs[0]).Some? then [msgs[0]]
    else [msgs[0]] + Attempted(msgs[1..], publish)
  }

  /** The error the notification loop returns: the first refusal, if any. */
  function FirstError(msgs: seq<Message>, publish: Message -> Option<Error>): (err: Option<Error>)
    ensures err.None? <==> forall i :: 0 <= i < |msgs| ==> publish(msgs[i]).None?
    ensures err.Some? ==> exists i :: 0 <= i < |msgs| && err == publish(msgs[i]) &&
                            forall j :: 0 <= j < i ==> publish(msgs[j]).None?
  {
    if msgs == [] then None
    else if publish(msgs[0]).Some? then publish(msgs[0])
    else
      var rest := FirstError(msgs[1..], publish);
      assert forall i :: 0 < i < |msgs| ==> msgs[i] == msgs[1..][i - 1];
      rest
  }

  /** Lines 143-172 of finishExistingEvent, once an unfinished event `e` was
      found: updateEvent sets its finish time, then each registered user is
      notified until the manager refuses one. */
  function Close(env: Env, s: State, kind: string, e: Event, t: Time): After {
    var tables := s.tables;
    match IndexOf(tables.events, EventIdOf, e.id)
    case None => After(s, Done(Some(EventStore.NotFound(e.id))))
    case Some(k) =>
      var closed := EventStore.Updated(tables.events[k], EventStore.EventUpdate(Some(t)));
      if ValidateEvent(closed).Some? then After(s, Done(ValidateEvent(closed)))
      else
        var msgs := Notifications(env, kind, UserEventStore.NamesFor(tables.userEvents, tables.users, e.id));
        After(State(tables.(events := tables.events[k := closed]), s.sent + Attempted(msgs, env.publish)),
              Done(FirstError(msgs, env.publish)))
  }

  /** finishExistingEvent. `missing` is what happens when no event of that
      type exists: as written the code dereferences the nil event and panics. */
  function Finish(env: Env, s: State, kind: string, ts: string, missing: Outcome): After {
    match env.parse(ts)
    case None => After(s, Done(Some(ParseError(ts))))
    case Some(t) =>
      match EventStore.MostRecentOf(s.tables.events, kind)
      case None => After(s, missing)
      case Some(e) =>
        if e.finishedAt.Some? then After(s, Done(None))
        else Close(env, s, kind, e, t)
  }

  /** One message of the Subscribe loop, as written. */
  function Step(env: Env, s: State, topic: string, payload: string): After {
    match SplitMessage(topic, payload)
    case None => After(s, Panic(IndexOutOfRange))
    case Some(p) =>
      if p.key == StartedAtKey then Start(env, s, p.machine, p.value)
      else if p.key == FinishedAtKey then Finish(env, s, p.machine, p.value, Panic(NilDereference))
      else After(s, Done(None))
  }

  /** One message as evidently intended: a malformed message is dropped, a
      start opens and attaches the cycle, and a finish with no event of that
      type does nothing. */
  function StepCorrected(env: Env, s: State, topic: string, payload: string): After
    requires ValidTables(s.tables)
  {
    match SplitMessage(topic, payload)
    case None => After(s, Done(None))
    case Some(p) =>
      if p.key == StartedAtKey then StartCorrected(env, s, p.machine, p.value)
      else if p.key == FinishedAtKey then Finish(env, s, p.machine, p.value, Done(None))
      else After(s, Done(None))
  }

  /** The Subscribe loop over a sequence of messages: it stops at the first
      panic, which ends the process. */
  function RunFrom(env: Env, s: State, msgs: seq<(string, string)>): After
    decreases |msgs|
  {
    if msgs == [] then After(s, Done(None))
    else
      var a := Step(env, s, msgs[0].0, msgs[0].1);
      if a.outcome.Panic? then a else RunFrom(env, a.state, msgs[1..])
  }

  // ---------------------------------------------------------------------
  // The engine
  // ---------------------------------------------------------------------

  /** LaundrySubscriberService: the stores it is given, the library calls it
      makes, and the messages it has handed to the ntfy manager. */
  class LaundrySubscriber {
    const db: DB
    const env: Env
    var sent: seq<Message>

    constructor (db: DB, env: Env)
      ensures this.db == db && this.env == env && sent == []
    {
      this.db := db;
      this.env := env;
      sent := [];
    }

    function Snapshot(): State
      reads this, db
    {
      State(db.Contents(), sent)
    }

    /** LaundryNotifyService.Notify, with the message recorded as handed over. */
    method Send(topic: string, title: string, message: string) returns (err: Option<Error>)
      modifies this
      ensures sent == old(sent) + [Compose(env.baseTopic, topic, title, message)]
      ensures err == env.publish(Compose(env.baseTopic, topic, title, message))
    {
      sent := sent + [Compose(env.baseTopic, topic, title, message)];
      err := Notify(env.baseTopic, env.publish, topic, title, message);
    }

    /** One message of the Subscribe goroutine. */
    method HandleMessage(topic: string, payload: string) returns (o: Outcome)
      requires db.Valid()
      modifies db, this
      ensures db.Valid()
      ensures After(Snapshot(), o) == Step(env, old(Snapshot()), topic, payload)
    {
      var parsed := SplitMessage(topic, payload);
      if parsed.None? {
        return Panic(IndexOutOfRange);
      }
      var p := parsed.value;
      if p.key == StartedAtKey {
        var err := AddNewEvent(p.machine, p.value);
        o := Done(err);
      } else if p.key == FinishedAtKey {
        o := FinishExisting(p.machine, p.value, Panic(NilDereference));
      } else {
        o := Done(None);
      }
    }

    /** The same message, handled as evidently intended. */
    method HandleMessageCorrected(topic: string, payload: string) returns (o: Outcome)
      requires db.Valid()
      modifies db, this
      ensures db.Valid()
      ensures After(Snapshot(), o) == StepCorrected(env, old(Snapshot()), topic, payload)
    {
      var parsed := SplitMessage(topic, payload);
      if parsed.None? {
        return Done(None);
      }
      var p := parsed.value;
      if p.key == StartedAtKey {
        var err := AddNewEventCorrected(p.machine, p.value);
        o := Done(err);
      } else if p.key == FinishedAtKey {
        o := FinishExisting(p.machine, p.value, Done(None));
      } else {
        o := Done(None);
      }
    }

    /** The `for incomingEvent := range eventsChannel` loop over the messages
        received, until one of them panics. */
    method Run(msgs: seq<(string, string)>) returns (o: Outcome)
      requires db.Valid()
      modifies db, this
      ensures db.Valid()
      ensures After(Snapshot(), o) == RunFrom(env, old(Snapshot()), msgs)
    {
      var i := 0;
      while i < |msgs|
        invariant 0 <= i <= |msgs|
        invariant db.Valid()
        invariant RunFrom(env, old(Snapshot()), msgs) == RunFrom(env, Snapshot(), msgs[i..])
      {
        assert msgs[i..][1..] == msgs[i + 1..];
        o := HandleMessage(msgs[i].0, msgs[i].1);
        if o.Panic? {
          return;
        }
        i := i + 1;
      }
      o := Done(None);
    }

    /** addNewEvent. */
    method AddNewEvent(kind: string, ts: string) returns (err: Option<Error>)
      requires db.Valid()
      modifies db
      ensures db.Valid()
      ensures After(Snapshot(), Done(err)) == Start(env, old(Snapshot()), kind, ts)
    {
      var startedAt := env.parse(ts);
      if startedAt.None? {
        return Some(ParseError(ts));
      }
      var result := EventStore.FindMostRecentEvent(db, kind);
      if result.None? || result.value.finishedAt.Some? {
        err := EventStore.CreateEvent(db, Event(0, kind, startedAt.value, None));
        // The event has no finish time, so createEvent returns its validation
        // error here and the attach of lines 94-113 is never reached.
        return;
      }
      return None;
    }

    /** addNewEvent as evidently intended. */
    method AddNewEventCorrected(kind: string, ts: string) returns (err: Option<Error>)
      requires db.Valid()
      modifies db
      ensures db.Valid()
      ensures After(Snapshot(), Done(err)) == StartCorrected(env, old(Snapshot()), kind, ts)
    {
      var startedAt := env.parse(ts);
      if startedAt.None? {
        return Some(ParseError(ts));
      }
      var result := EventStore.FindMostRecentEvent(db, kind);
      if result.None? || result.value.finishedAt.Some? {
        var id;
        id, err := EventStore.CreateEventCorrected(db, Event(0, kind, startedAt.value, None));
        if err.Some? {
          return;
        }
        err := AttachUpcoming(kind, id);
        return;
      }
      return None;
    }

    /** Lines 96-113 of addNewEvent: each upcoming registration gets an
        update with the event id; a failed update is skipped. */
    method AttachUpcoming(kind: string, eventId: int) returns (err: Option<Error>)
      requires db.Valid()
      modifies db
      ensures db.Valid()
      ensures After(Snapshot(), Done(err)) == Attach(old(Snapshot()), kind, eventId)
    {
      TopIsTop(db.userEvents, UserEventStore.UpcomingOf(kind), UserEventStore.CreatedKey, 5);
      var userEvents, n;
      userEvents, n, err := UserEventStore.FindUpcomingUserEvents(db, kind);
      if err.Some? {
        return;
      }
      if n == 0 {
        return None;
      }
      UpdateEach(userEvents, eventId);
      return None;
    }

    /** The loop of lines 106-113: one update per registration, in order, the
        failing ones skipped. */
    method UpdateEach(userEvents: seq<UserEvent>, eventId: int)
      requires db.Valid()
      modifies db
      ensures db.Valid()
      ensures db.userEvents == AttachAll(old(db.userEvents), userEvents, eventId)
      ensures db.events == old(db.events) && db.users == old(db.users)
    {
      var i := 0;
      while i < |userEvents|
        invariant 0 <= i <= |userEvents|
        invariant db.Valid()
        invariant db.events == old(db.events) && db.users == old(db.users)
        invariant AttachAll(old(db.userEvents), userEvents, eventId) == AttachAll(db.userEvents, userEvents[i..], eventId)
      {
        assert userEvents[i..][1..] == userEvents[i + 1..];
        var _ := UserEventStore.UpdateUserEvent(db, userEvents[i].id, UserEventStore.UserEventUpdate(eventId));
        i := i + 1;
      }
    }

    /** finishExistingEvent, with `missing` standing for what happens when no
        event of that type exists. */
    method FinishExisting(kind: string, ts: string, missing: Outcome) returns (o: Outcome)
      requires db.Valid()
      modifies db, this
      ensures db.Valid()
      ensures After(Snapshot(), o) == Finish(env, old(Snapshot()), kind, ts, missing)
    {
      var finishedAt := env.parse(ts);
      if finishedAt.None? {
        return Done(Some(ParseError(ts)));
      }
      var mostRecent := EventStore.FindMostRecentEvent(db, kind);
      if mostRecent.None? {
        return missing;
      }
      if mostRecent.value.finishedAt.Some? {
        return Done(None);
      }
      var err := CloseEvent(kind, mostRecent.value, finishedAt.value);
      return Done(err);
    }

    /** Lines 143-172 of finishExistingEvent. */
    method CloseEvent(kind: string, e: Event, t: Time) returns (err: Option<Error>)
      requires db.Valid()
      modifies db, this
      ensures db.Valid()
      ensures After(Snapshot(), Done(err)) == Close(env, old(Snapshot()), kind, e, t)
    {
      var _, updateErr := EventStore.UpdateEvent(db, e.id, EventStore.EventUpdate(Some(t)));
      if updateErr.Some? {
        return updateErr;
      }
      var usernames := UserEventStore.FindUserNamesByEventId(db, e.id);
      err := NotifyAll(kind, usernames);
    }

    /** The notification loop: one message per name, stopping at the first
        error. */
    method NotifyAll(kind: string, usernames: seq<string>) returns (err: Option<Error>)
      modifies this
      ensures sent == old(sent) + Attempted(Notifications(env, kind, usernames), env.publish)
      ensures err == FirstError(Notifications(env, kind, usernames), env.publish)
    {
      ghost var msgs := Notifications(env, kind, usernames);
      var i := 0;
      err := None;
      while i < |usernames| && err.None?
        invariant 0 <= i <= |usernames|
        invariant err.None? ==> sent == old(sent) + msgs[..i] && forall j :: 0 <= j < i ==> env.publish(msgs[j]).None?
        invariant err.Some? ==> 0 < i && sent == old(sent) + msgs[..i] && err == env.publish(msgs[i - 1]) &&
                                forall j :: 0 <= j < i - 1 ==> env.publish(msgs[j]).None?
      {
        var topic := ReplaceAll(usernames[i], ' ', '_');
        var title := env.titleCase(kind) + " event finished";
        err := Send(topic, title, ReadyMessage);
        assert msgs[..i + 1] == msgs[..i] + [msgs[i]];
        i := i + 1;
      }
      Delivered(msgs, env.publish, i, err);
    }
  }

  /** What the notification loop has done when it stops after `i` messages. */
  lemma Delivered(msgs: seq<Message>, publish: Message -> Option<Error>, i: int, err: Option<Error>)
    requires 0 <= i <= |msgs|
    requires err.None? ==> i == |msgs| && forall j :: 0 <= j < i ==> publish(msgs[j]).None?
    requires err.Some? ==> 0 < i && err == publish(msgs[i - 1]) && forall j :: 0 <= j < i - 1 ==> publish(msgs[j]).None?
    ensures Attempted(msgs, publish) == msgs[..i]
    ensures FirstError(msgs, publish) == err
  {
    if err.Some? {
      StopsAtFirstFailure(msgs, publish, i - 1);
    } else {
      AllDelivered(msgs, publish);
      assert msgs[..i] == msgs;
    }
  }

  /** The first refusal ends the notifications: the messages before it all
      went through, and it is the error returned. */
  lemma {:induction false} StopsAtFirstFailure(msgs: seq<Message>, publish: Message -> Option<Error>, i: int)
    requires 0 <= i < |msgs| && publish(msgs[i]).Some?
    requires forall j :: 0 <= j < i ==> publish(msgs[j]).None?
    ensures Attempted(msgs, publish) == msgs[..i + 1]
    ensures FirstError(msgs, publish) == publish(msgs[i])
  {
    if i > 0 {
      StopsAtFirstFailure(msgs[1..], publish, i - 1);
      assert msgs[..i + 1] == [msgs[0]] + msgs[1..][..i];
    }
  }

  /** When the manager accepts every message, all of them are handed over and
      no error is returned. */
  lemma {:induction false} AllDelivered(msgs: seq<Message>, publish: Message -> Option<Error>)
    requires forall j :: 0 <= j < |msgs| ==> publish(msgs[j]).None?
    ensures Attempted(msgs, publish) == msgs
    ensures FirstError(msgs, publish).None?
  {
    if msgs != [] {
      AllDelivered(msgs[1..], publish);
    }
  }
}

/** What the subscriber promises, stated over the step functions. */
module MqttProperties {
  import opened LaundryNotify
  import opened Relational
  import opened Sqlite
  import opened Ntfy
  import opened Mqtt
  import EventStore
  import UserEventStore
  import GoStrings

  /** Keys other than the two the loop knows change nothing. */
  lemma OtherKeysChangeNothing(env: Env, s: State, topic: string, payload: string)
    requires ValidTables(s.tables)
    requires SplitMessage(topic, payload).Some?
    requires SplitMessage(topic, payload).value.key !in {StartedAtKey, FinishedAtKey}
    ensures Step(env, s, topic, payload) == After(s, Done(None))
    ensures StepCorrected(env, s, topic, payload) == After(s, Done(None))
  {
  }

  /** As written, a payload without '=' panics on `messageSlice[1]`. */
  lemma MalformedPayloadPanics(env: Env, s: State, topic: string, payload: string)
    requires '=' !in payload
    ensures Step(env, s, topic, payload) == After(s, Panic(IndexOutOfRange))
  {
  }

  /** As intended, a payload without '=' is dropped and changes nothing. */
  lemma MalformedPayloadDropped(env: Env, s: State, topic: string, payload: string)
    requires ValidTables(s.tables)
    requires '=' !in payload
    ensures StepCorrected(env, s, topic, payload) == After(s, Done(None))
  {
  }

  /** An unparseable timestamp is returned as an error, with nothing changed. */
  lemma UnparseableChangesNothing(env: Env, s: State, kind: string, ts: string, missing: Outcome)
    requires ValidTables(s.tables)
    requires env.parse(ts).None?
    ensures Start(env, s, kind, ts) == After(s, Done(Some(ParseError(ts))))
    ensures StartCorrected(env, s, kind, ts) == After(s, Done(Some(ParseError(ts))))
    ensures Finish(env, s, kind, ts, missing) == After(s, Done(Some(ParseError(ts))))
  {
  }

  /** As written, a start never writes anything, and it reports success
      exactly when the machine already runs: every other start is refused by
      createEvent's validation. */
  lemma StartNeverWrites(env: Env, s: State, kind: string, ts: string)
    ensures Start(env, s, kind, ts).state == s
    ensures Start(env, s, kind, ts).outcome.Done?
    ensures Start(env, s, kind, ts).outcome.err.None? <==> env.parse(ts).Some? && Running(s.tables.events, kind)
  {
    match env.parse(ts)
    case None =>
    case Some(t) =>
      assert IsZeroTime(Event(0, kind, t, None).finishedAt);
  }

  /** A start while the newest event of the type is open changes nothing
      (TwoStartsOneEvent says when a first start leaves it so). */
  lemma DuplicateStartIgnored(env: Env, s: State, kind: string, ts: string)
    requires ValidTables(s.tables)
    requires env.parse(ts).Some? && Running(s.tables.events, kind)
    ensures StartCorrected(env, s, kind, ts) == After(s, Done(None))
  {
  }

  /** The attach loop keeps the registrations' keys and
      UNIQUE (user_id, event_id). */
  lemma {:induction false} AttachAllKeepsConstraints(rows: seq<UserEventRow>, ues: seq<UserEvent>, eventId: int)
    requires WellKeyed(rows, UserEventIdOf) && RegistrationsUnique(rows)
    ensures WellKeyed(AttachAll(rows, ues, eventId), UserEventIdOf)
    ensures RegistrationsUnique(AttachAll(rows, ues, eventId))
    decreases |ues|
  {
    if ues != [] {
      var upd := UserEventStore.UserEventUpdate(eventId);
      UserEventStore.UpdateRowsKeepsConstraints(rows, ues[0].id, upd);
      AttachAllKeepsConstraints(UserEventStore.UpdateRows(rows, ues[0].id, upd), ues[1..], eventId);
    }
  }

  /** The corrected start keeps the table constraints. */
  lemma StartCorrectedKeepsValid(env: Env, s: State, kind: string, ts: string)
    requires ValidTables(s.tables)
    ensures ValidTables(StartCorrected(env, s, kind, ts).state.tables)
  {
    match env.parse(ts)
    case None =>
    case Some(t) =>
      if !Running(s.tables.events, kind) && ValidateNewEvent(Event(0, kind, t, None)).None? {
        var id := NextRowId(s.tables.events, EventIdOf);
        AppendKeepsWellKeyed(s.tables.events, EventIdOf, Event(id, kind, t, None));
        match Upcoming(s.tables.userEvents, kind)
        case Err(_) =>
        case Ok(ues) => AttachAllKeepsConstraints(s.tables.userEvents, ues, id);
      }
  }

  /** Two starts of an idle machine with no finish between them, the first
      later than every earlier start of the type, store one event: the
      first opens it and the second, finding the machine running, changes
      nothing. A first start older than some earlier start of the type
      leaves a finished event the newest, and the second start opens
      another event. */
  lemma TwoStartsOneEvent(env: Env, s: State, kind: string, ts1: string, ts2: string)
    requires ValidTables(s.tables)
    requires env.parse(ts1).Some? && env.parse(ts2).Some? && !Running(s.tables.events, kind)
    requires kind != "" && env.parse(ts1).value != 0
    requires forall i :: 0 <= i < |s.tables.events| && s.tables.events[i].kind == kind ==>
               s.tables.events[i].startedAt < env.parse(ts1).value
    ensures var a := StartCorrected(env, s, kind, ts1);
            && a.state.tables.events == s.tables.events + [Event(NextRowId(s.tables.events, EventIdOf), kind, env.parse(ts1).value, None)]
            && ValidTables(a.state.tables)
            && StartCorrected(env, a.state, kind, ts2) == After(a.state, Done(None))
  {
    StartOpens(env, s, kind, ts1);
    StartCorrectedKeepsValid(env, s, kind, ts1);
    DuplicateStartIgnored(env, StartCorrected(env, s, kind, ts1).state, kind, ts2);
  }

  /** A start of an idle machine with a type and a non-zero time appends one
      unfinished event under the next id, and leaves the users and the
      notifications alone; when it is later than every start of that type,
      the machine then runs. */
  lemma StartOpens(env: Env, s: State, kind: string, ts: string)
    requires ValidTables(s.tables)
    requires env.parse(ts).Some? && !Running(s.tables.events, kind)
    requires kind != "" && env.parse(ts).value != 0
    ensures var r := StartCorrected(env, s, kind, ts);
            var t := env.parse(ts).value;
            && r.state.tables.events == s.tables.events + [Event(NextRowId(s.tables.events, EventIdOf), kind, t, None)]
            && r.state.tables.users == s.tables.users && r.state.sent == s.sent
    ensures var t := env.parse(ts).value;
            (forall i :: 0 <= i < |s.tables.events| && s.tables.events[i].kind == kind ==> s.tables.events[i].startedAt < t) ==>
              Running(StartCorrected(env, s, kind, ts).state.tables.events, kind)
  {
    var t := env.parse(ts).value;
    StartCorrectedEvents(env, s, kind, ts);
    if forall i :: 0 <= i < |s.tables.events| && s.tables.events[i].kind == kind ==> s.tables.events[i].startedAt < t {
      NewestStartRuns(s.tables.events, Event(NextRowId(s.tables.events, EventIdOf), kind, t, None));
    }
  }

  /** An unfinished event that starts after every other of its type makes
      its machine run. */
  lemma NewestStartRuns(events: seq<Event>, e: Event)
    requires e.finishedAt.None?
    requires forall i :: 0 <= i < |events| && events[i].kind == e.kind ==> events[i].startedAt < e.startedAt
    ensures Running(events + [e], e.kind)
  {
    var all := events + [e];
    var newest := EventStore.MostRecentOf(all, e.kind);
    assert all[|all| - 1] == e;
    assert newest.value.startedAt >= e.startedAt;
    assert newest.value !in events;
    assert newest.value in all;
  }

  /** Attaching registrations touches only the registrations table. */
  lemma AttachTouchesOnlyRegistrations(s: State, kind: string, eventId: int)
    ensures var r := Attach(s, kind, eventId);
            && r.state.tables.events == s.tables.events && r.state.tables.users == s.tables.users
            && r.state.sent == s.sent && r.outcome.Done?
  {
  }

  /** The events a corrected start leaves: one more exactly when the machine
      is idle and the event is valid. */
  lemma StartCorrectedEvents(env: Env, s: State, kind: string, ts: string)
    requires ValidTables(s.tables)
    ensures var r := StartCorrected(env, s, kind, ts).state;
            && r.tables.users == s.tables.users && r.sent == s.sent
            && r.tables.events ==
                 if env.parse(ts).Some? && !Running(s.tables.events, kind) &&
                    ValidateNewEvent(Event(0, kind, env.parse(ts).value, None)).None?
                 then s.tables.events + [Event(NextRowId(s.tables.events, EventIdOf), kind, env.parse(ts).value, None)]
                 else s.tables.events
  {
    match env.parse(ts)
    case None =>
    case Some(t) =>
      if !Running(s.tables.events, kind) && ValidateNewEvent(Event(0, kind, t, None)).None? {
        var id := NextRowId(s.tables.events, EventIdOf);
        var s1 := s.(tables := s.tables.(events := s.tables.events + [Event(id, kind, t, None)]));
        assert StartCorrected(env, s, kind, ts) == Attach(s1, kind, id);
        AttachTouchesOnlyRegistrations(s1, kind, id);
      }
  }

  /** As written, a finish message for a type that has no event at all
      panics on the nil event findMostRecentEvent returns. */
  lemma FinishWithoutEventPanics(env: Env, s: State, topic: string, payload: string)
    requires SplitMessage(topic, payload).Some?
    requires var p := SplitMessage(topic, payload).value;
             && p.key == FinishedAtKey && env.parse(p.value).Some?
             && forall i :: 0 <= i < |s.tables.events| ==> s.tables.events[i].kind != p.machine
    ensures Step(env, s, topic, payload) == After(s, Panic(NilDereference))
  {
  }

  /** As intended, such a finish changes nothing and notifies no one. */
  lemma FinishWithoutEventIgnored(env: Env, s: State, topic: string, payload: string)
    requires ValidTables(s.tables)
    requires SplitMessage(topic, payload).Some?
    requires var p := SplitMessage(topic, payload).value;
             && p.key == FinishedAtKey && env.parse(p.value).Some?
             && forall i :: 0 <= i < |s.tables.events| ==> s.tables.events[i].kind != p.machine
    ensures StepCorrected(env, s, topic, payload) == After(s, Done(None))
  {
  }

  /** A finish when the newest event of that type is already finished
      updates nothing and notifies no one. */
  lemma FinishWhenFinished(env: Env, s: State, kind: string, ts: string, missing: Outcome)
    requires env.parse(ts).Some?
    requires EventStore.MostRecentOf(s.tables.events, kind).Some?
    requires EventStore.MostRecentOf(s.tables.events, kind).value.finishedAt.Some?
    ensures Finish(env, s, kind, ts, missing) == After(s, Done(None))
  {
  }

  /** A finish while the machine runs sets the finish time of the newest
      event of that type and of no other, then hands the notifications of
      the users registered to it to the manager, until one is refused. */
  lemma FinishCloses(env: Env, s: State, kind: string, ts: string, missing: Outcome)
    requires ValidTables(s.tables)
    requires env.parse(ts).Some? && env.parse(ts).value != 0
    requires Running(s.tables.events, kind) && kind != ""
    requires EventStore.MostRecentOf(s.tables.events, kind).value.startedAt != 0
    ensures var e := EventStore.MostRecentOf(s.tables.events, kind).value;
            var t := env.parse(ts).value;
            var r := Finish(env, s, kind, ts, missing);
            var msgs := Notifications(env, kind, UserEventStore.NamesFor(s.tables.userEvents, s.tables.users, e.id));
            && (exists k :: 0 <= k < |s.tables.events| && s.tables.events[k] == e &&
                  r.state.tables.events == s.tables.events[k := e.(finishedAt := Some(t))])
            && r.state.tables.userEvents == s.tables.userEvents && r.state.tables.users == s.tables.users
            && r.state.sent == s.sent + Attempted(msgs, env.publish)
            && r.outcome == Done(FirstError(msgs, env.publish))
  {
    var events := s.tables.events;
    var e := EventStore.MostRecentOf(events, kind).value;
    var k := IndexOf(events, EventIdOf, e.id).value;
    IdsIncreasingUnique(events, EventIdOf, e, events[k]);
  }

  /** Every open event is strictly the newest of its type. */
  predicate OpenIsLatest(events: seq<Event>) {
    forall i, j ::
      (0 <= i < |events| && 0 <= j < |events| && i != j &&
       events[i].kind == events[j].kind && events[i].finishedAt.None?) ==>
        events[j].startedAt < events[i].startedAt
  }

  /** So there is at most one open event per machine type. */
  lemma OneOpenPerMachine(events: seq<Event>, i: int, j: int)
    requires OpenIsLatest(events)
    requires 0 <= i < |events| && 0 <= j < |events| && events[i].kind == events[j].kind
    requires events[i].finishedAt.None? && events[j].finishedAt.None?
    ensures i == j
  {
  }

  /** Giving one event a finish time keeps the rule. */
  lemma CloseKeepsOpenIsLatest(events: seq<Event>, k: int, t: Time)
    requires OpenIsLatest(events) && 0 <= k < |events|
    ensures OpenIsLatest(events[k := events[k].(finishedAt := Some(t))])
  {
    var s := events[k := events[k].(finishedAt := Some(t))];
    forall i, j | 0 <= i < |s| && 0 <= j < |s| && i != j && s[i].kind == s[j].kind && s[i].finishedAt.None?
      ensures s[j].startedAt < s[i].startedAt
    {
      assert events[i].finishedAt.None?;
      assert s[i].startedAt == events[i].startedAt && s[j].startedAt == events[j].startedAt;
    }
  }

  /** Closing an event leaves the events as they were or sets the finish
      time of the one row with that id. */
  lemma CloseEvents(env: Env, s: State, kind: string, e: Event, t: Time)
    ensures var r := Close(env, s, kind, e, t).state.tables.events;
            match IndexOf(s.tables.events, EventIdOf, e.id)
            case None => r == s.tables.events
            case Some(k) => r == s.tables.events || r == s.tables.events[k := s.tables.events[k].(finishedAt := Some(t))]
  {
  }

  /** The finish path keeps the rule. */
  lemma FinishKeepsOpenIsLatest(env: Env, s: State, kind: string, ts: string, missing: Outcome)
    requires OpenIsLatest(s.tables.events)
    ensures OpenIsLatest(Finish(env, s, kind, ts, missing).state.tables.events)
  {
    match env.parse(ts)
    case None =>
    case Some(t) =>
      match EventStore.MostRecentOf(s.tables.events, kind)
      case None =>
      case Some(e) =>
        if e.finishedAt.None? {
          CloseEvents(env, s, kind, e, t);
          match IndexOf(s.tables.events, EventIdOf, e.id)
          case None =>
          case Some(k) =>
            CloseKeepsOpenIsLatest(s.tables.events, k, t);
        }
  }

  /** As written, no message breaks the rule: starts never write and
      finishes only close. */
  lemma StepKeepsOpenIsLatest(env: Env, s: State, topic: string, payload: string)
    requires OpenIsLatest(s.tables.events)
    ensures OpenIsLatest(Step(env, s, topic, payload).state.tables.events)
  {
    match SplitMessage(topic, payload)
    case None =>
    case Some(p) =>
      if p.key == StartedAtKey {
        StartNeverWrites(env, s, p.machine, p.value);
      } else if p.key == FinishedAtKey {
        FinishKeepsOpenIsLatest(env, s, p.machine, p.value, Panic(NilDereference));
      }
  }

  /** A start message whose time is later than every start of that type. */
  predicate InOrder(env: Env, s: State, topic: string, payload: string) {
    match SplitMessage(topic, payload)
    case None => true
    case Some(p) =>
      p.key == StartedAtKey && env.parse(p.value).Some? ==>
        forall i :: 0 <= i < |s.tables.events| && s.tables.events[i].kind == p.machine ==>
          s.tables.events[i].startedAt < env.parse(p.value).value
  }

  /** An idle machine has no open event, when the rule holds. */
  lemma IdleHasNoOpenEvent(events: seq<Event>, kind: string)
    requires OpenIsLatest(events) && !Running(events, kind)
    ensures forall i :: 0 <= i < |events| && events[i].kind == kind ==> events[i].finishedAt.Some?
  {
  }

  /** Appending an unfinished event that starts after every other of its
      type, when none of them is open, keeps the rule. */
  lemma AppendNewestKeepsOpenIsLatest(events: seq<Event>, e: Event)
    requires OpenIsLatest(events)
    requires forall i :: 0 <= i < |events| && events[i].kind == e.kind ==>
               events[i].finishedAt.Some? && events[i].startedAt < e.startedAt
    ensures OpenIsLatest(events + [e])
  {
    var all := events + [e];
    forall i, j | 0 <= i < |all| && 0 <= j < |all| && i != j &&
      all[i].kind == all[j].kind && all[i].finishedAt.None?
      ensures all[j].startedAt < all[i].startedAt
    {
      if i == |events| {
        assert all[j] == events[j];
      } else {
        assert all[i] == events[i];
        if j < |events| {
          assert all[j] == events[j];
        }
      }
    }
  }

  /** The corrected start keeps the rule when starts arrive in time order. */
  lemma StartCorrectedKeepsOpenIsLatest(env: Env, s: State, kind: string, ts: string)
    requires ValidTables(s.tables) && OpenIsLatest(s.tables.events)
    requires env.parse(ts).Some? ==> forall i :: 0 <= i < |s.tables.events| && s.tables.events[i].kind == kind ==>
               s.tables.events[i].startedAt < env.parse(ts).value
    ensures OpenIsLatest(StartCorrected(env, s, kind, ts).state.tables.events)
  {
    StartCorrectedEvents(env, s, kind, ts);
    if env.parse(ts).Some? && !Running(s.tables.events, kind) {
      var t := env.parse(ts).value;
      IdleHasNoOpenEvent(s.tables.events, kind);
      AppendNewestKeepsOpenIsLatest(s.tables.events, Event(NextRowId(s.tables.events, EventIdOf), kind, t, None));
    }
  }

  /** The corrected loop keeps the rule when starts arrive in time order. */
  lemma StepCorrectedKeepsOpenIsLatest(env: Env, s: State, topic: string, payload: string)
    requires ValidTables(s.tables) && OpenIsLatest(s.tables.events)
    requires InOrder(env, s, topic, payload)
    ensures OpenIsLatest(StepCorrected(env, s, topic, payload).state.tables.events)
  {
    match SplitMessage(topic, payload)
    case None =>
    case Some(p) =>
      if p.key == StartedAtKey {
        StartCorrectedKeepsOpenIsLatest(env, s, p.machine, p.value);
      } else if p.key == FinishedAtKey {
        FinishKeepsOpenIsLatest(env, s, p.machine, p.value, Done(None));
      }
  }

  /** The ids of a list of registrations. */
  function IdsOf(ues: seq<UserEvent>): set<int> {
    set a | 0 <= a < |ues| :: ues[a].id
  }

  /** Row `r` is the pending registration `u` was scanned from, and it has a
      user and a creation time. */
  predicate PendingFor(r: UserEventRow, u: UserEvent) {
    r.id == u.id && r.userId == u.userId && r.userId > 0 && r.createdAt != 0 && r.eventId == Some(0)
  }

  lemma IdsOfCons(ues: seq<UserEvent>)
    requires ues != []
    ensures IdsOf(ues) == {ues[0].id} + IdsOf(ues[1..])
  {
    var rest := ues[1..];
    forall x | x in IdsOf(ues) ensures x in {ues[0].id} + IdsOf(rest) {
      var a :| 0 <= a < |ues| && ues[a].id == x;
      if a > 0 {
        assert rest[a - 1] == ues[a];
      }
    }
    forall x | x in IdsOf(rest) ensures x in IdsOf(ues) {
      var a :| 0 <= a < |rest| && rest[a].id == x;
      assert ues[a + 1] == rest[a];
    }
  }

  /** Once the first registration is attached, the rest still meet
      AttachAllAttaches' conditions. */
  lemma AttachRest(rows: seq<UserEventRow>, ues: seq<UserEvent>, eventId: int, k0: int)
    requires IdsIncreasing(rows, UserEventIdOf) && ues != []
    requires 0 <= k0 < |rows| && PendingFor(rows[k0], ues[0])
    requires forall a :: 0 <= a < |ues| ==> exists k :: 0 <= k < |rows| && PendingFor(rows[k], ues[a])
    requires forall a, b :: 0 <= a < b < |ues| ==> ues[a].id != ues[b].id && ues[a].userId != ues[b].userId
    requires forall k, a :: 0 <= k < |rows| && 0 <= a < |ues| && rows[k].eventId == Some(eventId) ==>
               rows[k].userId != ues[a].userId
    ensures var rows1 := rows[k0 := rows[k0].(eventId := Some(eventId))];
            var rest := ues[1..];
            && IdsIncreasing(rows1, UserEventIdOf)
            && (forall a :: 0 <= a < |rest| ==> exists k :: 0 <= k < |rows1| && PendingFor(rows1[k], rest[a]))
            && (forall a, b :: 0 <= a < b < |rest| ==> rest[a].id != rest[b].id && rest[a].userId != rest[b].userId)
            && (forall k, a :: 0 <= k < |rows1| && 0 <= a < |rest| && rows1[k].eventId == Some(eventId) ==>
                  rows1[k].userId != rest[a].userId)
  {
    var rows1 := rows[k0 := rows[k0].(eventId := Some(eventId))];
    var rest := ues[1..];
    assert IdsIncreasing(rows1, UserEventIdOf) by {
      forall i, j | 0 <= i < j < |rows1| ensures rows1[i].id < rows1[j].id {
        assert rows1[i].id == rows[i].id && rows1[j].id == rows[j].id;
      }
    }
    forall a | 0 <= a < |rest| ensures exists k :: 0 <= k < |rows1| && PendingFor(rows1[k], rest[a]) {
      assert rest[a] == ues[a + 1];
      var k :| 0 <= k < |rows| && PendingFor(rows[k], ues[a + 1]);
      assert k != k0;
      assert PendingFor(rows1[k], rest[a]);
    }
    forall a, b | 0 <= a < b < |rest| ensures rest[a].id != rest[b].id && rest[a].userId != rest[b].userId {
      assert rest[a] == ues[a + 1] && rest[b] == ues[b + 1];
    }
    forall k, a | 0 <= k < |rows1| && 0 <= a < |rest| && rows1[k].eventId == Some(eventId)
      ensures rows1[k].userId != rest[a].userId
    {
      assert rest[a] == ues[a + 1];
      if k != k0 {
        assert rows1[k] == rows[k];
      }
    }
  }

  /** The first update of the fold attaches its row. */
  lemma AttachStep(rows: seq<UserEventRow>, ues: seq<UserEvent>, eventId: int, k0: int)
    requires ues != [] && 0 <= k0 < |rows| && PendingFor(rows[k0], ues[0])
    requires IndexOf(rows, UserEventIdOf, rows[k0].id) == Some(k0)
    requires eventId > 0 && !UserEventStore.ClashElsewhere(rows, k0, rows[k0].userId, eventId)
    ensures AttachAll(rows, ues, eventId) == AttachAll(rows[k0 := rows[k0].(eventId := Some(eventId))], ues[1..], eventId)
  {
    UserEventStore.UpdateAttachesPending(rows, k0, eventId);
  }

  /** Without a positive event id (the corrected start's id as written is
      never read back, so it stays 0) attaching changes nothing. */
  lemma {:induction false} AttachWithoutIdChangesNothing(rows: seq<UserEventRow>, ues: seq<UserEvent>, eventId: int)
    requires eventId <= 0
    ensures AttachAll(rows, ues, eventId) == rows
  {
    if ues != [] {
      UserEventStore.NonPositiveUpdateChangesNothing(rows, ues[0].id, UserEventStore.UserEventUpdate(eventId));
      AttachWithoutIdChangesNothing(rows, ues[1..], eventId);
    }
  }

  /** Attaching distinct pending registrations of distinct users, none of
      whom holds the event yet, gives each of those rows the event id and
      leaves every other row as it was. */
  lemma {:induction false} AttachAllAttaches(rows: seq<UserEventRow>, ues: seq<UserEvent>, eventId: int)
    requires IdsIncreasing(rows, UserEventIdOf) && eventId > 0
    requires forall a :: 0 <= a < |ues| ==> exists k :: 0 <= k < |rows| && PendingFor(rows[k], ues[a])
    requires forall a, b :: 0 <= a < b < |ues| ==> ues[a].id != ues[b].id && ues[a].userId != ues[b].userId
    requires forall k, a :: 0 <= k < |rows| && 0 <= a < |ues| && rows[k].eventId == Some(eventId) ==>
               rows[k].userId != ues[a].userId
    ensures |AttachAll(rows, ues, eventId)| == |rows|
    ensures forall k :: 0 <= k < |rows| ==>
              AttachAll(rows, ues, eventId)[k] ==
                if rows[k].id in IdsOf(ues) then rows[k].(eventId := Some(eventId)) else rows[k]
    decreases |ues|
  {
    if ues == [] {
      return;
    }
    var k0 :| 0 <= k0 < |rows| && PendingFor(rows[k0], ues[0]);
    AttachHead(rows, ues, eventId, k0);
    var rows1 := rows[k0 := rows[k0].(eventId := Some(eventId))];
    AttachRest(rows, ues, eventId, k0);
    AttachAllAttaches(rows1, ues[1..], eventId);
    IdsOfCons(ues);
    HeadNotInRest(ues);
  }

  /** The first registration's row: attaching to it is the first step of
      AttachAll, and no other row carries its id. */
  lemma AttachHead(rows: seq<UserEventRow>, ues: seq<UserEvent>, eventId: int, k0: int)
    requires IdsIncreasing(rows, UserEventIdOf) && eventId > 0 && ues != []
    requires 0 <= k0 < |rows| && PendingFor(rows[k0], ues[0])
    requires forall k, a :: 0 <= k < |rows| && 0 <= a < |ues| && rows[k].eventId == Some(eventId) ==>
               rows[k].userId != ues[a].userId
    ensures AttachAll(rows, ues, eventId) == AttachAll(rows[k0 := rows[k0].(eventId := Some(eventId))], ues[1..], eventId)
    ensures forall k :: 0 <= k < |rows| && k != k0 ==> rows[k].id != ues[0].id
  {
    IndexOfIncreasing(rows, UserEventIdOf, k0);
    assert !UserEventStore.ClashElsewhere(rows, k0, rows[k0].userId, eventId);
    AttachStep(rows, ues, eventId, k0);
    forall k | 0 <= k < |rows| && k != k0 ensures rows[k].id != ues[0].id {
      if k < k0 {
        assert rows[k].id < rows[k0].id;
      } else {
        assert rows[k0].id < rows[k].id;
      }
    }
  }

  /** Distinct ids: the first registration's id is not among the rest. */
  lemma HeadNotInRest(ues: seq<UserEvent>)
    requires ues != []
    requires forall a, b :: 0 <= a < b < |ues| ==> ues[a].id != ues[b].id
    ensures ues[0].id !in IdsOf(ues[1..])
  {
    var rest := ues[1..];
    forall a | 0 <= a < |rest| ensures rest[a].id != ues[0].id {
      assert rest[a] == ues[a + 1];
    }
  }

  /** The registrations a start looks up are distinct pending rows of that
      type, of distinct users. */
  lemma UpcomingArePending(rows: seq<UserEventRow>, kind: string)
    requires IdsIncreasing(rows, UserEventIdOf) && RegistrationsUnique(rows)
    requires forall k :: 0 <= k < |rows| && UserEventStore.UpcomingOf(kind)(rows[k]) ==>
               rows[k].userId > 0 && rows[k].createdAt != 0
    requires Upcoming(rows, kind).Ok?
    ensures var ues := Upcoming(rows, kind).value;
            && (forall a :: 0 <= a < |ues| ==> exists k :: 0 <= k < |rows| && PendingFor(rows[k], ues[a]) && rows[k].kind == kind)
            && (forall a, b :: 0 <= a < b < |ues| ==> ues[a].id != ues[b].id && ues[a].userId != ues[b].userId)
  {
    var p := UserEventStore.UpcomingOf(kind);
    var top := Top(rows, p, UserEventStore.CreatedKey, 5);
    var ues := Upcoming(rows, kind).value;
    TopIsTop(rows, p, UserEventStore.CreatedKey, 5);
    TopDistinct(rows, p, UserEventStore.CreatedKey, 5, UserEventIdOf);
    forall a | 0 <= a < |ues| ensures exists k :: 0 <= k < |rows| && PendingFor(rows[k], ues[a]) && rows[k].kind == kind {
      assert Ok(ues[a]) == UserEventStore.ScanRow(top[a]);
      var k :| 0 <= k < |rows| && rows[k] == top[a];
      assert PendingFor(rows[k], ues[a]);
    }
    forall a, b | 0 <= a < b < |ues| ensures ues[a].id != ues[b].id && ues[a].userId != ues[b].userId {
      assert Ok(ues[a]) == UserEventStore.ScanRow(top[a]) && Ok(ues[b]) == UserEventStore.ScanRow(top[b]);
      var ka :| 0 <= ka < |rows| && rows[ka] == top[a];
      var kb :| 0 <= kb < |rows| && rows[kb] == top[b];
      assert ka != kb;
      assert top[a].eventId == Some(0) && top[b].eventId == Some(0);
    }
  }

  /** The corrected start of an idle machine attaches to the new event
      exactly the registrations it looked up, and touches no other row,
      provided every registration names an event that exists (or none). */
  lemma StartAttachesUpcoming(env: Env, s: State, kind: string, ts: string)
    requires ValidTables(s.tables)
    requires env.parse(ts).Some? && !Running(s.tables.events, kind)
    requires ValidateNewEvent(Event(0, kind, env.parse(ts).value, None)).None?
    requires Upcoming(s.tables.userEvents, kind).Ok?
    requires forall k :: 0 <= k < |s.tables.userEvents| && UserEventStore.UpcomingOf(kind)(s.tables.userEvents[k]) ==>
               s.tables.userEvents[k].userId > 0 && s.tables.userEvents[k].createdAt != 0
    requires forall k :: 0 <= k < |s.tables.userEvents| && s.tables.userEvents[k].eventId.Some? ==>
               s.tables.userEvents[k].eventId.value < NextRowId(s.tables.events, EventIdOf)
    ensures var r := StartCorrected(env, s, kind, ts);
            var rows := s.tables.userEvents;
            var ues := Upcoming(rows, kind).value;
            var id := NextRowId(s.tables.events, EventIdOf);
            && r.outcome == Done(None)
            && |r.state.tables.userEvents| == |rows|
            && forall k :: 0 <= k < |rows| ==>
                 r.state.tables.userEvents[k] == if rows[k].id in IdsOf(ues) then rows[k].(eventId := Some(id)) else rows[k]
  {
    var rows := s.tables.userEvents;
    var id := NextRowId(s.tables.events, EventIdOf);
    var ues := Upcoming(rows, kind).value;
    StartCorrectedAttachAll(env, s, kind, ts);
    UpcomingArePending(rows, kind);
    NoRowHoldsNewId(rows, ues, id);
    AttachAllAttaches(rows, ues, id);
  }

  /** No registration names an event id that is not yet given out. */
  lemma NoRowHoldsNewId(rows: seq<UserEventRow>, ues: seq<UserEvent>, id: int)
    requires forall k :: 0 <= k < |rows| && rows[k].eventId.Some? ==> rows[k].eventId.value < id
    ensures forall k, a :: 0 <= k < |rows| && 0 <= a < |ues| && rows[k].eventId == Some(id) ==>
              rows[k].userId != ues[a].userId
  {
  }

  /** The corrected start of an idle machine is the attach step on the
      registrations it looked up. */
  lemma StartCorrectedAttachAll(env: Env, s: State, kind: string, ts: string)
    requires ValidTables(s.tables)
    requires env.parse(ts).Some? && !Running(s.tables.events, kind)
    requires ValidateNewEvent(Event(0, kind, env.parse(ts).value, None)).None?
    requires Upcoming(s.tables.userEvents, kind).Ok?
    ensures var r := StartCorrected(env, s, kind, ts);
            && r.outcome == Done(None)
            && r.state.tables.userEvents
               == AttachAll(s.tables.userEvents, Upcoming(s.tables.userEvents, kind).value, NextRowId(s.tables.events, EventIdOf))
  {
    var t := env.parse(ts).value;
    var id := NextRowId(s.tables.events, EventIdOf);
    var s1 := s.(tables := s.tables.(events := s.tables.events + [Event(id, kind, t, None)]));
    assert StartCorrected(env, s, kind, ts) == Attach(s1, kind, id);
  }

  /** Two names are notified on the same topic exactly when they have the
      same length and differ only where both hold a space or an '_': "Ann
      Lee" and "Ann_Lee" share one. */
  lemma NamesShareTopic(env: Env, kind: string, a: string, b: string)
    ensures Notification(env, kind, a).topic == Notification(env, kind, b).topic <==>
              && |a| == |b|
              && forall i :: 0 <= i < |a| ==> a[i] == b[i] || ((a[i] == ' ' || a[i] == '_') && (b[i] == ' ' || b[i] == '_'))
  {
    var ta, tb := Notification(env, kind, a).topic, Notification(env, kind, b).topic;
    assert ta == tb <==> GoStrings.ReplaceAll(a, ' ', '_') == GoStrings.ReplaceAll(b, ' ', '_') by {
      assert TopicOf(env.baseTopic, ta) == GoStrings.ReplaceAll(a, ' ', '_');
      assert TopicOf(env.baseTopic, tb) == GoStrings.ReplaceAll(b, ' ', '_');
    }
    GoStrings.ReplaceAllSame(a, b, ' ', '_');
  }

}
