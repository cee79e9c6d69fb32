# laundry-notify in Dafny

laundry-notify tells people when the washing machine or the dryer has
finished. Home Assistant publishes MQTT messages on topics such as
`home/laundry/washer`, with payloads `started_at=<RFC 3339 time>` and
`finished_at=<RFC 3339 time>`. The service keeps:

- one *event* per machine cycle: its type, start time and finish time;
- *users*;
- *registrations* (`user_events`): a user's wish to hear about a cycle, or
  about the next one.

When a cycle finishes, every user registered to it gets an ntfy
notification.

This project models the core of the service and proves what it does.

- **The subscriber engine** (`LaundrySubscriberService`, module `Mqtt`).
  - It splits each message into a machine, a key and a value.
  - A start is meant to open a cycle unless that machine already runs. As
    written, createEvent's validation refuses every new cycle (see
    Findings); the corrected start (`StartCorrected`) opens it.
  - A finish closes the newest cycle of that type and notifies the users
    registered to it.
  - One message is defined by a function over the tables and the
    notifications sent so far (`Step`). The class `LaundrySubscriber` runs
    the Go code's steps against the stores, and its methods are proved to
    give exactly the result of `Step`.
  - The properties are lemmas over `Step`, in module `MqttProperties`.
- **The SQLite stores** (`EventStore`, `UserEventStore`, `UserStore`, over
  the `DB` class of module `Sqlite`).
  - Each table is a sequence of rows in rowid order.
  - Each statement is modelled by what it selects or changes: filter, sort,
    take at most N, and `COUNT(*) OVER()` counted before the limit.
  - The Go row loops are methods with loop invariants.
  - The table constraints (positive increasing ids, UNIQUE names, UNIQUE
    `(user_id, event_id)`) are kept by every write.
- **The SQLite helpers**: `FormatLimitOffset`, `FormatOrderBy`, `NullTime`
  (a class, since `Scan` updates its receiver), `NullTime.Value`, and the
  transaction clock.
- **The first engine in `main.go`** (module `Legacy`). It is a message loop
  and the registration handler, over the same tables, and it follows other
  rules:
  - every start opens an event;
  - a finish closes the newest *open* event;
  - a refused post skips only that user;
  - a bad URL panics before the transaction commits.

  Module `LegacyProperties` states these rules and where the two engines
  part.
- **The validators** of the root package, **`LaundryNotifyService.Notify`**
  (module `Ntfy`) and the **`dict` template function** (module
  `HttpDict`).

Some library calls are parameters of the model rather than part of it. They
are `time.Parse` with RFC 3339 (section 5.6 of RFC 3339), `toTitleCase`, the
ntfy manager, `http.NewRequest`'s URL check, the HTTP POST and SQLite's
`datetime()`. Times are whole seconds, and 0 is Go's zero time.

Where the code does something other than what it evidently means to do, the
model follows the code and proves what happens. Beside it sits a corrected
definition with the intended property proved; see "## Findings".

## Model

| member | source | states |
|---|---|---|
| LaundryNotify.ValidateEvent | event.go:12-26 | valid exactly when the type, start and finish are all set; otherwise the first missing one is reported, in the order type, start, finish |
| LaundryNotify.ValidateNewEvent | event.go:12-19 | the check an unfinished cycle can pass. It accepts exactly when a type and a start are set, and any error it gives is the one Event.Validate gives |
| LaundryNotify.ValidateUserEvent | user_event.go:12-26 | valid exactly when event id > 0, user id > 0 and a creation time are all present, with errors reported in that order |
| LaundryNotify.PendingRegistrationNeverValidates | user_event.go:13-15 | a registration still waiting for a cycle (event id 0) never validates |
| LaundryNotify.ValidateUser | user.go:11-16 | every non-empty name is accepted and the empty name is refused with "User name required." |
| LaundryNotify.ValidateUserIgnoresIdAndCreation | user.go:11-16 | the verdict does not depend on the id or the creation time |
| Ntfy.FullTopic | internal/ntfy/ntfy_service.go:20 | the published topic is the base, a '-', then the user's topic, at the exact positions |
| Ntfy.FullTopicRoundTrip | internal/ntfy/ntfy_service.go:20 | the user's topic can be read back from the full topic, so for one base, distinct topics never share a full topic |
| Ntfy.Compose | internal/ntfy/ntfy_service.go:19-25 | the message is published under the base topic and its user topic reads back; the title and body pass through unchanged |
| HttpDict.Dict | internal/http/http.go:87-100 | an odd count of arguments gives "invalid dict call" and no map; a non-string key gives "dict keys must be strings" and no map; otherwise the map holds the pairs assigned left to right |
| HttpDict.AssignedKeys | internal/http/http.go:92-98 | the map's keys are exactly the strings at even positions |
| HttpDict.AssignedLastWins | internal/http/http.go:92-98 | a key repeated in the arguments holds the value after its last occurrence |
| HttpDict.AssignedSize | internal/http/http.go:91-99 | the map has at most half as many entries as there are arguments |
| Sqlite.TxNow | internal/sqlite/sqlite.go:176 | the transaction time is the clock truncated down to a whole second |
| Sqlite.NullTime.Scan | internal/sqlite/sqlite.go:193-212 | a time value is stored as valid. A string is stored as valid even when it does not parse: the time is then zero. NULL clears `valid` only. Any other type is an error naming the type and leaves the holder as it was |
| Sqlite.Value | internal/sqlite/sqlite.go:215-222 | NULL exactly for a nil holder, an invalid one or the zero time; otherwise the formatted time |
| Sqlite.ValueScanRoundTrip | internal/sqlite/sqlite.go:193-222 | writing a time and scanning it back gives a valid holder with that time exactly when the time was present |
| Sqlite.FormatLimitOffset | internal/sqlite/sqlite.go:226-235 | one clause per case: "LIMIT l OFFSET o", "LIMIT l", "OFFSET o" or nothing, as the positive values dictate |
| Sqlite.LimitOffsetRoundTrip | internal/sqlite/sqlite.go:226-235 | reading the clause back gives the positive values and 0 for the others, so a non-positive value never appears |
| Sqlite.FormatLimitOffsetInjective | internal/sqlite/sqlite.go:226-235 | two calls give the same clause only when their positive parts agree |
| Sqlite.FormatOrderBy | internal/sqlite/sqlite.go:237-243 | empty exactly for no items; otherwise "ORDER BY " and the items joined by ", " |
| Sqlite.OrderByRoundTrip | internal/sqlite/sqlite.go:237-243 | the clause lists the items in their order: reading it back gives them again when no item holds a comma |
| Sqlite.LikeContains | internal/sqlite/user.go:186-188 | `name LIKE '%part%'` holds exactly when the name contains part, ignoring ASCII case, when part has no wildcard |
| Relational.Page | internal/sqlite/event.go:180 | SQLite refuses exactly an OFFSET without a LIMIT. A positive limit caps the rows. With no offset the page is a prefix of the rows, and with no limit it is all of them |
| Relational.TopIsTop | internal/sqlite/user_event.go:195-201 | "filter, ORDER BY key DESC, LIMIT n" gives min(n, matches) matching rows drawn from the table, sorted, and no match left out has a larger key than one taken |
| Relational.ReadRows | internal/sqlite/event.go:188-201 | the loop returns every row in order, and the count is the match count once any row was read; findUsers reads its rows the same way (internal/sqlite/user.go:163-175) |
| EventStore.FindEvents | internal/sqlite/event.go:151-207 | the page of matching rows in the requested order, with the count of all matches; a refused query gives no rows, count 0 and the error |
| EventStore.FirstFilterWins | internal/sqlite/event.go:153-162 | only the first filter given (id, then type, then start, then finish) is applied; the later fields change nothing |
| EventStore.DefaultOrderIsById | internal/sqlite/event.go:164-168 | without an ORDER BY the rows come back in increasing id order |
| EventStore.FindEventById | internal/sqlite/event.go:122-131 | succeeds exactly when an event has that id, returns that event, and otherwise gives ENOTFOUND "Event not found: <id>" |
| EventStore.MostRecentOf | internal/sqlite/event.go:133-149 | nothing exactly when no event has the type; otherwise an event of that type whose start is the latest |
| EventStore.FindMostRecentEvent | internal/sqlite/event.go:33-44 | returns the newest event of the type, or nothing and no error |
| EventStore.CreateEvent | internal/sqlite/event.go:106-120 | the validation error, with nothing written, or the row appended under the next id; the caller's event keeps its id and the other tables are unchanged |
| EventStore.Insert | internal/sqlite/event.go:111-118 | the INSERT appends one row under the next id, keeps the table constraints, and leaves the other tables alone |
| EventStore.CreateEventCorrected | internal/sqlite/event.go:106-120 | as intended: an unfinished cycle validates, and the id SQLite assigned is returned |
| EventStore.Updated | internal/sqlite/event.go:81-83 | a valid finish replaces the old one, even an earlier finish; an invalid one leaves the event as it was; no other field changes |
| EventStore.UpdateEvent | internal/sqlite/event.go:75-104 | an unknown id gives ENOTFOUND. A validation failure returns the updated event and writes nothing. Otherwise only that row's finish time is rewritten |
| UserEventStore.ScanRow | internal/sqlite/user_event.go:283-290 | a row scans exactly when its event id is not NULL, to the same fields; a NULL gives the scan error |
| UserEventStore.ScanRows | internal/sqlite/user_event.go:281-294 | every row scans, in order, or the first NULL event id fails the whole result |
| UserEventStore.ReadRows | internal/sqlite/user_event.go:209-225 | the loop gives the scanned rows and the match count, or nil, 0 and the error at the first row that does not scan |
| UserEventStore.FindUpcomingUserEvents | internal/sqlite/user_event.go:185-226 | at most five pending registrations (event id NULL or 0) of the type, newest first, each a row of the table; the count is of all matches |
| UserEventStore.ScannedFacts | internal/sqlite/user_event.go:209-224 | scanning keeps each row's id, type, event id and creation order, and every result comes from the table |
| UserEventStore.FindByUserName | internal/sqlite/user_event.go:139-183 | the same pending filter, restricted to registrations whose user has the name, newest first, at most five |
| UserEventStore.FindUserEvents | internal/sqlite/user_event.go:256-296 | at most one row with that id; the count is of the rows read |
| UserEventStore.FindUserEventById | internal/sqlite/user_event.go:128-137 | the scanned row with that id, or ENOTFOUND "UserEvent not found: <id>" |
| UserEventStore.Updated | internal/sqlite/user_event.go:304-306 | only a positive event id replaces the old one |
| UserEventStore.UpdateUserEvent | internal/sqlite/user_event.go:298-327 | returns the looked-up, updated and validated registration, or the first error; only that row's event id is written, and only on success |
| UserEventStore.SetEventKeepsUnique | internal/sqlite/user_event.go:312-321 | setting an event id that no other row of that user holds keeps UNIQUE (user_id, event_id) |
| UserEventStore.UpdateRowsKeepsConstraints | internal/sqlite/user_event.go:298-327 | an update, successful or refused, keeps the ids and UNIQUE (user_id, event_id) |
| UserEventStore.UpdateWritesOnlyEventId | internal/sqlite/user_event.go:304-321 | an update changes at most the event id of the row with that id, and nothing when it fails |
| UserEventStore.NonPositiveUpdateChangesNothing | internal/sqlite/user_event.go:304-310 | an update with event id 0 or less writes nothing, and a success keeps the old event id |
| UserEventStore.UpdateAttachesPending | internal/sqlite/user_event.go:298-326 | a pending registration with a user and a creation time is attached to a positive event id its user is not yet registered to |
| UserEventStore.CreateUserEvent | internal/sqlite/user_event.go:106-126 | the creation time is stamped before validating. A validation error or a UNIQUE clash writes nothing. Otherwise one row is appended under the next id |
| UserEventStore.InsertRow | internal/sqlite/user_event.go:117-124 | the INSERT appends one row under the next id and keeps the table constraints |
| UserEventStore.FindUserNamesByEventId | internal/sqlite/user_event.go:228-254 | the join: one name per registration to that event, without deduplication, taken in user_events id order |
| UserEventStore.NamesOfUnique | internal/sqlite/user_event.go:234-235 | with unique user ids a registration joins with at most one user |
| UserEventStore.OneNamePerRegistration | internal/sqlite/user_event.go:228-254 | as many names as registrations to the event whose user exists |
| UserStore.FindUsers | internal/sqlite/user.go:136-181 | both the id and the name filter apply; the page of matches in id order with the count of all matches, or no rows, count 0 and the error |
| UserStore.FindUsersOrderedById | internal/sqlite/user.go:154 | the users come back in increasing id order |
| UserStore.FindUserById | internal/sqlite/user.go:123-132 | the user with the id, or nothing; an unknown id gives no ENOTFOUND |
| UserStore.FindUserByName | internal/sqlite/user.go:56-74 | nothing, and no error, exactly when no user has the name; otherwise that user, the only one with the name |
| UserStore.CreateUser | internal/sqlite/user.go:90-119 | the creation time is stamped. An empty name or a name in use writes nothing. Otherwise the user is appended and gets the id SQLite assigned |
| UserStore.FindMostRecentUsers | internal/sqlite/user.go:183-227 | at most five users matching the name, newest first, without their creation time, with the count of all matches; nothing and 0 exactly when none match |
| UserStore.ReadNameRows | internal/sqlite/user.go:206-217 | each row fills only the id and the name |
| UserStore.NameFilterIsSubstringSearch | internal/sqlite/user.go:186-188 | an empty name matches every user; any other name, without wildcards, is a case-folded substring search |
| Mqtt.SplitMessage | internal/mqtt/laundry_subscriber.go:50-55 | nothing exactly when the payload has no '='. The machine is the topic's suffix after its last '/'. The key is the payload's text before the first '='. The value runs from there to the next '=' or the end. main.go:126-131 splits the same way |
| Mqtt.SplitMessageOf | internal/mqtt/laundry_subscriber.go:50-55 | "<prefix>/<machine>" with "<key>=<value>[=...]" reads as that machine, key and value |
| Mqtt.Notifications | internal/mqtt/laundry_subscriber.go:160-163 | one message per name, in order: the name with spaces as '_' as the topic, "<Type> event finished", "Your laundry is ready!" |
| Mqtt.Attempted | internal/mqtt/laundry_subscriber.go:160-168 | the messages handed over are a prefix of the list. All but the last went through, and the list is cut short only by a refusal |
| Mqtt.FirstError | internal/mqtt/laundry_subscriber.go:164-167 | no error exactly when every message goes through; otherwise the first refusal |
| Mqtt.Delivered | internal/mqtt/laundry_subscriber.go:160-172 | where the loop stops fixes the messages handed over and the error returned |
| Mqtt.StopsAtFirstFailure | internal/mqtt/laundry_subscriber.go:164-167 | the first refusal ends the loop: the messages up to it are handed over and its error is returned |
| Mqtt.AllDelivered | internal/mqtt/laundry_subscriber.go:160-172 | when none is refused, every message is handed over and no error is returned |
| Mqtt.LaundrySubscriber.Send | internal/mqtt/laundry_subscriber.go:164 | the composed message is recorded as handed over, and the manager's answer comes back unchanged |
| Mqtt.LaundrySubscriber.HandleMessage | internal/mqtt/laundry_subscriber.go:47-62 | the tables, the messages sent and the outcome are those of the step function; the table constraints hold |
| Mqtt.LaundrySubscriber.HandleMessageCorrected | internal/mqtt/laundry_subscriber.go:47-62 | the same for the corrected step function |
| Mqtt.LaundrySubscriber.Run | internal/mqtt/laundry_subscriber.go:47-63 | the loop over the messages ends as the step functions chained, stopping at the first panic |
| Mqtt.LaundrySubscriber.AddNewEvent | internal/mqtt/laundry_subscriber.go:67-120 | the store effect and the error are those of the start function as written |
| Mqtt.LaundrySubscriber.AddNewEventCorrected | internal/mqtt/laundry_subscriber.go:67-120 | the same for the corrected start |
| Mqtt.LaundrySubscriber.AttachUpcoming | internal/mqtt/laundry_subscriber.go:96-113 | the lookup of pending registrations, then one update each |
| Mqtt.LaundrySubscriber.UpdateEach | internal/mqtt/laundry_subscriber.go:106-113 | the updates in order, a failed one skipped; only the registrations change |
| Mqtt.LaundrySubscriber.FinishExisting | internal/mqtt/laundry_subscriber.go:122-141 | the store effect, the messages sent and the outcome are those of the finish function |
| Mqtt.LaundrySubscriber.CloseEvent | internal/mqtt/laundry_subscriber.go:143-172 | the update, the name lookup and the notifications, as the close function defines them |
| Mqtt.LaundrySubscriber.NotifyAll | internal/mqtt/laundry_subscriber.go:160-170 | the messages handed over are those attempted up to the first refusal, and that refusal is the error |
| MqttProperties.OtherKeysChangeNothing | internal/mqtt/laundry_subscriber.go:57-62 | a key other than started_at and finished_at changes nothing, in both versions |
| MqttProperties.MalformedPayloadPanics | internal/mqtt/laundry_subscriber.go:53-55 | as written, a payload without '=' panics with an index out of range |
| MqttProperties.MalformedPayloadDropped | internal/mqtt/laundry_subscriber.go:53-55 | as intended, such a payload is dropped with nothing changed |
| MqttProperties.UnparseableChangesNothing | internal/mqtt/laundry_subscriber.go:68-72 | an unparseable start time or finish time (lines 123-127) returns the parse error, with nothing changed |
| MqttProperties.StartNeverWrites | internal/mqtt/laundry_subscriber.go:83-93 | as written, a start never writes, and it succeeds exactly when the machine already runs: every other start is refused by validation |
| MqttProperties.DuplicateStartIgnored | internal/mqtt/laundry_subscriber.go:76-117 | a start while the newest event of the type is open changes nothing |
| MqttProperties.TwoStartsOneEvent | internal/mqtt/laundry_subscriber.go:76-117 | two starts of an idle machine with no finish between them store one event, provided the first is later than every earlier start of the type; the second finds the machine running and changes nothing |
| MqttProperties.StartCorrectedKeepsValid | internal/mqtt/laundry_subscriber.go:76-117 | the corrected start keeps the table constraints |
| MqttProperties.AttachAllKeepsConstraints | internal/mqtt/laundry_subscriber.go:106-113 | the attach loop keeps the registrations' ids and UNIQUE (user_id, event_id) |
| MqttProperties.StartOpens | internal/mqtt/laundry_subscriber.go:83-94 | a start of an idle machine appends exactly one unfinished event under the next id. The users and the notifications are untouched. A start later than every start of the type leaves the machine running |
| MqttProperties.NewestStartRuns | internal/mqtt/laundry_subscriber.go:77-83 | an open event that starts after every other of its type makes its machine running |
| MqttProperties.AttachTouchesOnlyRegistrations | internal/mqtt/laundry_subscriber.go:96-113 | attaching changes neither events nor users, sends nothing, and always returns |
| MqttProperties.StartCorrectedEvents | internal/mqtt/laundry_subscriber.go:83-94 | a start adds an event exactly when the time parses, the machine is idle and the event validates |
| MqttProperties.FinishWithoutEventPanics | internal/mqtt/laundry_subscriber.go:132-138 | as written, a finish for a type with no event panics on a nil event |
| MqttProperties.FinishWithoutEventIgnored | internal/mqtt/laundry_subscriber.go:132-138 | as intended, such a finish changes nothing |
| MqttProperties.FinishWhenFinished | internal/mqtt/laundry_subscriber.go:138-141 | when the newest event of the type is finished, a finish updates nothing and notifies no one |
| MqttProperties.FinishCloses | internal/mqtt/laundry_subscriber.go:143-170 | a finish while the machine runs sets the finish time of the newest event of the type and of no other row. The users registered to it are notified, in order, until the first refusal, which is returned |
| MqttProperties.OneOpenPerMachine | internal/mqtt/laundry_subscriber.go:76-85 | while every open event is the newest of its type, a machine has at most one open event |
| MqttProperties.CloseKeepsOpenIsLatest | internal/mqtt/laundry_subscriber.go:144-146 | setting an event's finish time keeps the one-open-event rule |
| MqttProperties.FinishKeepsOpenIsLatest | internal/mqtt/laundry_subscriber.go:122-151 | the finish path keeps the rule |
| MqttProperties.StepKeepsOpenIsLatest | internal/mqtt/laundry_subscriber.go:47-62 | as written, every message keeps the rule |
| MqttProperties.IdleHasNoOpenEvent | internal/mqtt/laundry_subscriber.go:83 | under the rule, an idle machine has no open event at all |
| MqttProperties.AppendNewestKeepsOpenIsLatest | internal/mqtt/laundry_subscriber.go:85-89 | adding an open event later than every other of its type, none of them open, keeps the rule |
| MqttProperties.StartCorrectedKeepsOpenIsLatest | internal/mqtt/laundry_subscriber.go:76-117 | the corrected start keeps the rule when starts come in time order |
| MqttProperties.StepCorrectedKeepsOpenIsLatest | internal/mqtt/laundry_subscriber.go:47-62 | the corrected loop keeps the rule when starts come in time order |
| MqttProperties.AttachWithoutIdChangesNothing | internal/mqtt/laundry_subscriber.go:106-113 | with the event id never read back (0), the attach loop changes no registration |
| MqttProperties.AttachAllAttaches | internal/mqtt/laundry_subscriber.go:106-113 | each looked-up registration (distinct, pending, of distinct users) gets the event id, and every other row is as it was |
| MqttProperties.AttachStep | internal/mqtt/laundry_subscriber.go:107 | one update attaches its pending row |
| MqttProperties.UpcomingArePending | internal/mqtt/laundry_subscriber.go:96-101 | the registrations the lookup returns are distinct pending rows of the type, of distinct users |
| MqttProperties.StartAttachesUpcoming | internal/mqtt/laundry_subscriber.go:89-113 | the corrected start of an idle machine attaches every looked-up registration to the new event's id and changes no other registration |
| MqttProperties.NamesShareTopic | internal/mqtt/laundry_subscriber.go:161 | two names are notified on the same topic exactly when they differ only by spaces against '_' ("Ann Lee" and "Ann_Lee"), so distinct users can receive each other's notifications |
| Legacy.NewestOpen | main.go:155-160 | nothing exactly when no event of the type is open; otherwise an open event of the type with the latest start |
| Legacy.Notice | main.go:193-203 | the URL is NTFY_URL, a '-', then the name with spaces as '-'. The title is the title-cased type and the body is "<Type> has finished" |
| Legacy.Notices | main.go:185-203 | one request per registered name, in order |
| Legacy.FirstBadUrl | main.go:198-203 | the first request whose URL does not parse, or none when all parse |
| Legacy.LegacyStep | main.go:122-224 | every message keeps the table constraints |
| Legacy.FinishKeepsValid | main.go:153-177 | the finish branch keeps the table constraints |
| Legacy.MostRecentEvent | main.go:281-291 | nothing exactly for an empty table; otherwise an event whose latest activity, max(start, finish or start), is the greatest of all types |
| Legacy.IdOfName | main.go:421 | NULL exactly when no user has the name; otherwise that user's id |
| Legacy.AddUser | main.go:367-380 | inserting the user keeps the table constraints, UNIQUE names among them |
| Legacy.Enrol | main.go:394-446 | the registration keeps the table constraints; which row it writes, if any, is stated by KnownUserDecision |
| Legacy.Register | main.go:350-447 | the request keeps the table constraints; what it writes and renders is stated by KnownUserDecision, NewUserNotEnrolled, NewNameEnrolsEmptyUser, NewEmptyNameEnrolled and NoEventsEnrolsEventZero |
| Legacy.RegisterCorrected | main.go:350-447 | the corrected request keeps the table constraints |
| Legacy.LegacyEngine.HandleMessage | main.go:122-224 | the tables, the requests posted and the outcome are those of the step function |
| Legacy.LegacyEngine.Close | main.go:153-216 | the finish branch, as the finish function defines it |
| Legacy.LegacyEngine.PostAll | main.go:185-215 | every request is posted whatever ntfy.sh answers, until a URL that does not parse panics |
| Legacy.LegacyEngine.Run | main.go:122-224 | the loop ends as the step functions chained, stopping at the first panic |
| Legacy.LegacyEngine.HandleRegister | main.go:350-447 | the tables and the pages rendered are those of the request function as written |
| Legacy.LegacyEngine.HandleRegisterCorrected | main.go:350-447 | the same for the corrected request |
| Legacy.LegacyEngine.AddUserTo | main.go:371-378 | the insert of the user |
| Legacy.LegacyEngine.EnrolIn | main.go:394-446 | the registration for the event or for the next one |
| LegacyProperties.StartAlwaysOpens | main.go:139-152 | every start appends an open event under the next id, even while the machine runs |
| LegacyProperties.DoubleStartOpensTwo | main.go:139-152 | two starts with no finish between them leave two open events of the type |
| LegacyProperties.FinishWithoutOpenChangesNothing | main.go:155-164 | with no open event of the type a finish changes nothing and posts nothing |
| LegacyProperties.FinishClosesNewestOpen | main.go:153-215 | a finish sets the finish time of the newest open event of the type and of no other row, and posts to every registered user in order |
| LegacyProperties.BadUrlRollsBack | main.go:198-218 | a URL that does not parse panics: the requests before it are posted and the finish time is never committed |
| LegacyProperties.EnginesDisagreeOnStaleOpen | main.go:153-177 | when the newest event of a type is finished and an older one is open, the subscriber ignores a finish while this engine closes the older event |
| LegacyProperties.NewUserNotEnrolled | main.go:356-380 | as written, when no user is called "", a new user is inserted but not registered, and the page shows the NOT NULL error |
| LegacyProperties.NewNameEnrolsEmptyUser | main.go:356-446 | as written, when a user called "" exists, a new user is inserted, and the registration goes to the stored "" user in its place, with no NOT NULL error |
| LegacyProperties.NewEmptyNameEnrolled | main.go:356-446 | as written, a new empty name is inserted as a user and then registered like a known user |
| LegacyProperties.IdOfNameKept | main.go:421 | adding a user does not change the id the subquery gives for a name already taken |
| LegacyProperties.NewUserEnrolled | main.go:350-447 | as intended, a new user is inserted and registered: for the next event when the most recent is finished, otherwise for it |
| LegacyProperties.CorrectedAgreesOnKnownUsers | main.go:356-368 | for an existing user, both versions do the same |
| LegacyProperties.RegisterAgainChangesNothing | main.go:396-428 | a user registering twice changes the tables only the first time |
| LegacyProperties.KnownUserDecision | main.go:394-440 | for a known user, with the most recent event (or the zero event): finished with a waiting registration, nothing is written and "registered" is shown; finished without one, a registration with a NULL event is appended; unfinished, a registration for its id is appended, or nothing is written and the UNIQUE error is shown when the user already has one |
| LegacyProperties.KnownUserEnrols | main.go:367-368 | for a known user only the registration is written |
| LegacyProperties.EnrolWritesOnlyRegistrations | main.go:394-440 | the registration step writes neither users nor events |
| LegacyProperties.EnrolAgain | main.go:396-440 | enrolling a known user again for the same event changes nothing |
| LegacyProperties.NoEventsEnrolsEventZero | main.go:384-393 | with no event at all, a known user is registered to the zero event, id 0 |
| LegacyProperties.NamesShareUrl | main.go:194-195 | two names are posted to the same URL exactly when they differ only by spaces against '-' ("Ann Lee" and "Ann-Lee") |

## Left out

- The MQTT client, the channel and the goroutine that feed `Subscribe`. The engines receive a sequence of (topic, payload) messages instead.
- Time parsing and formatting, title-casing, SQLite's `datetime()`, the ntfy manager and the HTTP POST. These are library or foreign calls, so the model takes them as parameters.
- `time.Parse` in the first engine: it stores the payload text as it is, and `stamp` is the time that text stands for when SQLite compares it. Text order and time order are taken to agree.
- Logging, and the `log.Fatal` exits in `main.go` (lines 157 and 361). These only stop the process on driver failures, which the model does not have.
- Driver failures in general: BeginTx, Prepare, Exec and Commit failing, `rows.Err()`, a 32-bit `LastInsertId`. None of these can happen in the in-memory tables.
- Transaction mechanics. Each store call is atomic. The legacy loop's `continue` after `tx.Begin` leaves a transaction open, and that is not modelled.
- The schema DDL, migrations and `DB.Open`/`Close`, which are startup plumbing. Their constraints (positive increasing ids, UNIQUE names, UNIQUE `(user_id, event_id)`, NOT NULL `user_id`) are modelled.
- The row order of joins without ORDER BY. FindUserNamesByEventId (internal/sqlite/user_event.go:228-254) and the legacy name join (main.go:180) may come back in any order SQLite picks, for example through the UNIQUE (user_id, event_id) index. The model takes user_events id order. So the order of notifications in MqttProperties.FinishCloses and LegacyProperties.FinishClosesNewestOpen, and which requests LegacyProperties.BadUrlRollsBack posts before a bad URL, hold for that order only.
- Ties between rows with equal sort keys. Which tied row SQLite returns first is not specified, so the model picks one, and the contracts speak only of the key.
- NULL user names, and names holding LIKE wildcards. `NameFilterIsSubstringSearch` covers names without `%` or `_`.
- Case folding beyond ASCII letters, which SQLite's LIKE does not fold anyway.
- The version skew of the root structs (`time.Time` finish times and no `Type` field). The model follows the sqlite and mqtt code: finish times are optional, and records carry a type.
- Ntfy.Notify: it is only the manager applied to `Compose`, so its contract is `Compose`'s and the manager's answer is returned unchanged.
- MqttProperties.StartAttachesUpcoming: it assumes referential integrity. Every registration's event id names an existing event, and pending rows have a user and a creation time. The schema does not enforce this.
- LegacyProperties.NewUserEnrolled: it assumes every registration's user id names an existing user. The schema does not enforce this.
- The web UI, the router, templates other than `dict`, and `cmd/laundryNotify` startup. These are presentation and wiring.

## Findings

| source | as written | input that shows it | evidently intended | confidence | as-written member | corrected member |
|---|---|---|---|---|---|---|
| internal/mqtt/laundry_subscriber.go:85-93 | the new event has no finish time, and createEvent rejects it with Event.Validate, which demands one | "started_at=2024-05-01T10:00:00Z" on home/laundry/washer with no washer event | an unfinished cycle is stored and the machine runs | not executed | MqttProperties.StartNeverWrites | MqttProperties.StartOpens |
| internal/sqlite/event.go:106-120 | createEvent never reads back the inserted id, so the attach loop sends EventId 0, which updateUserEvent ignores and Validate refuses | a pending washer registration, then a washer start | each pending registration is attached to the new event | not executed | MqttProperties.AttachWithoutIdChangesNothing | MqttProperties.StartAttachesUpcoming |
| internal/mqtt/laundry_subscriber.go:132-138 | findMostRecentEvent returns nil with no error when the type has no event, and `.FinishedAt` is read through it | "finished_at=2024-05-01T11:00:00Z" on home/laundry/dryer with no dryer event | the message is ignored | not executed | MqttProperties.FinishWithoutEventPanics | MqttProperties.FinishWithoutEventIgnored |
| internal/mqtt/laundry_subscriber.go:53-55 | `messageSlice[1]` is read without checking the split's length | payload "online" | a malformed payload is dropped | not executed | MqttProperties.MalformedPayloadPanics | MqttProperties.MalformedPayloadDropped |
| main.go:356-380 | `name` is only set when the user already exists, so for a new user the later lookups use "": when no user is called "", the insert gets a NULL user id, and when one is, that user is registered instead | register "Ann" when no user is called "Ann" or "" | the new user is registered | not executed | LegacyProperties.NewUserNotEnrolled | LegacyProperties.NewUserEnrolled |
