/** The root package of the laundry notifier: the records that the stores
    persist, their validation rules, and the error values the code returns. */
module LaundryNotify {

  /** An instant, in whole seconds counted from Go's zero time. The value 0 is
      the zero time, the one `time.Time.IsZero` reports. */
  type Time = int

  datatype Option<+T> = None | Some(value: T) {
    function GetOr(default: T): T {
      match this
      case Some(v) => v
      case None => default
    }
  }

  datatype Result<+T> = Ok(value: T) | Err(error: Error)

  /** The application error codes used with `Errorf`. */
  datatype Code = EInvalid | ENotFound

  datatype Error =
    | AppError(code: Code, message: string) // Errorf(code, format, args...)
    | FmtError(message: string)             // fmt.Errorf(...)
    | ParseError(text: string)              // time.Parse rejected the text
    | ScanError                             // database/sql cannot store a NULL column in an int field
    | NoRows                                // sql.ErrNoRows: QueryRow found nothing
    | ConstraintError                       // SQLite refused a write (NOT NULL or UNIQUE)
    | SyntaxError                           // SQLite refused the statement text
    | TransportError                        // the notification transport failed

  /** A finish time that is absent, or present but the zero time, counts as zero. */
  predicate IsZeroTime(t: Option<Time>) {
    t.None? || t.value == 0
  }

  /** One machine cycle. `finishedAt` is None while the cycle runs. */
  datatype Event = Event(id: int, kind: string, startedAt: Time, finishedAt: Option<Time>)

  /** Event.Validate: the type, the start time and the finish time are required,
      checked in that order. */
  function ValidateEvent(e: Event): (r: Option<Error>)
    ensures r.None? <==> e.kind != "" && e.startedAt != 0 && !IsZeroTime(e.finishedAt)
    ensures e.kind == "" ==> r == Some(AppError(EInvalid, "Event type required."))
    ensures e.kind != "" && e.startedAt == 0 ==> r == Some(AppError(EInvalid, "Event start time required."))
    ensures e.kind != "" && e.startedAt != 0 && IsZeroTime(e.finishedAt) ==>
              r == Some(AppError(EInvalid, "Event finish time required."))
  {
    if e.kind == "" then Some(AppError(EInvalid, "Event type required."))
    else if e.startedAt == 0 then Some(AppError(EInvalid, "Event start time required."))
    else if IsZeroTime(e.finishedAt) then Some(AppError(EInvalid, "Event finish time required."))
    else None
  }

  /** The check a cycle that has only just started can pass: the type and the
      start time are required, and the finish time is not. */
  function ValidateNewEvent(e: Event): (r: Option<Error>)
    ensures r.None? <==> e.kind != "" && e.startedAt != 0
    ensures r.Some? ==> ValidateEvent(e) == r
  {
    if e.kind == "" then Some(AppError(EInvalid, "Event type required."))
    else if e.startedAt == 0 then Some(AppError(EInvalid, "Event start time required."))
    else None
  }

  /** A registration of a user's interest in a cycle. `eventId` 0 means that no
      cycle is attached yet. */
  datatype UserEvent = UserEvent(id: int, userId: int, eventId: int, createdAt: Time, kind: string)

  /** UserEvent.Validate: an event id, a user id and a creation time are
      required, checked in that order. */
  function ValidateUserEvent(u: UserEvent): (r: Option<Error>)
    ensures r.None? <==> u.eventId > 0 && u.userId > 0 && u.createdAt != 0
    ensures u.eventId <= 0 ==> r == Some(AppError(EInvalid, "Event ID required."))
    ensures u.eventId > 0 && u.userId <= 0 ==> r == Some(AppError(EInvalid, "User ID required."))
    ensures u.eventId > 0 && u.userId > 0 && u.createdAt == 0 ==>
              r == Some(AppError(EInvalid, "UserEvent creation time required."))
  {
    if u.eventId <= 0 then Some(AppError(EInvalid, "Event ID required."))
    else if u.userId <= 0 then Some(AppError(EInvalid, "User ID required."))
    else if u.createdAt == 0 then Some(AppError(EInvalid, "UserEvent creation time required."))
    else None
  }

  datatype User = User(id: int, name: string, createdAt: Time)

  /** User.Validate: only the name is checked. */
  function ValidateUser(u: User): (r: Option<Error>)
    ensures r.None? <==> u.name != ""
    ensures r.Some? ==> r == Some(AppError(EInvalid, "User name required."))
  {
    if u.name == "" then Some(AppError(EInvalid, "User name required.")) else None
  }

  /** A registration that waits for the next cycle never validates. */
  lemma PendingRegistrationNeverValidates(u: UserEvent)
    requires u.eventId == 0
    ensures ValidateUserEvent(u).Some?
  {
  }

  /** The user check reads the name and nothing else. */
  lemma ValidateUserIgnoresIdAndCreation(u: User, id: int, createdAt: Time)
    ensures ValidateUser(u.(id := id, createdAt := createdAt)) == ValidateUser(u)
  {
  }
}
