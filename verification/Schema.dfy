/**
 * The tables behind attendance and corrections.  Sessions, breaks, events and
 * requests are never deleted, so a row number is a position in its sequence;
 * bookings can be deleted and their numbers are never used again.
 */
module Schema {
  import opened Wrappers
  import opened Booking
  import Json

  datatype Role = Employee | Supervisor | Admin

  datatype User = User(role: Role, supervisor: Option<int>)

  datatype Session = Session(user: int, record: int, started: int, ended: Option<int>)

  datatype Break = Break(session: nat, started: int, ended: Option<int>)

  datatype Action = Start | PauseStart | PauseEnd | End

  datatype State = Absent | Working | Paused

  datatype Metadata = Metadata(location: string, note: string)

  /** What the payload hash covers; equal hashes stand for equal payloads. */
  datatype Payload = Payload(user: int, action: Action, confirm: bool, expected: Option<int>,
                             metadata: Option<Metadata>)

  /** The stored answer to an event. */
  datatype Receipt = Receipt(eventId: string, record: int, state: State, time: int, metadata: Option<Metadata>)

  datatype Event = Event(
    source: string,
    eventId: string,
    user: int,
    session: nat,
    action: Action,
    receivedAt: int,
    payload: Payload,
    receipt: Receipt)

  datatype Status = Pending | Approved | Rejected | Withdrawn

  datatype Request = Request(
    user: int,
    record: Option<int>,
    start: int,
    end: int,
    pause: int,
    reason: string,
    status: Status,
    reviewer: Option<int>,
    reviewedAt: Option<int>,
    reviewReason: Option<string>,
    original: Option<Json.Document>,
    createdAt: int,
    cancel: bool)

  datatype Db = Db(
    records: map<int, Record>,
    nextRecord: int,
    sessions: seq<Session>,
    breaks: seq<Break>,
    events: seq<Event>,
    requests: seq<Request>,
    users: map<int, User>)

  /** Every way an operation of the model refuses. */
  datatype Error =
    | InvalidEventId
    | InvalidAction
    | InvalidMetadata
    | MetadataNotAllowed
    | UnknownAccount
    | EventIdReused
    | MissingBinding
    | SeveralLegacyBookings
    | InvalidLegacyBooking
    | AlreadyOpen
    | Overlapping
    | NothingOpen
    | OtherSession
    | ClockBehind
    | BreakRunning
    | NoBreak
    | ConfirmationNeeded
    | ConstraintViolated
    | NotOwnBooking
    | InvalidSelection
    | SessionRunning
    | CancelNeedsBooking
    | InvalidTime
    | InvalidReason
    | InvalidCorrection
    | NotAuthorised
    | AccountGone
    | InvalidDecision
    | UnreadableRequest
    | UnexpectedOriginal
    | BookingChanged
    | NotCompletedWork
    | Unchanged
    | TooLarge
    | NotWithdrawable
    | StaleIdentity
    | InvalidDays

  /** The HTTP status an error is reported with. */
  function StatusOf(e: Error): int {
    match e
    case InvalidEventId | InvalidAction | InvalidMetadata | MetadataNotAllowed => 400
    case InvalidSelection | InvalidTime | InvalidReason | InvalidCorrection | InvalidDecision => 400
    case NotCompletedWork | Unchanged | TooLarge | InvalidDays => 400
    case StaleIdentity => 401
    case UnknownAccount | NotAuthorised => 403
    case ConstraintViolated => 503
    case _ => 409
  }

  /** The position of the last session of the user that has not ended, or -1. */
  function OpenSession(sessions: seq<Session>, user: int): (i: int)
    ensures -1 <= i < |sessions|
    ensures i >= 0 ==> sessions[i].user == user && sessions[i].ended.None?
    ensures i < 0 ==> forall k :: 0 <= k < |sessions| ==> !(sessions[k].user == user && sessions[k].ended.None?)
  {
    if sessions == [] then -1
    else
      var last := |sessions| - 1;
      if sessions[last].user == user && sessions[last].ended.None? then last
      else OpenSession(sessions[..last], user)
  }

  /** The position of the last break of the session that has not ended, or -1. */
  function OpenBreak(breaks: seq<Break>, session: int): (i: int)
    ensures -1 <= i < |breaks|
    ensures i >= 0 ==> breaks[i].session == session && breaks[i].ended.None?
    ensures i < 0 ==> forall k :: 0 <= k < |breaks| ==> !(breaks[k].session == session && breaks[k].ended.None?)
  {
    if breaks == [] then -1
    else
      var last := |breaks| - 1;
      if breaks[last].session == session && breaks[last].ended.None? then last
      else OpenBreak(breaks[..last], session)
  }

  /** The position of the last event with the given key, or -1. */
  function FindEvent(events: seq<Event>, source: string, eventId: string): (i: int)
    ensures -1 <= i < |events|
    ensures i >= 0 ==> events[i].source == source && events[i].eventId == eventId
    ensures i < 0 ==> forall k :: 0 <= k < |events| ==> !(events[k].source == source && events[k].eventId == eventId)
  {
    if events == [] then -1
    else
      var last := |events| - 1;
      if events[last].source == source && events[last].eventId == eventId then last
      else FindEvent(events[..last], source, eventId)
  }

  predicate IsOpenOf(records: map<int, Record>, user: int, id: int) {
    id in records && records[id].user == user && records[id].end.None?
  }

  /** The numbers below `bound` of the user's open bookings, in ascending order. */
  function OpenBookings(records: map<int, Record>, user: int, bound: int): (ids: seq<int>)
    ensures forall k :: 0 <= k < |ids| ==> 0 < ids[k] < bound && IsOpenOf(records, user, ids[k])
    ensures forall j, k :: 0 <= j < k < |ids| ==> ids[j] < ids[k]
    ensures forall id :: 0 < id < bound && IsOpenOf(records, user, id) ==> id in ids
    decreases bound
  {
    if bound <= 1 then []
    else
      OpenBookings(records, user, bound - 1) + (if IsOpenOf(records, user, bound - 1) then [bound - 1] else [])
  }

  predicate HasSession(sessions: seq<Session>, record: int) {
    exists i | 0 <= i < |sessions| :: sessions[i].record == record
  }

  predicate HasOpenSession(sessions: seq<Session>, record: int) {
    exists i | 0 <= i < |sessions| :: sessions[i].record == record && sessions[i].ended.None?
  }

  /** The seconds of all ended breaks of a session. */
  function ClosedSeconds(breaks: seq<Break>, session: int): int {
    if breaks == [] then 0
    else
      var b := breaks[|breaks| - 1];
      ClosedSeconds(breaks[..|breaks| - 1], session)
      + (if b.session == session && b.ended.Some? then b.ended.value - b.started else 0)
  }

  function Max(a: int, b: int): int {
    if a < b then b else a
  }

  /** The latest mark of any break of a session, 0 when it has none. */
  function LastBreak(breaks: seq<Break>, session: int): int {
    if breaks == [] then 0
    else
      var b := breaks[|breaks| - 1];
      var rest := LastBreak(breaks[..|breaks| - 1], session);
      if b.session != session then rest
      else Max(rest, Max(b.started, if b.ended.Some? then b.ended.value else b.started))
  }

  /** When the latest event of a session was received, 0 when it has none. */
  function LastEvent(events: seq<Event>, session: int): int {
    if events == [] then 0
    else
      var e := events[|events| - 1];
      var rest := LastEvent(events[..|events| - 1], session);
      if e.session != session then rest else Max(rest, e.receivedAt)
  }
}
