/**
 * Stamping (lib/attendance.php): what a valid, authenticated event does to the
 * tables, when it is refused, and how a repeated event is answered.
 */
module Attendance {
  import opened Wrappers
  import opened Booking
  import opened Schema

  predicate EventIdChar(c: char) {
    'A' <= c <= 'Z' || 'a' <= c <= 'z' || '0' <= c <= '9' || c == '_' || c == '-'
  }

  predicate ValidEventId(id: string) {
    16 <= |id| <= 80 && forall i :: 0 <= i < |id| ==> EventIdChar(id[i])
  }

  function ParseAction(text: string): Option<Action> {
    if text == "start" then Some(Start)
    else if text == "pause_start" then Some(PauseStart)
    else if text == "pause_end" then Some(PauseEnd)
    else if text == "end" then Some(End)
    else None
  }

  /** The length of a text in UTF-8 bytes. */
  function Utf8Bytes(s: string): nat {
    if s == "" then 0
    else
      var n := s[|s| - 1] as int;
      Utf8Bytes(s[..|s| - 1]) + (if n < 0x80 then 1 else if n < 0x800 then 2 else if n < 0x1_0000 then 3 else 4)
  }

  predicate ControlChar(c: char) {
    c as int < 0x20 || c as int == 0x7F
  }

  predicate ValidMetadata(m: Metadata) {
    && (m.location == "office" || m.location == "home_office" || m.location == "business_trip")
    && Utf8Bytes(m.note) <= 1000
    && (forall i :: 0 <= i < |m.note| ==> !ControlChar(m.note[i]))
    && !ReservedNote(m.note)
  }

  /** Metadata that says more than the default place without a note. */
  predicate Nondefault(m: Option<Metadata>) {
    m.Some? && (m.value.location != "office" || m.value.note != "")
  }

  /** An authenticated event as a caller hands it over. */
  datatype Command = Command(
    user: int,
    source: string,
    eventId: string,
    action: string,
    confirm: bool,
    expected: Option<int>,
    requireExpected: bool,
    metadata: Option<Metadata>)

  function PayloadOf(c: Command, action: Action): Payload {
    Payload(c.user, action, c.confirm, c.expected, if Nondefault(c.metadata) then c.metadata else None)
  }

  /** Before anything is written an event is refused, answered from the log, or let through. */
  datatype Admission = Refused(error: Error) | Replayed(receipt: Receipt) | Admitted(action: Action)

  function Admit(db: Db, c: Command): Admission {
    var parsed := ParseAction(c.action);
    if !ValidEventId(c.eventId) then Refused(InvalidEventId)
    else if parsed.None? then Refused(InvalidAction)
    else if c.user !in db.users then Refused(UnknownAccount)
    else if c.metadata.Some? && !ValidMetadata(c.metadata.value) then Refused(InvalidMetadata)
    else if parsed.value != Start && c.metadata.Some? then Refused(MetadataNotAllowed)
    else
      var i := FindEvent(db.events, c.source, c.eventId);
      if i >= 0 then
        if db.events[i].payload != PayloadOf(c, parsed.value) then Refused(EventIdReused)
        else Replayed(db.events[i].receipt)
      else if c.requireExpected && parsed.value != Start && c.expected.None? then Refused(MissingBinding)
      else Admitted(parsed.value)
  }

  /** The user's current state and the booking it belongs to. */
  function StatusOfUser(db: Db, user: int): (State, Option<int>) {
    var s := OpenSession(db.sessions, user);
    if s >= 0 then
      (if OpenBreak(db.breaks, s) >= 0 then Paused else Working, Some(db.sessions[s].record))
    else
      var legacy := OpenBookings(db.records, user, db.nextRecord);
      if legacy != [] then (Working, Some(legacy[0])) else (Absent, None)
  }

  /** Adding a session: one per booking, and at most one open one per user. */
  function InsertSession(db: Db, s: Session): (r: Result<Db, Error>)
    ensures r.Success? ==> r.value.sessions == db.sessions + [s]
  {
    if HasSession(db.sessions, s.record) || (s.ended.None? && OpenSession(db.sessions, s.user) >= 0)
      then Failure(ConstraintViolated)
    else Success(db.(sessions := db.sessions + [s]))
  }

  function InsertRecord(db: Db, r: Record): Db {
    db.(records := db.records[db.nextRecord := r], nextRecord := db.nextRecord + 1)
  }

  /** A first stamp: a new booking and its session, both from now on. */
  function Open(z: Zone, db: Db, now: int, c: Command): (r: Result<(Db, nat), Error>)
    ensures r.Success? ==> r.value.1 < |r.value.0.sessions|
  {
    if OpenSession(db.sessions, c.user) >= 0 || OpenBookings(db.records, c.user, db.nextRecord) != []
      then Failure(AlreadyOpen)
    else if !NoOverlap(z, db.records, c.user, now, now + 1, 0) then Failure(Overlapping)
    else
      var note := if c.metadata.Some? then c.metadata.value.note else "";
      var location := if c.metadata.Some? then c.metadata.value.location else "office";
      var booked := InsertRecord(db, Record(c.user, now, None, 0, note, location, None, None));
      var started :- InsertSession(booked, Session(c.user, db.nextRecord, now, None));
      Success((started, |db.sessions|))
  }

  /** The session a later stamp belongs to; a single open booking without one is given one. */
  function Adopt(db: Db, now: int, user: int): (r: Result<(Db, nat), Error>)
    ensures r.Success? ==> r.value.1 < |r.value.0.sessions|
  {
    var s := OpenSession(db.sessions, user);
    if s >= 0 then Success((db, s))
    else
      var legacy := OpenBookings(db.records, user, db.nextRecord);
      if |legacy| > 1 then Failure(SeveralLegacyBookings)
      else if legacy == [] then Failure(NothingOpen)
      else if db.records[legacy[0]].start > now then Failure(InvalidLegacyBooking)
      else
        var adopted :- InsertSession(db, Session(user, legacy[0], db.records[legacy[0]].start, None));
        Success((adopted, |db.sessions|))
  }

  /** What forbids a later stamp on session s. */
  function Obstacle(db: Db, s: nat, now: int, c: Command, action: Action): Option<Error>
    requires s < |db.sessions|
  {
    var b := OpenBreak(db.breaks, s);
    if c.expected.Some? && db.sessions[s].record != c.expected.value then Some(OtherSession)
    else if now < Max(db.sessions[s].started, Max(LastEvent(db.events, s), LastBreak(db.breaks, s)))
      then Some(ClockBehind)
    else if action == PauseStart && b >= 0 then Some(BreakRunning)
    else if action == PauseEnd && b < 0 then Some(NoBreak)
    else if action == End && b >= 0 && !c.confirm then Some(ConfirmationNeeded)
    else None
  }

  function StampedBreaks(breaks: seq<Break>, s: nat, now: int, action: Action): seq<Break> {
    var b := OpenBreak(breaks, s);
    if action == PauseStart then breaks + [Break(s, now, None)]
    else if b >= 0 then breaks[b := breaks[b].(ended := Some(now))]
    else breaks
  }

  /** The tables after a permitted later stamp: intervals marked, pause recomputed in whole minutes. */
  function Stamp(db: Db, s: nat, now: int, action: Action): Db
    requires s < |db.sessions|
  {
    var id := db.sessions[s].record;
    var breaks := StampedBreaks(db.breaks, s, now, action);
    db.(
      breaks := breaks,
      sessions := if action == End then db.sessions[s := db.sessions[s].(ended := Some(now))] else db.sessions,
      records :=
        if id !in db.records then db.records
        else
          db.records[id := db.records[id].(
            end := if action == End then Some(now) else db.records[id].end,
            pause := ClosedSeconds(breaks, s) / 60)])
  }

  function Later(db: Db, now: int, c: Command, action: Action): (r: Result<(Db, nat), Error>)
    ensures r.Success? ==> r.value.1 < |r.value.0.sessions|
  {
    var (adopted, s) :- Adopt(db, now, c.user);
    var obstacle := Obstacle(adopted, s, now, c, action);
    if obstacle.Some? then Failure(obstacle.value)
    else Success((Stamp(adopted, s, now, action), s))
  }

  function ReceiptFor(db: Db, s: nat, now: int, c: Command, action: Action): Receipt
    requires s < |db.sessions|
  {
    Receipt(c.eventId, db.sessions[s].record, StatusOfUser(db, c.user).0, now,
            if action == Start && Nondefault(c.metadata) then c.metadata else None)
  }

  function Log(db: Db, s: nat, now: int, c: Command, action: Action): (Db, Receipt)
    requires s < |db.sessions|
  {
    var receipt := ReceiptFor(db, s, now, c, action);
    (db.(events := db.events + [Event(c.source, c.eventId, c.user, s, action, now, PayloadOf(c, action), receipt)]),
     receipt)
  }

  /** The booked tables and the session, before the event itself is logged. */
  function Booked(z: Zone, db: Db, now: int, c: Command, action: Action): (r: Result<(Db, nat), Error>)
    ensures r.Success? ==> r.value.1 < |r.value.0.sessions|
  {
    if action == Start then Open(z, db, now, c) else Later(db, now, c, action)
  }

  function Perform(z: Zone, db: Db, now: int, c: Command, action: Action): Result<(Db, Receipt), Error> {
    var (booked, s) :- Booked(z, db, now, c, action);
    Success(Log(booked, s, now, c, action))
  }

  /** One stamping transaction: the answer, and the tables it leaves. */
  function Transition(z: Zone, db: Db, now: int, c: Command): (Result<Receipt, Error>, Db) {
    match Admit(db, c)
    case Refused(e) => (Failure(e), db)
    case Replayed(receipt) => (Success(receipt), db)
    case Admitted(action) =>
      match Perform(z, db, now, c, action)
      case Failure(e) => (Failure(e), db)
      case Success((after, receipt)) => (Success(receipt), after)
  }
}
