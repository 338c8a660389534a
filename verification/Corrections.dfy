/**
 * Correction requests (lib/corrections.php, lib/correction_withdrawal.php) and
 * absence credits (lib/practice.php): what each transaction does to the tables.
 */
module Corrections {
  import opened Wrappers
  import opened Booking
  import opened Schema
  import opened Attendance
  import opened CorrectionMetadata
  import Json

  /** The user's booking with a number, if there is one. */
  function OwnBooking(db: Db, user: int, id: int): Option<Record> {
    if id in db.records && db.records[id].user == user then Some(db.records[id]) else None
  }

  predicate Blank(c: char) {
    c == ' ' || c == '\t' || c == '\n' || c == '\r' || c as int == 0 || c as int == 11
  }

  function TrimLeft(s: string): string {
    if s != "" && Blank(s[0]) then TrimLeft(s[1..]) else s
  }

  function Trim(s: string): string {
    TrimRight(TrimLeft(s))
  }

  function TrimRight(s: string): string {
    if s != "" && Blank(s[|s| - 1]) then TrimRight(s[..|s| - 1]) else s
  }

  predicate ReasonLength(reason: string, least: nat) {
    least <= Utf8Bytes(Trim(reason)) <= 1000
  }

  // --- Asking ---

  /** A request as submitted: record 0 asks for a new booking, unreadable fields are None. */
  datatype Ask = Ask(record: int, cancel: bool, start: Option<int>, end: Option<int>, pause: Option<int>,
                     reason: string)

  function NewRequest(user: int, record: Option<int>, start: int, end: int, pause: int, reason: string,
                      original: Option<Json.Document>, now: int, cancel: bool): Request {
    Request(user, record, start, end, pause, Trim(reason), Pending, None, None, None, original, now, cancel)
  }

  function InsertRequest(db: Db, r: Request): Db {
    db.(requests := db.requests + [r])
  }

  function RequestCorrection(z: Zone, db: Db, now: int, user: int, ask: Ask): Result<Db, Error> {
    var booked := if ask.record != 0 then OwnBooking(db, user, ask.record) else None;
    var record := if ask.record != 0 then Some(ask.record) else None;
    var original := if booked.Some? then Some(Snapshot(ask.record, booked.value)) else None;
    if ask.record != 0 && booked.None? then Failure(NotOwnBooking)
    else if ask.record != 0 && HasOpenSession(db.sessions, ask.record) then Failure(SessionRunning)
    else if ask.cancel && booked.None? then Failure(CancelNeedsBooking)
    else if ask.cancel then
      var start := booked.value.start;
      var end := Max(start + 1, if booked.value.end.Some? then booked.value.end.value else now);
      if !ReasonLength(ask.reason, 5) then Failure(InvalidReason)
      else Success(InsertRequest(db, NewRequest(user, record, start, end, 0, ask.reason, original, now, true)))
    else if ask.start.None? || ask.end.None? then Failure(InvalidTime)
    else if ask.end.value <= ask.start.value || ask.end.value - ask.start.value > 7 * DAY then Failure(InvalidTime)
    else if ask.pause.None? || !(0 <= ask.pause.value <= (ask.end.value - ask.start.value) / 60)
      then Failure(InvalidTime)
    else if !ReasonLength(ask.reason, 5) then Failure(InvalidReason)
    else if !ValidCorrection(z, booked, ask.start.value, ask.end.value, ask.pause.value, now)
      then Failure(InvalidCorrection)
    else
      Success(InsertRequest(db, NewRequest(user, record, ask.start.value, ask.end.value, ask.pause.value, ask.reason,
                                           original, now, false)))
  }

  /** Finished work, the only kind of booking whose place and note can be corrected. */
  predicate CompletedWork(r: Record) {
    !IsAbsence(r) && r.end.Some? && 0 <= r.pause && r.start <= r.end.value && r.pause <= (r.end.value - r.start) / 60
  }

  /** A request for a new place and note; unreadable fields are None. */
  datatype MetadataAsk = MetadataAsk(record: int, confirmed: bool, metadata: Option<Metadata>, reason: string)

  function RequestMetadata(db: Db, now: int, user: int, ask: MetadataAsk): Result<Db, Error> {
    if ask.record < 1 then Failure(InvalidSelection)
    else if !ask.confirmed then Failure(InvalidMetadata)
    else if ask.metadata.None? || !ValidMetadata(ask.metadata.value) then Failure(InvalidMetadata)
    else if !ReasonLength(ask.reason, 5) then Failure(InvalidReason)
    else
      var booked := OwnBooking(db, user, ask.record);
      if booked.None? then Failure(NotAuthorised)
      else if !CompletedWork(booked.value) then Failure(NotCompletedWork)
      else if HasOpenSession(db.sessions, ask.record) then Failure(SessionRunning)
      else if booked.value.location == ask.metadata.value.location && booked.value.note == ask.metadata.value.note
        then Failure(Unchanged)
      else
        var r := booked.value;
        var snapshot := SnapshotWith(ask.record, r, ask.metadata.value);
        if snapshot.bytes > SNAPSHOT_LIMIT then Failure(TooLarge)
        else
          Success(InsertRequest(db, NewRequest(user, Some(ask.record), r.start, r.end.value, r.pause, ask.reason,
                                               Some(snapshot), now, false)))
  }

  // --- Deciding ---

  /** An admin, or the owner's current supervisor, but never the owner. */
  predicate MayDecide(db: Db, actor: int, role: Role, owner: int) {
    && owner != actor
    && (role == Admin
        || (role == Supervisor && owner in db.users && db.users[owner].supervisor == Some(actor)))
  }

  /** The booking a request proposes, as far as the overlap check looks at it. */
  function Proposed(a: Request, booked: Option<Record>): Record {
    Record(a.user, a.start, Some(a.end), a.pause,
           if booked.Some? then booked.value.note else "", "",
           if booked.Some? then booked.value.absenceKind else None, None)
  }

  /** The corrected booking: new times and pause, and a recomputed credit for an absence. */
  function Corrected(r: Record, a: Request): Record {
    r.(start := a.start, end := Some(a.end), pause := a.pause,
       planned := if HasKind(r.absenceKind) then Some((a.end - a.start) / 60 - a.pause) else None)
  }

  function Added(a: Request): Record {
    Record(a.user, a.start, Some(a.end), a.pause, "Korrektur freigegeben", "office", None, None)
  }

  /** Ending every open break of the sessions of a booking. */
  function EndBreaksOf(sessions: seq<Session>, breaks: seq<Break>, record: int, at: int): seq<Break> {
    if breaks == [] then []
    else
      var b := breaks[|breaks| - 1];
      EndBreaksOf(sessions, breaks[..|breaks| - 1], record, at)
      + [if b.ended.None? && b.session < |sessions| && sessions[b.session].record == record
         then b.(ended := Some(at)) else b]
  }

  /** Ending every open session of a booking. */
  function EndSessionsOf(sessions: seq<Session>, record: int, at: int): seq<Session> {
    if sessions == [] then []
    else
      var s := sessions[|sessions| - 1];
      EndSessionsOf(sessions[..|sessions| - 1], record, at)
      + [if s.ended.None? && s.record == record then s.(ended := Some(at)) else s]
  }

  function EndOf(db: Db, record: int, at: int): Db {
    db.(breaks := EndBreaksOf(db.sessions, db.breaks, record, at), sessions := EndSessionsOf(db.sessions, record, at))
  }

  function Cancelled(db: Db, id: int, now: int): Db {
    EndOf(db.(records := db.records - {id}), id, now)
  }

  function Moved(db: Db, a: Request, id: int, r: Record): Result<Db, Error> {
    var ended := EndOf(db.(records := db.records[id := Corrected(r, a)]), id, a.end);
    if HasSession(ended.sessions, id) then Success(ended)
    else InsertSession(ended, Session(a.user, id, a.start, Some(a.end)))
  }

  function Inserted(db: Db, a: Request, number: nat): Result<Db, Error>
    requires number < |db.requests|
  {
    var added := InsertRecord(db, Added(a));
    var started :- InsertSession(added, Session(a.user, db.nextRecord, a.start, Some(a.end)));
    Success(started.(requests := started.requests[number := started.requests[number].(record := Some(db.nextRecord))]))
  }

  /** A new place and note for an unchanged, finished booking; the request must repeat its times. */
  function Relabelled(db: Db, a: Request, id: int, r: Record, m: Metadata): Result<Db, Error> {
    if !CompletedWork(r) then Failure(NotCompletedWork)
    else if a.start != r.start || Some(a.end) != r.end || a.pause != r.pause || a.cancel then Failure(UnreadableRequest)
    else if !ValidMetadata(m) then Failure(InvalidMetadata)
    else Success(db.(records := db.records[id := r.(note := m.note, location := m.location)]))
  }

  /** The effect of an approval on the bookings and their sessions. */
  function Approve(z: Zone, db: Db, now: int, number: nat): (r: Result<Db, Error>)
    requires number < |db.requests|
    ensures r.Success? ==> |r.value.requests| == |db.requests|
  {
    var a := db.requests[number];
    var metadata :- Parse(a.original);
    if a.record.None? then
      if a.original.Some? then Failure(UnexpectedOriginal)
      else if a.cancel then Success(db)
      else if !ValidCorrection(z, None, a.start, a.end, a.pause, now) then Failure(InvalidCorrection)
      else
        var (from, to) := Span(z, Proposed(a, None));
        if !NoOverlap(z, db.records, a.user, from, to, 0) then Failure(Overlapping)
        else Inserted(db, a, number)
    else
      var id := a.record.value;
      var booked := OwnBooking(db, a.user, id);
      var expected := if metadata.Some? then Some(metadata.value.original) else a.original;
      if booked.None? || Some(Snapshot(id, booked.value)) != expected then Failure(BookingChanged)
      else if HasOpenSession(db.sessions, id) then Failure(SessionRunning)
      else if metadata.Some? then Relabelled(db, a, id, booked.value, metadata.value.metadata)
      else if a.cancel then Success(Cancelled(db, id, now))
      else if !ValidCorrection(z, booked, a.start, a.end, a.pause, now) then Failure(InvalidCorrection)
      else
        var (from, to) := Span(z, Proposed(a, booked));
        if !NoOverlap(z, db.records, a.user, from, to, id) then Failure(Overlapping)
        else Moved(db, a, id, booked.value)
  }

  /** A decision as submitted by the authenticated actor. */
  datatype Decision = Decision(number: int, decision: string, reason: string)

  function Closed(a: Request, status: Status, reviewer: Option<int>, now: int, reason: string): Request {
    a.(status := status, reviewer := reviewer, reviewedAt := Some(now), reviewReason := Some(Trim(reason)))
  }

  function CloseRequest(db: Db, number: nat, status: Status, reviewer: Option<int>, now: int, reason: string): Db
    requires number < |db.requests|
  {
    db.(requests := db.requests[number := Closed(db.requests[number], status, reviewer, now, reason)])
  }

  function Review(z: Zone, db: Db, now: int, actor: int, role: Role, d: Decision): Result<Db, Error> {
    if !(0 <= d.number < |db.requests|) || db.requests[d.number].status != Pending then Failure(NotAuthorised)
    else
      var a := db.requests[d.number];
      if !MayDecide(db, actor, role, a.user) then Failure(NotAuthorised)
      else if a.user !in db.users then Failure(AccountGone)
      else if d.decision != "approved" && d.decision != "rejected" then Failure(InvalidDecision)
      else if !ReasonLength(d.reason, 3) then Failure(InvalidDecision)
      else if d.decision == "rejected" then Success(CloseRequest(db, d.number, Rejected, Some(actor), now, d.reason))
      else
        var approved :- Approve(z, db, now, d.number);
        Success(CloseRequest(approved, d.number, Approved, Some(actor), now, d.reason))
  }

  /** The owner takes back a request nobody has decided; `current` says that the session is still valid. */
  function Withdraw(db: Db, now: int, user: int, current: bool, number: int, reason: string): Result<Db, Error> {
    if user < 1 || user !in db.users || !current then Failure(StaleIdentity)
    else if !ReasonLength(reason, 5) then Failure(InvalidReason)
    else if !(0 <= number < |db.requests|) then Failure(NotWithdrawable)
    else
      var a := db.requests[number];
      if a.user != user || a.status != Pending || a.reviewer.Some? || a.reviewedAt.Some? || a.reviewReason.Some?
        then Failure(NotWithdrawable)
      else Success(CloseRequest(db, number, Withdrawn, a.reviewer, now, reason))
  }

  // --- Absences ---

  function Credit(z: Zone, user: int, day: int, minutes: int, kind: string): Record {
    Record(user, z.midnight(day), Some(z.midnight(day) + minutes * 60), 0, kind, "", Some(kind), Some(minutes))
  }

  /** One whole-day credit for every day of the range that has a target; all days or none. */
  function CreditDays(z: Zone, target: int -> nat, db: Db, user: int, first: int, last: int,
                      kind: string): Result<Db, Error>
    decreases last - first
  {
    if first > last then Success(db)
    else if target(first) == 0 then CreditDays(z, target, db, user, first + 1, last, kind)
    else if !NoOverlap(z, db.records, user, z.midnight(first), z.midnight(first + 1), 0) then Failure(Overlapping)
    else CreditDays(z, target, InsertRecord(db, Credit(z, user, first, target(first), kind)), user, first + 1, last,
                    kind)
  }

  function Absent(z: Zone, target: int -> nat, db: Db, user: int, first: int, last: int,
                  kind: string): Result<Db, Error> {
    if last < first || last - first > 366 || (kind != "Urlaub" && kind != "Krankheit") then Failure(InvalidDays)
    else CreditDays(z, target, db, user, first, last, kind)
  }
}
