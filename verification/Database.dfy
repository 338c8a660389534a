/**
 * The writers themselves: each one changes the tables statement by statement and
 * is rolled back when it refuses, and each one does what its function says.
 */
module Database {
  import opened Wrappers
  import opened Booking
  import opened Schema
  import opened Attendance
  import opened CorrectionMetadata
  import opened Corrections

  class Tables {
    var records: map<int, Record>
    var nextRecord: int
    var sessions: seq<Session>
    var breaks: seq<Break>
    var events: seq<Event>
    var requests: seq<Request>
    var users: map<int, User>

    function State(): Db
      reads this
    {
      Db(records, nextRecord, sessions, breaks, events, requests, users)
    }

    constructor (db: Db)
      ensures State() == db
    {
      records, nextRecord, sessions, breaks, events, requests, users :=
        db.records, db.nextRecord, db.sessions, db.breaks, db.events, db.requests, db.users;
    }

    /** ROLLBACK to the tables at the start of the transaction. */
    method Rollback(db: Db)
      modifies this
      ensures State() == db
    {
      records, nextRecord, sessions, breaks, events, requests, users :=
        db.records, db.nextRecord, db.sessions, db.breaks, db.events, db.requests, db.users;
    }

    method InsertRecordRow(r: Record) returns (id: int)
      modifies this
      ensures State() == InsertRecord(old(State()), r) && id == old(nextRecord)
    {
      id := nextRecord;
      records := records[id := r];
      nextRecord := nextRecord + 1;
    }

    method InsertSessionRow(s: Session) returns (ok: bool)
      modifies this
      ensures ok <==> InsertSession(old(State()), s).Success?
      ensures State() == if ok then InsertSession(old(State()), s).value else old(State())
    {
      ok := !(HasSession(sessions, s.record) || (s.ended.None? && OpenSession(sessions, s.user) >= 0));
      if ok {
        sessions := sessions + [s];
      }
    }

    /** The first stamp of a session. */
    method StartLocked(z: Zone, now: int, c: Command) returns (r: Result<nat, Error>)
      modifies this
      ensures r.Success? <==> Open(z, old(State()), now, c).Success?
      ensures r.Success? ==> (State(), r.value) == Open(z, old(State()), now, c).value
      ensures r.Failure? ==> r.error == Open(z, old(State()), now, c).error
    {
      if OpenSession(sessions, c.user) >= 0 || OpenBookings(records, c.user, nextRecord) != [] {
        return Failure(AlreadyOpen);
      }
      if !NoOverlap(z, records, c.user, now, now + 1, 0) {
        return Failure(Overlapping);
      }
      var note := if c.metadata.Some? then c.metadata.value.note else "";
      var location := if c.metadata.Some? then c.metadata.value.location else "office";
      var record := InsertRecordRow(Record(c.user, now, None, 0, note, location, None, None));
      var inserted := InsertSessionRow(Session(c.user, record, now, None));
      if !inserted {
        return Failure(ConstraintViolated);
      }
      return Success(|sessions| - 1);
    }

    /** Finding the session of a later stamp, or making one for a single old open booking. */
    method AdoptLocked(now: int, user: int) returns (r: Result<nat, Error>)
      modifies this
      ensures r.Success? <==> Adopt(old(State()), now, user).Success?
      ensures r.Success? ==> (State(), r.value) == Adopt(old(State()), now, user).value
      ensures r.Failure? ==> r.error == Adopt(old(State()), now, user).error
    {
      var s := OpenSession(sessions, user);
      if s >= 0 {
        return Success(s);
      }
      var legacy := OpenBookings(records, user, nextRecord);
      if |legacy| > 1 {
        return Failure(SeveralLegacyBookings);
      }
      if legacy == [] {
        return Failure(NothingOpen);
      }
      if records[legacy[0]].start > now {
        return Failure(InvalidLegacyBooking);
      }
      var inserted := InsertSessionRow(Session(user, legacy[0], records[legacy[0]].start, None));
      if !inserted {
        return Failure(ConstraintViolated);
      }
      return Success(|sessions| - 1);
    }

    /** Beginning a break, or ending the open one. */
    method MarkBreak(s: nat, now: int, action: Action)
      modifies this`breaks
      ensures breaks == StampedBreaks(old(breaks), s, now, action)
    {
      var b := OpenBreak(breaks, s);
      if action == PauseStart {
        breaks := breaks + [Break(s, now, None)];
      } else if b >= 0 {
        breaks := breaks[b := breaks[b].(ended := Some(now))];
      }
    }

    method EndSession(s: nat, now: int)
      requires s < |sessions|
      modifies this`sessions, this`records
      ensures sessions == old(sessions)[s := old(sessions)[s].(ended := Some(now))]
      ensures records == var id := old(sessions)[s].record;
                         if id in old(records) then old(records)[id := old(records)[id].(end := Some(now))]
                           else old(records)
    {
      var id := sessions[s].record;
      sessions := sessions[s := sessions[s].(ended := Some(now))];
      if id in records {
        records := records[id := records[id].(end := Some(now))];
      }
    }

    /** The statements of a permitted later stamp, one table after the other. */
    method StampRows(s: nat, now: int, action: Action)
      requires s < |sessions|
      modifies this`breaks, this`sessions, this`records
      ensures State() == Stamp(old(State()), s, now, action)
    {
      hide ClosedSeconds, StampedBreaks;
      var id := sessions[s].record;
      MarkBreak(s, now, action);
      if action == End {
        EndSession(s, now);
      }
      if id in records {
        records := records[id := records[id].(pause := ClosedSeconds(breaks, s) / 60)];
      }
    }

    /** Stamping inside the caller's transaction; after a refusal the caller must roll back. */
    method TransitionLocked(z: Zone, now: int, c: Command) returns (r: Result<Receipt, Error>)
      modifies this
      ensures r == Transition(z, old(State()), now, c).0
      ensures r.Success? ==> State() == Transition(z, old(State()), now, c).1
    {
      if !ValidEventId(c.eventId) {
        return Failure(InvalidEventId);
      }
      var parsed := ParseAction(c.action);
      if parsed.None? {
        return Failure(InvalidAction);
      }
      if c.user !in users {
        return Failure(UnknownAccount);
      }
      if c.metadata.Some? && !ValidMetadata(c.metadata.value) {
        return Failure(InvalidMetadata);
      }
      var action := parsed.value;
      if action != Start && c.metadata.Some? {
        return Failure(MetadataNotAllowed);
      }
      var known := FindEvent(events, c.source, c.eventId);
      if known >= 0 {
        if events[known].payload != PayloadOf(c, action) {
          return Failure(EventIdReused);
        }
        return Success(events[known].receipt);
      }
      if c.requireExpected && action != Start && c.expected.None? {
        return Failure(MissingBinding);
      }
      var s: nat;
      if action == Start {
        var started := StartLocked(z, now, c);
        if started.Failure? {
          return Failure(started.error);
        }
        s := started.value;
      } else {
        var adopted := AdoptLocked(now, c.user);
        if adopted.Failure? {
          return Failure(adopted.error);
        }
        s := adopted.value;
        var obstacle := Obstacle(State(), s, now, c, action);
        if obstacle.Some? {
          return Failure(obstacle.value);
        }
        StampRows(s, now, action);
      }
      var receipt := ReceiptFor(State(), s, now, c, action);
      events := events + [Event(c.source, c.eventId, c.user, s, action, now, PayloadOf(c, action), receipt)];
      return Success(receipt);
    }

    /** One stamping transaction: committed as a whole or not at all. */
    method StampingTransaction(z: Zone, now: int, c: Command) returns (r: Result<Receipt, Error>)
      modifies this
      ensures (r, State()) == Transition(z, old(State()), now, c)
    {
      var before := State();
      r := TransitionLocked(z, now, c);
      if r.Failure? {
        Rollback(before);
      }
    }

    /** The statements of an approval; after a refusal the caller must roll back. */
    method ApproveLocked(z: Zone, now: int, number: nat) returns (error: Option<Error>)
      requires number < |requests|
      modifies this
      ensures error.None? <==> Approve(z, old(State()), now, number).Success?
      ensures error.None? ==> State() == Approve(z, old(State()), now, number).value
      ensures error.Some? ==> error.value == Approve(z, old(State()), now, number).error
    {
      var a := requests[number];
      var parsed := Parse(a.original);
      if parsed.Failure? {
        return Some(parsed.error);
      }
      if a.record.None? && a.original.Some? {
        return Some(UnexpectedOriginal);
      }
      var booked := if a.record.Some? then OwnBooking(State(), a.user, a.record.value) else None;
      if a.record.Some? {
        var expected := if parsed.value.Some? then Some(parsed.value.value.original) else a.original;
        if booked.None? || Some(Snapshot(a.record.value, booked.value)) != expected {
          return Some(BookingChanged);
        }
        if HasOpenSession(sessions, a.record.value) {
          return Some(SessionRunning);
        }
        if parsed.value.Some? {
          var relabelled := Relabelled(State(), a, a.record.value, booked.value, parsed.value.value.metadata);
          if relabelled.Failure? {
            return Some(relabelled.error);
          }
          var m := parsed.value.value.metadata;
          records := records[a.record.value := booked.value.(note := m.note, location := m.location)];
          return None;
        }
      }
      if !a.cancel {
        if !ValidCorrection(z, booked, a.start, a.end, a.pause, now) {
          return Some(InvalidCorrection);
        }
        var (from, to) := Span(z, Proposed(a, booked));
        if !NoOverlap(z, records, a.user, from, to, if a.record.Some? then a.record.value else 0) {
          return Some(Overlapping);
        }
      }
      if a.cancel {
        if a.record.Some? {
          var id := a.record.value;
          records := records - {id};
          breaks := EndBreaksOf(sessions, breaks, id, now);
          sessions := EndSessionsOf(sessions, id, now);
        }
      } else if a.record.Some? {
        var id := a.record.value;
        records := records[id := Corrected(booked.value, a)];
        breaks := EndBreaksOf(sessions, breaks, id, a.end);
        sessions := EndSessionsOf(sessions, id, a.end);
        if !HasSession(sessions, id) {
          var inserted := InsertSessionRow(Session(a.user, id, a.start, Some(a.end)));
          if !inserted {
            return Some(ConstraintViolated);
          }
        }
      } else {
        var id := InsertRecordRow(Added(a));
        var inserted := InsertSessionRow(Session(a.user, id, a.start, Some(a.end)));
        if !inserted {
          return Some(ConstraintViolated);
        }
        requests := requests[number := requests[number].(record := Some(id))];
      }
      return None;
    }

    /** One decision transaction. */
    method ReviewTransaction(z: Zone, now: int, actor: int, role: Role, d: Decision) returns (error: Option<Error>)
      modifies this
      ensures error.None? <==> Review(z, old(State()), now, actor, role, d).Success?
      ensures State() == if error.None? then Review(z, old(State()), now, actor, role, d).value else old(State())
      ensures error.Some? ==> error.value == Review(z, old(State()), now, actor, role, d).error
    {
      if !(0 <= d.number < |requests|) || requests[d.number].status != Pending {
        return Some(NotAuthorised);
      }
      var a := requests[d.number];
      if !MayDecide(State(), actor, role, a.user) {
        return Some(NotAuthorised);
      }
      if a.user !in users {
        return Some(AccountGone);
      }
      if (d.decision != "approved" && d.decision != "rejected") || !ReasonLength(d.reason, 3) {
        return Some(InvalidDecision);
      }
      if d.decision == "approved" {
        var before := State();
        error := ApproveLocked(z, now, d.number);
        if error.Some? {
          Rollback(before);
          return;
        }
      }
      var status := if d.decision == "approved" then Approved else Rejected;
      requests := requests[d.number := Closed(requests[d.number], status, Some(actor), now, d.reason)];
      return None;
    }

    /** Whole-day credits, one day after the other; a conflict on any day undoes all of them. */
    method AbsenceTransaction(z: Zone, target: int -> nat, user: int, first: int, last: int, kind: string)
      returns (error: Option<Error>)
      modifies this
      ensures error.None? <==> Corrections.Absent(z, target, old(State()), user, first, last, kind).Success?
      ensures State() == if error.None? then Corrections.Absent(z, target, old(State()), user, first, last, kind).value
        else old(State())
      ensures error.Some? ==> error.value == Corrections.Absent(z, target, old(State()), user, first, last, kind).error
    {
      if last < first || last - first > 366 || (kind != "Urlaub" && kind != "Krankheit") {
        return Some(InvalidDays);
      }
      var before := State();
      var day := first;
      while day <= last
        invariant day <= last + 1
        invariant CreditDays(z, target, State(), user, day, last, kind)
          == CreditDays(z, target, before, user, first, last, kind)
      {
        var minutes := target(day);
        if minutes != 0 {
          if !NoOverlap(z, records, user, z.midnight(day), z.midnight(day + 1), 0) {
            Rollback(before);
            return Some(Overlapping);
          }
          var id := InsertRecordRow(Credit(z, user, day, minutes, kind));
        }
        day := day + 1;
      }
      return None;
    }

    /** The owner's withdrawal: one guarded update of the request row. */
    method WithdrawTransaction(now: int, user: int, current: bool, number: int, reason: string)
      returns (error: Option<Error>)
      modifies this`requests
      ensures error.None? <==> Withdraw(old(State()), now, user, current, number, reason).Success?
      ensures State() == if error.None? then Withdraw(old(State()), now, user, current, number, reason).value
        else old(State())
      ensures error.Some? ==> error.value == Withdraw(old(State()), now, user, current, number, reason).error
    {
      if user < 1 || user !in users || !current {
        return Some(StaleIdentity);
      }
      if !ReasonLength(reason, 5) {
        return Some(InvalidReason);
      }
      if !(0 <= number < |requests|) {
        return Some(NotWithdrawable);
      }
      var a := requests[number];
      if a.user != user || a.status != Pending || a.reviewer.Some? || a.reviewedAt.Some? || a.reviewReason.Some? {
        return Some(NotWithdrawable);
      }
      requests := requests[number := Closed(a, Withdrawn, a.reviewer, now, reason)];
      return None;
    }
  }
}
