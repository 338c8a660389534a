/** Corrections and absences keep the shape of the database, too. */
module CorrectionInvariants {
  import opened Wrappers
  import opened Booking
  import opened Schema
  import opened Attendance
  import opened Corrections
  import opened Consistency
  import opened CorrectionMetadata

  /** Changing bookings that no open session belongs to. */
  lemma RecordsReplaced(db: Db, after: Db)
    requires Consistent(db)
    requires after == db.(records := after.records, nextRecord := after.nextRecord, requests := after.requests)
    requires db.nextRecord <= after.nextRecord
    requires forall id :: id in after.records ==> 0 < id < after.nextRecord && PauseFits(after.records[id])
    requires forall i :: 0 <= i < |db.sessions| && db.sessions[i].ended.None? ==>
               db.sessions[i].record in after.records && db.sessions[i].record in db.records
               && after.records[db.sessions[i].record] == db.records[db.sessions[i].record]
    requires forall id :: id in after.records && after.records[id].end.None? ==>
      id in db.records && after.records[id] == db.records[id]
    ensures Consistent(after)
  {
    hide BreaksOrdered, EventsLogged, Unique;
    forall i | 0 <= i < |after.sessions| && after.sessions[i].ended.None? ensures ShowsPause(after, i) {
      assert ShowsPause(db, i);
    }
    forall i | 0 <= i < |after.sessions| && after.sessions[i].ended.None?
      ensures Matches(after.records, after.sessions[i])
    {
      MatchesKept(db.records, after.records, db.sessions[i]);
    }
  }

  lemma ClosedSessionAdded(db: Db, s: Session)
    requires Consistent(db)
    requires s.ended.Some? && 0 < s.record < db.nextRecord
    requires s.record in db.records ==> db.records[s.record].end.Some?
    requires InsertSession(db, s).Success?
    ensures Consistent(InsertSession(db, s).value)
  {
    hide BreaksOrdered, EventsLogged, Unique;
    var after := InsertSession(db, s).value;
    UniqueAppended(db, s);
    BreaksOfAppended(db.sessions, s, db.breaks);
    EventsAfterSession(db.sessions, s, db.events);
    forall i | 0 <= i < |after.sessions| && after.sessions[i].ended.None? ensures ShowsPause(after, i) {
      assert ShowsPause(db, i);
    }
  }

  lemma {:induction false} NoBreaksToEnd(sessions: seq<Session>, breaks: seq<Break>, record: int, at: int)
    requires forall k :: 0 <= k < |breaks| ==> breaks[k].session < |sessions|
    requires forall k :: 0 <= k < |breaks| && breaks[k].ended.None? ==> sessions[breaks[k].session].record != record
    ensures EndBreaksOf(sessions, breaks, record, at) == breaks
  {
    if breaks != [] {
      NoBreaksToEnd(sessions, breaks[..|breaks| - 1], record, at);
    }
  }

  lemma {:induction false} NoSessionsToEnd(sessions: seq<Session>, record: int, at: int)
    requires !HasOpenSession(sessions, record)
    ensures EndSessionsOf(sessions, record, at) == sessions
  {
    if sessions != [] {
      assert sessions[|sessions| - 1] in sessions;
      NoSessionsToEnd(sessions[..|sessions| - 1], record, at);
    }
  }

  /** For a booking without an open session an approval ends neither breaks nor sessions. */
  lemma NothingToEnd(db: Db, record: int, at: int)
    requires BreaksOrdered(db.sessions, db.breaks)
    requires !HasOpenSession(db.sessions, record)
    ensures EndOf(db, record, at) == db
  {
    assert forall k :: 0 <= k < |db.breaks| ==> Inside(db.sessions[db.breaks[k].session], db.breaks[k]);
    NoBreaksToEnd(db.sessions, db.breaks, record, at);
    NoSessionsToEnd(db.sessions, record, at);
  }

  lemma OpenSessionsElsewhere(db: Db, id: int)
    requires Consistent(db)
    requires !HasOpenSession(db.sessions, id)
    ensures forall i :: 0 <= i < |db.sessions| && db.sessions[i].ended.None? ==>
      db.sessions[i].record != id && db.sessions[i].record in db.records
  {
  }

  lemma CancelledKeeps(db: Db, id: int, now: int)
    requires Consistent(db) && !HasOpenSession(db.sessions, id)
    ensures Cancelled(db, id, now) == db.(records := db.records - {id})
    ensures Consistent(Cancelled(db, id, now))
  {
    OpenSessionsElsewhere(db, id);
    NothingToEnd(db.(records := db.records - {id}), id, now);
    RecordsReplaced(db, db.(records := db.records - {id}));
  }

  /** One booking without an open session gets another fitting content. */
  lemma ReplacedKeeps(db: Db, id: int, r: Record)
    requires Consistent(db) && !HasOpenSession(db.sessions, id)
    requires 0 < id < db.nextRecord && r.end.Some? && PauseFits(r)
    ensures Consistent(db.(records := db.records[id := r]))
  {
    OpenSessionsElsewhere(db, id);
    RecordsReplaced(db, db.(records := db.records[id := r]));
  }

  lemma AddedKeeps(db: Db, r: Record)
    requires Consistent(db) && r.end.Some? && PauseFits(r)
    ensures Consistent(InsertRecord(db, r))
  {
    OpenSessionsNumbered(db);
    RecordsReplaced(db, InsertRecord(db, r));
  }

  lemma OpenSessionsNumbered(db: Db)
    requires Consistent(db)
    ensures forall i :: 0 <= i < |db.sessions| && db.sessions[i].ended.None? ==> db.sessions[i].record in db.records
    ensures db.nextRecord !in db.records
  {
  }

  lemma MovedKeeps(z: Zone, db: Db, a: Request, id: int, r: Record, now: int)
    requires Consistent(db) && !HasOpenSession(db.sessions, id)
    requires id in db.records && r == db.records[id]
    requires ValidCorrection(z, Some(r), a.start, a.end, a.pause, now)
    ensures Moved(db, a, id, r).Success? ==> Consistent(Moved(db, a, id, r).value)
    ensures Moved(db, a, id, r).Success? ==> Moved(db, a, id, r).value.records == db.records[id := Corrected(r, a)]
  {
    var replaced := db.(records := db.records[id := Corrected(r, a)]);
    ReplacedKeeps(db, id, Corrected(r, a));
    NothingToEnd(replaced, id, a.end);
    if !HasSession(replaced.sessions, id) {
      ClosedSessionAdded(replaced, Session(a.user, id, a.start, Some(a.end)));
    }
  }

  lemma InsertedKeeps(z: Zone, db: Db, a: Request, number: nat, now: int)
    requires Consistent(db) && number < |db.requests|
    requires ValidCorrection(z, None, a.start, a.end, a.pause, now)
    requires Inserted(db, a, number).Success?
    ensures Consistent(Inserted(db, a, number).value)
  {
    AddedKeeps(db, Added(a));
    ClosedSessionAdded(InsertRecord(db, Added(a)), Session(a.user, db.nextRecord, a.start, Some(a.end)));
    RequestsIgnored(InsertSession(InsertRecord(db, Added(a)),
                                  Session(a.user, db.nextRecord, a.start, Some(a.end))).value,
                    Inserted(db, a, number).value);
  }

  /** The shape does not depend on the requests or the accounts. */
  lemma RequestsIgnored(db: Db, after: Db)
    requires Consistent(db)
    requires after == db.(requests := after.requests, users := after.users)
    ensures Consistent(after)
  {
    hide BreaksOrdered, EventsLogged, Unique;
    forall i | 0 <= i < |after.sessions| && after.sessions[i].ended.None? ensures ShowsPause(after, i) {
      assert ShowsPause(db, i);
    }
  }

  lemma RelabelledKeeps(db: Db, a: Request, id: int, r: Record, m: Metadata)
    requires Consistent(db) && !HasOpenSession(db.sessions, id)
    requires id in db.records && r == db.records[id]
    requires Relabelled(db, a, id, r, m).Success?
    ensures Consistent(Relabelled(db, a, id, r, m).value)
  {
    ReplacedKeeps(db, id, r.(note := m.note, location := m.location));
  }

  lemma ApproveKeeps(z: Zone, db: Db, now: int, number: nat)
    requires Consistent(db) && number < |db.requests|
    requires Approve(z, db, now, number).Success?
    ensures Consistent(Approve(z, db, now, number).value)
  {
    hide Consistent, ValidCorrection, NoOverlap, Parse, Snapshot;
    var a := db.requests[number];
    if a.record.None? {
      if !a.cancel {
        InsertedKeeps(z, db, a, number, now);
      }
    } else {
      var id := a.record.value;
      var r := OwnBooking(db, a.user, id).value;
      var metadata := Parse(a.original).value;
      if metadata.Some? {
        RelabelledKeeps(db, a, id, r, metadata.value.metadata);
      } else if a.cancel {
        CancelledKeeps(db, id, now);
      } else {
        MovedKeeps(z, db, a, id, r, now);
      }
    }
  }

  lemma ReviewKeeps(z: Zone, db: Db, now: int, actor: int, role: Role, d: Decision)
    requires Consistent(db)
    requires Review(z, db, now, actor, role, d).Success?
    ensures Consistent(Review(z, db, now, actor, role, d).value)
  {
    hide Consistent, Approve;
    if d.decision == "approved" {
      ApproveKeeps(z, db, now, d.number);
      RequestsIgnored(Approve(z, db, now, d.number).value, Review(z, db, now, actor, role, d).value);
    } else {
      RequestsIgnored(db, Review(z, db, now, actor, role, d).value);
    }
  }

  lemma {:induction false} CreditDaysKeep(z: Zone, target: int -> nat, db: Db, user: int, first: int, last: int,
                                          kind: string)
    requires Consistent(db)
    requires CreditDays(z, target, db, user, first, last, kind).Success?
    ensures Consistent(CreditDays(z, target, db, user, first, last, kind).value)
    decreases last - first
  {
    hide Consistent, NoOverlap;
    if first <= last {
      if target(first) == 0 {
        CreditDaysKeep(z, target, db, user, first + 1, last, kind);
      } else {
        var credit := Credit(z, user, first, target(first), kind);
        AddedKeeps(db, credit);
        CreditDaysKeep(z, target, InsertRecord(db, credit), user, first + 1, last, kind);
      }
    }
  }
}
