/**
 * The four-eyes workflow over whole runs: requests are decided at most once, by
 * somebody else, and an approval acts on exactly the booking the requester saw.
 */
module CorrectionLifecycle {
  import opened Wrappers
  import opened Booking
  import opened Schema
  import opened Attendance
  import opened CorrectionMetadata
  import opened Corrections
  import opened Consistency
  import opened CorrectionInvariants
  import opened Runs
  import Json

  /** Who may appear as reviewer of a request in each of its states. */
  predicate Reviewed(a: Request) {
    match a.status
    case Pending => a.reviewer.None? && a.reviewedAt.None? && a.reviewReason.None?
    case Approved | Rejected => a.reviewer.Some? && a.reviewer.value != a.user && a.reviewedAt.Some?
    case Withdrawn => a.reviewer.None? && a.reviewedAt.Some?
  }

  ghost predicate AllReviewed(db: Db) {
    forall k :: 0 <= k < |db.requests| ==> Reviewed(db.requests[k])
  }

  /** A request that is no longer pending never changes; a pending one keeps all it asks for. */
  predicate EvolvesTo(a: Request, b: Request) {
    && (a.status != Pending ==> b == a)
    && (a.record.Some? ==> b.record == a.record)
    && b == a.(record := b.record, status := b.status, reviewer := b.reviewer, reviewedAt := b.reviewedAt,
               reviewReason := b.reviewReason)
  }

  ghost predicate Evolved(db: Db, after: Db) {
    && |db.requests| <= |after.requests|
    && (forall k :: 0 <= k < |db.requests| ==> EvolvesTo(db.requests[k], after.requests[k]))
  }

  lemma EvolvedTrans(a: Db, b: Db, c: Db)
    requires Evolved(a, b) && Evolved(b, c)
    ensures Evolved(a, c)
  {
    forall k | 0 <= k < |a.requests| ensures EvolvesTo(a.requests[k], c.requests[k]) {
      assert EvolvesTo(a.requests[k], b.requests[k]) && EvolvesTo(b.requests[k], c.requests[k]);
    }
  }

  /** Approving changes the requests table at most by filling in the number of a new booking. */
  lemma ApproveRequests(z: Zone, db: Db, now: int, number: nat)
    requires number < |db.requests|
    requires Approve(z, db, now, number).Success?
    ensures var after := Approve(z, db, now, number).value;
      || after.requests == db.requests
      || (db.requests[number].record.None?
          && after.requests == db.requests[number := db.requests[number].(record := Some(db.nextRecord))])
  {
    hide NoOverlap, ValidCorrection, Parse, Snapshot, EndBreaksOf, EndSessionsOf;
  }

  lemma ReviewEvolves(z: Zone, db: Db, now: int, actor: int, role: Role, d: Decision)
    requires AllReviewed(db)
    requires Review(z, db, now, actor, role, d).Success?
    ensures AllReviewed(Review(z, db, now, actor, role, d).value)
    ensures Evolved(db, Review(z, db, now, actor, role, d).value)
  {
    hide Approve;
    if d.decision == "approved" {
      ApproveRequests(z, db, now, d.number);
    }
  }

  lemma {:induction false} CreditDaysRequests(z: Zone, target: int -> nat, db: Db, user: int, first: int, last: int,
                                              kind: string)
    requires CreditDays(z, target, db, user, first, last, kind).Success?
    ensures CreditDays(z, target, db, user, first, last, kind).value.requests == db.requests
    ensures CreditDays(z, target, db, user, first, last, kind).value.events == db.events
    decreases last - first
  {
    hide NoOverlap;
    if first <= last {
      if target(first) == 0 {
        CreditDaysRequests(z, target, db, user, first + 1, last, kind);
      } else {
        CreditDaysRequests(z, target, InsertRecord(db, Credit(z, user, first, target(first), kind)), user, first + 1,
                           last, kind);
      }
    }
  }

  lemma BookedRequests(z: Zone, db: Db, now: int, c: Command, action: Action)
    requires Booked(z, db, now, c, action).Success?
    ensures Booked(z, db, now, c, action).value.0.requests == db.requests
  {
    hide NoOverlap, Obstacle, StampedBreaks, ClosedSeconds, OpenBookings, OpenSession;
  }

  lemma TransitionRequests(z: Zone, db: Db, now: int, c: Command)
    ensures Transition(z, db, now, c).1.requests == db.requests
  {
    hide Booked, StatusOfUser;
    match Admit(db, c)
    case Admitted(action) =>
      if Booked(z, db, now, c, action).Success? {
        BookedRequests(z, db, now, c, action);
      }
    case _ =>
  }

  lemma StepEvolves(env: Env, db: Db, now: int, step: Step)
    requires AllReviewed(db)
    ensures AllReviewed(Apply(env, db, now, step)) && Evolved(db, Apply(env, db, now, step))
  {
    hide Transition, Review, CreditDays, ValidCorrection;
    match step
    case Stamped(c) => TransitionRequests(env.zone, db, now, c);
    case Credited(user, first, last, kind) =>
      if Corrections.Absent(env.zone, env.target, db, user, first, last, kind).Success? {
        CreditDaysRequests(env.zone, env.target, db, user, first, last, kind);
      }
    case Decided(actor, role, d) =>
      if Review(env.zone, db, now, actor, role, d).Success? {
        ReviewEvolves(env.zone, db, now, actor, role, d);
      }
    case _ =>
  }

  /**
   * Over every run requests leave the pending state at most once, never return, and are never decided by their owner.
   */
  lemma {:induction false} RunEvolves(env: Env, db: Db, trace: seq<Timed>)
    requires AllReviewed(db)
    ensures AllReviewed(Exec(env, db, trace)) && Evolved(db, Exec(env, db, trace))
  {
    hide Apply, AllReviewed, Evolved;
    if trace == [] {
      EvolvedSame(db);
    } else {
      var before := Exec(env, db, trace[..|trace| - 1]);
      RunEvolves(env, db, trace[..|trace| - 1]);
      StepEvolves(env, before, trace[|trace| - 1].now, trace[|trace| - 1].step);
      EvolvedTrans(db, before, Exec(env, db, trace));
    }
  }

  lemma EvolvedSame(db: Db)
    ensures Evolved(db, db)
  {
  }

  // --- What an approval touches ---

  /** The number of the booking an approval may change: the one it names, or the next free one. */
  function Target(db: Db, number: nat): int
    requires number < |db.requests|
  {
    if db.requests[number].record.Some? then db.requests[number].record.value else db.nextRecord
  }

  /** An approval leaves every other booking, all breaks and the event log as they are and ends no session. */
  lemma ApprovalFrame(z: Zone, db: Db, now: int, number: nat)
    requires Consistent(db) && number < |db.requests|
    requires Approve(z, db, now, number).Success?
    ensures var after := Approve(z, db, now, number).value;
      && after.events == db.events
      && after.breaks == db.breaks
      && db.sessions <= after.sessions && |after.sessions| <= |db.sessions| + 1
      && after.records - {Target(db, number)} == db.records - {Target(db, number)}
  {
    hide EventsLogged, PausesStoredBut, SessionsMatched, NoOverlap, Parse, Snapshot, ValidCorrection;
    var a := db.requests[number];
    if a.record.Some? {
      var id := a.record.value;
      var r := OwnBooking(db, a.user, id).value;
      var metadata := Parse(a.original).value;
      if metadata.None? && a.cancel {
        NothingToEnd(db.(records := db.records - {id}), id, now);
      } else if metadata.None? {
        NothingToEnd(db.(records := db.records[id := Corrected(r, a)]), id, a.end);
      }
    }
  }

  /**
   * An approved new booking or correction shows the requested times, and has a session; a cancelled booking is gone.
   */
  lemma ApprovalEffect(z: Zone, db: Db, now: int, number: nat)
    requires Consistent(db) && number < |db.requests| && Parse(db.requests[number].original) == Success(None)
    requires Approve(z, db, now, number).Success?
    requires db.requests[number].record.Some? || !db.requests[number].cancel
    ensures var after := Approve(z, db, now, number).value;
      var a := db.requests[number];
      var id := Target(db, number);
      if a.cancel then id !in after.records
      else
        && id in after.records && after.records[id].user == a.user
        && after.records[id].start == a.start && after.records[id].end == Some(a.end)
        && after.records[id].pause == a.pause
        && HasSession(after.sessions, id)
        && (a.record.None? ==> !IsAbsence(after.records[id]) && after.requests[number].record == Some(id))
        && (a.record.Some? ==>
              && after.records[id].note == db.records[id].note && after.records[id].location == db.records[id].location
              && after.records[id].absenceKind == db.records[id].absenceKind
              && (HasKind(after.records[id].absenceKind) ==>
                   after.records[id].planned == Some((a.end - a.start) / 60 - a.pause)))
  {
    hide BreaksOrdered, EventsLogged, PausesStoredBut, NoOverlap, Parse, Snapshot, ValidCorrection, Matches, Unique;
    var a := db.requests[number];
    if a.record.Some? {
      var id := a.record.value;
      var r := OwnBooking(db, a.user, id).value;
      if a.cancel {
        NothingToEnd(db.(records := db.records - {id}), id, now);
      } else {
        NothingToEnd(db.(records := db.records[id := Corrected(r, a)]), id, a.end);
        SessionGiven(db.(records := db.records[id := Corrected(r, a)]), a, id);
      }
    } else {
      var added := InsertRecord(db, Added(a));
      var s := Session(a.user, db.nextRecord, a.start, Some(a.end));
      assert InsertSession(added, s).Success?;
      assert (db.sessions + [s])[|db.sessions|].record == db.nextRecord;
    }
  }

  lemma SessionGiven(db: Db, a: Request, id: int)
    ensures HasSession(db.sessions, id) || InsertSession(db, Session(a.user, id, a.start, Some(a.end))).Success?
    ensures HasSession(db.sessions + [Session(a.user, id, a.start, Some(a.end))], id)
  {
    var more := db.sessions + [Session(a.user, id, a.start, Some(a.end))];
    assert more[|db.sessions|].record == id;
  }

  /** An approved request for a new place and note changes those two fields and nothing else at all. */
  lemma MetadataApprovalEffect(z: Zone, db: Db, now: int, number: nat)
    requires number < |db.requests| && db.requests[number].record.Some?
    requires Parse(db.requests[number].original).Success? && Parse(db.requests[number].original).value.Some?
    requires Approve(z, db, now, number).Success?
    ensures var after := Approve(z, db, now, number).value;
      var m := Parse(db.requests[number].original).value.value.metadata;
      var id := db.requests[number].record.value;
      && id in db.records && id in after.records
      && after.records[id].note == m.note && after.records[id].location == m.location
      && db.records[id] == after.records[id].(note := db.records[id].note, location := db.records[id].location)
      && db == after.(records := db.records)
      && after.records - {id} == db.records - {id}
  {
    hide NoOverlap, Parse, Snapshot, ValidCorrection, ValidMetadata;
  }

  /** Asking stores the booking as the requester sees it. */
  lemma AskedSnapshot(z: Zone, db: Db, now: int, user: int, ask: Ask)
    requires ask.record != 0
    requires RequestCorrection(z, db, now, user, ask).Success?
    ensures var after := RequestCorrection(z, db, now, user, ask).value;
      && after == db.(requests := db.requests + [after.requests[|db.requests|]])
      && after.requests[|db.requests|].record == Some(ask.record)
      && ask.record in db.records && db.records[ask.record].user == user
      && after.requests[|db.requests|].original == Some(Snapshot(ask.record, db.records[ask.record]))
  {
    hide ValidCorrection, Snapshot;
  }

  /**
   * An accepted request asks for what was entered, and approving it in the same tables, now or later, can only fail
   * because of an overlap: nothing that would be refused by form is ever stored.
   */
  lemma AskedApprovable(z: Zone, db: Db, now: int, user: int, ask: Ask, later: int)
    requires Consistent(db) && now <= later
    requires RequestCorrection(z, db, now, user, ask).Success?
    ensures var after := RequestCorrection(z, db, now, user, ask).value;
      var a := after.requests[|db.requests|];
      && a.user == user && a.status == Pending && a.cancel == ask.cancel
      && (!ask.cancel ==> ask.start == Some(a.start) && ask.end == Some(a.end) && ask.pause == Some(a.pause))
      && (Approve(z, after, later, |db.requests|).Success?
           || Approve(z, after, later, |db.requests|) == Failure(Overlapping))
      && (ask.cancel ==> Approve(z, after, later, |db.requests|).Success?)
  {
    hide BreaksOrdered, EventsLogged, PausesStoredBut, NoOverlap, Parse, Snapshot, ValidCorrection, Matches, Unique,
      EndOf;
    var after := RequestCorrection(z, db, now, user, ask).value;
    var a := after.requests[|db.requests|];
    if ask.record == 0 {
      NothingParsed();
      StillValid(z, None, a.start, a.end, a.pause, now, later);
      assert !HasSession(db.sessions, db.nextRecord);
    } else {
      OrdinarySnapshot(ask.record, db.records[ask.record]);
      if !ask.cancel {
        StillValid(z, Some(db.records[ask.record]), a.start, a.end, a.pause, now, later);
      }
      MovedSucceeds(after, a, ask.record);
    }
  }

  lemma NothingParsed()
    ensures Parse(None) == Success(None)
  {
  }

  lemma MovedSucceeds(db: Db, a: Request, id: int)
    requires BreaksOrdered(db.sessions, db.breaks) && !HasOpenSession(db.sessions, id)
    ensures id in db.records ==> Moved(db, a, id, db.records[id]).Success?
  {
    hide BreaksOrdered;
    if id in db.records {
      NothingToEnd(db.(records := db.records[id := Corrected(db.records[id], a)]), id, a.end);
    }
  }

  lemma AskedMetadataSnapshot(db: Db, now: int, user: int, ask: MetadataAsk)
    requires RequestMetadata(db, now, user, ask).Success?
    ensures var after := RequestMetadata(db, now, user, ask).value;
      && after == db.(requests := db.requests + [after.requests[|db.requests|]])
      && after.requests[|db.requests|].record == Some(ask.record)
      && ask.record in db.records && db.records[ask.record].user == user
      && after.requests[|db.requests|].original
         == Some(SnapshotWith(ask.record, db.records[ask.record], ask.metadata.value))
      && Parse(after.requests[|db.requests|].original)
         == Success(Some(Parsed(Snapshot(ask.record, db.records[ask.record]), ask.metadata.value)))
  {
    ProposalRoundTrip(ask.record, db.records[ask.record], ask.metadata.value);
  }

  /**
   * An accepted request for a new place and note can be approved: in the same tables nothing stands against it, now or
   * later, and the booking then shows exactly what was asked for.
   */
  lemma AskedMetadataApprovable(z: Zone, db: Db, now: int, user: int, ask: MetadataAsk, later: int)
    requires RequestMetadata(db, now, user, ask).Success?
    ensures var after := RequestMetadata(db, now, user, ask).value;
      && Approve(z, after, later, |db.requests|).Success?
      && Approve(z, after, later, |db.requests|).value.records
         == db.records[ask.record := db.records[ask.record].(note := ask.metadata.value.note,
                                                            location := ask.metadata.value.location)]
  {
    AskedMetadataSnapshot(db, now, user, ask);
    hide Snapshot, SnapshotWith, Parse, ValidMetadata, HasOpenSession;
  }

  /** The booking a stored snapshot was taken of, whether or not it carries a proposal. */
  ghost predicate TakenOf(original: Option<Json.Document>, id: int, r: Record) {
    || original == Some(Snapshot(id, r))
    || exists m :: Parse(original) == Success(Some(Parsed(Snapshot(id, r), m)))
  }

  /** A request for a booking is refused as outdated exactly when the booking is gone or differs from the snapshot. */
  lemma OutdatedExactly(z: Zone, db: Db, now: int, number: nat, r: Record)
    requires number < |db.requests| && db.requests[number].record.Some?
    requires TakenOf(db.requests[number].original, db.requests[number].record.value, r)
    ensures Approve(z, db, now, number) == Failure(BookingChanged)
       <==> OwnBooking(db, db.requests[number].user, db.requests[number].record.value) != Some(r)
  {
    hide NoOverlap, ValidCorrection, EndOf, Parse, Snapshot;
    var a := db.requests[number];
    var id := a.record.value;
    OrdinarySnapshot(id, r);
    var booked := OwnBooking(db, a.user, id);
    if booked.Some? && Snapshot(id, booked.value) == Snapshot(id, r) {
      SnapshotInjective(id, booked.value, id, r);
    }
    MovedNotOutdated(db, a, id);
  }

  lemma MovedNotOutdated(db: Db, a: Request, id: int)
    ensures id in db.records ==> Moved(db, a, id, db.records[id]) != Failure(BookingChanged)
    ensures id in db.records ==> forall m :: Relabelled(db, a, id, db.records[id], m) != Failure(BookingChanged)
  {
    hide EndOf;
  }

  /**
   * Over a run: a request made for a booking, whatever happens in between, is later approved only if the
   * booking then is what it was when the request was made.
   */
  lemma ApprovedAsAsked(env: Env, db: Db, trace: seq<Timed>, number: nat, id: int, r: Record, now: int)
    requires AllReviewed(db)
    requires number < |db.requests| && db.requests[number].record == Some(id)
    requires TakenOf(db.requests[number].original, id, r)
    requires number < |Exec(env, db, trace).requests|
    requires Approve(env.zone, Exec(env, db, trace), now, number).Success?
    ensures OwnBooking(Exec(env, db, trace), db.requests[number].user, id) == Some(r)
  {
    hide Approve, Exec, TakenOf, AllReviewed;
    RunEvolves(env, db, trace);
    assert EvolvesTo(db.requests[number], Exec(env, db, trace).requests[number]);
    OutdatedExactly(env.zone, Exec(env, db, trace), now, number, r);
  }
}
