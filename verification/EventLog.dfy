/** What any step does to the event log: nothing, or one new entry for the stamp it performs. */
module EventLog {
  import opened Wrappers
  import opened Booking
  import opened Schema
  import opened Attendance
  import opened Corrections
  import opened Consistency
  import opened CorrectionLifecycle
  import opened Runs

  predicate Logged(events: seq<Event>, source: string, eventId: string) {
    exists i :: 0 <= i < |events| && events[i].source == source && events[i].eventId == eventId
  }

  /** The entry is the one the command asks for, under the command's key. */
  predicate EntryOf(e: Event, c: Command) {
    && e.source == c.source && e.eventId == c.eventId && e.user == c.user
    && ParseAction(c.action) == Some(e.action)
    && e.payload == PayloadOf(c, e.action)
  }

  /** What the stored answer says in terms of the command alone. */
  predicate Fits(r: Receipt, c: Command) {
    && r.eventId == c.eventId
    && 0 < r.record
    && (c.expected.Some? && c.action != "start" ==> r.record == c.expected.value)
    && (c.action == "start" && Nondefault(c.metadata) ==> r.metadata == c.metadata)
  }

  lemma SessionNumbered(z: Zone, db: Db, now: int, c: Command, action: Action)
    requires Consistent(db)
    requires Booked(z, db, now, c, action).Success?
    ensures var (booked, s) := Booked(z, db, now, c, action).value;
      && 0 < booked.sessions[s].record
      && (action != Start && c.expected.Some? ==> booked.sessions[s].record == c.expected.value)
  {
    hide BreaksOrdered, EventsLogged, PausesStoredBut, NoOverlap, Unique, Matches, StampedBreaks, ClosedSeconds;
    BookedKeeps(z, db, now, c, action);
  }

  lemma EntryFits(db: Db, s: nat, now: int, c: Command, action: Action)
    requires s < |db.sessions| && 0 < db.sessions[s].record
    requires action != Start && c.expected.Some? ==> db.sessions[s].record == c.expected.value
    requires ParseAction(c.action) == Some(action)
    ensures var (after, receipt) := Log(db, s, now, c, action);
      && |after.events| == |db.events| + 1 && after.events[..|db.events|] == db.events
      && EntryOf(after.events[|db.events|], c) && after.events[|db.events|].receipt == receipt
      && Fits(receipt, c)
  {
    hide StatusOfUser, PayloadOf;
  }

  /** A new event is logged once, with an answer that fits the command. */
  lemma PerformLogs(z: Zone, db: Db, now: int, c: Command, action: Action)
    requires Consistent(db) && Admit(db, c) == Admitted(action)
    requires Perform(z, db, now, c, action).Success?
    ensures var (after, receipt) := Perform(z, db, now, c, action).value;
      && |after.events| == |db.events| + 1 && after.events[..|db.events|] == db.events
      && EntryOf(after.events[|db.events|], c) && after.events[|db.events|].receipt == receipt
      && Fits(receipt, c)
  {
    hide Consistent, Booked, Log, Fits, EntryOf;
    BookedFrame(z, db, now, c, action);
    SessionNumbered(z, db, now, c, action);
    assert ParseAction(c.action) == Some(action);
    var (booked, s) := Booked(z, db, now, c, action).value;
    EntryFits(booked, s, now, c, action);
  }

  /** A stamp either leaves the log alone or adds its own entry under a key that was free. */
  ghost predicate LogsOnly(before: seq<Event>, after: seq<Event>, c: Command) {
    || after == before
    || (&& |after| == |before| + 1 && after[..|before|] == before
        && !Logged(before, c.source, c.eventId)
        && EntryOf(after[|before|], c)
        && Fits(after[|before|].receipt, c))
  }

  lemma TransitionLogs(z: Zone, db: Db, now: int, c: Command)
    requires Consistent(db)
    ensures LogsOnly(db.events, Transition(z, db, now, c).1.events, c)
    ensures Transition(z, db, now, c).0.Failure? ==> Transition(z, db, now, c).1 == db
  {
    hide Consistent, Perform, Fits, EntryOf;
    match Admit(db, c)
    case Admitted(action) =>
      if Perform(z, db, now, c, action).Success? {
        PerformLogs(z, db, now, c, action);
      }
    case _ =>
  }

  /** Nothing but a stamp touches the log. */
  lemma OtherStepsKeepLog(env: Env, db: Db, now: int, step: Step)
    requires Consistent(db) && !step.Stamped?
    ensures Apply(env, db, now, step).events == db.events
  {
    hide Consistent, Approve, CreditDays;
    match step
    case Credited(user, first, last, kind) =>
      if Corrections.Absent(env.zone, env.target, db, user, first, last, kind).Success? {
        CreditDaysRequests(env.zone, env.target, db, user, first, last, kind);
      }
    case Decided(actor, role, d) =>
      if Review(env.zone, db, now, actor, role, d).Success? && d.decision == "approved" {
        ApprovalFrame(env.zone, db, now, d.number);
      }
    case _ =>
  }

  /** What a refusal of an existing account says: the key was not in use, or it was in use for something else. */
  lemma RefusedUnlogged(z: Zone, db: Db, now: int, c: Command)
    requires Transition(z, db, now, c).0.Failure?
    requires c.user in db.users && ValidEventId(c.eventId) && ParseAction(c.action).Some?
    requires c.metadata.Some? ==> c.action == "start" && ValidMetadata(c.metadata.value)
    ensures Logged(db.events, c.source, c.eventId) ==> Transition(z, db, now, c).0 == Failure(EventIdReused)
  {
    hide Perform, ValidMetadata;
  }

  /** A repeated event is answered from the log without any change. */
  lemma ReplayedUnchanged(z: Zone, db: Db, now: int, c: Command, i: nat)
    requires Consistent(db) && i < |db.events| && EntryOf(db.events[i], c)
    requires c.user in db.users && ValidEventId(c.eventId)
    requires c.metadata.Some? ==> c.action == "start" && ValidMetadata(c.metadata.value)
    ensures Transition(z, db, now, c) == (Success(db.events[i].receipt), db)
  {
    hide RecordsNumbered, SessionsMatched, BreaksOrdered, PausesStored, ValidMetadata, Perform, PayloadOf;
    var k := FindEvent(db.events, c.source, c.eventId);
    assert SameKey(db.events[k], db.events[i]);
  }
}
