/**
 * The advertised next actions (lib/attendance_workflow_status.php) against what
 * the transition really refuses.
 */
module WorkflowHints {
  import opened Wrappers
  import opened Booking
  import opened Schema
  import opened Attendance
  import opened Consistency

  function AllowedActions(state: State): set<Action> {
    match state
    case Absent => {Start}
    case Working => {PauseStart, End}
    case Paused => {PauseEnd, End}
  }

  function ConfirmationRequired(state: State): set<Action> {
    if state == Paused then {End} else {}
  }

  lemma {:induction false} NoEventsYet(events: seq<Event>, s: int)
    requires forall i :: 0 <= i < |events| ==> events[i].session != s
    ensures LastEvent(events, s) == 0
  {
    if events != [] {
      NoEventsYet(events[..|events| - 1], s);
    }
  }

  lemma {:induction false} NoBreaksYet(breaks: seq<Break>, s: int)
    requires forall i :: 0 <= i < |breaks| ==> breaks[i].session != s
    ensures LastBreak(breaks, s) == 0
  {
    if breaks != [] {
      NoBreaksYet(breaks[..|breaks| - 1], s);
    }
  }

  /** The server clock is not behind anything already marked for the user. */
  ghost predicate ClockValid(db: Db, user: int, now: int) {
    var s := OpenSession(db.sessions, user);
    && 0 <= now
    && (s >= 0 ==> Max(db.sessions[s].started, Max(LastEvent(db.events, s), LastBreak(db.breaks, s))) <= now)
    && (forall id :: IsOpenOf(db.records, user, id) ==> db.records[id].start <= now)
  }

  /** An open booking without an open session has never had a session. */
  lemma LegacyAdoptable(db: Db, user: int, id: int)
    requires Consistent(db)
    requires OpenSession(db.sessions, user) < 0 && IsOpenOf(db.records, user, id)
    ensures !HasSession(db.sessions, id)
  {
    forall i | 0 <= i < |db.sessions| ensures db.sessions[i].record != id {
      if db.sessions[i].ended.None? {
        assert Matches(db.records, db.sessions[i]);
      }
    }
  }

  lemma AdoptSucceeds(db: Db, user: int, now: int)
    requires Consistent(db) && ClockValid(db, user, now)
    requires |OpenBookings(db.records, user, db.nextRecord)| <= 1
    ensures Adopt(db, now, user).Success? <==> StatusOfUser(db, user).0 != Absent
    ensures Adopt(db, now, user).Success? ==>
      var (adopted, s) := Adopt(db, now, user).value;
      && StatusOfUser(db, user).1 == Some(adopted.sessions[s].record)
      && (OpenBreak(adopted.breaks, s) >= 0 <==> StatusOfUser(db, user).0 == Paused)
      && Max(adopted.sessions[s].started, Max(LastEvent(adopted.events, s), LastBreak(adopted.breaks, s))) <= now
  {
    hide Unique, PausesStoredBut;
    if OpenSession(db.sessions, user) < 0 {
      NoEventsYet(db.events, |db.sessions|);
      NoBreaksYet(db.breaks, |db.sessions|);
      var legacy := OpenBookings(db.records, user, db.nextRecord);
      if legacy != [] {
        LegacyAdoptable(db, user, legacy[0]);
      }
    }
  }

  lemma OpenSucceeds(z: Zone, db: Db, now: int, c: Command)
    requires Consistent(db)
    requires NoOverlap(z, db.records, c.user, now, now + 1, 0)
    ensures Open(z, db, now, c).Success? <==> StatusOfUser(db, c.user).0 == Absent
  {
    hide NoOverlap, BreaksOrdered, PausesStoredBut, EventsLogged;
  }

  /**
   * The hints are exact: with a confirmation, the advertised booking, a valid clock, no overlap and at most
   * one old open booking, a new event is booked if and only if its action is advertised for the current state.
   */
  lemma HintsExact(z: Zone, db: Db, now: int, c: Command, action: Action)
    requires Consistent(db)
    requires Admit(db, c) == Admitted(action)
    requires action in ConfirmationRequired(StatusOfUser(db, c.user).0) ==> c.confirm
    requires c.expected.None? || c.expected == StatusOfUser(db, c.user).1
    requires ClockValid(db, c.user, now)
    requires NoOverlap(z, db.records, c.user, now, now + 1, 0)
    requires |OpenBookings(db.records, c.user, db.nextRecord)| <= 1
    ensures Transition(z, db, now, c).0.Success? <==> action in AllowedActions(StatusOfUser(db, c.user).0)
  {
    hide Consistent, NoOverlap, Open, Adopt, StatusOfUser;
    if action == Start {
      OpenSucceeds(z, db, now, c);
    } else {
      AdoptSucceeds(db, c.user, now);
    }
  }

  /** Without a confirmation an advertised action is booked exactly when the hints do not ask for one. */
  lemma ConfirmationExactly(z: Zone, db: Db, now: int, c: Command, action: Action)
    requires Consistent(db)
    requires Admit(db, c) == Admitted(action) && !c.confirm
    requires action in AllowedActions(StatusOfUser(db, c.user).0)
    requires c.expected.None? || c.expected == StatusOfUser(db, c.user).1
    requires ClockValid(db, c.user, now)
    requires NoOverlap(z, db.records, c.user, now, now + 1, 0)
    requires |OpenBookings(db.records, c.user, db.nextRecord)| <= 1
    ensures Transition(z, db, now, c).0.Success? <==> action !in ConfirmationRequired(StatusOfUser(db, c.user).0)
  {
    hide Consistent, NoOverlap, Open, Adopt, StatusOfUser;
    if action == Start {
      OpenSucceeds(z, db, now, c);
    } else {
      AdoptSucceeds(db, c.user, now);
    }
  }

  /** What the status of a user says about the tables. */
  lemma StatusMeans(db: Db, user: int)
    requires Consistent(db)
    ensures StatusOfUser(db, user).0 == Absent <==> forall id :: !IsOpenOf(db.records, user, id)
    ensures StatusOfUser(db, user).0 != Absent ==>
      StatusOfUser(db, user).1.Some? && IsOpenOf(db.records, user, StatusOfUser(db, user).1.value)
    ensures StatusOfUser(db, user).0 == Paused <==>
      exists k :: 0 <= k < |db.breaks| && db.breaks[k].ended.None? && db.sessions[db.breaks[k].session].user == user
  {
    PausedMeans(db, user);
    hide Unique, PausesStoredBut, EventsLogged, BreaksOrdered;
    var s := OpenSession(db.sessions, user);
    if s >= 0 {
      assert Matches(db.records, db.sessions[s]);
    } else if StatusOfUser(db, user).0 == Absent {
      NoneOpen(db, user);
    }
  }

  lemma PausedMeans(db: Db, user: int)
    requires Consistent(db)
    ensures StatusOfUser(db, user).0 == Paused <==>
      exists k :: 0 <= k < |db.breaks| && db.breaks[k].ended.None? && db.sessions[db.breaks[k].session].user == user
  {
    hide Unique, PausesStoredBut, EventsLogged, Matches, RecordsNumbered;
    if k :| 0 <= k < |db.breaks| && db.breaks[k].ended.None? && db.sessions[db.breaks[k].session].user == user {
      assert Inside(db.sessions[db.breaks[k].session], db.breaks[k]);
      OpenSessionFound(db, db.breaks[k].session);
    }
  }

  /** The open session of a user is the one a lookup finds. */
  lemma OpenSessionFound(db: Db, i: nat)
    requires Unique(db.sessions)
    requires i < |db.sessions| && db.sessions[i].ended.None?
    ensures OpenSession(db.sessions, db.sessions[i].user) == i
  {
  }
}
