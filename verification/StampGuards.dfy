/** Exactly when a stamp is answered with success (lib/attendance.php), in terms of the rows it finds. */
module StampGuards {
  import opened Wrappers
  import opened Booking
  import opened Schema
  import opened Attendance
  import opened Consistency
  import opened WorkflowHints

  /** The one open booking of the user. */
  ghost predicate Current(db: Db, user: int, id: int) {
    && IsOpenOf(db.records, user, id)
    && forall other :: IsOpenOf(db.records, user, other) ==> other == id
  }

  /** Row number s is the session of the booking. */
  predicate SessionOf(db: Db, s: int, id: int) {
    0 <= s < |db.sessions| && db.sessions[s].record == id
  }

  ghost predicate OnBreak(db: Db, id: int) {
    exists k :: 0 <= k < |db.breaks| && SessionOf(db, db.breaks[k].session, id) && db.breaks[k].ended.None?
  }

  /** Nothing recorded of the booking lies after this second. */
  ghost predicate NothingLater(db: Db, id: int, now: int)
    requires id in db.records
  {
    && 0 <= now && db.records[id].start <= now
    && (forall k :: 0 <= k < |db.events| && SessionOf(db, db.events[k].session, id) ==> db.events[k].receivedAt <= now)
    && (forall k :: 0 <= k < |db.breaks| && SessionOf(db, db.breaks[k].session, id) ==> BreakBy(db.breaks[k], now))
  }

  predicate BreakBy(b: Break, now: int) {
    b.started <= now && (b.ended.Some? ==> b.ended.value <= now)
  }

  /** A start finds nothing open, and no booking of the user in this second. */
  ghost predicate MayStart(z: Zone, db: Db, now: int, user: int) {
    && (forall id :: !IsOpenOf(db.records, user, id))
    && NoOverlap(z, db.records, user, now, now + 1, 0)
  }

  /**
   * A later stamp finds exactly one open booking: the expected one, nothing of it in the future, its break as needed.
   */
  ghost predicate MayContinue(db: Db, now: int, c: Command, action: Action) {
    exists id :: Continues(db, now, c, action, id)
  }

  ghost predicate Continues(db: Db, now: int, c: Command, action: Action, id: int) {
    && Current(db, c.user, id)
    && (c.expected.Some? ==> c.expected.value == id)
    && NothingLater(db, id, now)
    && (action == PauseStart ==> !OnBreak(db, id))
    && (action == PauseEnd ==> OnBreak(db, id))
    && (action == End && OnBreak(db, id) ==> c.confirm)
  }

  ghost predicate MayBook(z: Zone, db: Db, now: int, c: Command, action: Action) {
    if action == Start then MayStart(z, db, now, c.user) else MayContinue(db, now, c, action)
  }

  // --- Latest marks ---

  lemma {:induction false} LatestEvent(events: seq<Event>, s: int, now: int)
    ensures LastEvent(events, s) <= now <==>
      0 <= now && forall k :: 0 <= k < |events| && events[k].session == s ==> events[k].receivedAt <= now
  {
    if events != [] {
      var front := events[..|events| - 1];
      LatestEvent(front, s, now);
      assert forall k :: 0 <= k < |front| ==> front[k] == events[k];
      NonNegativeEvent(front, s);
    }
  }

  lemma {:induction false} NonNegativeEvent(events: seq<Event>, s: int)
    ensures 0 <= LastEvent(events, s)
  {
    if events != [] {
      NonNegativeEvent(events[..|events| - 1], s);
    }
  }

  lemma {:induction false} LatestBreak(breaks: seq<Break>, s: int, now: int)
    ensures LastBreak(breaks, s) <= now <==>
      0 <= now && forall k :: 0 <= k < |breaks| && breaks[k].session == s ==> BreakBy(breaks[k], now)
  {
    if breaks != [] {
      var front := breaks[..|breaks| - 1];
      LatestBreak(front, s, now);
      assert forall k :: 0 <= k < |front| ==> front[k] == breaks[k];
    }
  }

  // --- The guards are exact ---

  lemma StartExactly(z: Zone, db: Db, now: int, c: Command)
    requires Consistent(db)
    ensures Open(z, db, now, c).Success? <==> MayStart(z, db, now, c.user)
  {
    hide NoOverlap, BreaksOrdered, PausesStoredBut, EventsLogged;
    if NoOverlap(z, db.records, c.user, now, now + 1, 0) {
      OpenSucceeds(z, db, now, c);
      StatusMeans(db, c.user);
    }
  }

  /** The open session of a user and its checks, seen from its booking. */
  lemma SessionChecks(db: Db, s: nat, now: int, c: Command, action: Action)
    requires Consistent(db) && s == OpenSession(db.sessions, c.user)
    requires action != Start
    ensures Obstacle(db, s, now, c, action).None? <==> Continues(db, now, c, action, db.sessions[s].record)
    ensures Current(db, c.user, db.sessions[s].record)
  {
    hide Unique, EventsLogged, PausesStoredBut, Inside;
    assert Matches(db.records, db.sessions[s]);
    var id := db.sessions[s].record;
    forall i ensures SessionOf(db, i, id) <==> i == s {
      OneSession(db.sessions, s, i);
    }
    LatestEvent(db.events, s, now);
    LatestBreak(db.breaks, s, now);
    assert OnBreak(db, id) <==> OpenBreak(db.breaks, s) >= 0;
  }

  lemma OneSession(sessions: seq<Session>, s: nat, i: int)
    requires Unique(sessions) && s < |sessions|
    ensures 0 <= i < |sessions| && sessions[i].record == sessions[s].record <==> i == s
  {
  }

  /** The only open booking of a user who has no open session is the one that is adopted. */
  lemma LegacyChecks(db: Db, now: int, c: Command, action: Action, id: int)
    requires Consistent(db) && OpenSession(db.sessions, c.user) < 0 && Current(db, c.user, id)
    requires action != Start
    ensures Later(db, now, c, action).Success? <==> Continues(db, now, c, action, id)
  {
    hide Unique, EventsLogged, PausesStoredBut, Inside, Stamp;
    OnlyLegacy(db, c.user, id);
    LegacyAdoptable(db, c.user, id);
    forall i ensures !SessionOf(db, i, id) {
    }
    var s := |db.sessions|;
    var adopted := db.(sessions := db.sessions + [Session(c.user, id, db.records[id].start, None)]);
    if db.records[id].start <= now {
      assert Adopt(db, now, c.user) == Success((adopted, s));
      NoMarksYet(db, s);
    }
  }

  lemma NoMarksYet(db: Db, s: nat)
    requires Consistent(db) && s == |db.sessions|
    ensures LastEvent(db.events, s) == 0 && LastBreak(db.breaks, s) == 0 && OpenBreak(db.breaks, s) < 0
  {
    NoEventsYet(db.events, s);
    NoBreaksYet(db.breaks, s);
  }

  lemma FirstTwoDiffer(records: map<int, Record>, user: int, bound: int)
    ensures var ids := OpenBookings(records, user, bound);
      |ids| > 1 ==> ids[0] < ids[1]
  {
  }

  lemma OnlyLegacy(db: Db, user: int, id: int)
    requires RecordsNumbered(db) && Current(db, user, id)
    ensures OpenBookings(db.records, user, db.nextRecord) == [id]
  {
    var ids := OpenBookings(db.records, user, db.nextRecord);
    assert id in ids;
    FirstTwoDiffer(db.records, user, db.nextRecord);
  }

  lemma LaterExactly(db: Db, now: int, c: Command, action: Action)
    requires Consistent(db) && action != Start
    ensures Later(db, now, c, action).Success? <==> MayContinue(db, now, c, action)
  {
    var s := OpenSession(db.sessions, c.user);
    if s >= 0 {
      SessionChecks(db, s, now, c, action);
      hide Consistent, Obstacle, Stamp, NothingLater, OnBreak;
      forall id | Continues(db, now, c, action, id) ensures id == db.sessions[s].record {
      }
    } else if id :| Current(db, c.user, id) {
      LegacyChecks(db, now, c, action, id);
      hide Consistent, Later, NothingLater, OnBreak;
      forall other | Continues(db, now, c, action, other) ensures other == id {
      }
    } else {
      AdoptsCurrent(db, now, c.user);
      hide Consistent, NothingLater, OnBreak, Current;
    }
  }

  lemma AdoptsCurrent(db: Db, now: int, user: int)
    requires Consistent(db) && OpenSession(db.sessions, user) < 0
    ensures Adopt(db, now, user).Success? ==> exists id :: Current(db, user, id)
  {
    var ids := OpenBookings(db.records, user, db.nextRecord);
    if |ids| == 1 {
      assert Current(db, user, ids[0]) by {
        forall other | IsOpenOf(db.records, user, other) ensures other == ids[0] {
          assert other in ids;
        }
      }
    }
  }

  /** What every event must look like before the tables matter. */
  predicate WellFormed(db: Db, c: Command) {
    && ValidEventId(c.eventId) && ParseAction(c.action).Some? && c.user in db.users
    && (c.metadata.Some? ==> ValidMetadata(c.metadata.value) && ParseAction(c.action) == Some(Start))
  }

  /** The key belongs to an entry of the log, and that entry was made by the same payload. */
  ghost predicate RepeatOf(db: Db, c: Command, i: int) {
    && 0 <= i < |db.events| && db.events[i].source == c.source && db.events[i].eventId == c.eventId
    && ParseAction(c.action).Some? && db.events[i].payload == PayloadOf(c, ParseAction(c.action).value)
  }

  predicate KeyUsed(db: Db, c: Command) {
    exists i | 0 <= i < |db.events| :: db.events[i].source == c.source && db.events[i].eventId == c.eventId
  }

  /**
   * A stamp succeeds exactly when it is well formed and either repeats a logged event, or uses a free key, has the
   * binding its caller must give, and passes the checks on the rows.
   */
  lemma SucceedsExactly(z: Zone, db: Db, now: int, c: Command)
    requires Consistent(db)
    ensures Transition(z, db, now, c).0.Success? <==>
      && WellFormed(db, c)
      && (if KeyUsed(db, c) then exists i :: RepeatOf(db, c, i)
          else
            && (c.requireExpected && ParseAction(c.action).value != Start ==> c.expected.Some?)
            && MayBook(z, db, now, c, ParseAction(c.action).value))
  {
    hide RecordsNumbered, SessionsMatched, BreaksOrdered, PausesStored, ValidEventId, ValidMetadata, MayStart,
      MayContinue, Open, Later, Log, PayloadOf;
    match Admit(db, c)
    case Admitted(action) =>
      if action == Start {
        StartExactly(z, db, now, c);
      } else {
        LaterExactly(db, now, c, action);
      }
    case Replayed(_) =>
      assert RepeatOf(db, c, FindEvent(db.events, c.source, c.eventId));
    case Refused(_) =>
      forall i | RepeatOf(db, c, i) ensures i == FindEvent(db.events, c.source, c.eventId) {
        var k := FindEvent(db.events, c.source, c.eventId);
        assert SameKey(db.events[k], db.events[i]) && SameKey(db.events[i], db.events[k]);
      }
  }
}
