/**
 * The event log is the authority and the other tables are a projection of it
 * (lib/attendance.php): replaying the log of a session gives its breaks and its
 * end, and an open booking shows what its start stamp said.
 */
module EventReplay {
  import opened Wrappers
  import opened Booking
  import opened Schema
  import opened Attendance
  import opened CorrectionMetadata
  import opened Corrections
  import opened Consistency
  import opened CorrectionInvariants
  import opened CorrectionLifecycle
  import opened Runs

  /** When a break began and, if it is over, when it ended. */
  datatype Mark = Mark(from: int, until: Option<int>)

  datatype Told = Told(marks: seq<Mark>, ended: Option<int>)

  function ClosedMarks(marks: seq<Mark>, t: int): seq<Mark> {
    if marks != [] && marks[|marks| - 1].until.None? then marks[|marks| - 1 := Mark(marks[|marks| - 1].from, Some(t))]
      else marks
  }

  /** What one event adds to the story of its session. */
  function Retold(told: Told, action: Action, t: int): Told {
    match action
    case Start => told
    case PauseStart => told.(marks := told.marks + [Mark(t, None)])
    case PauseEnd => told.(marks := ClosedMarks(told.marks, t))
    case End => Told(ClosedMarks(told.marks, t), Some(t))
  }

  /** The story of a session as its events tell it, looking at nothing but action and time. */
  function Replay(events: seq<Event>, s: int): Told {
    if events == [] then Told([], None)
    else
      var e := events[|events| - 1];
      var before := Replay(events[..|events| - 1], s);
      if e.session == s then Retold(before, e.action, e.receivedAt) else before
  }

  /** The stored breaks of a session, in order. */
  function MarksOf(breaks: seq<Break>, s: int): seq<Mark> {
    if breaks == [] then []
    else
      var b := breaks[|breaks| - 1];
      MarksOf(breaks[..|breaks| - 1], s) + (if b.session == s then [Mark(b.started, b.ended)] else [])
  }

  function MarkSeconds(marks: seq<Mark>): int {
    if marks == [] then 0
    else
      var m := marks[|marks| - 1];
      MarkSeconds(marks[..|marks| - 1]) + (if m.until.Some? then m.until.value - m.from else 0)
  }

  /** A start stamp without metadata means the default place and no note. */
  function StampedMetadata(e: Event): Metadata {
    if e.payload.metadata.Some? then e.payload.metadata.value else Metadata("office", "")
  }

  predicate HasEvent(events: seq<Event>, s: int) {
    exists i :: 0 <= i < |events| && events[i].session == s
  }

  ghost predicate SessionTold(db: Db, s: nat)
    requires s < |db.sessions|
  {
    && MarksOf(db.breaks, s) == Replay(db.events, s).marks
    && (HasEvent(db.events, s) ==> db.sessions[s].ended == Replay(db.events, s).ended)
  }

  /** A start stamp and the session it opened; while the session is open, so is the booking it describes. */
  ghost predicate StartShown(db: Db, e: Event) {
    e.session < |db.sessions| && e.action == Start ==>
      && db.sessions[e.session].started == e.receivedAt
      && (db.sessions[e.session].ended.None? && db.sessions[e.session].record in db.records ==>
            && db.records[db.sessions[e.session].record].location == StampedMetadata(e).location
            && db.records[db.sessions[e.session].record].note == StampedMetadata(e).note)
  }

  ghost predicate AllTold(db: Db) {
    && (forall s :: 0 <= s < |db.sessions| ==> SessionTold(db, s))
    && (forall i :: 0 <= i < |db.events| ==> StartShown(db, db.events[i]))
  }

  // --- Breaks and marks ---

  lemma {:induction false} SecondsAgree(breaks: seq<Break>, s: int)
    ensures MarkSeconds(MarksOf(breaks, s)) == ClosedSeconds(breaks, s)
  {
    if breaks != [] {
      var front := breaks[..|breaks| - 1];
      var b := breaks[|breaks| - 1];
      SecondsAgree(front, s);
      var marks := MarksOf(front, s);
      if b.session == s {
        assert (marks + [Mark(b.started, b.ended)])[..|marks|] == marks;
      } else {
        assert marks + [] == marks;
      }
    }
  }

  lemma MarksAppended(breaks: seq<Break>, b: Break, s: int)
    ensures MarksOf(breaks + [b], s) == MarksOf(breaks, s) + (if b.session == s then [Mark(b.started, b.ended)] else [])
  {
    assert (breaks + [b])[..|breaks|] == breaks;
  }

  lemma {:induction false} NoMarks(breaks: seq<Break>, s: int)
    requires forall k :: 0 <= k < |breaks| ==> breaks[k].session != s
    ensures MarksOf(breaks, s) == []
  {
    if breaks != [] {
      NoMarks(breaks[..|breaks| - 1], s);
    }
  }

  lemma {:induction false} NoStory(events: seq<Event>, s: int)
    requires !HasEvent(events, s)
    ensures Replay(events, s) == Told([], None)
  {
    if events != [] {
      assert !HasEvent(events[..|events| - 1], s) by {
        assert forall i :: 0 <= i < |events| - 1 ==> events[..|events| - 1][i] == events[i];
      }
      NoStory(events[..|events| - 1], s);
    }
  }

  /** Ending break k of session s, the last of its session, closes the last mark and no other. */
  lemma {:induction false} MarksEnded(breaks: seq<Break>, k: nat, t: int, s: int)
    requires k < |breaks| && breaks[k].ended.None?
    requires forall l :: k < l < |breaks| ==> breaks[l].session != breaks[k].session
    ensures MarksOf(breaks[k := breaks[k].(ended := Some(t))], s)
         == if breaks[k].session == s then ClosedMarks(MarksOf(breaks, s), t) else MarksOf(breaks, s)
  {
    var last := |breaks| - 1;
    var ended := breaks[k := breaks[k].(ended := Some(t))];
    if k == last {
      assert ended[..last] == breaks[..last];
    } else {
      MarksEnded(breaks[..last], k, t, s);
      assert ended[..last] == breaks[..last][k := breaks[k].(ended := Some(t))];
      assert ended[last] == breaks[last];
    }
  }

  /** Without an open break the last mark of a session is closed. */
  lemma {:induction false} NothingOpenMarked(breaks: seq<Break>, s: int)
    requires forall k :: 0 <= k < |breaks| ==> !(breaks[k].session == s && breaks[k].ended.None?)
    ensures forall i :: 0 <= i < |MarksOf(breaks, s)| ==> MarksOf(breaks, s)[i].until.Some?
  {
    if breaks != [] {
      NothingOpenMarked(breaks[..|breaks| - 1], s);
    }
  }

  /** What a stamp does to the marks is what its event adds to the story. */
  lemma StampedMarks(sessions: seq<Session>, breaks: seq<Break>, s: nat, now: int, action: Action, i: nat)
    requires BreaksOrdered(sessions, breaks) && action != Start
    requires action == PauseStart ==> OpenBreak(breaks, s) < 0
    ensures MarksOf(StampedBreaks(breaks, s, now, action), i)
         == if i == s then Retold(Told(MarksOf(breaks, s), None), action, now).marks else MarksOf(breaks, i)
  {
    var b := OpenBreak(breaks, s);
    if action == PauseStart {
      MarksAppended(breaks, Break(s, now, None), i);
    } else if b >= 0 {
      forall l | b < l < |breaks| ensures breaks[l].session != breaks[b].session {
      }
      hide BreaksOrdered;
      MarksEnded(breaks, b, now, i);
    } else {
      hide BreaksOrdered;
      NothingOpenMarked(breaks, s);
    }
  }

  // --- Stamps ---

  lemma ReplayAppended(events: seq<Event>, e: Event, s: int)
    ensures Replay(events + [e], s) == if e.session == s then Retold(Replay(events, s), e.action, e.receivedAt)
      else Replay(events, s)
    ensures HasEvent(events + [e], s) <==> HasEvent(events, s) || e.session == s
  {
    assert (events + [e])[..|events|] == events;
    if HasEvent(events, s) {
      var i :| 0 <= i < |events| && events[i].session == s;
      assert (events + [e])[i].session == s;
    }
    assert (events + [e])[|events|] == e;
    if HasEvent(events + [e], s) && e.session != s {
      var i :| 0 <= i < |events + [e]| && (events + [e])[i].session == s;
      assert events[i].session == s;
    }
  }

  /** A session nobody has stamped yet tells nothing. */
  lemma FreshSession(db: Db, s: Session, after: Db)
    requires Consistent(db) && AllTold(db)
    requires after.sessions == db.sessions + [s] && after.events == db.events && after.breaks == db.breaks
    ensures forall i :: 0 <= i < |after.sessions| ==> SessionTold(after, i)
    ensures !HasEvent(after.events, |db.sessions|)
  {
    hide RecordsNumbered, SessionsMatched, PausesStored, StartShown, Replay, MarksOf;
    var n := |db.sessions|;
    assert !HasEvent(db.events, n);
    NoStory(db.events, n);
    assert forall k :: 0 <= k < |db.breaks| ==> db.breaks[k].session < n;
    NoMarks(db.breaks, n);
    forall i | 0 <= i < |after.sessions| ensures SessionTold(after, i) {
      if i < n {
        assert SessionTold(db, i);
      }
    }
  }

  lemma OpenSessionsTold(db: Db, after: Db, first: Session, e: Event)
    requires Consistent(db) && AllTold(db) && first.ended.None?
    requires after.sessions == db.sessions + [first] && after.breaks == db.breaks && after.events == db.events + [e]
    requires e.session == |db.sessions| && e.action == Start
    ensures forall i :: 0 <= i < |after.sessions| ==> SessionTold(after, i)
  {
    var begun := db.(sessions := after.sessions);
    FreshSession(db, first, begun);
    hide Consistent, AllTold, Replay, MarksOf, HasEvent;
    forall i | 0 <= i < |after.sessions| ensures SessionTold(after, i) {
      assert SessionTold(begun, i);
      ReplayAppended(db.events, e, i);
      if i == |db.sessions| {
        NoStory(db.events, i);
      }
    }
  }

  lemma OpenStartsShown(z: Zone, db: Db, now: int, c: Command)
    requires Consistent(db) && AllTold(db)
    requires Open(z, db, now, c).Success?
    ensures var after := Log(Open(z, db, now, c).value.0, Open(z, db, now, c).value.1, now, c, Start).0;
      forall i :: 0 <= i < |after.events| ==> StartShown(after, after.events[i])
  {
    OpenAdds(z, db, now, c);
    hide NoOverlap, SessionTold, ReceiptFor, OpenBookings, OpenSession, SessionsMatched, BreaksOrdered, PausesStored;
    var (begun, s) := Open(z, db, now, c).value;
    var after := Log(begun, s, now, c, Start).0;
    forall i | 0 <= i < |after.events| ensures StartShown(after, after.events[i]) {
      if i < |db.events| {
        assert after.events[i] == db.events[i];
        assert StartShown(db, db.events[i]);
      }
    }
  }

  lemma OpenTold(z: Zone, db: Db, now: int, c: Command)
    requires Consistent(db) && AllTold(db)
    requires Open(z, db, now, c).Success?
    ensures AllTold(Log(Open(z, db, now, c).value.0, Open(z, db, now, c).value.1, now, c, Start).0)
  {
    OpenAdds(z, db, now, c);
    OpenStartsShown(z, db, now, c);
    var (begun, s) := Open(z, db, now, c).value;
    var after := Log(begun, s, now, c, Start).0;
    OpenSessionsTold(db, after, Session(c.user, db.nextRecord, now, None), after.events[|db.events|]);
    hide StartShown, SessionTold, ReceiptFor;
  }

  lemma AdoptTold(db: Db, now: int, user: int)
    requires Consistent(db) && AllTold(db)
    requires Adopt(db, now, user).Success?
    ensures AllTold(Adopt(db, now, user).value.0)
    ensures Adopt(db, now, user).value.0.events == db.events && Adopt(db, now, user).value.0.records == db.records
  {
    hide Consistent, SessionTold, OpenBookings;
    var (after, s) := Adopt(db, now, user).value;
    if OpenSession(db.sessions, user) < 0 {
      FreshSession(db, after.sessions[s], after);
      forall i | 0 <= i < |after.events| ensures StartShown(after, after.events[i]) {
        assert StartShown(db, db.events[i]);
        SessionsExist(db, i);
      }
    }
  }

  lemma SessionsExist(db: Db, i: nat)
    requires Consistent(db) && i < |db.events|
    ensures db.events[i].session < |db.sessions|
  {
  }

  lemma StampTold(db: Db, s: nat, now: int, c: Command, action: Action)
    requires AllTold(db) && BreaksOrdered(db.sessions, db.breaks) && EventsLogged(db.sessions, db.events)
    requires s < |db.sessions| && db.sessions[s].ended.None? && action != Start
    requires action == PauseStart ==> OpenBreak(db.breaks, s) < 0
    requires Unique(db.sessions)
    ensures AllTold(Log(Stamp(db, s, now, action), s, now, c, action).0)
  {
    var stamped := Stamp(db, s, now, action);
    var after := Log(stamped, s, now, c, action).0;
    var e := after.events[|db.events|];
    hide BreaksOrdered, StampedBreaks, ClosedSeconds, ReceiptFor, PayloadOf, MarksOf, HasEvent;
    forall i | 0 <= i < |after.sessions| ensures SessionTold(after, i) {
      assert SessionTold(db, i);
      StampedMarks(db.sessions, db.breaks, s, now, action, i);
      ReplayAppended(db.events, e, i);
      if i == s && !HasEvent(db.events, s) {
        NoStory(db.events, s);
      }
    }
    forall i | 0 <= i < |after.events| ensures StartShown(after, after.events[i]) {
      if i < |db.events| {
        assert after.events[i] == db.events[i];
        assert StartShown(db, db.events[i]);
      }
    }
  }

  lemma LaterTold(db: Db, now: int, c: Command, action: Action)
    requires Consistent(db) && AllTold(db) && action != Start
    requires Later(db, now, c, action).Success?
    ensures AllTold(Log(Later(db, now, c, action).value.0, Later(db, now, c, action).value.1, now, c, action).0)
  {
    AdoptTold(db, now, c.user);
    AdoptKeeps(db, now, c.user);
    hide Consistent, AllTold, Adopt, BreaksOrdered, EventsLogged, PausesStoredBut, Unique, Matches, Stamp;
    var (adopted, s) := Adopt(db, now, c.user).value;
    StampTold(adopted, s, now, c, action);
  }

  lemma TransitionTold(z: Zone, db: Db, now: int, c: Command)
    requires Consistent(db) && AllTold(db)
    ensures AllTold(Transition(z, db, now, c).1)
  {
    hide Consistent, AllTold, Open, Later, Log;
    match Admit(db, c)
    case Admitted(action) =>
      if Booked(z, db, now, c, action).Success? {
        if action == Start {
          OpenTold(z, db, now, c);
        } else {
          LaterTold(db, now, c, action);
        }
      }
    case _ =>
  }

  // --- Everything else ---

  /** Nothing a story depends on changes: the log, the breaks, old sessions, and the bookings of open sessions. */
  ghost predicate Spares(db: Db, after: Db) {
    && after.events == db.events && after.breaks == db.breaks
    && (after.sessions == db.sessions
         || (|after.sessions| == |db.sessions| + 1 && db.sessions == after.sessions[..|db.sessions|]))
    && (forall i :: 0 <= i < |db.sessions| && db.sessions[i].ended.None? ==>
          var id := db.sessions[i].record;
          (id in after.records <==> id in db.records) && (id in after.records ==> after.records[id] == db.records[id]))
  }

  lemma SparesTold(db: Db, after: Db)
    requires Consistent(db) && AllTold(db) && Spares(db, after)
    ensures AllTold(after)
  {
    hide SessionTold;
    if after.sessions != db.sessions {
      var s := after.sessions[|db.sessions|];
      assert after.sessions == db.sessions + [s];
      FreshSession(db, s, after);
    } else {
      forall i | 0 <= i < |after.sessions| ensures SessionTold(after, i) {
        assert SessionTold(db, i);
        ToldSame(db, after, i);
      }
    }
    forall i | 0 <= i < |after.events| ensures StartShown(after, after.events[i]) {
      assert StartShown(db, db.events[i]);
      SessionsExist(db, i);
    }
  }

  lemma ToldSame(db: Db, after: Db, i: nat)
    requires after.events == db.events && after.breaks == db.breaks && after.sessions == db.sessions
    requires i < |db.sessions| && SessionTold(db, i)
    ensures SessionTold(after, i)
  {
  }

  /** An approval never touches the booking of an open session. */
  lemma ApprovalSparesOpen(z: Zone, db: Db, now: int, number: nat)
    requires Consistent(db) && number < |db.requests|
    requires Approve(z, db, now, number).Success?
    ensures !HasOpenSession(db.sessions, Target(db, number))
  {
    hide BreaksOrdered, EventsLogged, PausesStoredBut, NoOverlap, ValidCorrection, Parse, Snapshot, EndOf, Matches,
      Unique;
  }

  lemma ApproveSpares(z: Zone, db: Db, now: int, number: nat)
    requires Consistent(db) && number < |db.requests|
    requires Approve(z, db, now, number).Success?
    ensures Spares(db, Approve(z, db, now, number).value)
  {
    ApprovalFrame(z, db, now, number);
    ApprovalSparesOpen(z, db, now, number);
    hide Consistent, Approve;
    var after := Approve(z, db, now, number).value;
    forall i | 0 <= i < |db.sessions| && db.sessions[i].ended.None?
      ensures var id := db.sessions[i].record;
        (id in after.records <==> id in db.records) && (id in after.records ==> after.records[id] == db.records[id]) {
      var id := db.sessions[i].record;
      assert id != Target(db, number);
      var others := db.records - {Target(db, number)};
      assert id in db.records ==> id in others && others[id] == db.records[id];
      assert id in after.records ==> id in after.records - {Target(db, number)};
    }
  }

  lemma {:induction false} CreditDaysSpare(z: Zone, target: int -> nat, db: Db, user: int, first: int, last: int,
                                           kind: string)
    requires RecordsNumbered(db)
    requires CreditDays(z, target, db, user, first, last, kind).Success?
    ensures var after := CreditDays(z, target, db, user, first, last, kind).value;
      && after.events == db.events && after.breaks == db.breaks && after.sessions == db.sessions
      && db.nextRecord <= after.nextRecord
      && (forall id :: id < db.nextRecord ==> (id in after.records <==> id in db.records))
      && (forall id :: id in db.records ==> id in after.records && after.records[id] == db.records[id])
    decreases last - first
  {
    hide NoOverlap;
    if first <= last {
      if target(first) == 0 {
        CreditDaysSpare(z, target, db, user, first + 1, last, kind);
      } else {
        CreditDaysSpare(z, target, InsertRecord(db, Credit(z, user, first, target(first), kind)), user, first + 1,
                        last, kind);
      }
    }
  }

  /** No step but a stamp touches what a story depends on. */
  lemma OtherStepsSpare(env: Env, db: Db, now: int, step: Step)
    requires Consistent(db) && !step.Stamped?
    ensures Spares(db, Apply(env, db, now, step))
  {
    hide Approve, CreditDays, BreaksOrdered, EventsLogged, PausesStoredBut, Unique, Matches;
    match step
    case Credited(user, first, last, kind) =>
      if Corrections.Absent(env.zone, env.target, db, user, first, last, kind).Success? {
        CreditDaysSpare(env.zone, env.target, db, user, first, last, kind);
      }
    case Decided(actor, role, d) =>
      if Review(env.zone, db, now, actor, role, d).Success? && d.decision == "approved" {
        ApproveSpares(env.zone, db, now, d.number);
      }
    case _ =>
  }

  lemma StepTold(env: Env, db: Db, now: int, step: Step)
    requires Consistent(db) && AllTold(db)
    ensures AllTold(Apply(env, db, now, step))
  {
    hide Consistent, AllTold, Spares;
    if step.Stamped? {
      hide Transition;
      TransitionTold(env.zone, db, now, step.command);
    } else {
      OtherStepsSpare(env, db, now, step);
      hide Apply;
      SparesTold(db, Apply(env, db, now, step));
    }
  }

  /**
   * Over every run of stamps, absences, corrections and account changes, the breaks and the end of every stamped
   * session are what a replay of the event log gives, and open bookings show what their start stamp said.
   */
  lemma {:induction false} RunTold(env: Env, db: Db, trace: seq<Timed>)
    requires Consistent(db) && AllTold(db)
    ensures AllTold(Exec(env, db, trace))
  {
    hide Consistent, AllTold, Apply;
    if trace != [] {
      var before := trace[..|trace| - 1];
      RunKeeps(env, db, before);
      RunTold(env, db, before);
      StepTold(env, Exec(env, db, before), trace[|trace| - 1].now, trace[|trace| - 1].step);
    }
  }

  /**
   * What an end stamp writes into the booking can be recomputed from the log alone: the booking ends when the
   * stamp was received, and its pause is the whole minutes of the replayed breaks, all of them closed.
   */
  lemma EndFromLog(z: Zone, db: Db, now: int, c: Command)
    requires Consistent(db) && AllTold(db)
    requires Admit(db, c) == Admitted(End) && Transition(z, db, now, c).0.Success?
    ensures var after := Transition(z, db, now, c).1;
      var e := after.events[|after.events| - 1];
      var told := Replay(after.events, e.session);
      var id := after.sessions[e.session].record;
      && e.action == End && e.receivedAt == now && told.ended == Some(now)
      && id in after.records && after.records[id].end == Some(now)
      && after.records[id].pause == MarkSeconds(told.marks) / 60
      && (forall i :: 0 <= i < |told.marks| ==> told.marks[i].until.Some?)
  {
    TransitionTold(z, db, now, c);
    TransitionKeeps(z, db, now, c);
    AdoptKeeps(db, now, c.user);
    var after := Transition(z, db, now, c).1;
    var (stamped, s) := Later(db, now, c, End).value;
    EndStamped(db, now, c);
    hide Transition, Later, Adopt;
    assert SessionTold(after, s);
    SecondsAgree(after.breaks, s);
    NothingOpenMarked(after.breaks, s);
  }

  /** The rows an end stamp leaves. */
  lemma EndStamped(db: Db, now: int, c: Command)
    requires Consistent(db) && Later(db, now, c, End).Success?
    ensures var (stamped, s) := Later(db, now, c, End).value;
      var id := stamped.sessions[s].record;
      && stamped.sessions[s].ended == Some(now)
      && id in stamped.records && stamped.records[id].end == Some(now)
      && stamped.records[id].pause == ClosedSeconds(stamped.breaks, s) / 60
      && (forall k :: 0 <= k < |stamped.breaks| ==> !(stamped.breaks[k].session == s && stamped.breaks[k].ended.None?))
  {
    AdoptKeeps(db, now, c.user);
    var (adopted, s) := Adopt(db, now, c.user).value;
    hide Adopt, PausesStoredBut, EventsLogged, Unique, ClosedSeconds;
    assert Matches(adopted.records, adopted.sessions[s]);
  }
}
