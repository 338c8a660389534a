/** What the stored answers say: whose booking, when, and the state in which the stamp leaves its user. */
module Receipts {
  import opened Wrappers
  import opened Booking
  import opened Schema
  import opened Attendance
  import opened Consistency
  import opened WorkflowHints
  import opened StampGuards
  import opened EventLog
  import opened EventReplay
  import opened Runs

  /** Where each action leads to. */
  function StateAfter(action: Action): State {
    match action
    case Start => Working
    case PauseStart => Paused
    case PauseEnd => Working
    case End => Absent
  }

  // --- One stamp ---

  lemma OpenedState(z: Zone, db: Db, now: int, c: Command)
    requires Consistent(db) && Open(z, db, now, c).Success?
    ensures StatusOfUser(Open(z, db, now, c).value.0, c.user).0 == Working
    ensures Open(z, db, now, c).value.0.sessions[Open(z, db, now, c).value.1].record == db.nextRecord
  {
    hide NoOverlap, EventsLogged, PausesStoredBut, Unique, Matches, OpenBookings;
    OpenAdds(z, db, now, c);
    OpenKeeps(z, db, now, c);
    var (after, s) := Open(z, db, now, c).value;
    OpenedFound(after, s, c.user);
    assert forall k :: 0 <= k < |db.breaks| ==> db.breaks[k].session != s;
  }

  lemma OpenedFound(db: Db, s: nat, user: int)
    requires Consistent(db) && s < |db.sessions| && db.sessions[s].user == user && db.sessions[s].ended.None?
    ensures OpenSession(db.sessions, user) == s
  {
    OpenSessionFound(db, s);
  }

  lemma StampedState(db: Db, s: nat, now: int, c: Command, action: Action)
    requires ReadyToStamp(db, s) && db.sessions[s].user == c.user
    requires action != Start && Obstacle(db, s, now, c, action).None?
    ensures StatusOfUser(Stamp(db, s, now, action), c.user).0 == StateAfter(action)
  {
    if action == End {
      EndedState(db, s, now, c.user);
    } else {
      StampKeeps(db, s, now, c, action);
      MarkedBeforeStamp(db, s, now, c, action);
      StampedBreaksOrdered(db.sessions, db.breaks, s, now, action);
      hide BreaksOrdered, PausesStoredBut, EventsLogged, ClosedSeconds, Unique, Matches;
      OpenedFound(Stamp(db, s, now, action), s, c.user);
    }
  }

  lemma EndedState(db: Db, s: nat, now: int, user: int)
    requires ReadyToStamp(db, s) && db.sessions[s].user == user
    ensures StatusOfUser(Stamp(db, s, now, End), user).0 == Absent
  {
    hide BreaksOrdered, PausesStoredBut, EventsLogged, StampedBreaks, ClosedSeconds;
    var after := Stamp(db, s, now, End);
    assert Matches(db.records, db.sessions[s]);
    forall id ensures !IsOpenOf(after.records, user, id) {
      assert IsOpenOf(after.records, user, id) ==> IsOpenOf(db.records, user, id);
    }
    forall i | 0 <= i < |after.sessions| ensures !(after.sessions[i].user == user && after.sessions[i].ended.None?) {
      assert i != s ==> after.sessions[i] == db.sessions[i];
    }
    NobodyOpen(after, user);
  }

  lemma NobodyOpen(db: Db, user: int)
    requires RecordsNumbered(db)
    requires forall i :: 0 <= i < |db.sessions| ==> !(db.sessions[i].user == user && db.sessions[i].ended.None?)
    requires forall id :: !IsOpenOf(db.records, user, id)
    ensures StatusOfUser(db, user).0 == Absent
  {
  }

  /** After a stamp its user is in the state the action leads to. */
  lemma BookedState(z: Zone, db: Db, now: int, c: Command, action: Action)
    requires Consistent(db) && Booked(z, db, now, c, action).Success?
    ensures StatusOfUser(Booked(z, db, now, c, action).value.0, c.user).0 == StateAfter(action)
  {
    hide Consistent, ReadyToStamp, StatusOfUser, Stamp, Obstacle, Open, Adopt;
    if action == Start {
      OpenedState(z, db, now, c);
    } else {
      AdoptKeeps(db, now, c.user);
      StampedState(Adopt(db, now, c.user).value.0, Adopt(db, now, c.user).value.1, now, c, action);
    }
  }

  /** A later stamp acts on the booking that was the user's only open one. */
  lemma LaterBooking(db: Db, now: int, c: Command, action: Action)
    requires Consistent(db) && action != Start && Later(db, now, c, action).Success?
    ensures Current(db, c.user, Later(db, now, c, action).value.0.sessions[Later(db, now, c, action).value.1].record)
  {
    hide BreaksOrdered, EventsLogged, PausesStoredBut, StampedBreaks, ClosedSeconds, Obstacle;
    var (adopted, s) := Adopt(db, now, c.user).value;
    if OpenSession(db.sessions, c.user) >= 0 {
      assert Matches(db.records, db.sessions[s]);
    } else {
      AdoptsCurrent(db, now, c.user);
      var id :| Current(db, c.user, id);
      OnlyLegacy(db, c.user, id);
    }
  }

  /**
   * The answer to a newly booked stamp in full: its event, the new booking of a start or the only open one of a later
   * stamp, the time, the state it leads to, and the metadata of a start unless they are the default.
   */
  lemma AnswerExactly(z: Zone, db: Db, now: int, c: Command, action: Action)
    requires Consistent(db) && Admit(db, c) == Admitted(action) && Transition(z, db, now, c).0.Success?
    ensures var receipt := Transition(z, db, now, c).0.value;
      && receipt.eventId == c.eventId
      && (if action == Start then receipt.record == db.nextRecord else Current(db, c.user, receipt.record))
      && receipt.state == StateAfter(action)
      && receipt.time == now
      && receipt.metadata == (if action == Start && Nondefault(c.metadata) then c.metadata else None)
    ensures StatusOfUser(Transition(z, db, now, c).1, c.user).0 == StateAfter(action)
  {
    hide Consistent, Booked, StatusOfUser, Current;
    BookedState(z, db, now, c, action);
    var (booked, s) := Booked(z, db, now, c, action).value;
    assert if action == Start then booked.sessions[s].record == db.nextRecord
           else Current(db, c.user, booked.sessions[s].record) by {
      BookingOf(z, db, now, c, action);
    }
    var after := Log(booked, s, now, c, action).0;
    assert StatusOfUser(after, c.user) == StatusOfUser(booked, c.user) by {
      SameStatus(booked, after, c.user);
    }
  }

  lemma BookingOf(z: Zone, db: Db, now: int, c: Command, action: Action)
    requires Consistent(db) && Booked(z, db, now, c, action).Success?
    ensures var (booked, s) := Booked(z, db, now, c, action).value;
      if action == Start then booked.sessions[s].record == db.nextRecord
      else Current(db, c.user, booked.sessions[s].record)
  {
    hide Consistent, Open, Later;
    if action == Start {
      OpenedState(z, db, now, c);
    } else {
      LaterBooking(db, now, c, action);
    }
  }

  lemma SameStatus(db: Db, after: Db, user: int)
    requires after == db.(events := after.events)
    ensures StatusOfUser(after, user) == StatusOfUser(db, user)
  {
  }

  /** The same place and note, or on both sides nothing beyond the default. */
  predicate SameMetadata(a: Option<Metadata>, b: Option<Metadata>) {
    var standard := Metadata("office", "");
    (if a.None? then standard else a.value) == (if b.None? then standard else b.value)
  }

  /** Two uses of a key count as the same event exactly when user, action, confirmation, binding and metadata agree. */
  lemma PayloadExactly(c: Command, action: Action, d: Command, other: Action)
    ensures PayloadOf(c, action) == PayloadOf(d, other) <==>
      && c.user == d.user && action == other && c.confirm == d.confirm && c.expected == d.expected
      && SameMetadata(c.metadata, d.metadata)
  {
    var standard := Metadata("office", "");
    assert c.metadata.Some? && !Nondefault(c.metadata) ==> c.metadata.value == standard;
    assert d.metadata.Some? && !Nondefault(d.metadata) ==> d.metadata.value == standard;
  }

  /** A start writes exactly this booking, open and with the place and note it was given. */
  lemma StartWrites(z: Zone, db: Db, now: int, c: Command)
    requires Admit(db, c) == Admitted(Start) && Transition(z, db, now, c).0.Success?
    ensures var after := Transition(z, db, now, c).1;
      && after.records == db.records[db.nextRecord := Record(c.user, now, None, 0,
           if c.metadata.Some? then c.metadata.value.note else "",
           if c.metadata.Some? then c.metadata.value.location else "office", None, None)]
      && after.sessions == db.sessions + [Session(c.user, db.nextRecord, now, None)]
      && after.breaks == db.breaks && after.requests == db.requests && after.users == db.users
  {
    hide NoOverlap, StatusOfUser, OpenBookings, OpenSession;
  }

  // --- Every run ---

  /** The stored answer of an entry agrees with the entry and its session. */
  ghost predicate ReceiptTrue(sessions: seq<Session>, e: Event) {
    && e.session < |sessions|
    && e.receipt.eventId == e.eventId
    && e.receipt.record == sessions[e.session].record
    && e.receipt.state == StateAfter(e.action)
    && e.receipt.time == e.receivedAt
    && (e.action != Start && e.payload.expected.Some? ==> e.receipt.record == e.payload.expected.value)
    && e.receipt.metadata == (if e.action == Start then e.payload.metadata else None)
  }

  ghost predicate ReceiptsTrue(db: Db) {
    forall i :: 0 <= i < |db.events| ==> ReceiptTrue(db.sessions, db.events[i])
  }

  /** No session ever changes its booking. */
  ghost predicate SessionsStay(sessions: seq<Session>, after: seq<Session>) {
    |sessions| <= |after| && forall i :: 0 <= i < |sessions| ==> after[i].record == sessions[i].record
  }

  lemma BookedSessions(z: Zone, db: Db, now: int, c: Command, action: Action)
    requires Booked(z, db, now, c, action).Success?
    ensures SessionsStay(db.sessions, Booked(z, db, now, c, action).value.0.sessions)
  {
    hide NoOverlap, Obstacle, StampedBreaks, ClosedSeconds, OpenBookings, OpenSession;
  }

  lemma TransitionSessions(z: Zone, db: Db, now: int, c: Command)
    ensures SessionsStay(db.sessions, Transition(z, db, now, c).1.sessions)
  {
    hide Booked, StatusOfUser;
    match Admit(db, c)
    case Admitted(action) =>
      if Booked(z, db, now, c, action).Success? {
        BookedSessions(z, db, now, c, action);
      }
    case _ =>
  }

  lemma StepSessions(env: Env, db: Db, now: int, step: Step)
    requires Consistent(db)
    ensures SessionsStay(db.sessions, Apply(env, db, now, step).sessions)
  {
    hide Consistent, Transition;
    if step.Stamped? {
      TransitionSessions(env.zone, db, now, step.command);
    } else {
      OtherStepsSpare(env, db, now, step);
      hide Apply;
      var after := Apply(env, db, now, step).sessions;
      forall i | 0 <= i < |db.sessions| ensures after[i].record == db.sessions[i].record {
        assert after != db.sessions ==> after[..|db.sessions|][i] == after[i];
      }
    }
  }

  /** The entry a new stamp adds, with its answer. */
  lemma NewEntryTrue(z: Zone, db: Db, now: int, c: Command, action: Action)
    requires Consistent(db) && Admit(db, c) == Admitted(action) && Transition(z, db, now, c).0.Success?
    ensures var after := Transition(z, db, now, c).1;
      && |after.events| == |db.events| + 1 && after.events[..|db.events|] == db.events
      && ReceiptTrue(after.sessions, after.events[|db.events|])
      && after.events[|db.events|].action == action && after.events[|db.events|].receivedAt == now
  {
    hide Consistent, Booked, StatusOfUser;
    BookedFrame(z, db, now, c, action);
    BookedState(z, db, now, c, action);
    SessionNumbered(z, db, now, c, action);
    var (booked, s) := Booked(z, db, now, c, action).value;
    SameStatus(booked, Log(booked, s, now, c, action).0, c.user);
    assert ParseAction(c.action) == Some(action);
  }

  lemma TransitionReceipts(z: Zone, db: Db, now: int, c: Command)
    requires Consistent(db) && ReceiptsTrue(db)
    ensures ReceiptsTrue(Transition(z, db, now, c).1)
  {
    TransitionSessions(z, db, now, c);
    hide Consistent, Perform;
    var after := Transition(z, db, now, c).1;
    match Admit(db, c)
    case Admitted(action) =>
      if Transition(z, db, now, c).0.Success? {
        NewEntryTrue(z, db, now, c, action);
        hide Transition;
        EntriesStayTrue(db, after);
      }
    case _ =>
  }

  lemma EntriesStayTrue(db: Db, after: Db)
    requires ReceiptsTrue(db) && SessionsStay(db.sessions, after.sessions)
    requires db.events <= after.events
    requires forall i :: |db.events| <= i < |after.events| ==> ReceiptTrue(after.sessions, after.events[i])
    ensures ReceiptsTrue(after)
  {
    forall i | 0 <= i < |after.events| ensures ReceiptTrue(after.sessions, after.events[i]) {
      if i < |db.events| {
        assert after.events[i] == db.events[i];
        assert ReceiptTrue(db.sessions, db.events[i]);
      }
    }
  }

  /**
   * Over every run the stored answer of every entry names the event, the booking of its session, the time of receipt,
   * the state its action leads to, the booking that was expected and the metadata of a start.
   */
  lemma {:induction false} RunReceipts(env: Env, db: Db, trace: seq<Timed>)
    requires Consistent(db) && ReceiptsTrue(db)
    ensures ReceiptsTrue(Exec(env, db, trace))
  {
    hide Consistent, ReceiptsTrue, Apply;
    if trace != [] {
      var last := trace[|trace| - 1];
      var before := Exec(env, db, trace[..|trace| - 1]);
      RunKeeps(env, db, trace[..|trace| - 1]);
      RunReceipts(env, db, trace[..|trace| - 1]);
      StepReceipts(env, before, last.now, last.step);
    }
  }

  lemma StepReceipts(env: Env, db: Db, now: int, step: Step)
    requires Consistent(db) && ReceiptsTrue(db)
    ensures ReceiptsTrue(Apply(env, db, now, step))
  {
    hide Consistent, ReceiptsTrue, Transition;
    if step.Stamped? {
      TransitionReceipts(env.zone, db, now, step.command);
    } else {
      OtherStepsKeepLog(env, db, now, step);
      StepSessions(env, db, now, step);
      hide Apply;
      EntriesStayTrue(db, Apply(env, db, now, step));
    }
  }
}
