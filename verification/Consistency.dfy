/**
 * The shape every reachable database keeps, whatever the clock does: sessions
 * match their bookings, breaks lie in order inside their session, and a stored
 * pause is the whole minutes of the breaks it stands for.
 */
module Consistency {
  import opened Wrappers
  import opened Booking
  import opened Schema
  import opened Attendance

  ghost predicate RecordsNumbered(db: Db) {
    0 < db.nextRecord && forall id :: id in db.records ==> 0 < id < db.nextRecord
  }

  /** An open session belongs to the one open booking of its user, which began with it. */
  ghost predicate Matches(records: map<int, Record>, s: Session) {
    && IsOpenOf(records, s.user, s.record)
    && records[s.record].start == s.started
    && (forall id :: IsOpenOf(records, s.user, id) ==> id == s.record)
  }

  ghost predicate Unique(sessions: seq<Session>) {
    && (forall i, j :: 0 <= i < j < |sessions| ==> sessions[i].record != sessions[j].record)
    && (forall i, j :: 0 <= i < j < |sessions| && sessions[i].ended.None? && sessions[j].ended.None? ==>
          sessions[i].user != sessions[j].user)
  }

  ghost predicate SessionsMatched(db: Db) {
    && Unique(db.sessions)
    && (forall i :: 0 <= i < |db.sessions| ==> 0 < db.sessions[i].record < db.nextRecord)
    && (forall i :: 0 <= i < |db.sessions| && db.sessions[i].ended.None? ==> Matches(db.records, db.sessions[i]))
    && (forall i :: 0 <= i < |db.sessions| && db.sessions[i].ended.Some? && db.sessions[i].record in db.records ==>
          db.records[db.sessions[i].record].end.Some?)
  }

  /** A break lies inside its session, and is open only while the session is. */
  ghost predicate Inside(s: Session, b: Break) {
    && s.started <= b.started
    && (b.ended.Some? ==> b.started <= b.ended.value)
    && (b.ended.None? ==> s.ended.None?)
    && (b.ended.Some? && s.ended.Some? ==> b.ended.value <= s.ended.value)
  }

  ghost predicate BreaksOrdered(sessions: seq<Session>, breaks: seq<Break>) {
    && (forall k :: 0 <= k < |breaks| ==>
         breaks[k].session < |sessions| && Inside(sessions[breaks[k].session], breaks[k]))
    && (forall k, l :: 0 <= k < l < |breaks| && breaks[k].session == breaks[l].session ==>
          breaks[k].ended.Some? && breaks[k].ended.value <= breaks[l].started)
  }

  ghost predicate PauseFits(r: Record) {
    r.end.Some? ==> r.start <= r.end.value && 0 <= r.pause <= (r.end.value - r.start) / 60
  }

  ghost predicate ShowsPause(db: Db, i: nat)
    requires i < |db.sessions|
  {
    db.sessions[i].record in db.records ==> db.records[db.sessions[i].record].pause == ClosedSeconds(db.breaks, i) / 60
  }

  /** Open sessions, except one, show the pause of their ended breaks; ended bookings a pause that fits into them. */
  ghost predicate PausesStoredBut(db: Db, except: int) {
    && (forall i :: 0 <= i < |db.sessions| && i != except && db.sessions[i].ended.None? ==> ShowsPause(db, i))
    && (forall id :: id in db.records ==> PauseFits(db.records[id]))
  }

  ghost predicate PausesStored(db: Db) {
    PausesStoredBut(db, -1)
  }

  ghost predicate SameKey(a: Event, b: Event) {
    a.source == b.source && a.eventId == b.eventId
  }

  /** Every event names a session of its user, and no two events share a key. */
  ghost predicate EventsLogged(sessions: seq<Session>, events: seq<Event>) {
    && (forall i :: 0 <= i < |events| ==>
         events[i].session < |sessions| && sessions[events[i].session].user == events[i].user)
    && (forall i, j :: 0 <= i < j < |events| ==> !SameKey(events[i], events[j]))
  }

  ghost predicate Consistent(db: Db) {
    && RecordsNumbered(db)
    && SessionsMatched(db)
    && BreaksOrdered(db.sessions, db.breaks)
    && PausesStored(db)
    && EventsLogged(db.sessions, db.events)
  }

  // --- Sums and latest marks over the breaks ---

  lemma {:induction false} LastBreakBounds(breaks: seq<Break>, s: int, k: nat)
    requires k < |breaks| && breaks[k].session == s
    ensures breaks[k].started <= LastBreak(breaks, s)
    ensures breaks[k].ended.Some? ==> breaks[k].ended.value <= LastBreak(breaks, s)
  {
    if k < |breaks| - 1 {
      LastBreakBounds(breaks[..|breaks| - 1], s, k);
    }
  }

  lemma {:induction false} NoBreaksNoSeconds(breaks: seq<Break>, s: int)
    requires forall k :: 0 <= k < |breaks| ==> breaks[k].session != s
    ensures ClosedSeconds(breaks, s) == 0
  {
    if breaks != [] {
      NoBreaksNoSeconds(breaks[..|breaks| - 1], s);
    }
  }

  lemma SecondsOfAppended(breaks: seq<Break>, b: Break, s: int)
    ensures ClosedSeconds(breaks + [b], s)
         == ClosedSeconds(breaks, s) + (if b.session == s && b.ended.Some? then b.ended.value - b.started else 0)
  {
    assert (breaks + [b])[..|breaks|] == breaks;
  }

  /** Ending break k adds its length to its own session and nothing to any other. */
  lemma {:induction false} SecondsOfEnded(breaks: seq<Break>, k: nat, now: int, s: int)
    requires k < |breaks| && breaks[k].ended.None?
    ensures ClosedSeconds(breaks[k := breaks[k].(ended := Some(now))], s)
         == ClosedSeconds(breaks, s) + (if breaks[k].session == s then now - breaks[k].started else 0)
  {
    var last := |breaks| - 1;
    var ended := breaks[k := breaks[k].(ended := Some(now))];
    if k == last {
      assert ended[..last] == breaks[..last];
    } else {
      SecondsOfEnded(breaks[..last], k, now, s);
      assert ended[..last] == breaks[..last][k := breaks[k].(ended := Some(now))];
    }
  }

  /** Ordered breaks of a session never add up to more than the time from its start to any later mark. */
  lemma {:induction false} SecondsBounded(sessions: seq<Session>, breaks: seq<Break>, s: nat, until: int)
    requires BreaksOrdered(sessions, breaks)
    requires s < |sessions| && sessions[s].started <= until
    requires forall k :: 0 <= k < |breaks| && breaks[k].session == s && breaks[k].ended.Some? ==>
      breaks[k].ended.value <= until
    ensures 0 <= ClosedSeconds(breaks, s) <= until - sessions[s].started
  {
    if breaks != [] {
      var last := |breaks| - 1;
      if breaks[last].session == s && breaks[last].ended.Some? {
        SecondsBounded(sessions, breaks[..last], s, breaks[last].started);
      } else {
        SecondsBounded(sessions, breaks[..last], s, until);
      }
    }
  }

  // --- Stamping keeps the shape ---

  lemma UniqueAppended(db: Db, s: Session)
    requires Unique(db.sessions) && InsertSession(db, s).Success?
    ensures Unique(db.sessions + [s])
  {
  }

  lemma BreaksOfAppended(sessions: seq<Session>, s: Session, breaks: seq<Break>)
    requires BreaksOrdered(sessions, breaks)
    ensures BreaksOrdered(sessions + [s], breaks)
  {
    forall k | 0 <= k < |breaks| ensures Inside((sessions + [s])[breaks[k].session], breaks[k]) {
      assert Inside(sessions[breaks[k].session], breaks[k]);
    }
  }

  lemma EventsAfterSession(sessions: seq<Session>, s: Session, events: seq<Event>)
    requires EventsLogged(sessions, events)
    ensures EventsLogged(sessions + [s], events)
  {
  }

  lemma MatchesKept(records: map<int, Record>, after: map<int, Record>, s: Session)
    requires Matches(records, s)
    requires IsOpenOf(after, s.user, s.record) && after[s.record].start == records[s.record].start
    requires forall id :: IsOpenOf(after, s.user, id) ==> IsOpenOf(records, s.user, id)
    ensures Matches(after, s)
  {
  }

  lemma NoneOpen(db: Db, user: int)
    requires RecordsNumbered(db) && OpenBookings(db.records, user, db.nextRecord) == []
    ensures forall id :: !IsOpenOf(db.records, user, id)
  {
    forall id ensures !IsOpenOf(db.records, user, id) {
      assert IsOpenOf(db.records, user, id) ==> id in OpenBookings(db.records, user, db.nextRecord);
    }
  }

  /** A new open booking and its session, for a user who has nothing open. */
  lemma SessionsOfOpened(db: Db, after: Db, s: Session)
    requires RecordsNumbered(db) && SessionsMatched(db)
    requires forall id :: !IsOpenOf(db.records, s.user, id)
    requires s.record == db.nextRecord && s.ended.None? && InsertSession(db, s).Success?
    requires after.nextRecord == db.nextRecord + 1 && after.sessions == db.sessions + [s]
    requires s.record in after.records && after.records == db.records[s.record := after.records[s.record]]
    requires IsOpenOf(after.records, s.user, s.record) && after.records[s.record].start == s.started
    ensures SessionsMatched(after)
  {
    hide Unique;
    UniqueAppended(db, s);
    forall id | IsOpenOf(after.records, s.user, id) ensures id == s.record {
      assert !IsOpenOf(db.records, s.user, id);
    }
    forall i | 0 <= i < |after.sessions| && after.sessions[i].ended.None?
      ensures Matches(after.records, after.sessions[i])
    {
      if i < |db.sessions| {
        assert after.sessions[i] == db.sessions[i] && db.sessions[i].user != s.user;
        MatchesKept(db.records, after.records, db.sessions[i]);
      }
    }
  }

  /** A new open booking without a pause, and its session, leave every other pause as it was. */
  lemma PausesOfOpened(db: Db, after: Db, r: Record)
    requires PausesStored(db) && RecordsNumbered(db)
    requires forall k :: 0 <= k < |db.breaks| ==> db.breaks[k].session < |db.sessions|
    requires forall i :: 0 <= i < |db.sessions| ==> db.sessions[i].record < db.nextRecord
    requires r.end.None? && r.pause == 0
    requires after.records == db.records[db.nextRecord := r] && after.breaks == db.breaks
    requires |after.sessions| == |db.sessions| + 1 && after.sessions[..|db.sessions|] == db.sessions
    requires after.sessions[|db.sessions|].record == db.nextRecord
    ensures PausesStored(after)
  {
    NoBreaksNoSeconds(db.breaks, |db.sessions|);
    forall i | 0 <= i < |after.sessions| && after.sessions[i].ended.None? ensures ShowsPause(after, i) {
      if i < |db.sessions| {
        assert after.sessions[i] == db.sessions[i];
        assert ShowsPause(db, i);
      }
    }
    forall id | id in after.records ensures PauseFits(after.records[id]) {
      assert id in db.records ==> PauseFits(db.records[id]);
    }
  }

  /** What a first stamp adds, and what it found before. */
  lemma OpenAdds(z: Zone, db: Db, now: int, c: Command)
    requires Open(z, db, now, c).Success?
    ensures var after := Open(z, db, now, c).value.0;
      && after == db.(records := after.records, nextRecord := db.nextRecord + 1,
                      sessions := db.sessions + [Session(c.user, db.nextRecord, now, None)])
      && db.nextRecord in after.records
      && after.records == db.records[db.nextRecord := after.records[db.nextRecord]]
      && after.records[db.nextRecord].user == c.user && after.records[db.nextRecord].start == now
      && after.records[db.nextRecord].end.None? && after.records[db.nextRecord].pause == 0
    ensures InsertSession(db, Session(c.user, db.nextRecord, now, None)).Success?
    ensures OpenBookings(db.records, c.user, db.nextRecord) == []
  {
  }

  lemma OpenKeeps(z: Zone, db: Db, now: int, c: Command)
    requires Consistent(db)
    requires Open(z, db, now, c).Success?
    ensures Consistent(Open(z, db, now, c).value.0)
  {
    hide Unique, EventsLogged, Open, InsertSession;
    OpenAdds(z, db, now, c);
    var after := Open(z, db, now, c).value.0;
    NoneOpen(db, c.user);
    SessionsOfOpened(db, after, after.sessions[|db.sessions|]);
    EventsAfterSession(db.sessions, after.sessions[|db.sessions|], db.events);
    PausesOfOpened(db, after, after.records[db.nextRecord]);
    BreaksOfAppended(db.sessions, after.sessions[|db.sessions|], db.breaks);
  }

  /** Everything but the pause of session s, which is open. */
  ghost predicate ReadyToStamp(db: Db, s: int) {
    && RecordsNumbered(db)
    && SessionsMatched(db)
    && BreaksOrdered(db.sessions, db.breaks)
    && PausesStoredBut(db, s)
    && EventsLogged(db.sessions, db.events)
    && 0 <= s < |db.sessions|
    && db.sessions[s].ended.None?
  }

  lemma AdoptKeeps(db: Db, now: int, user: int)
    requires Consistent(db)
    requires Adopt(db, now, user).Success?
    ensures ReadyToStamp(Adopt(db, now, user).value.0, Adopt(db, now, user).value.1)
    ensures Adopt(db, now, user).value.0.sessions[Adopt(db, now, user).value.1].user == user
  {
    hide BreaksOrdered, EventsLogged, Unique;
    var (after, s) := Adopt(db, now, user).value;
    forall i | 0 <= i < |after.sessions| && i != s && after.sessions[i].ended.None? ensures ShowsPause(after, i) {
      assert ShowsPause(db, i);
    }
    if s == |db.sessions| {
      UniqueAppended(db, after.sessions[s]);
      BreaksOfAppended(db.sessions, after.sessions[s], db.breaks);
      EventsAfterSession(db.sessions, after.sessions[s], db.events);
    }
  }

  ghost predicate MarkedBefore(breaks: seq<Break>, s: nat, now: int) {
    forall k :: 0 <= k < |breaks| && breaks[k].session == s ==>
      breaks[k].started <= now && (breaks[k].ended.Some? ==> breaks[k].ended.value <= now)
  }

  lemma OrderedAfterStart(sessions: seq<Session>, breaks: seq<Break>, s: nat, now: int)
    requires BreaksOrdered(sessions, breaks) && MarkedBefore(breaks, s, now)
    requires s < |sessions| && sessions[s].ended.None? && sessions[s].started <= now
    requires OpenBreak(breaks, s) < 0
    ensures BreaksOrdered(sessions, breaks + [Break(s, now, None)])
  {
  }

  lemma OrderedAfterEnd(sessions: seq<Session>, breaks: seq<Break>, k: nat, now: int)
    requires BreaksOrdered(sessions, breaks)
    requires k < |breaks| && breaks[k].ended.None? && breaks[k].started <= now
    ensures BreaksOrdered(sessions, breaks[k := breaks[k].(ended := Some(now))])
  {
  }

  lemma OrderedAfterSessionEnd(sessions: seq<Session>, breaks: seq<Break>, s: nat, now: int)
    requires BreaksOrdered(sessions, breaks) && MarkedBefore(breaks, s, now)
    requires s < |sessions| && OpenBreak(breaks, s) < 0
    ensures BreaksOrdered(sessions[s := sessions[s].(ended := Some(now))], breaks)
  {
  }

  /** At most one break of a session is open: the one a stamp finds. */
  lemma OnlyOpenBreak(sessions: seq<Session>, breaks: seq<Break>, k: nat, now: int)
    requires BreaksOrdered(sessions, breaks)
    requires k < |breaks| && breaks[k].ended.None?
    ensures OpenBreak(breaks[k := breaks[k].(ended := Some(now))], breaks[k].session) < 0
  {
  }

  lemma MarkedBeforeStamp(db: Db, s: nat, now: int, c: Command, action: Action)
    requires s < |db.sessions| && Obstacle(db, s, now, c, action).None?
    ensures MarkedBefore(db.breaks, s, now)
  {
    forall k | 0 <= k < |db.breaks| && db.breaks[k].session == s
      ensures db.breaks[k].started <= now && (db.breaks[k].ended.Some? ==> db.breaks[k].ended.value <= now)
    {
      LastBreakBounds(db.breaks, s, k);
    }
  }

  lemma StampedBreaksOrdered(sessions: seq<Session>, breaks: seq<Break>, s: nat, now: int, action: Action)
    requires BreaksOrdered(sessions, breaks) && MarkedBefore(breaks, s, now)
    requires s < |sessions| && sessions[s].ended.None? && sessions[s].started <= now
    requires action == PauseStart ==> OpenBreak(breaks, s) < 0
    ensures BreaksOrdered(sessions, StampedBreaks(breaks, s, now, action))
    ensures MarkedBefore(StampedBreaks(breaks, s, now, action), s, now)
    ensures action != PauseStart ==> OpenBreak(StampedBreaks(breaks, s, now, action), s) < 0
  {
    hide BreaksOrdered;
    var k := OpenBreak(breaks, s);
    if action == PauseStart {
      OrderedAfterStart(sessions, breaks, s, now);
    } else if k >= 0 {
      OrderedAfterEnd(sessions, breaks, k, now);
      OnlyOpenBreak(sessions, breaks, k, now);
    }
  }

  /** A permitted stamp puts its mark after every earlier break of the session. */
  lemma StampKeepsBreaks(db: Db, s: nat, now: int, c: Command, action: Action)
    requires BreaksOrdered(db.sessions, db.breaks)
    requires s < |db.sessions| && db.sessions[s].ended.None?
    requires action != Start && Obstacle(db, s, now, c, action).None?
    ensures BreaksOrdered(Stamp(db, s, now, action).sessions, Stamp(db, s, now, action).breaks)
    ensures MarkedBefore(Stamp(db, s, now, action).breaks, s, now)
  {
    MarkedBeforeStamp(db, s, now, c, action);
    StampedBreaksOrdered(db.sessions, db.breaks, s, now, action);
    if action == End {
      OrderedAfterSessionEnd(db.sessions, StampedBreaks(db.breaks, s, now, action), s, now);
    }
  }

  /** The stamped booking itself: its pause is recomputed, and when it ends it fits. */
  lemma StampedPauseFits(db: Db, s: nat, now: int, c: Command, action: Action)
    requires BreaksOrdered(db.sessions, db.breaks)
    requires s < |db.sessions| && db.sessions[s].ended.None? && Matches(db.records, db.sessions[s])
    requires action != Start && Obstacle(db, s, now, c, action).None?
    ensures PauseFits(Stamp(db, s, now, action).records[db.sessions[s].record])
  {
    var after := Stamp(db, s, now, action);
    StampKeepsBreaks(db, s, now, c, action);
    SecondsBounded(after.sessions, after.breaks, s, now);
  }

  lemma StampKeepsPauses(db: Db, s: nat, now: int, c: Command, action: Action)
    requires Unique(db.sessions) && PausesStoredBut(db, s) && BreaksOrdered(db.sessions, db.breaks)
    requires s < |db.sessions| && db.sessions[s].ended.None? && Matches(db.records, db.sessions[s])
    requires action != Start && Obstacle(db, s, now, c, action).None?
    ensures PausesStored(Stamp(db, s, now, action))
  {
    var after := Stamp(db, s, now, action);
    forall i | 0 <= i < |after.sessions| && after.sessions[i].ended.None? ensures ShowsPause(after, i) {
      if i != s {
        assert ShowsPause(db, i);
        OtherSecondsKept(db.breaks, s, now, action, i);
      }
    }
    forall id | id in after.records ensures PauseFits(after.records[id]) {
      assert PauseFits(db.records[id]);
      if id == db.sessions[s].record {
        StampedPauseFits(db, s, now, c, action);
      }
    }
  }

  lemma OtherSecondsKept(breaks: seq<Break>, s: nat, now: int, action: Action, i: nat)
    requires i != s
    ensures ClosedSeconds(StampedBreaks(breaks, s, now, action), i) == ClosedSeconds(breaks, i)
  {
    if action == PauseStart {
      SecondsOfAppended(breaks, Break(s, now, None), i);
    } else if OpenBreak(breaks, s) >= 0 {
      SecondsOfEnded(breaks, OpenBreak(breaks, s), now, i);
    }
  }

  lemma StampKeepsSessions(db: Db, s: nat, now: int, action: Action)
    requires RecordsNumbered(db) && SessionsMatched(db)
    requires s < |db.sessions| && db.sessions[s].ended.None?
    ensures SessionsMatched(Stamp(db, s, now, action))
  {
    var after := Stamp(db, s, now, action);
    forall i | 0 <= i < |after.sessions| && after.sessions[i].ended.None?
      ensures Matches(after.records, after.sessions[i])
    {
      MatchesKept(db.records, after.records, db.sessions[i]);
    }
  }

  lemma StampKeeps(db: Db, s: nat, now: int, c: Command, action: Action)
    requires ReadyToStamp(db, s)
    requires action != Start && Obstacle(db, s, now, c, action).None?
    ensures Consistent(Stamp(db, s, now, action))
  {
    hide BreaksOrdered, PausesStoredBut, Obstacle;
    assert Matches(db.records, db.sessions[s]);
    StampKeepsBreaks(db, s, now, c, action);
    StampKeepsPauses(db, s, now, c, action);
    StampKeepsSessions(db, s, now, action);
  }

  lemma AdoptFrame(db: Db, now: int, user: int)
    requires Adopt(db, now, user).Success?
    ensures Adopt(db, now, user).value.0.events == db.events
    ensures Adopt(db, now, user).value.0.sessions[Adopt(db, now, user).value.1].user == user
  {
    hide OpenBookings;
  }

  /** Booking leaves the event log alone; the session it finds belongs to the user. */
  lemma BookedFrame(z: Zone, db: Db, now: int, c: Command, action: Action)
    requires Booked(z, db, now, c, action).Success?
    ensures Booked(z, db, now, c, action).value.0.events == db.events
    ensures Booked(z, db, now, c, action).value.0.sessions[Booked(z, db, now, c, action).value.1].user == c.user
  {
    hide Adopt, Obstacle, StampedBreaks, ClosedSeconds, NoOverlap, OpenBookings, OpenSession;
    if action != Start {
      AdoptFrame(db, now, c.user);
    }
  }

  lemma BookedKeeps(z: Zone, db: Db, now: int, c: Command, action: Action)
    requires Consistent(db)
    requires Booked(z, db, now, c, action).Success?
    ensures Consistent(Booked(z, db, now, c, action).value.0)
  {
    if action == Start {
      OpenKeeps(z, db, now, c);
    } else {
      AdoptKeeps(db, now, c.user);
      var (adopted, s) := Adopt(db, now, c.user).value;
      StampKeeps(adopted, s, now, c, action);
    }
  }

  lemma EventsOfAppended(sessions: seq<Session>, events: seq<Event>, e: Event)
    requires EventsLogged(sessions, events)
    requires e.session < |sessions| && sessions[e.session].user == e.user
    requires FindEvent(events, e.source, e.eventId) < 0
    ensures EventsLogged(sessions, events + [e])
  {
  }

  /** Logging an event under a key that is not in use yet. */
  lemma LogKeeps(db: Db, s: nat, now: int, c: Command, action: Action)
    requires Consistent(db)
    requires s < |db.sessions| && db.sessions[s].user == c.user
    requires FindEvent(db.events, c.source, c.eventId) < 0
    ensures Consistent(Log(db, s, now, c, action).0)
  {
    var after := Log(db, s, now, c, action).0;
    EventsOfAppended(db.sessions, db.events, after.events[|db.events|]);
    forall i | 0 <= i < |after.sessions| && after.sessions[i].ended.None? ensures ShowsPause(after, i) {
      assert ShowsPause(db, i);
    }
  }

  /** Every stamping transaction, whether it books, replays or refuses, keeps the database consistent. */
  lemma TransitionKeeps(z: Zone, db: Db, now: int, c: Command)
    requires Consistent(db)
    ensures Consistent(Transition(z, db, now, c).1)
  {
    hide Consistent;
    match Admit(db, c)
    case Admitted(action) =>
      if Booked(z, db, now, c, action).Success? {
        BookedKeeps(z, db, now, c, action);
        BookedFrame(z, db, now, c, action);
        var (booked, s) := Booked(z, db, now, c, action).value;
        LogKeeps(booked, s, now, c, action);
      }
    case _ =>
  }
}
