/**
 * Nobody is recorded as working twice at the same instant exactly as long as
 * every start is stamped after the user's earlier work began; a clock that does
 * not run backwards guarantees that.
 */
module WorkTime {
  import opened Wrappers
  import opened Booking
  import opened Schema
  import opened Attendance
  import opened CorrectionMetadata
  import opened Corrections
  import opened Consistency
  import opened CorrectionInvariants
  import opened WorkflowHints
  import opened Runs

  /** The instants a booking claims: from its start up to its end, or for ever. */
  predicate Covers(r: Record, t: int) {
    r.start <= t && (r.end.None? || t < r.end.value)
  }

  ghost predicate Apart(r: Record, q: Record) {
    forall t :: !(Covers(r, t) && Covers(q, t))
  }

  ghost predicate WorkDisjoint(records: map<int, Record>) {
    forall a, b | a in records && b in records && a != b && records[a].user == records[b].user ::
      IsAbsence(records[a]) || IsAbsence(records[b]) || Apart(records[a], records[b])
  }

  /** No work was begun or ended in the future. */
  ghost predicate WorkPast(records: map<int, Record>, now: int) {
    forall id :: id in records && !IsAbsence(records[id]) ==>
      records[id].start <= now && (records[id].end.Some? ==> records[id].end.value <= now)
  }

  /** A booking may be put under a number when it is an absence or apart from the user's other work. */
  ghost predicate Fits(records: map<int, Record>, id: int, r: Record) {
    IsAbsence(r) || forall b :: b in records && b != id && records[b].user == r.user && !IsAbsence(records[b]) ==>
      Apart(r, records[b])
  }

  lemma PutKeepsDisjoint(records: map<int, Record>, id: int, r: Record)
    requires WorkDisjoint(records) && Fits(records, id, r)
    ensures WorkDisjoint(records[id := r])
  {
    var after := records[id := r];
    forall a, b | && a in after && b in after && a != b && after[a].user == after[b].user
                  && !IsAbsence(after[a]) && !IsAbsence(after[b])
      ensures Apart(after[a], after[b])
    {
      if a != id && b != id {
        assert Apart(records[a], records[b]);
      } else if a == id {
        assert Apart(r, records[b]);
      } else {
        assert Apart(r, records[a]);
      }
    }
  }

  /** An interval that passed the overlap check is apart from all other work of the user. */
  lemma CheckedFits(z: Zone, records: map<int, Record>, id: int, r: Record)
    requires !IsAbsence(r) ==> r.end.Some? && r.start < PHP_INT_MAX
    requires !IsAbsence(r) ==> NoOverlap(z, records, r.user, r.start, r.end.value, id)
    ensures Fits(records, id, r)
  {
  }

  // --- A start ---

  /** A start would be recorded at this time: its event is new, nothing is open and nothing is in the way. */
  ghost predicate StartBooked(z: Zone, db: Db, now: int, c: Command) {
    && Admit(db, c) == Admitted(Start)
    && StatusOfUser(db, c.user).0 == Absent
    && NoOverlap(z, db.records, c.user, now, now + 1, 0)
  }

  /** All work of the user that claims any time at all has begun. */
  predicate StartClear(records: map<int, Record>, user: int, now: int) {
    forall id :: id in records && records[id].user == user && !IsAbsence(records[id]) ==>
      records[id].start <= now || (records[id].end.Some? && records[id].end.value <= records[id].start)
  }

  lemma OpenExactly(z: Zone, db: Db, now: int, c: Command)
    requires Consistent(db) && WorkDisjoint(db.records)
    requires Open(z, db, now, c).Success?
    requires c.metadata.Some? ==> ValidMetadata(c.metadata.value)
    ensures WorkDisjoint(Open(z, db, now, c).value.0.records) <==> StartClear(db.records, c.user, now)
  {
    OpenAdds(z, db, now, c);
    NoneOpen(db, c.user);
    hide BreaksOrdered, EventsLogged, PausesStoredBut, SessionsMatched;
    var after := Open(z, db, now, c).value.0.records;
    var r := after[db.nextRecord];
    OpenedIsWork(z, db, now, c);
    forall b | b in db.records && db.records[b].user == c.user && !IsAbsence(db.records[b])
      ensures Apart(r, db.records[b])
         <==> || db.records[b].start <= now
              || (db.records[b].end.Some? && db.records[b].end.value <= db.records[b].start) {
      assert !IsOpenOf(db.records, c.user, b);
      ApartFromOpen(z, db.records[b], r, now);
    }
    hide Apart, IsAbsence, NoOverlap, Open;
    if StartClear(db.records, c.user, now) {
      PutKeepsDisjoint(db.records, db.nextRecord, r);
    }
    if WorkDisjoint(after) {
      forall b | b in db.records && db.records[b].user == c.user && !IsAbsence(db.records[b])
        ensures Apart(r, db.records[b])
      {
        assert after[b] == db.records[b] && after[db.nextRecord].user == after[b].user;
      }
    }
  }

  lemma OpenedIsWork(z: Zone, db: Db, now: int, c: Command)
    requires Open(z, db, now, c).Success?
    requires c.metadata.Some? ==> ValidMetadata(c.metadata.value)
    ensures !IsAbsence(Open(z, db, now, c).value.0.records[db.nextRecord])
  {
  }

  /** Finished work that one second of an overlap check does not meet, and a booking open from that second on. */
  lemma ApartFromOpen(z: Zone, q: Record, r: Record, now: int)
    requires !IsAbsence(q) && q.end.Some? && r.start == now && r.end.None?
    requires !(Span(z, q).0 < now + 1 && Span(z, q).1 > now)
    ensures Apart(r, q) <==> q.start <= now || q.end.value <= q.start
  {
    if now < q.start < q.end.value {
      assert Covers(r, q.start) && Covers(q, q.start);
    }
  }

  // --- Everything else, at any time whatsoever ---

  lemma ShrunkFits(records: map<int, Record>, id: int, r: Record)
    requires WorkDisjoint(records) && id in records
    requires r == records[id].(end := r.end, pause := r.pause)
    requires r.end == records[id].end || records[id].end.None?
    ensures Fits(records, id, r)
  {
    if !IsAbsence(r) {
      forall b | b in records && b != id && records[b].user == r.user && !IsAbsence(records[b])
        ensures Apart(r, records[b])
      {
        assert Apart(records[id], records[b]);
        forall t ensures !(Covers(r, t) && Covers(records[b], t)) {
          assert Covers(r, t) ==> Covers(records[id], t);
        }
      }
    }
  }

  /** A later stamp only shortens an open booking. */
  lemma LaterDisjoint(db: Db, now: int, c: Command, action: Action)
    requires Consistent(db) && WorkDisjoint(db.records) && action != Start
    requires Later(db, now, c, action).Success?
    ensures WorkDisjoint(Later(db, now, c, action).value.0.records)
  {
    hide BreaksOrdered, EventsLogged, PausesStoredBut, Unique;
    AdoptKeeps(db, now, c.user);
    var (adopted, s) := Adopt(db, now, c.user).value;
    var id := adopted.sessions[s].record;
    var after := Stamp(adopted, s, now, action);
    assert Matches(adopted.records, adopted.sessions[s]);
    ShrunkFits(db.records, id, after.records[id]);
    PutKeepsDisjoint(db.records, id, after.records[id]);
  }

  /** A stamp keeps work disjoint exactly when it is no recorded start or a clear one. */
  lemma TransitionExactly(z: Zone, db: Db, now: int, c: Command)
    requires Consistent(db) && WorkDisjoint(db.records)
    ensures WorkDisjoint(Transition(z, db, now, c).1.records) <==>
      (StartBooked(z, db, now, c) ==> StartClear(db.records, c.user, now))
  {
    hide Consistent, WorkDisjoint, Open, Later, NoOverlap, StatusOfUser, StartClear;
    match Admit(db, c)
    case Admitted(action) =>
      AdmittedMetadata(db, c, action);
      if action == Start {
        StartNeedsGap(z, db, now, c);
        if NoOverlap(z, db.records, c.user, now, now + 1, 0) {
          OpenSucceeds(z, db, now, c);
        }
      }
      if Booked(z, db, now, c, action).Success? {
        if action == Start {
          OpenExactly(z, db, now, c);
        } else {
          LaterDisjoint(db, now, c, action);
        }
      }
    case _ =>
  }

  lemma StartNeedsGap(z: Zone, db: Db, now: int, c: Command)
    ensures Open(z, db, now, c).Success? ==> NoOverlap(z, db.records, c.user, now, now + 1, 0)
  {
  }

  lemma AdmittedMetadata(db: Db, c: Command, action: Action)
    requires Admit(db, c) == Admitted(action)
    ensures c.metadata.Some? ==> ValidMetadata(c.metadata.value)
  {
    hide ValidMetadata, ValidEventId;
  }

  lemma DeletedDisjoint(records: map<int, Record>, id: int)
    requires WorkDisjoint(records)
    ensures WorkDisjoint(records - {id})
  {
  }

  /** A corrected or added booking meets no other work. */
  lemma CorrectedDisjoint(z: Zone, records: map<int, Record>, id: int, r: Record)
    requires WorkDisjoint(records)
    requires !IsAbsence(r) ==>
      r.end.Some? && r.start < PHP_INT_MAX && NoOverlap(z, records, r.user, r.start, r.end.value, id)
    ensures WorkDisjoint(records[id := r])
  {
    CheckedFits(z, records, id, r);
    PutKeepsDisjoint(records, id, r);
  }

  /** New place and note never make an absence of work, and leave the times alone. */
  lemma RelabelledKind(db: Db, a: Request, id: int, r: Record, m: Metadata)
    requires Relabelled(db, a, id, r, m).Success?
    ensures Relabelled(db, a, id, r, m).value
      == db.(records := db.records[id := r.(note := m.note, location := m.location)])
    ensures !IsAbsence(r) && !IsAbsence(r.(note := m.note, location := m.location))
  {
  }

  lemma RelabelledDisjoint(records: map<int, Record>, id: int, q: Record)
    requires WorkDisjoint(records) && id in records && !IsAbsence(records[id])
    requires q == records[id].(note := q.note, location := q.location)
    ensures WorkDisjoint(records[id := q])
  {
    forall b | b in records && b != id && records[b].user == q.user && !IsAbsence(records[b])
      ensures Apart(q, records[b])
    {
      assert Apart(records[id], records[b]);
      forall t ensures !(Covers(q, t) && Covers(records[b], t)) {
        assert Covers(q, t) ==> Covers(records[id], t);
      }
    }
    PutKeepsDisjoint(records, id, q);
  }

  /** No booking has number 0 or the next number, so excepting either excepts nothing. */
  lemma NumberAtZero(z: Zone, db: Db, a: Request)
    requires RecordsNumbered(db)
    requires NoOverlap(z, db.records, a.user, a.start, a.end, 0)
    ensures NoOverlap(z, db.records, a.user, a.start, a.end, db.nextRecord)
  {
  }

  /** What an approval does to the bookings, and what is known about the booking it writes. */
  datatype Change = Nothing | Removed(id: int) | Replaced(id: int, r: Record) | Renamed(id: int, r: Record)

  function Written(db: Db, number: nat): Change
    requires number < |db.requests| && Parse(db.requests[number].original).Success?
  {
    var a := db.requests[number];
    var metadata := Parse(a.original).value;
    if a.record.None? then (if a.cancel then Nothing else Replaced(db.nextRecord, Added(a)))
    else
      var id := a.record.value;
      if id !in db.records then Nothing
      else if metadata.Some? then
        Renamed(id, db.records[id].(note := metadata.value.metadata.note, location := metadata.value.metadata.location))
      else if a.cancel then Removed(id)
      else Replaced(id, Corrected(db.records[id], a))
  }

  lemma ApproveWrites(z: Zone, db: Db, now: int, number: nat)
    requires Consistent(db) && number < |db.requests|
    requires Approve(z, db, now, number).Success?
    ensures Parse(db.requests[number].original).Success?
    ensures var after := Approve(z, db, now, number).value.records;
      match Written(db, number)
      case Nothing => after == db.records
      case Removed(id) => after == db.records - {id}
      case Replaced(id, r) =>
        && after == db.records[id := r]
        && (id in db.records ==> IsAbsence(r) == IsAbsence(db.records[id]) && r.user == db.records[id].user)
        && (id !in db.records ==> id == db.nextRecord && !IsAbsence(r))
        && (!IsAbsence(r) ==>
             r.end.Some? && r.start < r.end.value <= now && NoOverlap(z, db.records, r.user, r.start, r.end.value, id))
      case Renamed(id, r) =>
        && id in db.records && after == db.records[id := r] && !IsAbsence(r) && !IsAbsence(db.records[id])
        && r == db.records[id].(note := r.note, location := r.location)
  {
    hide BreaksOrdered, EventsLogged, PausesStoredBut, SessionsMatched, NoOverlap, Parse, Snapshot;
    var a := db.requests[number];
    if a.record.None? {
      if !a.cancel {
        assert !IsAbsence(Added(a)) && !IsAbsence(Proposed(a, None));
        NumberAtZero(z, db, a);
      }
    } else {
      var id := a.record.value;
      var r := OwnBooking(db, a.user, id).value;
      var metadata := Parse(a.original).value;
      if metadata.Some? {
        RelabelledKind(db, a, id, r, metadata.value.metadata);
      } else if a.cancel {
        CancelledKeeps(db, id, now);
      } else {
        MovedKeeps(z, db, a, id, r, now);
        assert IsAbsence(Corrected(r, a)) == IsAbsence(r) == IsAbsence(Proposed(a, Some(r)));
      }
    }
  }

  lemma ApproveDisjoint(z: Zone, db: Db, now: int, number: nat)
    requires Consistent(db) && WorkDisjoint(db.records) && now <= PHP_INT_MAX && number < |db.requests|
    requires Approve(z, db, now, number).Success?
    ensures WorkDisjoint(Approve(z, db, now, number).value.records)
  {
    ApproveWrites(z, db, now, number);
    hide Consistent, Approve, NoOverlap, WorkDisjoint, IsAbsence, Parse, Written;
    match Written(db, number)
    case Nothing =>
    case Removed(id) => DeletedDisjoint(db.records, id);
    case Replaced(id, r) => CorrectedDisjoint(z, db.records, id, r);
    case Renamed(id, r) => RelabelledDisjoint(db.records, id, r);
  }

  lemma {:induction false} CreditDaysDisjoint(z: Zone, target: int -> nat, db: Db, user: int, first: int, last: int,
                                              kind: string)
    requires WorkDisjoint(db.records) && ReservedNote(kind)
    requires CreditDays(z, target, db, user, first, last, kind).Success?
    ensures WorkDisjoint(CreditDays(z, target, db, user, first, last, kind).value.records)
    decreases last - first
  {
    hide NoOverlap;
    if first <= last {
      if target(first) == 0 {
        CreditDaysDisjoint(z, target, db, user, first + 1, last, kind);
      } else {
        var credit := Credit(z, user, first, target(first), kind);
        PutKeepsDisjoint(db.records, db.nextRecord, credit);
        CreditDaysDisjoint(z, target, InsertRecord(db, credit), user, first + 1, last, kind);
      }
    }
  }

  // --- Runs ---

  /** The step records no start, or one after all earlier work of the user has begun. */
  ghost predicate StepClear(env: Env, db: Db, timed: Timed) {
    timed.step.Stamped? && StartBooked(env.zone, db, timed.now, timed.step.command) ==>
      StartClear(db.records, timed.step.command.user, timed.now)
  }

  /** One step, at any time: a start that is not clear is the only way to record double work. */
  lemma StepExactly(env: Env, db: Db, now: int, step: Step)
    requires Consistent(db) && WorkDisjoint(db.records) && now <= PHP_INT_MAX
    ensures WorkDisjoint(Apply(env, db, now, step).records) <==> StepClear(env, db, Timed(now, step))
  {
    hide Consistent, WorkDisjoint, Transition, Approve, CreditDays, StartBooked, StartClear;
    match step
    case Stamped(c) => TransitionExactly(env.zone, db, now, c);
    case Credited(user, first, last, kind) =>
      if Corrections.Absent(env.zone, env.target, db, user, first, last, kind).Success? {
        CreditDaysDisjoint(env.zone, env.target, db, user, first, last, kind);
      }
    case Decided(actor, role, d) =>
      if Review(env.zone, db, now, actor, role, d).Success? && d.decision == "approved" {
        ApproveDisjoint(env.zone, db, now, d.number);
      }
    case _ =>
  }

  /** Times are machine integers. */
  predicate Representable(trace: seq<Timed>) {
    forall i :: 0 <= i < |trace| ==> trace[i].now <= PHP_INT_MAX
  }

  ghost predicate AlwaysDisjoint(env: Env, db: Db, trace: seq<Timed>) {
    forall k :: 0 <= k <= |trace| ==> WorkDisjoint(Exec(env, db, trace[..k]).records)
  }

  ghost predicate AlwaysClear(env: Env, db: Db, trace: seq<Timed>) {
    forall k :: 0 <= k < |trace| ==> StepClear(env, Exec(env, db, trace[..k]), trace[k])
  }

  lemma DisjointLonger(env: Env, db: Db, trace: seq<Timed>)
    requires trace != []
    ensures AlwaysDisjoint(env, db, trace) <==>
      AlwaysDisjoint(env, db, trace[..|trace| - 1]) && WorkDisjoint(Exec(env, db, trace).records)
  {
    hide WorkDisjoint, Exec;
    var before := trace[..|trace| - 1];
    assert forall k :: 0 <= k <= |before| ==> before[..k] == trace[..k];
    assert trace[..|trace|] == trace;
  }

  lemma ClearLonger(env: Env, db: Db, trace: seq<Timed>)
    requires trace != []
    ensures var last := |trace| - 1;
      AlwaysClear(env, db, trace) <==>
        AlwaysClear(env, db, trace[..last]) && StepClear(env, Exec(env, db, trace[..last]), trace[last])
  {
    hide StepClear, Exec;
    var before := trace[..|trace| - 1];
    assert forall k :: 0 <= k < |before| ==> before[..k] == trace[..k] && before[k] == trace[k];
  }

  /** A run never records double work if and only if every start it records comes after all earlier work has begun. */
  lemma {:induction false} RunExactly(env: Env, db: Db, trace: seq<Timed>)
    requires Consistent(db) && WorkDisjoint(db.records) && Representable(trace)
    ensures AlwaysDisjoint(env, db, trace) <==> AlwaysClear(env, db, trace)
  {
    hide Consistent, WorkDisjoint, StepClear, Apply;
    if trace == [] {
      assert trace[..0] == [];
    } else {
      var before := trace[..|trace| - 1];
      var last := trace[|trace| - 1];
      RunExactly(env, db, before);
      DisjointLonger(env, db, trace);
      ClearLonger(env, db, trace);
      RunKeeps(env, db, before);
      DisjointNow(env, db, before);
      hide AlwaysDisjoint, AlwaysClear;
      if AlwaysDisjoint(env, db, before) {
        StepExactly(env, Exec(env, db, before), last.now, last.step);
      }
    }
  }

  lemma DisjointNow(env: Env, db: Db, trace: seq<Timed>)
    ensures AlwaysDisjoint(env, db, trace) ==> WorkDisjoint(Exec(env, db, trace).records)
  {
    hide WorkDisjoint, Exec;
    assert trace[..|trace|] == trace;
  }

  // --- A clock that does not run backwards ---

  lemma TransitionPast(z: Zone, db: Db, now: int, c: Command)
    requires Consistent(db) && WorkPast(db.records, now)
    ensures WorkPast(Transition(z, db, now, c).1.records, now)
  {
    hide Consistent, Open, Later;
    match Admit(db, c)
    case Admitted(action) =>
      if Booked(z, db, now, c, action).Success? {
        if action == Start {
          OpenAdds(z, db, now, c);
        } else {
          LaterPast(db, now, c, action);
        }
      }
    case _ =>
  }

  lemma LaterPast(db: Db, now: int, c: Command, action: Action)
    requires Consistent(db) && WorkPast(db.records, now) && action != Start
    requires Later(db, now, c, action).Success?
    ensures WorkPast(Later(db, now, c, action).value.0.records, now)
  {
    hide BreaksOrdered, EventsLogged, PausesStoredBut, Unique, StampedBreaks, ClosedSeconds, Obstacle, OpenBookings;
    AdoptKeeps(db, now, c.user);
    var (adopted, s) := Adopt(db, now, c.user).value;
    assert adopted.records == db.records;
    assert Matches(adopted.records, adopted.sessions[s]);
  }

  lemma ApprovePast(z: Zone, db: Db, now: int, number: nat)
    requires Consistent(db) && WorkPast(db.records, now) && number < |db.requests|
    requires Approve(z, db, now, number).Success?
    ensures WorkPast(Approve(z, db, now, number).value.records, now)
  {
    ApproveWrites(z, db, now, number);
    hide Consistent, Approve, NoOverlap, IsAbsence, Parse, Written;
  }

  lemma {:induction false} CreditDaysPast(z: Zone, target: int -> nat, db: Db, user: int, first: int, last: int,
                                          kind: string, now: int)
    requires WorkPast(db.records, now) && ReservedNote(kind)
    requires CreditDays(z, target, db, user, first, last, kind).Success?
    ensures WorkPast(CreditDays(z, target, db, user, first, last, kind).value.records, now)
    decreases last - first
  {
    hide NoOverlap;
    if first <= last {
      if target(first) == 0 {
        CreditDaysPast(z, target, db, user, first + 1, last, kind, now);
      } else {
        CreditDaysPast(z, target, InsertRecord(db, Credit(z, user, first, target(first), kind)), user, first + 1, last,
                       kind, now);
      }
    }
  }

  lemma StepPast(env: Env, db: Db, now: int, step: Step)
    requires Consistent(db) && WorkPast(db.records, now)
    ensures WorkPast(Apply(env, db, now, step).records, now)
  {
    hide Consistent, WorkPast, Transition, Approve, CreditDays;
    match step
    case Stamped(c) => TransitionPast(env.zone, db, now, c);
    case Credited(user, first, last, kind) =>
      if Corrections.Absent(env.zone, env.target, db, user, first, last, kind).Success? {
        CreditDaysPast(env.zone, env.target, db, user, first, last, kind, now);
      }
    case Decided(actor, role, d) =>
      if Review(env.zone, db, now, actor, role, d).Success? && d.decision == "approved" {
        ApprovePast(env.zone, db, now, d.number);
      }
    case _ =>
  }

  /** The clock of a run starts no earlier than t and never runs backwards. */
  ghost predicate Nondecreasing(trace: seq<Timed>, t: int) {
    && (forall i :: 0 <= i < |trace| ==> t <= trace[i].now)
    && (forall i, j :: 0 <= i < j < |trace| ==> trace[i].now <= trace[j].now)
  }

  function EndTime(trace: seq<Timed>, t: int): int {
    if trace == [] then t else trace[|trace| - 1].now
  }

  /** With such a clock all work is in the past, and so every start is clear. */
  lemma {:induction false} RunPast(env: Env, db: Db, trace: seq<Timed>, t: int)
    requires Consistent(db) && WorkPast(db.records, t) && Nondecreasing(trace, t)
    ensures WorkPast(Exec(env, db, trace).records, EndTime(trace, t))
    ensures AlwaysClear(env, db, trace)
  {
    hide Consistent, Apply, StartBooked, IsAbsence;
    if trace != [] {
      var before := trace[..|trace| - 1];
      var last := trace[|trace| - 1];
      RunPast(env, db, before, t);
      RunKeeps(env, db, before);
      assert WorkPast(Exec(env, db, before).records, last.now);
      StepPast(env, Exec(env, db, before), last.now, last.step);
      ClearLonger(env, db, trace);
    }
  }

  /** What a run with such a clock keeps: disjoint work, none of it in the future. */
  ghost predicate WorkSound(db: Db, now: int) {
    Consistent(db) && WorkDisjoint(db.records) && WorkPast(db.records, now)
  }

  /** With a clock that does not run backwards each user's work stays disjoint and in the past over every run. */
  lemma RunSound(env: Env, db: Db, trace: seq<Timed>, t: int)
    requires WorkSound(db, t) && Nondecreasing(trace, t) && Representable(trace)
    ensures WorkSound(Exec(env, db, trace), EndTime(trace, t))
  {
    hide Consistent, WorkDisjoint, WorkPast, AlwaysClear, AlwaysDisjoint;
    RunKeeps(env, db, trace);
    RunPast(env, db, trace, t);
    RunExactly(env, db, trace);
    DisjointNow(env, db, trace);
  }

  // --- Bookings keep their number, their user and their kind ---

  /** No number below the next one is given to another booking, and none becomes work or stops being work. */
  ghost predicate Faithful(db: Db, after: Db) {
    && db.nextRecord <= after.nextRecord
    && (forall id :: id in after.records && id < db.nextRecord ==>
          id in db.records && after.records[id].user == db.records[id].user
            && IsAbsence(after.records[id]) == IsAbsence(db.records[id]))
  }

  lemma FaithfulTrans(a: Db, b: Db, c: Db)
    requires Faithful(a, b) && Faithful(b, c)
    ensures Faithful(a, c)
  {
  }

  lemma {:induction false} CreditDaysFaithful(z: Zone, target: int -> nat, db: Db, user: int, first: int, last: int,
                                              kind: string)
    requires CreditDays(z, target, db, user, first, last, kind).Success?
    ensures Faithful(db, CreditDays(z, target, db, user, first, last, kind).value)
    decreases last - first
  {
    hide NoOverlap;
    if first <= last {
      if target(first) == 0 {
        CreditDaysFaithful(z, target, db, user, first + 1, last, kind);
      } else {
        var credited := InsertRecord(db, Credit(z, user, first, target(first), kind));
        CreditDaysFaithful(z, target, credited, user, first + 1, last, kind);
        FaithfulTrans(db, credited, CreditDays(z, target, db, user, first, last, kind).value);
      }
    }
  }

  lemma StampFaithful(db: Db, s: nat, now: int, action: Action)
    requires RecordsNumbered(db) && s < |db.sessions|
    ensures Faithful(db, Stamp(db, s, now, action))
  {
    hide StampedBreaks, ClosedSeconds;
  }

  lemma LaterFaithful(db: Db, now: int, c: Command, action: Action)
    requires Consistent(db) && Later(db, now, c, action).Success?
    ensures Faithful(db, Later(db, now, c, action).value.0)
  {
    hide Unique, BreaksOrdered, PausesStoredBut, EventsLogged, Obstacle, StampedBreaks, OpenBookings, ClosedSeconds,
      IsAbsence;
    AdoptKeeps(db, now, c.user);
    var (adopted, s) := Adopt(db, now, c.user).value;
    assert adopted.records == db.records && adopted.nextRecord == db.nextRecord;
    StampFaithful(adopted, s, now, action);
  }

  lemma OpenFaithful(z: Zone, db: Db, now: int, c: Command)
    requires Consistent(db) && Open(z, db, now, c).Success?
    ensures Faithful(db, Open(z, db, now, c).value.0)
  {
    hide SessionsMatched, BreaksOrdered, PausesStoredBut, EventsLogged, NoOverlap, IsAbsence;
  }

  lemma TransitionFaithful(z: Zone, db: Db, now: int, c: Command)
    requires Consistent(db)
    ensures Faithful(db, Transition(z, db, now, c).1)
  {
    hide Consistent, Open, Later, ReceiptFor, IsAbsence;
    match Admit(db, c)
    case Admitted(action) =>
      if Booked(z, db, now, c, action).Success? {
        if action == Start {
          OpenFaithful(z, db, now, c);
        } else {
          LaterFaithful(db, now, c, action);
        }
      }
    case _ =>
  }

  lemma ApproveFaithful(z: Zone, db: Db, now: int, number: nat)
    requires Consistent(db) && number < |db.requests|
    requires Approve(z, db, now, number).Success?
    ensures Faithful(db, Approve(z, db, now, number).value)
  {
    ApproveWrites(z, db, now, number);
    ApproveNumbers(z, db, now, number);
    hide BreaksOrdered, EventsLogged, PausesStoredBut, SessionsMatched, Approve, NoOverlap, IsAbsence, Parse, Written;
  }

  lemma ApproveNumbers(z: Zone, db: Db, now: int, number: nat)
    requires number < |db.requests|
    requires Approve(z, db, now, number).Success?
    ensures db.nextRecord <= Approve(z, db, now, number).value.nextRecord
  {
    hide NoOverlap, Parse, Snapshot, ValidCorrection, EndBreaksOf, EndSessionsOf;
  }

  lemma StepFaithful(env: Env, db: Db, now: int, step: Step)
    requires Consistent(db)
    ensures Faithful(db, Apply(env, db, now, step))
  {
    hide Consistent, Transition, Approve, CreditDays;
    match step
    case Stamped(c) => TransitionFaithful(env.zone, db, now, c);
    case Credited(user, first, last, kind) =>
      if Corrections.Absent(env.zone, env.target, db, user, first, last, kind).Success? {
        CreditDaysFaithful(env.zone, env.target, db, user, first, last, kind);
      }
    case Decided(actor, role, d) =>
      if Review(env.zone, db, now, actor, role, d).Success? && d.decision == "approved" {
        ApproveFaithful(env.zone, db, now, d.number);
      }
    case _ =>
  }

  /** Over every run, whatever the clock does, a booking number always means the same user's work, or absence. */
  lemma {:induction false} RunFaithful(env: Env, db: Db, trace: seq<Timed>)
    requires Consistent(db)
    ensures Faithful(db, Exec(env, db, trace))
  {
    hide Apply, BreaksOrdered, EventsLogged, PausesStoredBut, SessionsMatched;
    if trace == [] {
    } else {
      var before := trace[..|trace| - 1];
      var last := trace[|trace| - 1];
      RunFaithful(env, db, before);
      RunKeeps(env, db, before);
      StepFaithful(env, Exec(env, db, before), last.now, last.step);
      FaithfulTrans(db, Exec(env, db, before), Exec(env, db, trace));
    }
  }
}
