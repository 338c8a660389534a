/** What becomes of a request, and that its stored status tells the truth about the bookings. */
module RequestFates {
  import opened Wrappers
  import opened Booking
  import opened Schema
  import opened Attendance
  import opened CorrectionMetadata
  import opened Corrections
  import opened Consistency
  import opened CorrectionInvariants
  import opened CorrectionLifecycle
  import opened Runs

  // --- Who may decide ---

  /**
   * A decision is accepted exactly when it is one, by somebody entitled, on a pending request that can be carried out.
   */
  lemma ReviewExactly(z: Zone, db: Db, now: int, actor: int, role: Role, d: Decision)
    ensures Review(z, db, now, actor, role, d).Success? <==>
      && 0 <= d.number < |db.requests|
      && (var a := db.requests[d.number];
          && a.status == Pending
          && a.user != actor && a.user in db.users
          && (role == Admin || (role == Supervisor && db.users[a.user].supervisor == Some(actor)))
          && 3 <= Utf8Bytes(Trim(d.reason)) <= 1000
          && (d.decision == "rejected" || (d.decision == "approved" && Approve(z, db, now, d.number).Success?)))
  {
    hide Approve;
  }

  // --- What a decision stores ---

  /** The booking of an approved request is the one its snapshot was taken of, and changes exactly as requested. */
  ghost predicate CarriedOut(records: map<int, Record>, next: int, after: map<int, Record>, a: Request) {
    && Parse(a.original).Success?
    && (if a.record.None? then
          && a.original.None? && next !in records
          && after == (if a.cancel then records
                       else records[next := Record(a.user, a.start, Some(a.end), a.pause, "Korrektur freigegeben",
                                                   "office", None, None)])
        else
          var id, metadata := a.record.value, Parse(a.original).value;
          && id in records && records[id].user == a.user && TakenOf(a.original, id, records[id])
          && after == (if metadata.Some? then
                         records[id := records[id].(note := metadata.value.metadata.note,
                                                    location := metadata.value.metadata.location)]
                       else if a.cancel then records - {id}
                       else
                         records[id := records[id].(start := a.start, end := Some(a.end), pause := a.pause,
                                                    planned := Credited(records[id], a))]))
  }

  /** An absence is credited with the corrected minutes, work with none. */
  function Credited(r: Record, a: Request): Option<int> {
    if r.absenceKind == None || r.absenceKind == Some("") || r.absenceKind == Some("0") then None
    else Some((a.end - a.start) / 60 - a.pause)
  }

  lemma ApprovalCarriesOut(z: Zone, db: Db, now: int, number: nat)
    requires Consistent(db) && number < |db.requests|
    requires Approve(z, db, now, number).Success?
    ensures CarriedOut(db.records, db.nextRecord, Approve(z, db, now, number).value.records, db.requests[number])
  {
    hide SessionsMatched, BreaksOrdered, EventsLogged, PausesStoredBut, NoOverlap, Parse, Snapshot, ValidCorrection,
      EndBreaksOf, EndSessionsOf, ValidMetadata;
    var a := db.requests[number];
    if a.record.Some? {
      SnapshotKept(a, db.records[a.record.value]);
    }
  }

  lemma SnapshotKept(a: Request, r: Record)
    requires a.record.Some? && Parse(a.original).Success?
    requires Some(Snapshot(a.record.value, r)) ==
      (if Parse(a.original).value.Some? then Some(Parse(a.original).value.value.original) else a.original)
    ensures TakenOf(a.original, a.record.value, r)
  {
    hide Parse, Snapshot;
    if Parse(a.original).value.Some? {
      var p := Parse(a.original).value.value;
      assert p == Parsed(Snapshot(a.record.value, r), p.metadata);
    }
  }

  /** The request once decided. */
  ghost predicate Decides(a: Request, b: Request, record: Option<int>, status: Status, actor: int, now: int,
                          reason: string) {
    b == a.(record := record, status := status, reviewer := Some(actor), reviewedAt := Some(now),
            reviewReason := Some(Trim(reason)))
  }

  /**
   * A decision is stored as it was made: approved exactly for "approved", rejected exactly for "rejected", with the
   * actor, the time and the trimmed reason.  A rejection changes nothing else at all, an approval the booking as
   * requested.
   */
  lemma DecisionStored(z: Zone, db: Db, now: int, actor: int, role: Role, d: Decision)
    requires Consistent(db) && Review(z, db, now, actor, role, d).Success?
    ensures var after, n := Review(z, db, now, actor, role, d).value, d.number;
      && 0 <= n < |db.requests| && |after.requests| == |db.requests|
      && (forall k :: 0 <= k < |db.requests| && k != n ==> after.requests[k] == db.requests[k])
      && (after.requests[n].status == Approved <==> d.decision == "approved")
      && (after.requests[n].status == Rejected <==> d.decision == "rejected")
      && (d.decision == "rejected" ==>
           && Decides(db.requests[n], after.requests[n], db.requests[n].record, Rejected, actor, now, d.reason)
           && after == db.(requests := after.requests))
      && (d.decision == "approved" ==>
           && Decides(db.requests[n], after.requests[n], after.requests[n].record, Approved, actor, now, d.reason)
           && after.requests[n].record == FilledIn(db, n)
           && CarriedOut(db.records, db.nextRecord, after.records, db.requests[n])
           && after.events == db.events && after.breaks == db.breaks && after.users == db.users)
  {
    hide Consistent, Approve, CarriedOut, Trim, Utf8Bytes;
    if d.decision == "approved" {
      ApprovalCarriesOut(z, db, now, d.number);
      ApprovalFrame(z, db, now, d.number);
      ApprovalNumber(z, db, now, d.number);
    }
  }

  /** The number of an approved request: its own, or that of the booking it made. */
  function FilledIn(db: Db, number: nat): Option<int>
    requires number < |db.requests|
  {
    var a := db.requests[number];
    if a.record.None? && !a.cancel then Some(db.nextRecord) else a.record
  }

  lemma ApprovalNumber(z: Zone, db: Db, now: int, number: nat)
    requires number < |db.requests| && Approve(z, db, now, number).Success?
    ensures var after := Approve(z, db, now, number).value;
      && after.requests == db.requests[number := db.requests[number].(record := FilledIn(db, number))]
      && after.users == db.users
  {
    hide NoOverlap, ValidCorrection, Parse, Snapshot, EndBreaksOf, EndSessionsOf;
  }

  /** The sessions after an approval: a booking with new times has one, and nothing else changes. */
  ghost predicate SessionsCarried(sessions: seq<Session>, next: int, after: seq<Session>, a: Request) {
    var id := if a.record.Some? then a.record.value else next;
    if a.cancel || (Parse(a.original).Success? && Parse(a.original).value.Some?)
       || (exists i :: 0 <= i < |sessions| && sessions[i].record == id)
    then after == sessions
    else after == sessions + [Session(a.user, id, a.start, Some(a.end))]
  }

  lemma ApprovalSessions(z: Zone, db: Db, now: int, number: nat)
    requires Consistent(db) && number < |db.requests|
    requires Approve(z, db, now, number).Success?
    ensures SessionsCarried(db.sessions, db.nextRecord, Approve(z, db, now, number).value.sessions, db.requests[number])
  {
    hide EventsLogged, PausesStoredBut, NoOverlap, Parse, Snapshot, ValidCorrection, BreaksOrdered, Unique, Matches;
    NothingParsed();
    var a := db.requests[number];
    if a.record.Some? {
      var id := a.record.value;
      var r := OwnBooking(db, a.user, id).value;
      if Parse(a.original).value.None? {
        NothingToEnd(if a.cancel then db.(records := db.records - {id})
                     else db.(records := db.records[id := Corrected(r, a)]), id, if a.cancel then now else a.end);
      }
    }
  }

  /** Taking back exactly what is one's own, pending and untouched by any reviewer. */
  lemma WithdrawExactly(db: Db, now: int, user: int, current: bool, number: int, reason: string)
    ensures Withdraw(db, now, user, current, number, reason).Success? <==>
      && 1 <= user && user in db.users && current && 5 <= Utf8Bytes(Trim(reason)) <= 1000
      && 0 <= number < |db.requests|
      && (var a := db.requests[number];
          && a.user == user && a.status == Pending && a.reviewer.None? && a.reviewedAt.None? && a.reviewReason.None?)
  {
    hide Trim, Utf8Bytes;
  }

  // --- Over every run ---

  /** The step decided or took back the request, with the effect that its new status claims. */
  ghost predicate FateAt(env: Env, before: Db, timed: Timed, number: nat, b: Request)
    requires number < |before.requests|
  {
    var a, after := before.requests[number], Apply(env, before, timed.now, timed.step);
    match timed.step
    case Decided(actor, role, d) =>
      && d.number == number && actor != a.user
      && (role == Admin || (role == Supervisor && a.user in before.users
           && before.users[a.user].supervisor == Some(actor)))
      && (if d.decision == "approved" then
            && Decides(a, b, FilledIn(before, number), Approved, actor, timed.now, d.reason)
            && CarriedOut(before.records, before.nextRecord, after.records, a)
          else
            && d.decision == "rejected"
            && Decides(a, b, a.record, Rejected, actor, timed.now, d.reason)
            && after == before.(requests := after.requests))
    case TakenBack(user, _, n, reason) =>
      && n == number && user == a.user
      && b == a.(status := Withdrawn, reviewedAt := Some(timed.now), reviewReason := Some(Trim(reason)))
      && after == before.(requests := after.requests)
    case _ => false
  }

  /** One step leaves a pending request alone or settles it. */
  lemma StepFate(env: Env, db: Db, now: int, step: Step, number: nat)
    requires Consistent(db) && number < |db.requests|
    ensures var after := Apply(env, db, now, step);
      && number < |after.requests|
      && (after.requests[number] == db.requests[number]
          || (db.requests[number].status == Pending
               && FateAt(env, db, Timed(now, step), number, after.requests[number])))
  {
    hide Consistent, Transition, Approve, CreditDays, CarriedOut, Trim, Utf8Bytes;
    match step
    case Stamped(c) => TransitionRequests(env.zone, db, now, c);
    case Credited(user, first, last, kind) =>
      if Corrections.Absent(env.zone, env.target, db, user, first, last, kind).Success? {
        CreditDaysRequests(env.zone, env.target, db, user, first, last, kind);
      }
    case Decided(actor, role, d) =>
      if Review(env.zone, db, now, actor, role, d).Success? {
        DecisionStored(env.zone, db, now, actor, role, d);
        ReviewExactly(env.zone, db, now, actor, role, d);
      }
    case _ =>
  }

  ghost predicate SettledAt(env: Env, db: Db, trace: seq<Timed>, number: nat, k: int, b: Request) {
    && 0 <= k < |trace|
    && number < |Exec(env, db, trace[..k]).requests|
    && Exec(env, db, trace[..k]).requests[number].status == Pending
    && FateAt(env, Exec(env, db, trace[..k]), trace[k], number, b)
  }

  /**
   * Over every run a pending request is what it was, or one step settled it: an approval by somebody entitled, which
   * changed the bookings exactly as requested and only on the booking it was asked for; a rejection or a withdrawal by
   * the owner, which changed nothing else.  Its row then stays as that step wrote it.
   */
  lemma {:induction false} RequestFate(env: Env, db: Db, trace: seq<Timed>, number: nat)
    requires Consistent(db) && number < |db.requests|
    ensures number < |Exec(env, db, trace).requests|
    ensures var b := Exec(env, db, trace).requests[number];
      b == db.requests[number]
      || (exists k :: SettledAt(env, db, trace, number, k, b)
           && Exec(env, db, trace[..k]).requests[number] == db.requests[number])
  {
    if trace != [] {
      var last := |trace| - 1;
      var before := Exec(env, db, trace[..last]);
      RequestFate(env, db, trace[..last], number);
      RunKeeps(env, db, trace[..last]);
      hide Consistent, Apply, FateAt;
      StepFate(env, before, trace[last].now, trace[last].step, number);
      assert Exec(env, db, trace) == Apply(env, before, trace[last].now, trace[last].step);
      var b := Exec(env, db, trace).requests[number];
      if before.requests[number] != db.requests[number] {
        var k :| SettledAt(env, db, trace[..last], number, k, before.requests[number])
          && Exec(env, db, trace[..last][..k]).requests[number] == db.requests[number];
        assert trace[..last][..k] == trace[..k];
        assert SettledAt(env, db, trace, number, k, before.requests[number]);
        assert before.requests[number].status != Pending by {
          SettledStatus(env, Exec(env, db, trace[..k]), trace[k], number, before.requests[number]);
        }
      } else if b != before.requests[number] {
        assert SettledAt(env, db, trace, number, last, b);
      }
    }
  }

  lemma SettledStatus(env: Env, before: Db, timed: Timed, number: nat, b: Request)
    requires number < |before.requests| && FateAt(env, before, timed, number, b)
    ensures b.status != Pending
  {
    hide Apply, CarriedOut, Trim;
  }
}
