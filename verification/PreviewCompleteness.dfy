/** A preview is available exactly when the approval would succeed and both totals can be trusted. */
module PreviewCompleteness {
  import opened Wrappers
  import opened Booking
  import opened Schema
  import opened Attendance
  import opened CorrectionMetadata
  import opened Corrections
  import opened Consistency
  import opened CorrectionInvariants
  import opened CorrectionLifecycle
  import opened HomeProjection
  import opened BalancePreview
  import opened PreviewRefinement

  // --- What the projections look at ---

  ghost predicate SomeRow(rows: seq<Row>, r: Record) {
    exists i :: 0 <= i < |rows| && rows[i].record == r
  }

  /** The same bookings, whatever their numbers and their order. */
  ghost predicate SameBookings(p: seq<Row>, q: seq<Row>) {
    forall r :: SomeRow(p, r) <==> SomeRow(q, r)
  }

  lemma SameConclusion(z: Zone, p: seq<Row>, q: seq<Row>)
    requires SameBookings(p, q)
    ensures AnyInvalid(z, p) ==> AnyInvalid(z, q)
    ensures AnyConflict(z, p) ==> AnyConflict(z, q)
  {
    hide Calculate, Conflict;
    if AnyInvalid(z, p) {
      var i :| 0 <= i < |p| && Calculate(z, p[i].record).Invalid?;
      assert SomeRow(p, p[i].record);
    }
    if AnyConflict(z, p) {
      var i, j :| 0 <= i < |p| && 0 <= j < |p| && Conflict(z, p[i].record, p[j].record);
      assert SomeRow(p, p[i].record) && SomeRow(p, p[j].record);
    }
  }

  lemma SameListing(records: map<int, Record>, user: int, p: seq<Row>, q: seq<Row>)
    requires Lists(records, user, p) && Lists(records, user, q)
    ensures SameBookings(p, q)
  {
    forall r | SomeRow(p, r) ensures SomeRow(q, r) {
      var i :| 0 <= i < |p| && p[i].record == r;
      var j :| 0 <= j < |q| && q[j].id == p[i].id;
    }
    forall r | SomeRow(q, r) ensures SomeRow(p, r) {
      var i :| 0 <= i < |q| && q[i].record == r;
      var j :| 0 <= j < |p| && p[j].id == q[i].id;
    }
  }

  lemma SameButNumber(rows: seq<Row>, id: int, id': int, r: Record)
    ensures SameBookings(rows + [Row(id, r)], rows + [Row(id', r)])
  {
    var p, q := rows + [Row(id, r)], rows + [Row(id', r)];
    assert forall i :: 0 <= i < |p| ==> p[i].record == q[i].record;
  }

  /** Listing the approved bookings is as conclusive as the hypothetical list. */
  lemma HypotheticalConclusive(z: Zone, db: Db, user: int, rows: seq<Row>, number: nat, now: int, after: seq<Row>)
    requires Consistent(db) && Previewed(z, db, user, rows, number, now)
    requires Lists(Carried(db, user, rows, number), user, after)
    ensures var changed := Hypothetical(rows, Located(db, user, rows, db.requests[number]).value, db.requests[number]);
      && (AnyInvalid(z, changed) <==> AnyInvalid(z, after))
      && (AnyConflict(z, changed) <==> AnyConflict(z, after))
  {
    hide BreaksOrdered, EventsLogged, PausesStoredBut, SessionsMatched, NoOverlap, ValidCorrection, Snapshot, Lists,
      SameBookings, AnyInvalid, AnyConflict;
    var a := db.requests[number];
    var at := Located(db, user, rows, a).value;
    var carried := Carried(db, user, rows, number);
    var changed := Hypothetical(rows, at, a);
    if at < 0 {
      var numbered := rows + [Row(db.nextRecord, Added(a))];
      ListsAdded(db.records, user, rows, db.nextRecord, Added(a));
      SameListing(carried, user, after, numbered);
      SameButNumber(rows, 0, db.nextRecord, Added(a));
      SameBoth(z, after, numbered);
      SameBoth(z, changed, numbered);
    } else {
      if a.cancel {
        ListsRemoved(db.records, user, rows, at);
      } else {
        ListsReplaced(db.records, user, rows, at, Corrected(rows[at].record, a));
      }
      SameListing(carried, user, after, changed);
      SameBoth(z, after, changed);
    }
  }

  lemma SameBoth(z: Zone, p: seq<Row>, q: seq<Row>)
    requires SameBookings(p, q)
    ensures (AnyInvalid(z, p) <==> AnyInvalid(z, q)) && (AnyConflict(z, p) <==> AnyConflict(z, q))
  {
    SameConclusion(z, p, q);
    SameConclusion(z, q, p);
  }

  // --- The checks of the preview are those of the approval ---

  /** The proposed times can be shown: their offsets are whole minutes. */
  predicate Showable(z: Zone, a: Request) {
    a.cancel || (z.offset(a.start) % 60 == 0 && z.offset(a.end) % 60 == 0)
  }

  /** A pending time request of the user, which only cancels what exists. */
  predicate TimeRequest(a: Request, user: int) {
    && a.user == user && a.status == Pending && Parse(a.original) == Success(None)
    && (a.cancel ==> a.record.Some?)
  }

  lemma NewBookingAgrees(z: Zone, db: Db, user: int, rows: seq<Row>, number: nat, now: int)
    requires Consistent(db) && Lists(db.records, user, rows) && number < |db.requests|
    requires db.requests[number].record.None?
    ensures Previewed(z, db, user, rows, number, now) <==>
      && TimeRequest(db.requests[number], user) && Showable(z, db.requests[number])
      && Approve(z, db, now, number).Success?
  {
    hide BreaksOrdered, EventsLogged, PausesStoredBut, NoOverlap, Lists;
    var a := db.requests[number];
    NothingParsed();
    assert OfOneUser(rows, user) by {
      AllOwn(db.records, user, rows);
    }
    assert !HasSession(db.sessions, db.nextRecord);
  }

  lemma AllOwn(records: map<int, Record>, user: int, rows: seq<Row>)
    requires Lists(records, user, rows)
    ensures OfOneUser(rows, user) && forall id :: !ListedTwice(rows, id)
  {
  }

  /** A listed booking is found where it is, and one that is not listed is none of the user's. */
  lemma Listed(records: map<int, Record>, user: int, rows: seq<Row>, id: int)
    requires Lists(records, user, rows)
    ensures FindRow(rows, id) >= 0 <==> id in records && records[id].user == user
    ensures FindRow(rows, id) >= 0 ==> rows[FindRow(rows, id)] == Row(id, records[id])
  {
  }

  lemma BookingAgrees(z: Zone, db: Db, user: int, rows: seq<Row>, number: nat, now: int)
    requires Consistent(db) && Lists(db.records, user, rows) && number < |db.requests|
    requires db.requests[number].record.Some?
    ensures Previewed(z, db, user, rows, number, now) <==>
      && TimeRequest(db.requests[number], user) && Showable(z, db.requests[number])
      && Approve(z, db, now, number).Success?
  {
    hide EventsLogged, PausesStoredBut, SessionsMatched, BreaksOrdered, NoOverlap, Snapshot, Parse, Lists, EndOf,
      HasOpenSession, OfOneUser, ListedTwice;
    var a := db.requests[number];
    var id := a.record.value;
    AllOwn(db.records, user, rows);
    Listed(db.records, user, rows, id);
    if id in db.records {
      OrdinarySnapshot(id, db.records[id]);
      if !HasOpenSession(db.sessions, id) {
        MovedSucceeds(db, a, id);
      }
    }
    hide Moved;
  }

  /**
   * The preview of a request is available if and only if it is a pending time request of the user whose approval now
   * would succeed, whose times can be shown, and neither the bookings before nor those after it are in doubt.
   */
  lemma PreviewExactly(z: Zone, target: int -> int, carry: int, db: Db, user: int, rows: seq<Row>, number: nat,
                       now: int, after: seq<Row>)
    requires Consistent(db) && Lists(db.records, user, rows) && number < |db.requests|
    requires Approve(z, db, now, number).Success? ==>
      Lists(Approve(z, db, now, number).value.records, user, after)
    ensures Preview(z, target, carry, db, user, rows, db.requests[number], now).Some? <==>
      && TimeRequest(db.requests[number], user) && Showable(z, db.requests[number])
      && Approve(z, db, now, number).Success?
      && !AnyInvalid(z, rows) && !AnyConflict(z, rows)
      && !AnyInvalid(z, after) && !AnyConflict(z, after)
  {
    hide Consistent, Lists, HomeTotal, Acceptable, Approve, Snapshot, AnyInvalid, AnyConflict, TimeRequest, Showable,
      Hypothetical;
    if db.requests[number].record.None? {
      NewBookingAgrees(z, db, user, rows, number, now);
    } else {
      BookingAgrees(z, db, user, rows, number, now);
    }
    if Previewed(z, db, user, rows, number, now) {
      if Located(db, user, rows, db.requests[number]).value < 0 {
        NewBookingApproved(z, db, user, rows, number, now, now);
      } else {
        BookingApproved(z, db, user, rows, number, now, now);
      }
      HypotheticalConclusive(z, db, user, rows, number, now, after);
    }
  }
}
