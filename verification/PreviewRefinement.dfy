/** An available preview is what an approval does: it succeeds, and Home then shows the previewed total. */
module PreviewRefinement {
  import opened Wrappers
  import opened Booking
  import opened Schema
  import opened Attendance
  import opened CorrectionMetadata
  import opened Corrections
  import opened Consistency
  import opened CorrectionInvariants
  import opened Sums
  import opened HomeProjection
  import opened BalancePreview

  /** The rows of a query for all bookings of a user: each booking once, in any order. */
  ghost predicate Lists(records: map<int, Record>, user: int, rows: seq<Row>) {
    && (forall i :: 0 <= i < |rows| ==>
          rows[i].id in records && records[rows[i].id] == rows[i].record && rows[i].record.user == user)
    && (forall i, j :: 0 <= i < j < |rows| ==> rows[i].id != rows[j].id)
    && (forall id :: id in records && records[id].user == user ==> exists i :: 0 <= i < |rows| && rows[i].id == id)
  }

  ghost function Ids(rows: seq<Row>): set<int> {
    set i | 0 <= i < |rows| :: rows[i].id
  }

  ghost function RecordMinutes(z: Zone, records: map<int, Record>): int -> int {
    id => if id in records then MinutesOf(z, records[id]) else 0
  }

  // --- Totals do not depend on the order of a listing ---

  lemma {:induction false} TotalOverIds(z: Zone, records: map<int, Record>, rows: seq<Row>)
    requires forall i :: 0 <= i < |rows| ==> rows[i].id in records && records[rows[i].id] == rows[i].record
    requires forall i, j :: 0 <= i < j < |rows| ==> rows[i].id != rows[j].id
    ensures TotalMinutes(z, rows) == SumOver(Ids(rows), RecordMinutes(z, records))
  {
    if rows != [] {
      var last := |rows| - 1;
      TotalOverIds(z, records, rows[..last]);
      SumAdd(Ids(rows[..last]), RecordMinutes(z, records), rows[last].id);
      assert Ids(rows) == Ids(rows[..last]) + {rows[last].id} by {
        forall id | id in Ids(rows) ensures id in Ids(rows[..last]) + {rows[last].id} {
          var i :| 0 <= i < |rows| && rows[i].id == id;
          assert i < last ==> rows[..last][i].id == id;
        }
        forall id | id in Ids(rows[..last]) ensures id in Ids(rows) {
          var i :| 0 <= i < last && rows[..last][i].id == id;
          assert rows[i].id == id;
        }
      }
    }
  }

  lemma SameIds(records: map<int, Record>, user: int, p: seq<Row>, q: seq<Row>)
    requires Lists(records, user, p) && Lists(records, user, q)
    ensures Ids(p) <= Ids(q)
  {
    forall id | id in Ids(p) ensures id in Ids(q) {
      var i :| 0 <= i < |p| && p[i].id == id;
      assert id in records && records[id].user == user;
      var j :| 0 <= j < |q| && q[j].id == id;
    }
  }

  lemma SameDays(z: Zone, records: map<int, Record>, user: int, p: seq<Row>, q: seq<Row>)
    requires Lists(records, user, p) && Lists(records, user, q)
    ensures BookedDays(z, p) <= BookedDays(z, q)
  {
    forall d | d in BookedDays(z, p) ensures d in BookedDays(z, q) {
      var i :| 0 <= i < |p| && Calculate(z, p[i].record).Completed? && Calculate(z, p[i].record).day == d;
      var j :| 0 <= j < |q| && q[j].id == p[i].id;
      assert q[j].record == p[i].record;
    }
  }

  lemma SameMinutes(z: Zone, records: map<int, Record>, user: int, p: seq<Row>, q: seq<Row>)
    requires Lists(records, user, p) && Lists(records, user, q)
    ensures TotalMinutes(z, p) == TotalMinutes(z, q)
  {
    hide Ids, MinutesOf, TotalMinutes;
    TotalOverIds(z, records, p);
    TotalOverIds(z, records, q);
    assert Ids(p) == Ids(q) by {
      SameIds(records, user, p, q);
      SameIds(records, user, q, p);
    }
  }

  /** Two listings of the same user's bookings have the same Home total. */
  lemma OrderIrrelevant(z: Zone, target: int -> int, carry: int, records: map<int, Record>, user: int, p: seq<Row>,
                        q: seq<Row>)
    requires Lists(records, user, p) && Lists(records, user, q)
    ensures HomeTotal(z, target, carry, p) == HomeTotal(z, target, carry, q)
  {
    hide Lists, HomeTotal, BookedDays, TotalMinutes;
    HomeTotalIs(z, target, carry, p);
    HomeTotalIs(z, target, carry, q);
    SameMinutes(z, records, user, p, q);
    SameDays(z, records, user, p, q);
    SameDays(z, records, user, q, p);
    assert BookedDays(z, p) == BookedDays(z, q);
  }

  // --- The hypothetical rows list the approved bookings ---

  lemma ListsReplaced(records: map<int, Record>, user: int, rows: seq<Row>, at: nat, r: Record)
    requires Lists(records, user, rows) && at < |rows| && r.user == user
    ensures Lists(records[rows[at].id := r], user, rows[at := Row(rows[at].id, r)])
  {
    var id := rows[at].id;
    var after := rows[at := Row(id, r)];
    var changed := records[id := r];
    forall k | k in changed && changed[k].user == user ensures exists i :: 0 <= i < |after| && after[i].id == k {
      if k == id {
        assert after[at].id == k;
      } else {
        var i :| 0 <= i < |rows| && rows[i].id == k;
        assert after[i].id == k;
      }
    }
  }

  lemma ListsRemoved(records: map<int, Record>, user: int, rows: seq<Row>, at: nat)
    requires Lists(records, user, rows) && at < |rows|
    ensures Lists(records - {rows[at].id}, user, rows[..at] + rows[at + 1..])
  {
    var id := rows[at].id;
    var after := rows[..at] + rows[at + 1..];
    forall i | 0 <= i < |after| ensures after[i] == rows[if i < at then i else i + 1] {
    }
    var left := records - {id};
    forall k | k in left && left[k].user == user ensures exists i :: 0 <= i < |after| && after[i].id == k {
      var i :| 0 <= i < |rows| && rows[i].id == k;
      assert after[if i < at then i else i - 1].id == k;
    }
  }

  lemma ListsAdded(records: map<int, Record>, user: int, rows: seq<Row>, id: int, r: Record)
    requires Lists(records, user, rows) && id !in records && r.user == user
    ensures Lists(records[id := r], user, rows + [Row(id, r)])
  {
    var after := rows + [Row(id, r)];
    var changed := records[id := r];
    forall k | k in changed && changed[k].user == user ensures exists i :: 0 <= i < |after| && after[i].id == k {
      if k == id {
        assert after[|rows|].id == k;
      } else {
        var i :| 0 <= i < |rows| && rows[i].id == k;
        assert after[i].id == k;
      }
    }
  }

  /** A total does not look at the number of a listed booking. */
  lemma NumberIrrelevant(z: Zone, target: int -> int, carry: int, rows: seq<Row>, id: int, id': int, r: Record)
    ensures HomeTotal(z, target, carry, rows + [Row(id, r)]) == HomeTotal(z, target, carry, rows + [Row(id', r)])
  {
    assert (rows + [Row(id, r)])[..|rows|] == rows == (rows + [Row(id', r)])[..|rows|];
  }

  // --- Approval succeeds ---

  /** What an approval needs to know about a located request. */
  ghost predicate Previewed(z: Zone, db: Db, user: int, rows: seq<Row>, number: nat, now: int) {
    && number < |db.requests|
    && Lists(db.records, user, rows)
    && Located(db, user, rows, db.requests[number]).Some?
    && (var at := Located(db, user, rows, db.requests[number]).value;
        && -1 <= at < |rows|
        && Acceptable(z, db, user, if at < 0 then None else Some(rows[at].record), db.requests[number], now))
  }

  /** The tables an approval of a previewed request leaves. */
  function Carried(db: Db, user: int, rows: seq<Row>, number: nat): map<int, Record>
    requires number < |db.requests|
    requires Located(db, user, rows, db.requests[number]).Some?
      && -1 <= Located(db, user, rows, db.requests[number]).value < |rows|
  {
    var a := db.requests[number];
    var at := Located(db, user, rows, a).value;
    if at < 0 then db.records[db.nextRecord := Added(a)]
    else if a.cancel then db.records - {rows[at].id}
    else db.records[rows[at].id := Corrected(rows[at].record, a)]
  }

  lemma NewBookingApproved(z: Zone, db: Db, user: int, rows: seq<Row>, number: nat, now: int, later: int)
    requires Consistent(db) && Previewed(z, db, user, rows, number, now) && now <= later
    requires Located(db, user, rows, db.requests[number]).value < 0
    ensures Approve(z, db, later, number).Success?
    ensures Approve(z, db, later, number).value.records == Carried(db, user, rows, number)
  {
    hide BreaksOrdered, EventsLogged, PausesStoredBut, NoOverlap, Lists, ValidCorrection;
    var a := db.requests[number];
    StillValid(z, None, a.start, a.end, a.pause, now, later);
    assert !HasSession(db.sessions, db.nextRecord);
  }

  lemma BookingApproved(z: Zone, db: Db, user: int, rows: seq<Row>, number: nat, now: int, later: int)
    requires Consistent(db) && Previewed(z, db, user, rows, number, now) && now <= later
    requires Located(db, user, rows, db.requests[number]).value >= 0
    ensures Approve(z, db, later, number).Success?
    ensures Approve(z, db, later, number).value.records == Carried(db, user, rows, number)
  {
    hide EventsLogged, PausesStoredBut, SessionsMatched, NoOverlap, ValidCorrection, Snapshot, Parse;
    var a := db.requests[number];
    var at := Located(db, user, rows, a).value;
    var id := rows[at].id;
    var r := rows[at].record;
    OrdinarySnapshot(id, r);
    if a.cancel {
      NothingToEnd(db.(records := db.records - {id}), id, later);
    } else {
      StillValid(z, Some(r), a.start, a.end, a.pause, now, later);
      NothingToEnd(db.(records := db.records[id := Corrected(r, a)]), id, a.end);
    }
  }

  /** Listing the approved bookings gives the previewed total. */
  lemma HypotheticalTotal(z: Zone, target: int -> int, carry: int, db: Db, user: int, rows: seq<Row>, number: nat,
                          now: int, after: seq<Row>)
    requires Consistent(db) && Previewed(z, db, user, rows, number, now)
    requires Lists(Carried(db, user, rows, number), user, after)
    ensures HomeTotal(z, target, carry, after)
         == HomeTotal(z, target, carry,
                      Hypothetical(rows, Located(db, user, rows, db.requests[number]).value, db.requests[number]))
  {
    hide BreaksOrdered, EventsLogged, PausesStoredBut, SessionsMatched, NoOverlap, ValidCorrection, Snapshot, Lists,
      HomeTotal;
    var a := db.requests[number];
    var at := Located(db, user, rows, a).value;
    var carried := Carried(db, user, rows, number);
    if at < 0 {
      ListsAdded(db.records, user, rows, db.nextRecord, Added(a));
      OrderIrrelevant(z, target, carry, carried, user, after, rows + [Row(db.nextRecord, Added(a))]);
      NumberIrrelevant(z, target, carry, rows, db.nextRecord, 0, Added(a));
    } else if a.cancel {
      ListsRemoved(db.records, user, rows, at);
      OrderIrrelevant(z, target, carry, carried, user, after, rows[..at] + rows[at + 1..]);
    } else {
      ListsReplaced(db.records, user, rows, at, Corrected(rows[at].record, a));
      OrderIrrelevant(z, target, carry, carried, user, after,
                      rows[at := Row(rows[at].id, Corrected(rows[at].record, a))]);
    }
  }

  /**
   * The preview refines the approval: from the same tables, at the same time or later, an authorised approval with
   * a valid reason succeeds, and the Home total of the bookings it leaves is the previewed one.
   */
  lemma PreviewRefinesApproval(z: Zone, target: int -> int, carry: int, db: Db, user: int, rows: seq<Row>, now: int,
                               later: int, actor: int, role: Role, d: Decision, after: seq<Row>)
    requires Consistent(db) && Lists(db.records, user, rows)
    requires 0 <= d.number < |db.requests|
    requires Preview(z, target, carry, db, user, rows, db.requests[d.number], now).Some?
    requires now <= later
    requires MayDecide(db, actor, role, user) && user in db.users
    requires d.decision == "approved" && ReasonLength(d.reason, 3)
    ensures Review(z, db, later, actor, role, d).Success?
    ensures Lists(Review(z, db, later, actor, role, d).value.records, user, after) ==>
      HomeTotal(z, target, carry, after)
        == Preview(z, target, carry, db, user, rows, db.requests[d.number], now).value.after
    ensures HomeTotal(z, target, carry, rows)
      == Preview(z, target, carry, db, user, rows, db.requests[d.number], now).value.before
  {
    hide Consistent, Lists, HomeTotal, Acceptable, Conclusive, Approve, Snapshot;
    assert Previewed(z, db, user, rows, d.number, now);
    var at := Located(db, user, rows, db.requests[d.number]).value;
    if at < 0 {
      NewBookingApproved(z, db, user, rows, d.number, now, later);
    } else {
      BookingApproved(z, db, user, rows, d.number, now, later);
    }
    if Lists(Carried(db, user, rows, d.number), user, after) {
      HypotheticalTotal(z, target, carry, db, user, rows, d.number, now, after);
    }
  }

  // --- What the difference is made of ---

  lemma {:induction false} TotalConcatenated(z: Zone, p: seq<Row>, q: seq<Row>)
    ensures TotalMinutes(z, p + q) == TotalMinutes(z, p) + TotalMinutes(z, q)
  {
    if q == [] {
      assert p + q == p;
    } else {
      TotalConcatenated(z, p, q[..|q| - 1]);
      assert (p + q)[..|p + q| - 1] == p + q[..|q| - 1];
    }
  }

  lemma TotalSplit(z: Zone, rows: seq<Row>, at: nat)
    requires at < |rows|
    ensures TotalMinutes(z, rows)
      == TotalMinutes(z, rows[..at]) + MinutesOf(z, rows[at].record) + TotalMinutes(z, rows[at + 1..])
  {
    assert rows == rows[..at] + [rows[at]] + rows[at + 1..];
    TotalConcatenated(z, rows[..at] + [rows[at]], rows[at + 1..]);
    TotalConcatenated(z, rows[..at], [rows[at]]);
    assert [rows[at]][..0] == [];
  }

  /** The minutes a request takes away and the minutes it brings. */
  function OldMinutes(z: Zone, rows: seq<Row>, at: int): int
    requires -1 <= at < |rows|
  {
    if at < 0 then 0 else MinutesOf(z, rows[at].record)
  }

  function NewMinutes(a: Request): int {
    if a.cancel then 0 else (a.end - a.start) / 60 - a.pause
  }

  lemma MinutesChange(z: Zone, rows: seq<Row>, at: int, a: Request)
    requires -1 <= at < |rows| && (a.cancel ==> at >= 0)
    requires !a.cancel ==> Usable(z, a)
    ensures TotalMinutes(z, Hypothetical(rows, at, a))
      == TotalMinutes(z, rows) + NewMinutes(a) - OldMinutes(z, rows, at)
  {
    var changed := Hypothetical(rows, at, a);
    if at < 0 {
      assert changed[..|rows|] == rows;
    } else {
      TotalSplit(z, rows, at);
      if a.cancel {
        TotalConcatenated(z, rows[..at], rows[at + 1..]);
      } else {
        TotalSplit(z, changed, at);
        assert changed[..at] == rows[..at] && changed[at + 1..] == rows[at + 1..];
      }
    }
  }

  /**
   * The previewed change is the change in minutes, less the targets of the days that become booked, plus the targets
   * of the days that are no longer booked; at most one day is gained and at most one is lost.
   */
  lemma DifferenceExplained(z: Zone, target: int -> int, carry: int, db: Db, user: int, rows: seq<Row>, a: Request,
                            now: int)
    requires Preview(z, target, carry, db, user, rows, a, now).Some?
    ensures var b := Preview(z, target, carry, db, user, rows, a, now).value;
      var at := Located(db, user, rows, a).value;
      var gained := BookedDays(z, Hypothetical(rows, at, a)) - BookedDays(z, rows);
      var lost := BookedDays(z, rows) - BookedDays(z, Hypothetical(rows, at, a));
      && b.after - b.before == NewMinutes(a) - OldMinutes(z, rows, at) - SumOver(gained, target) + SumOver(lost, target)
      && (a.cancel ==> gained == {})
      && gained <= {z.DayOf(a.start)}
      && lost <= (if at < 0 then {} else {z.DayOf(rows[at].record.start)})
  {
    hide NoOverlap, ValidCorrection, Snapshot, HomeTotal, Conclusive;
    var at := Located(db, user, rows, a).value;
    var changed := Hypothetical(rows, at, a);
    MinutesChange(z, rows, at, a);
    HomeTotalIs(z, target, carry, rows);
    HomeTotalIs(z, target, carry, changed);
    SumDifference(BookedDays(z, rows), BookedDays(z, changed), target);
    DaysChange(z, rows, at, a);
  }

  lemma DaysChange(z: Zone, rows: seq<Row>, at: int, a: Request)
    requires -1 <= at < |rows| && (a.cancel ==> at >= 0)
    ensures BookedDays(z, Hypothetical(rows, at, a)) <= BookedDays(z, rows) +
      (if a.cancel then {} else {z.DayOf(a.start)})
    ensures BookedDays(z, rows) <= BookedDays(z, Hypothetical(rows, at, a)) +
      (if at < 0 then {} else {z.DayOf(rows[at].record.start)})
  {
    var changed := Hypothetical(rows, at, a);
    forall d | d in BookedDays(z, changed) ensures d in BookedDays(z, rows) || (!a.cancel && d == z.DayOf(a.start)) {
      var i :| 0 <= i < |changed| && Calculate(z, changed[i].record).Completed?
        && Calculate(z, changed[i].record).day == d;
      if at >= 0 && a.cancel {
        assert changed[i] == rows[if i < at then i else i + 1];
      }
    }
    forall d | d in BookedDays(z, rows)
      ensures d in BookedDays(z, changed) || (at >= 0 && d == z.DayOf(rows[at].record.start))
    {
      var i :| 0 <= i < |rows| && Calculate(z, rows[i].record).Completed? && Calculate(z, rows[i].record).day == d;
      if i != at {
        assert changed[if at >= 0 && a.cancel && i > at then i - 1 else i] == rows[i];
      }
    }
  }
}
