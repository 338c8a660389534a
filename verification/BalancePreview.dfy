/**
 * The hypothetical Home total of a pending request
 * (lib/correction_balance_preview.php) against what an approval really does.
 */
module BalancePreview {
  import opened Wrappers
  import opened Booking
  import opened Schema
  import opened Attendance
  import opened CorrectionMetadata
  import opened Corrections
  import opened Consistency
  import opened CorrectionInvariants
  import opened Sums
  import opened HomeProjection
  import opened ConflictSweep

  datatype Balance = Balance(before: int, after: int)

  /** The position of the last listed booking with a number, or -1. */
  function FindRow(rows: seq<Row>, id: int): (i: int)
    ensures -1 <= i < |rows|
    ensures i >= 0 ==> rows[i].id == id
    ensures i < 0 ==> forall k :: 0 <= k < |rows| ==> rows[k].id != id
  {
    if rows == [] then -1
    else if rows[|rows| - 1].id == id then |rows| - 1
    else FindRow(rows[..|rows| - 1], id)
  }

  predicate OfOneUser(rows: seq<Row>, user: int) {
    forall i :: 0 <= i < |rows| ==> rows[i].record.user == user
  }

  predicate ListedTwice(rows: seq<Row>, id: int) {
    exists i, j :: 0 <= i < j < |rows| && rows[i].id == id && rows[j].id == id
  }

  /** Proposed times that can be shown and make a finished booking. */
  predicate Usable(z: Zone, a: Request) {
    && a.start < a.end
    && z.offset(a.start) % 60 == 0 && z.offset(a.end) % 60 == 0
    && 0 <= a.pause <= (a.end - a.start) / 60
  }

  /** Where the request's booking is listed, if the preview can go on: -1 stands for a new booking. */
  function Located(db: Db, user: int, rows: seq<Row>, a: Request): Option<int> {
    if a.user != user || a.status != Pending || !OfOneUser(rows, user) then None
    else if a.record.None? then
      if a.original.Some? || a.cancel then None else Some(-1)
    else if a.record.value < 1 || ListedTwice(rows, a.record.value) then None
    else
      var at := FindRow(rows, a.record.value);
      if at < 0 || Some(Snapshot(rows[at].id, rows[at].record)) != a.original
        || HasOpenSession(db.sessions, a.record.value) then None
      else Some(at)
  }

  /** The same checks on a proposed interval as an approval makes. */
  predicate Acceptable(z: Zone, db: Db, user: int, booked: Option<Record>, a: Request, now: int) {
    || a.cancel
    || (&& Usable(z, a)
        && ValidCorrection(z, booked, a.start, a.end, a.pause, now)
        && NoOverlap(z, db.records, user, Span(z, Proposed(a, booked)).0, Span(z, Proposed(a, booked)).1,
                     if a.record.Some? then a.record.value else 0))
  }

  /** The listed bookings with the request carried out; -1 stands for a new booking. */
  function Hypothetical(rows: seq<Row>, at: int, a: Request): seq<Row>
    requires -1 <= at < |rows|
  {
    if at < 0 then rows + [Row(0, Added(a))]
    else if a.cancel then rows[..at] + rows[at + 1..]
    else rows[at := Row(rows[at].id, Corrected(rows[at].record, a))]
  }

  predicate Conclusive(z: Zone, rows: seq<Row>) {
    !AnyInvalid(z, rows) && !AnyConflict(z, rows)
  }

  ghost function Preview(z: Zone, target: int -> int, carry: int, db: Db, user: int, rows: seq<Row>, a: Request,
                         now: int): Option<Balance> {
    var located := Located(db, user, rows, a);
    if located.None? || !(-1 <= located.value < |rows|) then None
    else
      var at := located.value;
      var booked := if at < 0 then None else Some(rows[at].record);
      if !Acceptable(z, db, user, booked, a, now) then None
      else
        var changed := Hypothetical(rows, at, a);
        if !Conclusive(z, rows) || !Conclusive(z, changed) then None
        else Some(Balance(HomeTotal(z, target, carry, rows), HomeTotal(z, target, carry, changed)))
  }

  /** Among the bookings of one user the sweep finds something exactly when some pair is in conflict. */
  lemma OneUserConflicts(z: Zone, rows: seq<Row>, user: int, pairs: seq<(int, int)>)
    requires OfOneUser(rows, user)
    requires forall p: (int, int) :: p in pairs <==> ConflictAt(z, rows, p.0, p.1)
    ensures pairs != [] <==> AnyConflict(z, rows)
  {
    hide Conflict;
    if pairs != [] {
      assert ConflictAt(z, rows, pairs[0].0, pairs[0].1) by {
        assert pairs[0] in pairs;
      }
    }
    if AnyConflict(z, rows) {
      var i, j :| 0 <= i < |rows| && 0 <= j < |rows| && Conflict(z, rows[i].record, rows[j].record);
      assert ConflictAt(z, rows, (i, j).0, (i, j).1);
    }
  }

  lemma HypotheticalUser(rows: seq<Row>, at: int, a: Request, user: int)
    requires -1 <= at < |rows| && OfOneUser(rows, user) && a.user == user
    ensures OfOneUser(Hypothetical(rows, at, a), user)
  {
  }

  /** The preview as it runs: one pass to find the booking, then both complete projections. */
  method BalancePreview(z: Zone, target: int -> int, carry: int, db: Db, user: int, rows: seq<Row>, a: Request,
                        now: int)
    returns (balance: Option<Balance>)
    ensures balance == Preview(z, target, carry, db, user, rows, a, now)
  {
    hide Snapshot, ValidCorrection, NoOverlap, Conflict, IsAbsence, DayTotal, ReportDays, Calculate, HasOpenSession;
    if a.user != user || a.status != Pending {
      return None;
    }
    if a.record.Some? && a.record.value < 1 {
      return None;
    }
    var at := -1;
    for i := 0 to |rows|
      invariant OfOneUser(rows[..i], user)
      invariant -1 <= at < i
      invariant at >= 0 ==> a.record == Some(rows[at].id)
      invariant a.record.Some? ==> forall k :: 0 <= k < i && k != at ==> rows[k].id != a.record.value
    {
      assert rows[..i + 1] == rows[..i] + [rows[i]];
      if rows[i].record.user != user {
        return None;
      }
      if a.record == Some(rows[i].id) {
        if at >= 0 {
          return None;
        }
        at := i;
      }
    }
    assert rows[..|rows|] == rows;
    if a.record.Some? {
      assert at >= 0 ==> at == FindRow(rows, a.record.value);
      if at < 0 || Some(Snapshot(rows[at].id, rows[at].record)) != a.original
        || HasOpenSession(db.sessions, a.record.value) {
        return None;
      }
    } else if a.original.Some? {
      return None;
    }
    if a.cancel && at < 0 {
      return None;
    }
    var changed := rows;
    if a.cancel {
      changed := rows[..at] + rows[at + 1..];
    } else {
      var booked := if at < 0 then None else Some(rows[at].record);
      if !Usable(z, a) || !ValidCorrection(z, booked, a.start, a.end, a.pause, now) {
        return None;
      }
      var (from, to) := Span(z, Proposed(a, booked));
      if !NoOverlap(z, db.records, user, from, to, if a.record.Some? then a.record.value else 0) {
        return None;
      }
      if at >= 0 {
        changed := rows[at := Row(rows[at].id, Corrected(rows[at].record, a))];
      } else {
        changed := rows + [Row(0, Added(a))];
      }
    }
    var beforeDays, beforeInvalid := ComputeReportDays(z, rows);
    var afterDays, afterInvalid := ComputeReportDays(z, changed);
    var beforeConflicts := AbsenceConflicts(z, rows);
    var afterConflicts := AbsenceConflicts(z, changed);
    OneUserConflicts(z, rows, user, beforeConflicts);
    HypotheticalUser(rows, at, a, user);
    OneUserConflicts(z, changed, user, afterConflicts);
    if beforeInvalid != [] || afterInvalid != [] || beforeConflicts != [] || afterConflicts != [] {
      return None;
    }
    var before, _ := RecordedDayBalances(target, carry, beforeDays, None);
    var after, _ := RecordedDayBalances(target, carry, afterDays, None);
    return Some(Balance(before, after));
  }
}
