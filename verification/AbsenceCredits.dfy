/** What crediting a range of days books (lib/practice.php), and what it is worth on the Home page. */
module AbsenceCredits {
  import opened Wrappers
  import opened Booking
  import opened Schema
  import opened Attendance
  import opened Corrections
  import opened Consistency
  import opened Sums
  import opened HomeProjection

  /** The booking is the credit of the day: its target time from midnight on, without a pause. */
  predicate CreditOf(z: Zone, target: int -> nat, user: int, day: int, kind: string, r: Record) {
    && r.user == user && r.start == z.midnight(day) && r.end == Some(r.start + target(day) * 60) && r.pause == 0
    && r.absenceKind == Some(kind) && r.planned == Some(target(day)) && r.note == kind && r.location == ""
  }

  /** The number of days of the range that have a target. */
  function WorkingDays(target: int -> nat, first: int, last: int): nat
    decreases last - first
  {
    if first > last then 0 else (if target(first) == 0 then 0 else 1) + WorkingDays(target, first + 1, last)
  }

  predicate CreditAt(z: Zone, target: int -> nat, user: int, day: int, kind: string, records: map<int, Record>,
                     id: int) {
    id in records && CreditOf(z, target, user, day, kind, records[id])
  }

  /**
   * One credit for every day of the range with a target, under new numbers in order; nothing else appears or changes.
   */
  ghost predicate Credited(z: Zone, target: int -> nat, db: Db, after: Db, user: int, first: int, last: int,
                           kind: string) {
    && after.nextRecord == db.nextRecord + WorkingDays(target, first, last)
    && (forall id :: id in after.records <==> id in db.records || db.nextRecord <= id < after.nextRecord)
    && (forall id :: id in db.records ==> id in after.records && after.records[id] == db.records[id])
    && (forall d :: first <= d <= last && target(d) > 0 ==>
          CreditAt(z, target, user, d, kind, after.records, db.nextRecord + WorkingDays(target, first, d - 1)))
  }

  lemma CreditedFirst(z: Zone, target: int -> nat, db: Db, next: Db, after: Db, user: int, first: int, last: int,
                      kind: string)
    requires RecordsNumbered(db) && first <= last
    requires next == if target(first) == 0 then db else InsertRecord(db, Credit(z, user, first, target(first), kind))
    requires Credited(z, target, next, after, user, first + 1, last, kind)
    ensures Credited(z, target, db, after, user, first, last, kind)
  {
    hide CreditOf;
    forall d | first <= d <= last && target(d) > 0
      ensures CreditAt(z, target, user, d, kind, after.records, db.nextRecord + WorkingDays(target, first, d - 1)) {
      if d == first {
        CreditIs(z, target, user, d, kind);
        assert WorkingDays(target, first, d - 1) == 0;
        assert after.records[db.nextRecord] == next.records[db.nextRecord];
      } else {
        assert CreditAt(z, target, user, d, kind, after.records,
                        next.nextRecord + WorkingDays(target, first + 1, d - 1));
      }
    }
  }

  /** Crediting a range books exactly its credits. */
  lemma {:induction false} CreditsExact(z: Zone, target: int -> nat, db: Db, user: int, first: int, last: int,
                                        kind: string)
    requires RecordsNumbered(db)
    requires CreditDays(z, target, db, user, first, last, kind).Success?
    ensures Credited(z, target, db, CreditDays(z, target, db, user, first, last, kind).value, user, first, last, kind)
    decreases last - first
  {
    hide NoOverlap, CreditAt;
    if first <= last {
      var next := if target(first) == 0 then db else InsertRecord(db, Credit(z, user, first, target(first), kind));
      assert RecordsNumbered(next);
      hide Credited, Credit;
      CreditsExact(z, target, next, user, first + 1, last, kind);
      CreditedFirst(z, target, db, next, CreditDays(z, target, db, user, first, last, kind).value, user, first, last,
                    kind);
    }
  }

  // --- When a range can be credited ---

  /** Days follow each other, and each begins at its own midnight. */
  ghost predicate Orderly(z: Zone) {
    forall d :: z.midnight(d) < z.midnight(d + 1) && z.DayOf(z.midnight(d)) == d
  }

  /** The booking is in the way of a credit: an absence of that day, or work of which some part may lie in it. */
  predicate Blocks(z: Zone, r: Record, day: int) {
    if IsAbsence(r) then z.DayOf(r.start) == day
    else r.start < z.midnight(day + 1) && z.midnight(day) < (if r.end.Some? then r.end.value else PHP_INT_MAX)
  }

  lemma {:induction false} LaterMidnight(z: Zone, d: int, e: int)
    requires Orderly(z) && d <= e
    ensures z.midnight(d) <= z.midnight(e)
    decreases e - d
  {
    if d < e {
      LaterMidnight(z, d, e - 1);
      assert z.midnight(e - 1) < z.midnight(e - 1 + 1);
    }
  }

  lemma BlocksExactly(z: Zone, r: Record, day: int)
    requires Orderly(z)
    ensures Span(z, r).0 < z.midnight(day + 1) && Span(z, r).1 > z.midnight(day) <==> Blocks(z, r, day)
  {
    if IsAbsence(r) {
      var d := z.DayOf(r.start);
      assert z.midnight(d) < z.midnight(d + 1) && z.midnight(day) < z.midnight(day + 1);
      if d < day {
        LaterMidnight(z, d + 1, day);
      } else if day < d {
        LaterMidnight(z, day + 1, d);
      }
    }
  }

  ghost predicate Free(z: Zone, records: map<int, Record>, user: int, day: int) {
    forall id :: id in records && records[id].user == user ==> !Blocks(z, records[id], day)
  }

  lemma FreeExactly(z: Zone, db: Db, user: int, day: int)
    requires Orderly(z) && RecordsNumbered(db)
    ensures NoOverlap(z, db.records, user, z.midnight(day), z.midnight(day + 1), 0) <==> Free(z, db.records, user, day)
  {
    hide Span, Blocks;
    forall id | id in db.records
      ensures Span(z, db.records[id]).0 < z.midnight(day + 1) && Span(z, db.records[id]).1 > z.midnight(day) <==>
        Blocks(z, db.records[id], day)
    {
      BlocksExactly(z, db.records[id], day);
    }
  }

  /** A credit blocks its own day and no other. */
  lemma CreditBlocks(z: Zone, db: Db, user: int, day: int, minutes: nat, kind: string, other: int)
    requires Orderly(z) && RecordsNumbered(db) && ReservedNote(kind) && other != day
    ensures Free(z, InsertRecord(db, Credit(z, user, day, minutes, kind)).records, user, other) <==>
      Free(z, db.records, user, other)
  {
    var after := InsertRecord(db, Credit(z, user, day, minutes, kind)).records;
    assert z.DayOf(z.midnight(day)) == day;
    assert !Blocks(z, after[db.nextRecord], other);
    forall id | id in db.records ensures after[id] == db.records[id] {
    }
  }

  lemma {:induction false} CreditDaysExactly(z: Zone, target: int -> nat, db: Db, user: int, first: int, last: int,
                                             kind: string)
    requires Orderly(z) && RecordsNumbered(db) && ReservedNote(kind)
    ensures CreditDays(z, target, db, user, first, last, kind).Success? <==>
      forall d :: first <= d <= last && target(d) > 0 ==> Free(z, db.records, user, d)
    ensures var r := CreditDays(z, target, db, user, first, last, kind); r.Failure? ==> r.error == Overlapping
    decreases last - first
  {
    hide NoOverlap, Free, Orderly, RecordsNumbered;
    if first <= last {
      if target(first) == 0 {
        CreditDaysExactly(z, target, db, user, first + 1, last, kind);
      } else {
        FreeExactly(z, db, user, first);
        var next := InsertRecord(db, Credit(z, user, first, target(first), kind));
        CreditNumbered(db, Credit(z, user, first, target(first), kind));
        CreditDaysExactly(z, target, next, user, first + 1, last, kind);
        forall d | first < d <= last ensures Free(z, next.records, user, d) <==> Free(z, db.records, user, d) {
          CreditBlocks(z, db, user, first, target(first), kind, d);
        }
        hide InsertRecord;
      }
    }
  }

  lemma CreditNumbered(db: Db, r: Record)
    requires RecordsNumbered(db)
    ensures RecordsNumbered(InsertRecord(db, r))
  {
  }

  /**
   * An absence is accepted exactly when the range is one, the kind is known, and on no day with a target anything of
   * the user is in the way; a single blocked day refuses it as a whole.
   */
  lemma AbsentExactly(z: Zone, target: int -> nat, db: Db, user: int, first: int, last: int, kind: string)
    requires Orderly(z) && RecordsNumbered(db)
    ensures Corrections.Absent(z, target, db, user, first, last, kind).Success? <==>
      && first <= last <= first + 366 && (kind == "Urlaub" || kind == "Krankheit")
      && forall d :: first <= d <= last && target(d) > 0 ==> Free(z, db.records, user, d)
    ensures var r := Corrections.Absent(z, target, db, user, first, last, kind);
      r.Failure? ==> r.error == (if first <= last <= first + 366 && (kind == "Urlaub" || kind == "Krankheit")
                                 then Overlapping else InvalidDays)
  {
    hide CreditDays, Free, Orderly;
    if kind == "Urlaub" || kind == "Krankheit" {
      CreditDaysExactly(z, target, db, user, first, last, kind);
    }
  }

  lemma CreditIs(z: Zone, target: int -> nat, user: int, day: int, kind: string)
    ensures CreditOf(z, target, user, day, kind, Credit(z, user, day, target(day), kind))
  {
  }

  /**
   * A credit is worth exactly the target of its day, so on a day without other bookings it leaves the Home total alone.
   */
  lemma CreditNeutral(z: Zone, target: int -> nat, planned: int -> int, carry: int, rows: seq<Row>, user: int,
                      day: int, kind: string, id: int)
    requires z.DayOf(z.midnight(day)) == day && planned(day) == target(day) > 0
    requires day !in BookedDays(z, rows)
    ensures HomeTotal(z, planned, carry, rows + [Row(id, Credit(z, user, day, target(day), kind))])
      == HomeTotal(z, planned, carry, rows)
  {
    var credit := Row(id, Credit(z, user, day, target(day), kind));
    var more := rows + [credit];
    CreditWorth(z, user, day, target(day), kind);
    HomeTotalIs(z, planned, carry, rows);
    HomeTotalIs(z, planned, carry, more);
    assert more[..|rows|] == rows;
    DaysPlusOne(z, rows, credit, day);
    SumAdd(BookedDays(z, rows), planned, day);
    hide HomeTotal, BookedDays, Calculate;
  }

  lemma CreditWorth(z: Zone, user: int, day: int, minutes: nat, kind: string)
    requires z.DayOf(z.midnight(day)) == day
    ensures Calculate(z, Credit(z, user, day, minutes, kind)) == Completed(day, minutes)
  {
    assert minutes * 60 / 60 == minutes;
  }

  lemma DaysPlusOne(z: Zone, rows: seq<Row>, row: Row, day: int)
    requires Calculate(z, row.record).Completed? && Calculate(z, row.record).day == day
    ensures BookedDays(z, rows + [row]) == BookedDays(z, rows) + {day}
  {
    hide Calculate;
    var more := rows + [row];
    forall d | d in BookedDays(z, rows) + {day} ensures d in BookedDays(z, more) {
      if d in BookedDays(z, rows) {
        var i :| 0 <= i < |rows| && Calculate(z, rows[i].record).Completed? && Calculate(z, rows[i].record).day == d;
        assert more[i] == rows[i];
      } else {
        assert more[|rows|] == row;
      }
    }
  }
}
