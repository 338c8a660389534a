/**
 * Report days and the Home total (lib/reporting.php, lib/home_projection.php),
 * in whole minutes.
 */
module HomeProjection {
  import opened Wrappers
  import opened Booking
  import opened Sums

  /** A booking as a query lists it. */
  datatype Row = Row(id: int, record: Record)

  datatype Calculation = Invalid | Unfinished | Completed(day: int, minutes: int)

  function Calculate(z: Zone, r: Record): Calculation {
    if r.pause < 0 then Invalid
    else if r.end.None? then Unfinished
    else if r.end.value < r.start || r.pause > (r.end.value - r.start) / 60 then Invalid
    else Completed(z.DayOf(r.start), (r.end.value - r.start) / 60 - r.pause)
  }

  /** What the three results mean in seconds: the booked minutes are the whole ones besides the pause. */
  lemma CalculateExactly(z: Zone, r: Record)
    ensures Calculate(z, r).Invalid? <==>
      r.pause < 0 || (r.end.Some? && (r.end.value < r.start || r.end.value - r.start < r.pause * 60))
    ensures Calculate(z, r).Unfinished? <==> 0 <= r.pause && r.end.None?
    ensures Calculate(z, r).Completed? ==>
      var c := Calculate(z, r);
      && c.day * 86400 <= r.start + z.offset(r.start) < (c.day + 1) * 86400
      && (c.minutes + r.pause) * 60 <= r.end.value - r.start < (c.minutes + r.pause + 1) * 60
  {
  }

  function MinutesOf(z: Zone, r: Record): int {
    var c := Calculate(z, r);
    if c.Completed? then c.minutes else 0
  }

  predicate AnyInvalid(z: Zone, rows: seq<Row>) {
    exists i :: 0 <= i < |rows| && Calculate(z, rows[i].record).Invalid?
  }

  /** Finished work and a whole-day credit of the same time. */
  predicate Conflict(z: Zone, work: Record, credit: Record) {
    && Calculate(z, work).Completed? && Calculate(z, credit).Completed?
    && !IsAbsence(work) && IsAbsence(credit)
    && Span(z, work).0 < Span(z, work).1 && Span(z, credit).0 < Span(z, credit).1
    && Span(z, work).0 < Span(z, credit).1 && Span(z, credit).0 < Span(z, work).1
  }

  predicate AnyConflict(z: Zone, rows: seq<Row>) {
    exists i, j :: 0 <= i < |rows| && 0 <= j < |rows| && Conflict(z, rows[i].record, rows[j].record)
  }

  /** The net minutes of finished bookings for each local start day. */
  function ReportDays(z: Zone, rows: seq<Row>): map<int, int> {
    if rows == [] then map[]
    else
      var days := ReportDays(z, rows[..|rows| - 1]);
      var c := Calculate(z, rows[|rows| - 1].record);
      if c.Completed? then days[c.day := (if c.day in days then days[c.day] else 0) + c.minutes] else days
  }

  method ComputeReportDays(z: Zone, rows: seq<Row>) returns (days: map<int, int>, invalid: seq<int>)
    ensures days == ReportDays(z, rows)
    ensures invalid != [] <==> AnyInvalid(z, rows)
  {
    days, invalid := map[], [];
    for i := 0 to |rows|
      invariant days == ReportDays(z, rows[..i])
      invariant invalid != [] <==> AnyInvalid(z, rows[..i])
    {
      assert rows[..i + 1][..i] == rows[..i];
      var c := Calculate(z, rows[i].record);
      if c.Invalid? {
        invalid := invalid + [rows[i].id];
        assert rows[..i + 1][i] == rows[i];
      } else {
        assert forall k :: 0 <= k < i ==> rows[..i + 1][k] == rows[..i][k];
        if c.Completed? {
          days := days[c.day := (if c.day in days then days[c.day] else 0) + c.minutes];
        }
      }
    }
    assert rows[..|rows|] == rows;
  }

  /** The Home total of given report days: the carried amount plus, day by day, minutes beyond the target. */
  ghost function DayTotal(target: int -> int, carry: int, days: map<int, int>): int {
    carry + SumOver(days.Keys, Surplus(target, days))
  }

  ghost function Surplus(target: int -> int, days: map<int, int>): int -> int {
    d => (if d in days then days[d] else 0) - target(d)
  }

  ghost function HomeTotal(z: Zone, target: int -> int, carry: int, rows: seq<Row>): int {
    DayTotal(target, carry, ReportDays(z, rows))
  }

  lemma PartStep(left: set<int>, part: set<int>, f: int -> int, d: int)
    requires d in left
    ensures SumOver(left * part, f) == (if d in part then f(d) else 0) + SumOver((left - {d}) * part, f)
  {
    if d in part {
      SumRemove(left * part, f, d);
      assert (left - {d}) * part == left * part - {d};
    } else {
      assert (left - {d}) * part == left * part;
    }
  }

  /** The loop over the recorded days, once for the total and once only up to a given day. */
  method RecordedDayBalances(target: int -> int, carry: int, days: map<int, int>, asOf: Option<int>)
    returns (total: int, asOfTotal: Option<int>)
    ensures total == DayTotal(target, carry, days)
    ensures asOfTotal.Some? <==> asOf.Some?
    ensures asOf.Some? ==> asOfTotal.value == DayTotal(target, carry, map d | d in days && d <= asOf.value :: days[d])
  {
    total := carry;
    var partial := carry;
    var left := days.Keys;
    ghost var f := Surplus(target, days);
    ghost var upTo := set d | d in days && asOf.Some? && d <= asOf.value;
    assert left * upTo == upTo;
    while left != {}
      invariant left <= days.Keys
      invariant total + SumOver(left, f) == DayTotal(target, carry, days)
      invariant partial + SumOver(left * upTo, f) == carry + SumOver(upTo, f)
      decreases left
    {
      HasElement(left);
      var d :| d in left;
      SumRemove(left, f, d);
      var difference := days[d] - target(d);
      total := total + difference;
      PartStep(left, upTo, f, d);
      if asOf.Some? && d <= asOf.value {
        partial := partial + difference;
      }
      left := left - {d};
    }
    assert left * upTo == {};
    asOfTotal := if asOf.Some? then Some(partial) else None;
    if asOf.Some? {
      ghost var early := map d | d in days && d <= asOf.value :: days[d];
      assert early.Keys == upTo;
      SumEqual(upTo, f, Surplus(target, early));
    }
  }

  // --- The total in terms of the bookings ---

  function TotalMinutes(z: Zone, rows: seq<Row>): int {
    if rows == [] then 0 else TotalMinutes(z, rows[..|rows| - 1]) + MinutesOf(z, rows[|rows| - 1].record)
  }

  /** The days on which a finished booking began. */
  ghost function BookedDays(z: Zone, rows: seq<Row>): set<int> {
    set i | 0 <= i < |rows| && Calculate(z, rows[i].record).Completed? :: Calculate(z, rows[i].record).day
  }

  lemma {:induction false} ReportDaysKeys(z: Zone, rows: seq<Row>)
    ensures ReportDays(z, rows).Keys == BookedDays(z, rows)
  {
    if rows != [] {
      var last := |rows| - 1;
      ReportDaysKeys(z, rows[..last]);
      var c := Calculate(z, rows[last].record);
      assert BookedDays(z, rows) == BookedDays(z, rows[..last]) + (if c.Completed? then {c.day} else {}) by {
        forall d | d in BookedDays(z, rows[..last]) ensures d in BookedDays(z, rows) {
          var i :| 0 <= i < last && Calculate(z, rows[..last][i].record).Completed?
            && Calculate(z, rows[..last][i].record).day == d;
          assert rows[..last][i] == rows[i];
        }
        forall d | d in BookedDays(z, rows) ensures d in BookedDays(z, rows[..last]) || (c.Completed? && d == c.day) {
          var i :| 0 <= i < |rows| && Calculate(z, rows[i].record).Completed? && Calculate(z, rows[i].record).day == d;
          if i < last {
            assert rows[..last][i] == rows[i];
          }
        }
      }
    }
  }

  ghost function Minutes(days: map<int, int>): int -> int {
    d => if d in days then days[d] else 0
  }

  lemma {:induction false} ReportDaysSum(z: Zone, rows: seq<Row>)
    ensures SumOver(ReportDays(z, rows).Keys, Minutes(ReportDays(z, rows))) == TotalMinutes(z, rows)
  {
    if rows != [] {
      var last := |rows| - 1;
      ReportDaysSum(z, rows[..last]);
      var before, after := ReportDays(z, rows[..last]), ReportDays(z, rows);
      var c := Calculate(z, rows[last].record);
      if c.Completed? {
        SumEqual(before.Keys - {c.day}, Minutes(before), Minutes(after));
        SumRemove(after.Keys, Minutes(after), c.day);
        assert after.Keys - {c.day} == before.Keys - {c.day};
        if c.day in before {
          SumRemove(before.Keys, Minutes(before), c.day);
        } else {
          assert before.Keys - {c.day} == before.Keys;
        }
      }
    }
  }

  lemma {:induction false} SurplusSplits(s: set<int>, target: int -> int, days: map<int, int>)
    ensures SumOver(s, Surplus(target, days)) == SumOver(s, Minutes(days)) - SumOver(s, target)
  {
    if s != {} {
      HasElement(s);
      var d :| d in s;
      SumRemove(s, Surplus(target, days), d);
      SumRemove(s, Minutes(days), d);
      SumRemove(s, target, d);
      SurplusSplits(s - {d}, target, days);
    }
  }

  /** The Home total is the carried amount plus all finished minutes minus the targets of the booked days. */
  lemma HomeTotalIs(z: Zone, target: int -> int, carry: int, rows: seq<Row>)
    ensures HomeTotal(z, target, carry, rows) == carry + TotalMinutes(z, rows) - SumOver(BookedDays(z, rows), target)
  {
    ReportDaysKeys(z, rows);
    ReportDaysSum(z, rows);
    SurplusSplits(ReportDays(z, rows).Keys, target, ReportDays(z, rows));
  }
}
