/**
 * Refilling the holidays of one year from an operator-supplied response
 * (lib/holiday_refill.php), and the preview of it
 * (lib/holiday_refill_preview.php).
 */
module HolidayRefill {
  import opened Wrappers
  import Attendance
  import Sums

  // --- Staging the response ---

  /** One member of the response: a conditional holiday has a hint and may have no date. */
  datatype Entry = Entry(name: string, date: Option<string>, hint: string)

  const MOST_ENTRIES := 366
  const READ_LIMIT := 367

  predicate Digit(c: char) {
    '0' <= c <= '9'
  }

  function TwoDigits(a: char, b: char): int
    requires Digit(a) && Digit(b)
  {
    (a as int - '0' as int) * 10 + (b as int - '0' as int)
  }

  function MonthDays(year: nat, month: int): int {
    if month == 2 then (if year % 4 == 0 && (year % 100 != 0 || year % 400 == 0) then 29 else 28)
    else if month == 4 || month == 6 || month == 9 || month == 11 then 30
    else 31
  }

  function YearLength(year: nat, months: nat): int {
    if months == 0 then 0 else YearLength(year, months - 1) + MonthDays(year, months)
  }

  /** The days of all years before this one. */
  function DaysBefore(year: nat): int {
    if year == 0 then 0 else DaysBefore(year - 1) + YearLength(year - 1, 12)
  }

  lemma TwelveMonths(year: nat)
    ensures YearLength(year, 12) == 337 + MonthDays(year, 2)
  {
    assert YearLength(year, 1) == 31 && YearLength(year, 2) == 31 + MonthDays(year, 2);
    assert YearLength(year, 3) == YearLength(year, 2) + 31 && YearLength(year, 4) == YearLength(year, 3) + 30;
    assert YearLength(year, 5) == YearLength(year, 4) + 31 && YearLength(year, 6) == YearLength(year, 5) + 30;
    assert YearLength(year, 7) == YearLength(year, 6) + 31 && YearLength(year, 8) == YearLength(year, 7) + 31;
    assert YearLength(year, 9) == YearLength(year, 8) + 30 && YearLength(year, 10) == YearLength(year, 9) + 31;
    assert YearLength(year, 11) == YearLength(year, 10) + 30 && YearLength(year, 12) == YearLength(year, 11) + 31;
  }

  /** How many years before this one have a number that divides. */
  function Multiples(year: nat, every: nat): int
    requires every > 0
  {
    (year + every - 1) / every
  }

  function Divides(year: nat, every: nat): int
    requires every > 0
  {
    if year % every == 0 then 1 else 0
  }

  /** The Gregorian calendar: a leap day every fourth year, but three fewer in 400 years. */
  function Gregorian(year: nat): int {
    365 * year + Multiples(year, 4) - Multiples(year, 100) + Multiples(year, 400)
  }

  /** The days of the months add up to it. */
  lemma {:induction false} CalendarExact(year: nat)
    ensures DaysBefore(year) == Gregorian(year)
  {
    hide Gregorian, YearLength;
    if year == 0 {
      YearZero();
    } else {
      CalendarExact(year - 1);
      OneMoreYear(year - 1);
    }
  }

  lemma YearZero()
    ensures Gregorian(0) == 0
  {
  }

  lemma OneMoreYear(year: nat)
    ensures Gregorian(year + 1) == Gregorian(year) + YearLength(year, 12)
  {
    hide Multiples, Divides, YearLength, MonthDays;
    TwelveMonths(year);
    LeapYears(year);
    Fourth(year);
    Hundredth(year);
    FourHundredth(year);
  }

  lemma Fourth(year: nat)
    ensures Multiples(year + 1, 4) == Multiples(year, 4) + Divides(year, 4)
  {
  }

  lemma Hundredth(year: nat)
    ensures Multiples(year + 1, 100) == Multiples(year, 100) + Divides(year, 100)
  {
  }

  lemma FourHundredth(year: nat)
    ensures Multiples(year + 1, 400) == Multiples(year, 400) + Divides(year, 400)
  {
  }

  lemma LeapYears(year: nat)
    ensures MonthDays(year, 2) == 28 + Divides(year, 4) - Divides(year, 100) + Divides(year, 400)
  {
    assert year % 400 == 0 ==> year % 100 == 0;
    assert year % 100 == 0 ==> year % 4 == 0;
  }

  function Prefix(year: nat): string
    requires year < 10000
  {
    [ ('0' as int + year / 1000) as char,
      ('0' as int + year / 100 % 10) as char,
      ('0' as int + year / 10 % 10) as char,
      ('0' as int + year % 10) as char ]
  }

  /** A calendar day of the year, written as year, month and day. */
  predicate DayOfYear(s: string, year: nat)
    requires year < 10000
  {
    && |s| == 10 && s[..4] == Prefix(year) && s[4] == '-' && s[7] == '-'
    && Digit(s[5]) && Digit(s[6]) && Digit(s[8]) && Digit(s[9])
    && (var month, day := TwoDigits(s[5], s[6]), TwoDigits(s[8], s[9]);
        1 <= month <= 12 && 1 <= day <= MonthDays(year, month))
  }

  predicate ValidName(name: string) {
    && name != "" && name[0] != ' ' && name[|name| - 1] != ' '
    && Attendance.Utf8Bytes(name) <= 250
    && forall i :: 0 <= i < |name| ==> !Attendance.ControlChar(name[i])
  }

  predicate Conditional(e: Entry) {
    e.hint != ""
  }

  predicate ValidEntry(e: Entry, year: nat)
    requires year < 10000
  {
    && ValidName(e.name)
    && Attendance.Utf8Bytes(e.hint) <= 4000
    && (e.date.Some? || !Conditional(e) ==> e.date.Some? && DayOfYear(e.date.value, year))
  }

  ghost predicate OneDayTwice(entries: seq<Entry>) {
    exists i, j :: 0 <= i < j < |entries| && !Conditional(entries[i]) && !Conditional(entries[j])
      && entries[i].date == entries[j].date
  }

  /** The response can be staged: bounded, valid throughout, with at least one state-wide day and no day twice. */
  ghost predicate Stageable(entries: seq<Entry>, year: nat)
    requires year < 10000
  {
    && 1 <= |entries| <= MOST_ENTRIES
    && (forall i :: 0 <= i < |entries| ==> ValidEntry(entries[i], year))
    && !OneDayTwice(entries)
    && (exists i :: 0 <= i < |entries| && !Conditional(entries[i]))
  }

  function ConditionalCount(entries: seq<Entry>): nat {
    if entries == [] then 0
    else ConditionalCount(entries[..|entries| - 1]) + (if Conditional(entries[|entries| - 1]) then 1 else 0)
  }

  ghost predicate StagedOn(entries: seq<Entry>, d: string) {
    exists i :: 0 <= i < |entries| && !Conditional(entries[i]) && entries[i].date == Some(d)
  }

  /** The rows are exactly the state-wide entries. */
  ghost predicate RowsOf(entries: seq<Entry>, rows: map<string, string>) {
    && (forall i :: 0 <= i < |entries| && !Conditional(entries[i]) ==>
          entries[i].date.Some? && entries[i].date.value in rows && rows[entries[i].date.value] == entries[i].name)
    && (forall d :: d in rows ==> StagedOn(entries, d))
  }

  /** What the loop over the response knows after some entries. */
  ghost predicate StagedSoFar(entries: seq<Entry>, year: nat, rows: map<string, string>, conditional: nat)
    requires year < 10000
  {
    && (forall i :: 0 <= i < |entries| ==> ValidEntry(entries[i], year))
    && !OneDayTwice(entries)
    && RowsOf(entries, rows)
    && conditional == ConditionalCount(entries)
    && |rows| + conditional == |entries|
  }

  lemma ConditionalAdded(entries: seq<Entry>, e: Entry, year: nat, rows: map<string, string>, conditional: nat)
    requires year < 10000 && StagedSoFar(entries, year, rows, conditional) && ValidEntry(e, year) && Conditional(e)
    ensures StagedSoFar(entries + [e], year, rows, conditional + 1)
  {
    hide ValidEntry;
    var more := entries + [e];
    assert more[..|entries|] == entries;
    forall d | d in rows ensures StagedOn(more, d) {
      assert StagedOn(entries, d);
      var k :| 0 <= k < |entries| && !Conditional(entries[k]) && entries[k].date == Some(d);
      assert more[k] == entries[k];
    }
  }

  lemma DayNotTwice(entries: seq<Entry>, e: Entry, rows: map<string, string>)
    requires RowsOf(entries, rows) && !OneDayTwice(entries) && e.date.Some? && e.date.value !in rows
    ensures !OneDayTwice(entries + [e])
  {
    var more := entries + [e];
    forall i, j | 0 <= i < j < |more| && !Conditional(more[i]) && !Conditional(more[j])
      ensures more[i].date != more[j].date
    {
      assert more[i] == entries[i] && (j < |entries| ==> more[j] == entries[j]);
    }
  }

  lemma DayInRows(entries: seq<Entry>, e: Entry, rows: map<string, string>)
    requires RowsOf(entries, rows) && !Conditional(e) && e.date.Some? && e.date.value !in rows
    ensures RowsOf(entries + [e], rows[e.date.value := e.name])
  {
    var more := entries + [e];
    var added := rows[e.date.value := e.name];
    forall d | d in added ensures StagedOn(more, d) {
      if d == e.date.value {
        assert more[|entries|] == e;
      } else {
        assert StagedOn(entries, d);
        var k :| 0 <= k < |entries| && !Conditional(entries[k]) && entries[k].date == Some(d);
        assert more[k] == entries[k];
      }
    }
    forall i | 0 <= i < |more| && !Conditional(more[i])
      ensures more[i].date.Some? && more[i].date.value in added && added[more[i].date.value] == more[i].name {
      if i < |entries| {
        assert more[i] == entries[i];
      }
    }
  }

  lemma DayAdded(entries: seq<Entry>, e: Entry, year: nat, rows: map<string, string>, conditional: nat)
    requires year < 10000 && StagedSoFar(entries, year, rows, conditional) && ValidEntry(e, year) && !Conditional(e)
    requires e.date.value !in rows
    ensures StagedSoFar(entries + [e], year, rows[e.date.value := e.name], conditional)
  {
    assert e.date.Some?;
    hide ValidEntry, RowsOf, OneDayTwice;
    DayNotTwice(entries, e, rows);
    DayInRows(entries, e, rows);
    assert (entries + [e])[..|entries|] == entries;
  }

  lemma DayRepeated(entries: seq<Entry>, i: nat, rows: map<string, string>)
    requires i < |entries| && RowsOf(entries[..i], rows)
    requires !Conditional(entries[i]) && entries[i].date.Some? && entries[i].date.value in rows
    ensures OneDayTwice(entries)
  {
    assert StagedOn(entries[..i], entries[i].date.value);
    var k :| 0 <= k < i && !Conditional(entries[..i][k]) && entries[..i][k].date == entries[i].date;
    assert entries[k].date == entries[i].date;
  }

  lemma InvalidRefused(entries: seq<Entry>, i: nat, year: nat)
    requires year < 10000 && i < |entries| && !ValidEntry(entries[i], year)
    ensures !Stageable(entries, year)
  {
  }

  lemma RepeatedRefused(entries: seq<Entry>, i: nat, year: nat, rows: map<string, string>, conditional: nat)
    requires year < 10000 && i < |entries| && StagedSoFar(entries[..i], year, rows, conditional)
    requires !Conditional(entries[i]) && entries[i].date.Some? && entries[i].date.value in rows
    ensures !Stageable(entries, year)
  {
    hide ValidEntry, OneDayTwice, RowsOf;
    DayRepeated(entries, i, rows);
  }

  lemma AllRead(entries: seq<Entry>, year: nat, rows: map<string, string>, conditional: nat)
    requires year < 10000 && 1 <= |entries| <= MOST_ENTRIES && StagedSoFar(entries, year, rows, conditional)
    ensures Stageable(entries, year) <==> rows != map[]
    ensures RowsOf(entries, rows) && conditional == ConditionalCount(entries) && |rows| + conditional == |entries|
  {
    hide ValidEntry, OneDayTwice, RowsOf;
    NothingStaged(entries, year, rows, conditional);
  }

  lemma NextEntry(entries: seq<Entry>, i: nat)
    requires i < |entries|
    ensures entries[..i + 1] == entries[..i] + [entries[i]]
    ensures entries[..|entries|] == entries
  {
  }

  method Stage(entries: seq<Entry>, year: nat) returns (staged: Option<map<string, string>>, conditional: nat)
    requires year < 10000
    ensures staged.Some? <==> Stageable(entries, year)
    ensures staged.Some? ==> RowsOf(entries, staged.value) && conditional == ConditionalCount(entries)
    ensures staged.Some? ==> |staged.value| + conditional == |entries|
  {
    conditional := 0;
    if |entries| < 1 || |entries| > MOST_ENTRIES {
      return None, 0;
    }
    var rows: map<string, string> := map[];
    assert StagedSoFar(entries[..0], year, rows, 0);
    hide StagedSoFar, RowsOf, Stageable, ValidName, DayOfYear, ConditionalCount, Attendance.Utf8Bytes;
    for i := 0 to |entries|
      invariant StagedSoFar(entries[..i], year, rows, conditional)
    {
      var e := entries[i];
      NextEntry(entries, i);
      if !ValidName(e.name) || Attendance.Utf8Bytes(e.hint) > 4000 {
        InvalidRefused(entries, i, year);
        return None, 0;
      }
      if (e.date.Some? || !Conditional(e)) && (e.date.None? || !DayOfYear(e.date.value, year)) {
        InvalidRefused(entries, i, year);
        return None, 0;
      }
      if Conditional(e) {
        ConditionalAdded(entries[..i], e, year, rows, conditional);
        conditional := conditional + 1;
      } else {
        if e.date.value in rows {
          RepeatedRefused(entries, i, year, rows, conditional);
          return None, 0;
        }
        DayAdded(entries[..i], e, year, rows, conditional);
        rows := rows[e.date.value := e.name];
      }
    }
    NextEntry(entries, |entries| - 1);
    AllRead(entries, year, rows, conditional);
    if rows == map[] {
      return None, 0;
    }
    return Some(rows), conditional;
  }

  lemma NothingStaged(entries: seq<Entry>, year: nat, rows: map<string, string>, conditional: nat)
    requires year < 10000 && StagedSoFar(entries, year, rows, conditional)
    ensures rows == map[] <==> forall i :: 0 <= i < |entries| ==> Conditional(entries[i])
  {
    hide ValidEntry, OneDayTwice;
    if rows != map[] && forall i :: 0 <= i < |entries| ==> Conditional(entries[i]) {
      forall d ensures d !in rows {
        assert d in rows ==> StagedOn(entries, d);
      }
    }
  }

  // --- The stored holidays ---

  /** The stored holidays; a day is stored at most once. */
  type Table = map<string, string>

  datatype Row = Row(day: string, name: string)

  /** The bounds of the query: everything that begins with the year and a hyphen. */
  predicate InYear(day: string, year: nat)
    requires year < 10000
  {
    |day| >= 5 && day[..5] == Prefix(year) + "-"
  }

  function YearDays(table: Table, year: nat): set<string>
    requires year < 10000
  {
    set d | d in table && InYear(d, year)
  }

  /** What the limited query returns: distinct stored rows of the year, all of them unless the limit is reached. */
  ghost predicate Selected(table: Table, year: nat, existing: seq<Row>)
    requires year < 10000
  {
    && (forall i :: 0 <= i < |existing| ==>
         existing[i].day in YearDays(table, year) && table[existing[i].day] == existing[i].name)
    && (forall i, j :: 0 <= i < j < |existing| ==> existing[i].day != existing[j].day)
    && |existing| <= READ_LIMIT
    && (|existing| < READ_LIMIT ==> forall d :: d in YearDays(table, year) ==>
         exists i :: 0 <= i < |existing| && existing[i].day == d)
  }

  /** What staging promises about the rows. */
  predicate Staged(rows: map<string, string>, year: nat)
    requires year < 10000
  {
    && 1 <= |rows| <= MOST_ENTRIES
    && (forall d :: d in rows ==> DayOfYear(d, year) && Attendance.Utf8Bytes(rows[d]) <= 250)
  }

  /** What comes out of staging meets what writer and preview rely on. */
  lemma StageAdmits(entries: seq<Entry>, year: nat, rows: map<string, string>)
    requires year < 10000 && Stageable(entries, year) && RowsOf(entries, rows) && |rows| <= |entries|
    ensures Staged(rows, year)
  {
    hide DayOfYear;
    forall d | d in rows ensures DayOfYear(d, year) && Attendance.Utf8Bytes(rows[d]) <= 250 {
      assert StagedOn(entries, d);
      var i :| 0 <= i < |entries| && !Conditional(entries[i]) && entries[i].date == Some(d);
      assert ValidEntry(entries[i], year);
    }
    var i :| 0 <= i < |entries| && !Conditional(entries[i]);
    assert entries[i].date.value in rows;
  }

  lemma StagedInYear(rows: map<string, string>, year: nat, d: string)
    requires year < 10000 && Staged(rows, year) && d in rows
    ensures InYear(d, year) && |d| == 10
  {
    assert d[..5] == d[..4] + [d[4]];
  }

  // --- Writing ---

  /** An existing row that forbids the refill. */
  predicate Clashes(rows: map<string, string>, r: Row) {
    r.day !in rows || rows[r.day] != r.name
  }

  ghost predicate AnyClash(rows: map<string, string>, existing: seq<Row>) {
    exists i :: 0 <= i < |existing| && Clashes(rows, existing[i])
  }

  function DaysOf(existing: seq<Row>): set<string> {
    set i | 0 <= i < |existing| :: existing[i].day
  }

  lemma {:induction false} DistinctDays(existing: seq<Row>)
    requires forall i, j :: 0 <= i < j < |existing| ==> existing[i].day != existing[j].day
    ensures |DaysOf(existing)| == |existing|
  {
    if existing != [] {
      var last := |existing| - 1;
      DistinctDays(existing[..last]);
      assert DaysOf(existing) == DaysOf(existing[..last]) + {existing[last].day} by {
        forall d | d in DaysOf(existing) ensures d in DaysOf(existing[..last]) + {existing[last].day} {
          var i :| 0 <= i < |existing| && existing[i].day == d;
          assert i < last ==> existing[..last][i].day == d;
        }
        forall d | d in DaysOf(existing[..last]) ensures d in DaysOf(existing) {
          var i :| 0 <= i < last && existing[..last][i].day == d;
          assert existing[i].day == d;
        }
      }
    }
  }

  /** The staged rows that are not stored yet, unless an existing row clashes. */
  method Unstored(rows: map<string, string>, existing: seq<Row>) returns (missing: Option<map<string, string>>)
    requires forall i, j :: 0 <= i < j < |existing| ==> existing[i].day != existing[j].day
    ensures missing.Some? <==> !AnyClash(rows, existing)
    ensures missing.Some? ==> missing.value == rows - DaysOf(existing)
  {
    var left := rows;
    for i := 0 to |existing|
      invariant left == rows - DaysOf(existing[..i])
      invariant forall k :: 0 <= k < i ==> !Clashes(rows, existing[k])
    {
      DaysStep(existing, i);
      assert existing[i].day !in DaysOf(existing[..i]);
      if existing[i].day !in left || left[existing[i].day] != existing[i].name {
        assert Clashes(rows, existing[i]);
        return None;
      }
      left := left - {existing[i].day};
    }
    assert existing[..|existing|] == existing;
    return Some(left);
  }

  class Holidays {
    var table: Table

    method Insert(missing: map<string, string>)
      modifies this
      ensures table == old(table) + missing
    {
      var left := missing.Keys;
      while left != {}
        invariant left <= missing.Keys
        invariant table == old(table) + (missing - left)
        decreases left
      {
        HasDay(left);
        var d :| d in left;
        table := table[d := missing[d]];
        left := left - {d};
      }
      assert missing - {} == missing;
    }

    /** Refuses before the first insertion, or adds exactly what is missing. */
    method Refill(rows: map<string, string>, existing: seq<Row>, year: nat)
      returns (done: bool, inserted: nat, kept: nat)
      requires year < 10000 && Staged(rows, year) && Selected(table, year, existing)
      modifies this
      ensures done <==> !AnyClash(rows, existing)
      ensures !done ==> table == old(table)
      ensures done ==> table == old(table) + rows
      ensures done ==> inserted == |rows.Keys - old(table).Keys| && kept == |existing|
    {
      var missing := Unstored(rows, existing);
      if missing.None? {
        return false, 0, 0;
      }
      MissingAre(table, rows, existing, year);
      AddedAll(table, rows, existing, year);
      hide Staged, Selected, AnyClash, DaysOf;
      Insert(missing.value);
      assert |missing.value| == |missing.value.Keys|;
      return true, |missing.value|, |existing|;
    }
  }

  lemma HasDay(s: set<string>)
    requires s != {}
    ensures exists d :: d in s
  {
    if forall d :: d !in s {
      assert false;
    }
  }

  lemma DaysStep(existing: seq<Row>, i: nat)
    requires i < |existing|
    ensures DaysOf(existing[..i + 1]) == DaysOf(existing[..i]) + {existing[i].day}
  {
    forall d | d in DaysOf(existing[..i + 1]) ensures d in DaysOf(existing[..i]) + {existing[i].day} {
      var k :| 0 <= k < i + 1 && existing[..i + 1][k].day == d;
      assert k < i ==> existing[..i][k].day == d;
    }
    forall d | d in DaysOf(existing[..i]) ensures d in DaysOf(existing[..i + 1]) {
      var k :| 0 <= k < i && existing[..i][k].day == d;
      assert existing[..i + 1][k].day == d;
    }
    assert existing[..i + 1][i].day == existing[i].day;
  }

  /** Rows that do not clash are staged days, so there are no more of them than can be staged. */
  lemma Pigeonhole(rows: map<string, string>, existing: seq<Row>)
    requires forall i, j :: 0 <= i < j < |existing| ==> existing[i].day != existing[j].day
    requires !AnyClash(rows, existing)
    ensures |existing| <= |rows|
  {
    DistinctDays(existing);
    forall d | d in DaysOf(existing) ensures d in rows {
      var i :| 0 <= i < |existing| && existing[i].day == d;
      assert !Clashes(rows, existing[i]);
    }
    Sums.SubsetSize(DaysOf(existing), rows.Keys);
    assert |rows.Keys| == |rows|;
  }

  /** Without a clash the query was complete, and all stored days of the year are staged with the stored name. */
  lemma ClashFree(table: Table, rows: map<string, string>, existing: seq<Row>, year: nat)
    requires year < 10000 && Staged(rows, year) && Selected(table, year, existing) && !AnyClash(rows, existing)
    ensures DaysOf(existing) == YearDays(table, year)
    ensures forall d :: d in YearDays(table, year) ==> d in rows && rows[d] == table[d]
  {
    assert |rows| <= MOST_ENTRIES;
    hide Staged, InYear;
    Pigeonhole(rows, existing);
    forall d | d in YearDays(table, year) ensures d in DaysOf(existing) && d in rows && rows[d] == table[d] {
      var i :| 0 <= i < |existing| && existing[i].day == d;
      assert !Clashes(rows, existing[i]);
    }
  }

  lemma MissingAre(table: Table, rows: map<string, string>, existing: seq<Row>, year: nat)
    requires year < 10000 && Staged(rows, year) && Selected(table, year, existing) && !AnyClash(rows, existing)
    ensures (rows - DaysOf(existing)).Keys == rows.Keys - table.Keys
  {
    ClashFree(table, rows, existing, year);
    forall d | d in rows && d in table ensures d in DaysOf(existing) {
      StagedInYear(rows, year, d);
    }
  }

  lemma AddedAll(table: Table, rows: map<string, string>, existing: seq<Row>, year: nat)
    requires year < 10000 && Staged(rows, year) && Selected(table, year, existing) && !AnyClash(rows, existing)
    ensures table + (rows - DaysOf(existing)) == table + rows
  {
    ClashFree(table, rows, existing, year);
  }

  // --- What a refill leaves ---

  /** After a refill the year holds exactly the staged rows and every other row is what it was. */
  lemma YearIsStaged(table: Table, rows: map<string, string>, existing: seq<Row>, year: nat)
    requires year < 10000 && Staged(rows, year) && Selected(table, year, existing) && !AnyClash(rows, existing)
    ensures YearDays(table + rows, year) == rows.Keys
    ensures forall d :: d in table ==> (table + rows)[d] == table[d]
  {
    ClashFree(table, rows, existing, year);
    forall d | d in rows ensures InYear(d, year) {
      StagedInYear(rows, year, d);
    }
  }

  /** A second refill of the same response is never refused and has nothing left to insert. */
  lemma SecondRefill(table: Table, rows: map<string, string>, existing: seq<Row>, year: nat, again: seq<Row>)
    requires year < 10000 && Staged(rows, year) && Selected(table, year, existing) && !AnyClash(rows, existing)
    requires Selected(table + rows, year, again)
    ensures !AnyClash(rows, again)
    ensures rows.Keys - (table + rows).Keys == {}
    ensures table + rows + rows == table + rows
  {
    YearIsStaged(table, rows, existing, year);
    hide Staged, InYear;
    forall i | 0 <= i < |again| ensures !Clashes(rows, again[i]) {
      assert again[i].day in YearDays(table + rows, year);
    }
  }

  // --- The preview ---

  /** The preview's columns: a day of any other length and a longer name are read as nothing. */
  datatype Seen = Seen(day: Option<string>, name: Option<string>)

  function SeenRow(r: Row): Seen {
    Seen(if Attendance.Utf8Bytes(r.day) == 10 then Some(r.day) else None,
         if Attendance.Utf8Bytes(r.name) <= 250 then Some(r.name) else None)
  }

  datatype Counts = Counts(missing: nat, kept: nat, conflict: nat, extra: nat, notCompared: nat)

  predicate HasConflicts(c: Counts, read: nat) {
    c.conflict > 0 || c.extra > 0 || read > MOST_ENTRIES
  }

  /** The staged days that are stored with the staged name. */
  ghost function Agreeing(rows: map<string, string>, existing: seq<Row>): set<string> {
    set i | 0 <= i < |existing| && !Clashes(rows, existing[i]) :: existing[i].day
  }

  /** The first pass: stored names of staged days, and how many stored rows are not staged at all. */
  method Match(rows: map<string, string>, existing: seq<Row>, year: nat)
    returns (matched: map<string, Option<string>>, extra: nat)
    requires year < 10000 && Staged(rows, year)
    requires forall i, j :: 0 <= i < j < |existing| ==> existing[i].day != existing[j].day
    ensures MatchedSo(rows, existing, matched, extra)
  {
    matched, extra := map[], 0;
    NothingMatched(rows);
    hide Staged, MatchedSo, SeenRow;
    NoRows(existing);
    for i := 0 to |existing|
      invariant MatchedSo(rows, existing[..i], matched, extra)
    {
      var r := existing[i];
      NextRow(existing, i);
      SeenDay(r);
      StagedLength(rows, year, r.day);
      MatchStep(rows, existing[..i], r, matched, extra);
      var seen := SeenRow(r);
      if seen.day.None? || seen.day.value !in rows {
        extra := extra + 1;
      } else {
        matched := matched[seen.day.value := seen.name];
      }
    }
  }

  lemma NoRows(existing: seq<Row>)
    ensures existing[..0] == [] && existing[..|existing|] == existing
  {
  }

  lemma NextRow(existing: seq<Row>, i: nat)
    requires i < |existing|
    ensures existing[..i + 1] == existing[..i] + [existing[i]]
  {
  }

  lemma NothingMatched(rows: map<string, string>)
    ensures MatchedSo(rows, [], map[], 0)
  {
    assert DaysOf([]) == {};
    assert Strange(rows, []) == {};
  }

  lemma SeenDay(r: Row)
    ensures SeenRow(r).day == if Attendance.Utf8Bytes(r.day) == 10 then Some(r.day) else None
  {
  }

  lemma MatchStep(rows: map<string, string>, existing: seq<Row>, r: Row, matched: map<string, Option<string>>,
                  extra: nat)
    requires MatchedSo(rows, existing, matched, extra)
    requires forall i :: 0 <= i < |existing| ==> existing[i].day != r.day
    ensures if r.day in rows then MatchedSo(rows, existing + [r], matched[r.day := SeenRow(r).name], extra)
            else MatchedSo(rows, existing + [r], matched, extra + 1)
  {
    NameStep(rows, existing, r, matched);
    StrangeStep(rows, existing, r);
    hide NamesMatched, Strange, SeenRow;
  }

  lemma NameStep(rows: map<string, string>, existing: seq<Row>, r: Row, matched: map<string, Option<string>>)
    requires NamesMatched(rows, existing, matched)
    requires forall i :: 0 <= i < |existing| ==> existing[i].day != r.day
    ensures NamesMatched(rows, existing + [r], if r.day in rows then matched[r.day := SeenRow(r).name] else matched)
  {
    hide SeenRow;
    var more := existing + [r];
    assert more[..|existing| + 1] == more && more[..|existing|] == existing;
    DaysStep(more, |existing|);
    hide DaysOf;
    forall k | 0 <= k < |existing| ensures more[k] == existing[k] {
    }
  }

  lemma StrangeStep(rows: map<string, string>, existing: seq<Row>, r: Row)
    requires forall i :: 0 <= i < |existing| ==> existing[i].day != r.day
    ensures |Strange(rows, existing + [r])| == |Strange(rows, existing)| + (if r.day in rows then 0 else 1)
  {
    hide DaysOf;
    DaysAppended(existing, r);
    NewDay(existing, r.day);
    StrangeSize(DaysOf(existing), rows.Keys, r.day);
  }

  lemma DaysAppended(existing: seq<Row>, r: Row)
    ensures DaysOf(existing + [r]) == DaysOf(existing) + {r.day}
  {
    hide DaysOf;
    var more := existing + [r];
    assert more[..|existing| + 1] == more && more[..|existing|] == existing && more[|existing|] == r;
    DaysStep(more, |existing|);
  }

  lemma NewDay(existing: seq<Row>, d: string)
    requires forall i :: 0 <= i < |existing| ==> existing[i].day != d
    ensures d !in DaysOf(existing)
  {
  }

  lemma StrangeSize(days: set<string>, staged: set<string>, d: string)
    requires d !in days
    ensures |days + {d} - staged| == |days - staged| + (if d in staged then 0 else 1)
  {
    if d in staged {
      assert days + {d} - staged == days - staged;
    } else {
      assert days + {d} - staged == (days - staged) + {d};
    }
  }

  ghost predicate MatchedSo(rows: map<string, string>, existing: seq<Row>, matched: map<string, Option<string>>,
                            extra: nat) {
    NamesMatched(rows, existing, matched) && extra == |Strange(rows, existing)|
  }

  ghost predicate NamesMatched(rows: map<string, string>, existing: seq<Row>, matched: map<string, Option<string>>) {
    && matched.Keys == DaysOf(existing) * rows.Keys
    && (forall k :: 0 <= k < |existing| && existing[k].day in rows ==>
         matched[existing[k].day] == SeenRow(existing[k]).name)
  }

  /** The stored days that are not staged. */
  ghost function Strange(rows: map<string, string>, existing: seq<Row>): set<string> {
    DaysOf(existing) - rows.Keys
  }

  /** The staged days that no stored row has, and those whose stored name is the staged one. */
  ghost function Gone(rows: map<string, string>, matched: map<string, Option<string>>): set<string> {
    rows.Keys - matched.Keys
  }

  ghost function Same(rows: map<string, string>, matched: map<string, Option<string>>): set<string> {
    set d | d in rows && d in matched && matched[d] == Some(rows[d])
  }

  /** The second pass: every staged day is counted once. */
  method Count(rows: map<string, string>, matched: map<string, Option<string>>, truncated: bool, extra: nat)
    returns (counts: Counts)
    ensures (if truncated then counts.notCompared else counts.missing) == |Gone(rows, matched)|
    ensures (if truncated then counts.missing else counts.notCompared) == 0
    ensures counts.kept == |Same(rows, matched)| && counts.extra == extra
    ensures counts.conflict == |rows.Keys - Gone(rows, matched) - Same(rows, matched)|
  {
    counts := Counts(0, 0, 0, extra, 0);
    var left := rows.Keys;
    CountStart(rows, matched, truncated, extra);
    while left != {}
      invariant left <= rows.Keys
      invariant CountedSo(rows, matched, truncated, extra, left, counts)
      decreases left
    {
      hide CountedSo;
      HasDay(left);
      var d :| d in left;
      CountStep(rows, matched, truncated, extra, left, counts, d);
      if d !in matched {
        if truncated {
          counts := counts.(notCompared := counts.notCompared + 1);
        } else {
          counts := counts.(missing := counts.missing + 1);
        }
      } else if matched[d] == Some(rows[d]) {
        counts := counts.(kept := counts.kept + 1);
      } else {
        counts := counts.(conflict := counts.conflict + 1);
      }
      left := left - {d};
    }
    CountEnd(rows, matched, truncated, extra, counts);
    hide CountedSo;
  }

  /** Every staged day that is not left has been counted under its kind. */
  ghost predicate CountedSo(rows: map<string, string>, matched: map<string, Option<string>>, truncated: bool,
                            extra: nat,
                            left: set<string>, counts: Counts) {
    var gone, same := Gone(rows, matched), Same(rows, matched);
    && (if truncated then counts.notCompared else counts.missing) == |gone - left|
    && (if truncated then counts.missing else counts.notCompared) == 0
    && counts.kept == |same - left| && counts.extra == extra
    && counts.conflict == |(rows.Keys - gone - same) - left|
  }

  lemma CountStart(rows: map<string, string>, matched: map<string, Option<string>>, truncated: bool, extra: nat)
    ensures CountedSo(rows, matched, truncated, extra, rows.Keys, Counts(0, 0, 0, extra, 0))
  {
    var gone, same := Gone(rows, matched), Same(rows, matched);
    assert gone - rows.Keys == {} && same - rows.Keys == {} && (rows.Keys - gone - same) - rows.Keys == {};
  }

  lemma CountStep(rows: map<string, string>, matched: map<string, Option<string>>, truncated: bool, extra: nat,
                  left: set<string>, counts: Counts, d: string)
    requires CountedSo(rows, matched, truncated, extra, left, counts)
    requires d in left && left <= rows.Keys
    ensures CountedSo(rows, matched, truncated, extra, left - {d},
      if d !in matched then
        (if truncated then counts.(notCompared := counts.notCompared + 1) else counts.(missing := counts.missing + 1))
      else if matched[d] == Some(rows[d]) then counts.(kept := counts.kept + 1)
      else counts.(conflict := counts.conflict + 1))
  {
    CountedDay(rows, matched, left, d);
    hide Gone, Same;
  }

  lemma CountEnd(rows: map<string, string>, matched: map<string, Option<string>>, truncated: bool, extra: nat,
                 counts: Counts)
    requires CountedSo(rows, matched, truncated, extra, {}, counts)
    ensures (if truncated then counts.notCompared else counts.missing) == |Gone(rows, matched)|
    ensures (if truncated then counts.missing else counts.notCompared) == 0
    ensures counts.kept == |Same(rows, matched)| && counts.extra == extra
    ensures counts.conflict == |rows.Keys - Gone(rows, matched) - Same(rows, matched)|
  {
    var gone, same := Gone(rows, matched), Same(rows, matched);
    hide Gone, Same;
    assert gone - {} == gone && same - {} == same && (rows.Keys - gone - same) - {} == rows.Keys - gone - same;
  }

  /**
   * The comparison shown before a refill: it has conflicts exactly when a row clashes, and it counts every staged day
   * once.
   */
  method Preview(rows: map<string, string>, existing: seq<Row>, year: nat) returns (counts: Counts)
    requires year < 10000 && Staged(rows, year)
    requires forall i, j :: 0 <= i < j < |existing| ==> existing[i].day != existing[j].day
    ensures HasConflicts(counts, |existing|) <==> AnyClash(rows, existing)
    ensures counts.missing == (if |existing| <= MOST_ENTRIES then |rows.Keys - DaysOf(existing)| else 0)
    ensures counts.notCompared == (if |existing| <= MOST_ENTRIES then 0 else |rows.Keys - DaysOf(existing)|)
    ensures counts.kept == |Agreeing(rows, existing)|
    ensures counts.conflict == |rows.Keys * DaysOf(existing) - Agreeing(rows, existing)|
    ensures counts.extra == |DaysOf(existing) - rows.Keys|
    ensures counts.missing + counts.kept + counts.conflict + counts.notCompared == |rows|
  {
    var matched, extra := Match(rows, existing, year);
    counts := Count(rows, matched, |existing| > MOST_ENTRIES, extra);
    MatchesMean(rows, existing, year, matched, extra);
    ConflictsMean(rows, existing, year, matched, extra);
    CountsAdd(rows, matched);
    StrangeIs(rows, existing, matched, extra);
    Difference(rows.Keys, DaysOf(existing), Agreeing(rows, existing));
    hide Staged, AnyClash, MatchedSo, Gone, Same, Agreeing, DaysOf;
  }

  lemma StrangeIs(rows: map<string, string>, existing: seq<Row>, matched: map<string, Option<string>>, extra: nat)
    requires MatchedSo(rows, existing, matched, extra)
    ensures extra == |DaysOf(existing) - rows.Keys|
  {
  }

  lemma Difference(staged: set<string>, days: set<string>, agreeing: set<string>)
    ensures staged - (staged - days) - agreeing == staged * days - agreeing
  {
  }

  lemma Counted(s: set<string>, left: set<string>, d: string)
    requires d in left
    ensures |s - (left - {d})| == |s - left| + (if d in s then 1 else 0)
  {
    if d in s {
      assert s - (left - {d}) == (s - left) + {d};
    } else {
      assert s - (left - {d}) == s - left;
    }
  }

  /** Counting one more staged day raises exactly the count of its kind. */
  lemma CountedDay(rows: map<string, string>, matched: map<string, Option<string>>, left: set<string>, d: string)
    requires d in left && left <= rows.Keys
    ensures var gone, same := Gone(rows, matched), Same(rows, matched);
      var differing := rows.Keys - gone - same;
      && |gone - (left - {d})| == |gone - left| + (if d !in matched then 1 else 0)
      && |same - (left - {d})| == |same - left| + (if d in matched && matched[d] == Some(rows[d]) then 1 else 0)
      && |differing - (left - {d})|
         == |differing - left| + (if d in matched && matched[d] != Some(rows[d]) then 1 else 0)
  {
    var gone, same := Gone(rows, matched), Same(rows, matched);
    Counted(gone, left, d);
    Counted(same, left, d);
    Counted(rows.Keys - gone - same, left, d);
  }

  lemma StagedLength(rows: map<string, string>, year: nat, d: string)
    requires year < 10000 && Staged(rows, year)
    ensures d in rows ==> Attendance.Utf8Bytes(d) == 10
  {
    if d in rows {
      StagedInYear(rows, year, d);
      AsciiDay(d, year);
    }
  }

  lemma {:induction false} AsciiBytes(s: string)
    requires forall i :: 0 <= i < |s| ==> s[i] as int < 0x80
    ensures Attendance.Utf8Bytes(s) == |s|
  {
    if s != "" {
      AsciiBytes(s[..|s| - 1]);
    }
  }

  lemma AsciiDay(d: string, year: nat)
    requires year < 10000 && DayOfYear(d, year)
    ensures Attendance.Utf8Bytes(d) == 10
  {
    forall i | 0 <= i < 10 ensures d[i] as int < 0x80 {
      if i < 4 {
        assert d[..4][i] == d[i];
      }
    }
    AsciiBytes(d);
  }

  /** The days found to agree are those of the rows that do not clash; long names never equal a staged one. */
  lemma MatchesMean(rows: map<string, string>, existing: seq<Row>, year: nat, matched: map<string, Option<string>>,
                    extra: nat)
    requires year < 10000 && Staged(rows, year) && MatchedSo(rows, existing, matched, extra)
    ensures forall k :: 0 <= k < |existing| ==>
      (Clashes(rows, existing[k]) <==> existing[k].day !in Same(rows, matched))
    ensures Gone(rows, matched) == rows.Keys - DaysOf(existing)
    ensures Same(rows, matched) == Agreeing(rows, existing)
  {
    forall k | 0 <= k < |existing| ensures Clashes(rows, existing[k]) <==> existing[k].day !in Same(rows, matched) {
      ClashMeans(rows, existing, year, matched, k);
    }
    hide Clashes, SeenRow, Staged, Strange;
    GoneMean(rows, existing, matched);
    SameMean(rows, existing, matched);
  }

  lemma GoneMean(rows: map<string, string>, existing: seq<Row>, matched: map<string, Option<string>>)
    requires NamesMatched(rows, existing, matched)
    ensures Gone(rows, matched) == rows.Keys - DaysOf(existing)
  {
    hide DaysOf;
    assert matched.Keys == DaysOf(existing) * rows.Keys;
    hide NamesMatched;
  }

  lemma SameMean(rows: map<string, string>, existing: seq<Row>, matched: map<string, Option<string>>)
    requires NamesMatched(rows, existing, matched)
    requires forall k :: 0 <= k < |existing| ==>
      (Clashes(rows, existing[k]) <==> existing[k].day !in Same(rows, matched))
    ensures Same(rows, matched) == Agreeing(rows, existing)
  {
    hide Clashes;
    forall d | d in Same(rows, matched) ensures d in Agreeing(rows, existing) {
      assert d in DaysOf(existing);
      var k :| 0 <= k < |existing| && existing[k].day == d;
    }
    forall d | d in Agreeing(rows, existing) ensures d in Same(rows, matched) {
      var k :| 0 <= k < |existing| && !Clashes(rows, existing[k]) && existing[k].day == d;
    }
    hide NamesMatched, Agreeing, Same;
  }

  lemma ClashMeans(rows: map<string, string>, existing: seq<Row>, year: nat, matched: map<string, Option<string>>,
                   k: nat)
    requires year < 10000 && Staged(rows, year) && NamesMatched(rows, existing, matched) && k < |existing|
    ensures Clashes(rows, existing[k]) <==> existing[k].day !in Same(rows, matched)
  {
    if existing[k].day in rows {
      assert matched[existing[k].day] == SeenRow(existing[k]).name;
      assert Attendance.Utf8Bytes(rows[existing[k].day]) <= 250;
    }
  }

  lemma ConflictsMean(rows: map<string, string>, existing: seq<Row>, year: nat, matched: map<string, Option<string>>,
                      extra: nat)
    requires year < 10000 && Staged(rows, year) && MatchedSo(rows, existing, matched, extra)
    requires forall i, j :: 0 <= i < j < |existing| ==> existing[i].day != existing[j].day
    requires forall k :: 0 <= k < |existing| ==>
      (Clashes(rows, existing[k]) <==> existing[k].day !in Same(rows, matched))
    ensures AnyClash(rows, existing) <==>
      |rows.Keys - Gone(rows, matched) - Same(rows, matched)| > 0 || extra > 0 || |existing| > MOST_ENTRIES
  {
    var differing := rows.Keys - Gone(rows, matched) - Same(rows, matched);
    assert |rows| <= MOST_ENTRIES;
    hide Staged, Same;
    var strange := Strange(rows, existing);
    if !AnyClash(rows, existing) {
      Pigeonhole(rows, existing);
      forall d ensures d !in strange {
        if d in DaysOf(existing) {
          var k :| 0 <= k < |existing| && existing[k].day == d;
          assert !Clashes(rows, existing[k]);
        }
      }
      assert strange == {};
      forall d ensures d !in differing {
        if d in rows && d in matched {
          var k :| 0 <= k < |existing| && existing[k].day == d;
          assert !Clashes(rows, existing[k]);
        }
      }
      assert differing == {};
    } else {
      var k :| 0 <= k < |existing| && Clashes(rows, existing[k]);
      if existing[k].day in rows {
        assert existing[k].day in differing;
      } else {
        assert existing[k].day in strange;
      }
    }
  }

  lemma CountsAdd(rows: map<string, string>, matched: map<string, Option<string>>)
    ensures |Gone(rows, matched)| + |Same(rows, matched)| + |rows.Keys - Gone(rows, matched) - Same(rows, matched)|
      == |rows|
  {
    var gone, same := Gone(rows, matched), Same(rows, matched);
    assert gone !! same && (gone + same) !! (rows.Keys - gone - same);
    assert rows.Keys == gone + same + (rows.Keys - gone - same);
    assert |gone + same| == |gone| + |same|;
    assert |rows.Keys| == |rows|;
  }

  /** The preview counts what the refill of the same table would insert and leave unchanged. */
  lemma PreviewCountsAreReal(table: Table, rows: map<string, string>, seen: seq<Row>, existing: seq<Row>, year: nat)
    requires year < 10000 && Staged(rows, year) && Selected(table, year, seen) && Selected(table, year, existing)
    ensures AnyClash(rows, seen) <==> AnyClash(rows, existing)
    ensures !AnyClash(rows, existing) ==>
      && |rows.Keys - DaysOf(seen)| == |rows.Keys - table.Keys|
      && |Agreeing(rows, seen)| == |existing|
  {
    hide Staged, InYear;
    if !AnyClash(rows, seen) {
      ClashesAgree(table, rows, seen, existing, year);
    }
    if !AnyClash(rows, existing) {
      ClashesAgree(table, rows, existing, seen, year);
      ClashFree(table, rows, seen, year);
      ClashFree(table, rows, existing, year);
      MissingAre(table, rows, seen, year);
      assert (rows - DaysOf(seen)).Keys == rows.Keys - DaysOf(seen);
      assert Agreeing(rows, seen) == DaysOf(seen) by {
        forall i | 0 <= i < |seen| ensures !Clashes(rows, seen[i]) {
        }
      }
      DistinctDays(existing);
    }
  }

  /** Whether any selected row clashes does not depend on which rows the limit selects. */
  lemma ClashesAgree(table: Table, rows: map<string, string>, p: seq<Row>, q: seq<Row>, year: nat)
    requires year < 10000 && Staged(rows, year) && Selected(table, year, p) && Selected(table, year, q)
    requires !AnyClash(rows, p)
    ensures !AnyClash(rows, q)
  {
    ClashFree(table, rows, p, year);
    hide Staged, InYear;
    forall i | 0 <= i < |q| ensures !Clashes(rows, q[i]) {
      assert q[i].day in YearDays(table, year);
    }
  }
}
