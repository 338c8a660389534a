/** Exactly when a correction is accepted, and exactly when it can be approved, said of the rows. */
module RequestGuards {
  import opened Wrappers
  import opened Booking
  import opened Schema
  import opened Attendance
  import opened CorrectionMetadata
  import opened Corrections
  import opened Consistency
  import opened CorrectionInvariants
  import opened CorrectionLifecycle

  predicate WholeDay(r: Record) {
    || r.note in {"Urlaub", "Krankheit", "Feiertag"}
    || (r.absenceKind.Some? && r.absenceKind.value !in {"", "0"})
  }

  /** Times that a correction may give: at most a week, room for the pause, whole-day credits or work that is over. */
  predicate Timely(z: Zone, booked: Option<Record>, start: int, end: int, pause: int, now: int) {
    && start < end <= start + 604800
    && 0 <= pause * 60 <= end - start
    && (if booked.Some? && WholeDay(booked.value) then
          && (start + z.offset(start)) % 86400 == 0 && pause == 0
          && end - start <= 86400 && (end - start) % 60 == 0
        else end <= now)
  }

  /** The booking meets the interval: an absence with its whole local day, work with the time it takes. */
  predicate Meets(z: Zone, r: Record, from: int, to: int) {
    if WholeDay(r) then
      var day := (r.start + z.offset(r.start)) / 86400;
      z.midnight(day) < to && from < z.midnight(day + 1)
    else r.start < to && from < (if r.end.Some? then r.end.value else PHP_INT_MAX)
  }

  /** No other booking of the user meets what the request would occupy. */
  ghost predicate Unoccupied(z: Zone, records: map<int, Record>, a: Request, booked: Option<Record>) {
    var day := (a.start + z.offset(a.start)) / 86400;
    var from := if booked.Some? && WholeDay(booked.value) then z.midnight(day) else a.start;
    var to := if booked.Some? && WholeDay(booked.value) then z.midnight(day + 1) else a.end;
    forall id :: id in records && records[id].user == a.user && Some(id) != a.record ==>
      !Meets(z, records[id], from, to)
  }

  ghost predicate Running(db: Db, id: int) {
    exists i :: 0 <= i < |db.sessions| && db.sessions[i].record == id && db.sessions[i].ended.None?
  }

  lemma TimelyExactly(z: Zone, booked: Option<Record>, start: int, end: int, pause: int, now: int)
    ensures ValidCorrection(z, booked, start, end, pause, now) <==> Timely(z, booked, start, end, pause, now)
  {
    assert pause <= (end - start) / 60 <==> pause * 60 <= end - start;
  }

  lemma MeetsExactly(z: Zone, r: Record, from: int, to: int)
    ensures Span(z, r).0 < to && Span(z, r).1 > from <==> Meets(z, r, from, to)
  {
  }

  lemma UnoccupiedExactly(z: Zone, db: Db, a: Request, booked: Option<Record>)
    requires RecordsNumbered(db)
    ensures var (from, to) := Span(z, Proposed(a, booked));
      NoOverlap(z, db.records, a.user, from, to, if a.record.Some? then a.record.value else 0) <==>
        Unoccupied(z, db.records, a, booked)
  {
    hide Span, Meets;
    var (from, to) := Span(z, Proposed(a, booked));
    ProposedSpan(z, a, booked);
    forall id | id in db.records
      ensures Span(z, db.records[id]).0 < to && Span(z, db.records[id]).1 > from <==> Meets(z, db.records[id], from, to)
    {
      MeetsExactly(z, db.records[id], from, to);
    }
  }

  lemma ProposedSpan(z: Zone, a: Request, booked: Option<Record>)
    ensures var day := (a.start + z.offset(a.start)) / 86400;
      Span(z, Proposed(a, booked)) ==
        if booked.Some? && WholeDay(booked.value) then (z.midnight(day), z.midnight(day + 1)) else (a.start, a.end)
  {
  }

  // --- Asking ---

  /**
   * A correction is accepted exactly when it is for a new booking or an own one that is not running, has a reason of 5
   * to 1000 bytes, and either cancels an existing booking or gives readable and timely times.
   */
  lemma AskExactly(z: Zone, db: Db, now: int, user: int, ask: Ask)
    ensures RequestCorrection(z, db, now, user, ask).Success? <==>
      && (ask.record != 0 ==>
           ask.record in db.records && db.records[ask.record].user == user && !Running(db, ask.record))
      && 5 <= Utf8Bytes(Trim(ask.reason)) <= 1000
      && (if ask.cancel then ask.record != 0
          else
            && ask.start.Some? && ask.end.Some? && ask.pause.Some?
            && Timely(z, if ask.record != 0 then Some(db.records[ask.record]) else None,
                      ask.start.value, ask.end.value, ask.pause.value, now))
  {
    hide Snapshot, Utf8Bytes, Trim;
    if ask.start.Some? && ask.end.Some? && ask.pause.Some? {
      TimelyExactly(z, if ask.record != 0 then OwnBooking(db, user, ask.record) else None,
                    ask.start.value, ask.end.value, ask.pause.value, now);
    }
    hide ValidCorrection, Timely;
  }

  /** What an accepted request stores, word for word. */
  lemma AskStores(z: Zone, db: Db, now: int, user: int, ask: Ask)
    requires RequestCorrection(z, db, now, user, ask).Success?
    ensures RequestCorrection(z, db, now, user, ask).value == db.(requests := db.requests + [
      if ask.cancel then
        Request(user, Some(ask.record), db.records[ask.record].start,
                Max(db.records[ask.record].start + 1,
                    if db.records[ask.record].end.Some? then db.records[ask.record].end.value else now),
                0, Trim(ask.reason), Pending, None, None, None,
                Some(Snapshot(ask.record, db.records[ask.record])), now, true)
      else
        Request(user, if ask.record == 0 then None else Some(ask.record), ask.start.value, ask.end.value,
                ask.pause.value, Trim(ask.reason), Pending, None, None, None,
                if ask.record == 0 then None else Some(Snapshot(ask.record, db.records[ask.record])), now, false)])
  {
    hide Snapshot, Utf8Bytes, Trim, ValidCorrection;
  }

  /** Finished work with a pause that fits. */
  predicate Finished(r: Record) {
    !WholeDay(r) && r.end.Some? && r.start <= r.end.value && 0 <= r.pause * 60 <= r.end.value - r.start
  }

  lemma FinishedExactly(r: Record)
    ensures CompletedWork(r) <==> Finished(r)
  {
    assert r.end.Some? ==> (r.pause <= (r.end.value - r.start) / 60 <==> r.pause * 60 <= r.end.value - r.start);
  }

  /** A new place and note are accepted exactly for own finished work that is not running and shows something else. */
  lemma AskMetadataExactly(db: Db, now: int, user: int, ask: MetadataAsk)
    ensures RequestMetadata(db, now, user, ask).Success? <==>
      && 1 <= ask.record && ask.confirmed && ask.metadata.Some? && ValidMetadata(ask.metadata.value)
      && 5 <= Utf8Bytes(Trim(ask.reason)) <= 1000
      && ask.record in db.records && db.records[ask.record].user == user
      && Finished(db.records[ask.record]) && !Running(db, ask.record)
      && ask.metadata.value != Metadata(db.records[ask.record].location, db.records[ask.record].note)
      && SnapshotWith(ask.record, db.records[ask.record], ask.metadata.value).bytes <= 65536
  {
    hide Snapshot, SnapshotWith, Utf8Bytes, Trim, ValidMetadata;
    if ask.record in db.records {
      FinishedExactly(db.records[ask.record]);
    }
    hide CompletedWork, Finished;
  }

  /** What an accepted request for place and note stores: the times of the booking, unchanged, and the proposal. */
  lemma AskMetadataStores(db: Db, now: int, user: int, ask: MetadataAsk)
    requires RequestMetadata(db, now, user, ask).Success?
    ensures var r := db.records[ask.record];
      RequestMetadata(db, now, user, ask).value == db.(requests := db.requests + [
        Request(user, Some(ask.record), r.start, r.end.value, r.pause, Trim(ask.reason), Pending, None, None, None,
                Some(SnapshotWith(ask.record, r, ask.metadata.value)), now, false)])
  {
    hide Snapshot, SnapshotWith, Utf8Bytes, Trim, ValidMetadata;
  }

  // --- Approving ---

  /** The snapshot of the booking that an approval expects: the stored text itself, or the row inside a proposal. */
  ghost predicate Expects(a: Request, id: int, r: Record) {
    && Parse(a.original).Success?
    && (if Parse(a.original).value.Some? then Parse(a.original).value.value.original == Snapshot(id, r)
        else a.original == Some(Snapshot(id, r)))
  }

  /**
   * A request can be approved exactly when its stored text is readable and it is a cancellation, a timely and
   * unoccupied booking without a snapshot, or is for a booking that is still the one it was made for and not running,
   * and there cancels, moves it to timely and unoccupied times, or relabels finished work whose times it repeats.
   */
  lemma ApprovableExactly(z: Zone, db: Db, now: int, number: nat)
    requires Consistent(db) && number < |db.requests|
    ensures var a := db.requests[number];
      Approve(z, db, now, number).Success? <==>
        && Parse(a.original).Success?
        && (if a.record.None? then
              && a.original.None?
              && (a.cancel || (Timely(z, None, a.start, a.end, a.pause, now) && Unoccupied(z, db.records, a, None)))
            else
              var id := a.record.value;
              && id in db.records && db.records[id].user == a.user && Expects(a, id, db.records[id]) && !Running(db, id)
              && (if Parse(a.original).value.Some? then Relabels(a, db.records[id])
                  else
                    || a.cancel
                    || (&& Timely(z, Some(db.records[id]), a.start, a.end, a.pause, now)
                        && Unoccupied(z, db.records, a, Some(db.records[id])))))
  {
    hide BreaksOrdered, EventsLogged, PausesStoredBut, NoOverlap, Parse, Snapshot, EndOf, Unoccupied, Timely,
      ValidCorrection, CompletedWork, Finished, Span, ValidMetadata;
    var a := db.requests[number];
    var booked := if a.record.Some? then OwnBooking(db, a.user, a.record.value) else None;
    TimelyExactly(z, booked, a.start, a.end, a.pause, now);
    UnoccupiedExactly(z, db, a, booked);
    if a.record.None? {
      assert !HasSession(db.sessions, db.nextRecord);
    } else if booked.Some? {
      FinishedExactly(booked.value);
      if !HasOpenSession(db.sessions, a.record.value) {
        MovedSucceeds(db, a, a.record.value);
      }
    }
    hide Moved;
  }

  /** The request repeats the times of finished work and proposes a valid place and note. */
  ghost predicate Relabels(a: Request, r: Record)
    requires Parse(a.original).Success? && Parse(a.original).value.Some?
  {
    && Finished(r) && a.start == r.start && Some(a.end) == r.end && a.pause == r.pause && !a.cancel
    && ValidMetadata(Parse(a.original).value.value.metadata)
  }

  // --- Reasons ---

  /** Exactly the first i characters are the blanks at the beginning. */
  predicate Leading(s: string, i: int) {
    0 <= i <= |s| && (forall k :: 0 <= k < i ==> Blank(s[k])) && (i < |s| ==> !Blank(s[i]))
  }

  /** Exactly the characters from j on are the blanks at the end. */
  predicate Trailing(s: string, j: int) {
    0 <= j <= |s| && (forall k :: j <= k < |s| ==> Blank(s[k])) && (j > 0 ==> !Blank(s[j - 1]))
  }

  lemma {:induction false} LeftExactly(s: string)
    ensures exists i :: Leading(s, i) && TrimLeft(s) == s[i..]
  {
    if s != "" && Blank(s[0]) {
      LeftExactly(s[1..]);
      var i :| Leading(s[1..], i) && TrimLeft(s[1..]) == s[1..][i..];
      assert s[1..][i..] == s[i + 1..];
      assert forall k :: 1 <= k < |s| ==> s[k] == s[1..][k - 1];
      assert Leading(s, i + 1);
    } else {
      assert Leading(s, 0) && s == s[0..];
    }
  }

  lemma {:induction false} RightExactly(s: string)
    ensures exists j :: Trailing(s, j) && TrimRight(s) == s[..j]
  {
    if s != "" && Blank(s[|s| - 1]) {
      var front := s[..|s| - 1];
      RightExactly(front);
      var j :| Trailing(front, j) && TrimRight(front) == front[..j];
      assert front[..j] == s[..j];
      assert forall k :: 0 <= k < |front| ==> s[k] == front[k];
      assert Trailing(s, j);
    } else {
      assert Trailing(s, |s|) && s == s[..|s|];
    }
  }

  /** A reason is stored without the blanks around it, and with everything between. */
  lemma TrimExactly(s: string)
    ensures exists i, j :: Leading(s, i) && Trailing(s[i..], j) && Trim(s) == s[i..][..j]
  {
    LeftExactly(s);
    var i :| Leading(s, i) && TrimLeft(s) == s[i..];
    RightExactly(s[i..]);
    var j :| Trailing(s[i..], j) && TrimRight(s[i..]) == s[i..][..j];
    hide Leading, Trailing;
  }
}
