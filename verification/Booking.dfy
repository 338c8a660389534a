/**
 * Bookings, the time they occupy and the two checks every writer shares
 * (lib/booking.php).  A stored timestamp is the instant it denotes, in seconds.
 */
module Booking {
  import opened Wrappers

  const PHP_INT_MAX := 0x7FFF_FFFF_FFFF_FFFF
  const DAY := 86400

  /** The local calendar: the offset in force at an instant, and the instant at which a numbered local day begins. */
  datatype Zone = Zone(offset: int -> int, midnight: int -> int) {

    function DayOf(t: int): int {
      (t + offset(t)) / DAY
    }

    function TimeOfDay(t: int): int {
      (t + offset(t)) % DAY
    }
  }

  /** One row of the bookings table; no end means the booking is still open. */
  datatype Record = Record(
    user: int,
    start: int,
    end: Option<int>,
    pause: int,
    note: string,
    location: string,
    absenceKind: Option<string>,
    planned: Option<int>)

  /** The notes that have always marked a whole-day absence. */
  predicate ReservedNote(note: string) {
    note == "Urlaub" || note == "Krankheit" || note == "Feiertag"
  }

  /** A stored kind counts unless it is absent or one of the two texts the original treats as empty. */
  predicate HasKind(kind: Option<string>) {
    kind.Some? && kind.value != "" && kind.value != "0"
  }

  predicate IsAbsence(r: Record) {
    HasKind(r.absenceKind) || ReservedNote(r.note)
  }

  /** The half-open interval a booking blocks: a whole local day for an absence, the worked time otherwise. */
  function Span(z: Zone, r: Record): (int, int) {
    if IsAbsence(r) then
      var day := z.DayOf(r.start);
      (z.midnight(day), z.midnight(day + 1))
    else
      (r.start, if r.end.None? then PHP_INT_MAX else r.end.value)
  }

  /** No other booking of the user meets the interval from start to end. */
  predicate NoOverlap(z: Zone, records: map<int, Record>, user: int, start: int, end: int, except: int) {
    forall id | id in records && records[id].user == user && id != except ::
      !(Span(z, records[id]).0 < end && Span(z, records[id]).1 > start)
  }

  /** The limits on a corrected interval; `booked` is the booking being corrected, if there is one. */
  predicate ValidCorrection(z: Zone, booked: Option<Record>, start: int, end: int, pause: int, now: int) {
    && start < end
    && end - start <= 7 * DAY
    && 0 <= pause <= (end - start) / 60
    && (if booked.Some? && IsAbsence(booked.value) then
          && z.TimeOfDay(start) == 0
          && pause == 0
          && end - start <= 1440 * 60
          && (end - start) % 60 == 0
        else
          end <= now)
  }

  /** The clock only makes more corrections of work acceptable. */
  lemma StillValid(z: Zone, booked: Option<Record>, start: int, end: int, pause: int, now: int, later: int)
    requires ValidCorrection(z, booked, start, end, pause, now) && now <= later
    ensures ValidCorrection(z, booked, start, end, pause, later)
  {
  }
}
