/** A start that is not clear in the sense of WorkTime.RunExactly: the clock went back behind a recorded day. */
module ClockLimits {
  import opened Wrappers
  import opened Booking
  import opened Schema
  import opened Attendance
  import opened Consistency
  import opened Runs
  import opened WorkTime
  import opened ProtocolLimits

  /** One employee who worked from 100 to 900. */
  const WORKED := Record(1, 100, Some(900), 0, "", "office", None, None)
  const DAY_DONE := Db(map[1 := WORKED], 2, [], [], [], [], map[1 := User(Employee, None)])
  const START := Command(1, "web:1", ID, "start", false, None, true, None)

  lemma DayDoneSound()
    ensures WorkSound(DAY_DONE, 900)
  {
    assert !IsAbsence(WORKED);
  }

  lemma StartedEarly()
    ensures var after := Apply(UTC, DAY_DONE, 50, Stamped(START));
      && 1 in after.records && after.records[1] == WORKED
      && 2 in after.records && after.records[2] == Record(1, 50, None, 0, "", "office", None, None)
  {
    assert ValidEventId(ID);
    assert Admit(DAY_DONE, START) == Admitted(Start);
    assert OpenBookings(DAY_DONE.records, 1, 2) == [] by {
      assert OpenBookings(DAY_DONE.records, 1, 1) == [];
    }
    assert NoOverlap(UTC.zone, DAY_DONE.records, 1, 50, 51, 0);
  }

  /** A start stamped at 50 after a day recorded until 900 claims the hours of that day a second time. */
  lemma BackwardsClock()
    ensures WorkSound(DAY_DONE, 900)
    ensures !WorkDisjoint(Apply(UTC, DAY_DONE, 50, Stamped(START)).records)
    ensures !StepClear(UTC, DAY_DONE, Timed(50, Stamped(START)))
  {
    DayDoneSound();
    StartedEarly();
    StepExactly(UTC, DAY_DONE, 50, Stamped(START));
    hide Apply, StepClear;
    var records := Apply(UTC, DAY_DONE, 50, Stamped(START)).records;
    assert Covers(records[1], 100) && Covers(records[2], 100);
    assert !IsAbsence(records[1]) && !IsAbsence(records[2]);
    assert !Apart(records[1], records[2]);
  }
}
