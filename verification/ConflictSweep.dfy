/**
 * Work and whole-day absences at the same time (lib/reporting.php): the sweep
 * over beginnings and ends finds exactly the pairs that share an instant.
 */
module ConflictSweep {
  import opened Booking
  import opened Sums
  import opened HomeProjection

  /** The time a finished booking takes, and whether it is a whole-day absence. */
  datatype Part = Part(from: int, to: int, absence: bool)

  datatype Mark = Mark(at: int, starts: bool, index: int)

  function StartOf(parts: map<int, Part>, i: int): Mark
    requires i in parts
  {
    Mark(parts[i].from, true, i)
  }

  function EndOf(parts: map<int, Part>, i: int): Mark
    requires i in parts
  {
    Mark(parts[i].to, false, i)
  }

  /** Ends come before beginnings of the same instant, then the lower index. */
  predicate Precedes(a: Mark, b: Mark) {
    || a.at < b.at
    || (a.at == b.at && !a.starts && b.starts)
    || (a.at == b.at && a.starts == b.starts && a.index < b.index)
  }

  // --- The timeline ---

  ghost predicate InOrder(marks: seq<Mark>) {
    forall i, j :: 0 <= i < j < |marks| ==> Precedes(marks[i], marks[j])
  }

  /** Inserting one mark where it belongs. */
  function Inserted(marks: seq<Mark>, m: Mark): (r: seq<Mark>)
    ensures forall x :: x in r <==> x in marks || x == m
  {
    if marks == [] || Precedes(marks[|marks| - 1], m) then marks + [m]
    else Inserted(marks[..|marks| - 1], m) + [marks[|marks| - 1]]
  }

  lemma {:induction false} InsertedInOrder(marks: seq<Mark>, m: Mark)
    requires InOrder(marks) && m !in marks
    ensures InOrder(Inserted(marks, m))
  {
    if marks != [] && !Precedes(marks[|marks| - 1], m) {
      var front, last := marks[..|marks| - 1], marks[|marks| - 1];
      InsertedInOrder(front, m);
      var rest := Inserted(front, m);
      forall i | 0 <= i < |rest| ensures Precedes(rest[i], last) {
        assert rest[i] in rest;
      }
    }
  }

  ghost predicate Complete(parts: map<int, Part>, marks: seq<Mark>, done: set<int>) {
    && (forall i :: i in done && i in parts ==> StartOf(parts, i) in marks && EndOf(parts, i) in marks)
    && (forall m :: m in marks ==>
          m.index in done && m.index in parts
            && m == (if m.starts then StartOf(parts, m.index) else EndOf(parts, m.index)))
  }

  method Timeline(parts: map<int, Part>) returns (marks: seq<Mark>)
    ensures InOrder(marks) && Complete(parts, marks, parts.Keys)
  {
    marks := [];
    var left := parts.Keys;
    while left != {}
      invariant left <= parts.Keys
      invariant InOrder(marks) && Complete(parts, marks, parts.Keys - left)
      decreases left
    {
      HasElement(left);
      var i :| i in left;
      InsertedInOrder(marks, StartOf(parts, i));
      InsertedInOrder(Inserted(marks, StartOf(parts, i)), EndOf(parts, i));
      hide InOrder, Inserted;
      marks := Inserted(Inserted(marks, StartOf(parts, i)), EndOf(parts, i));
      left := left - {i};
    }
    assert parts.Keys - {} == parts.Keys;
  }

  // --- The sweep ---

  /** Work w and absence a share an instant. */
  predicate Meet(parts: map<int, Part>, w: int, a: int) {
    && w in parts && a in parts && !parts[w].absence && parts[a].absence
    && parts[w].from < parts[a].to && parts[a].from < parts[w].to
  }

  function Pair(parts: map<int, Part>, i: int, j: int): (int, int)
    requires i in parts
  {
    if parts[i].absence then (j, i) else (i, j)
  }

  /** Begun and not over after the first n marks. */
  ghost predicate Active(parts: map<int, Part>, marks: seq<Mark>, n: nat, i: int)
    requires n <= |marks|
  {
    i in parts && StartOf(parts, i) in marks[..n] && EndOf(parts, i) !in marks[..n]
  }

  /** The pairs of which both have begun. */
  ghost predicate Begun(parts: map<int, Part>, marks: seq<Mark>, n: nat, p: (int, int))
    requires n <= |marks|
  {
    Meet(parts, p.0, p.1) && StartOf(parts, p.0) in marks[..n] && StartOf(parts, p.1) in marks[..n]
  }

  lemma MarkBefore(marks: seq<Mark>, n: nat, m: Mark)
    requires InOrder(marks) && n < |marks| && m in marks
    ensures m in marks[..n] <==> Precedes(m, marks[n])
    ensures m in marks[..n + 1] <==> m in marks[..n] || m == marks[n]
  {
    var i :| 0 <= i < |marks| && marks[i] == m;
    assert marks[..n + 1] == marks[..n] + [marks[n]];
    if Precedes(m, marks[n]) {
      assert marks[..n][i] == m;
    }
    if m in marks[..n] {
      var j :| 0 <= j < n && marks[..n][j] == m;
      assert Precedes(marks[j], marks[n]);
    }
  }

  /** When a part begins, the active parts of the other kind are exactly those it meets that have begun before. */
  lemma MetAtStart(parts: map<int, Part>, marks: seq<Mark>, n: nat, j: int)
    requires InOrder(marks) && Complete(parts, marks, parts.Keys) && n < |marks| && marks[n].starts
    requires forall i :: i in parts ==> parts[i].from < parts[i].to
    requires j in parts && parts[j].absence != parts[marks[n].index].absence
    ensures Active(parts, marks, n, j) <==>
      var p := Pair(parts, marks[n].index, j);
      StartOf(parts, j) in marks[..n] && Meet(parts, p.0, p.1)
  {
    var i := marks[n].index;
    assert marks[n] in marks;
    MarkBefore(marks, n, StartOf(parts, j));
    MarkBefore(marks, n, EndOf(parts, j));
  }

  ghost predicate Reported(parts: map<int, Part>, marks: seq<Mark>, n: nat, pairs: seq<(int, int)>)
    requires n <= |marks|
  {
    && (forall p :: p in pairs <==> Begun(parts, marks, n, p))
    && (forall i, j :: 0 <= i < j < |pairs| ==> pairs[i] != pairs[j])
  }

  /** The sweep: every pair is reported once, when the later of the two begins. */
  method Sweep(parts: map<int, Part>, marks: seq<Mark>) returns (pairs: seq<(int, int)>)
    requires InOrder(marks) && Complete(parts, marks, parts.Keys)
    requires forall i :: i in parts ==> parts[i].from < parts[i].to
    ensures forall p: (int, int) :: p in pairs <==> Meet(parts, p.0, p.1)
    ensures forall i, j :: 0 <= i < j < |pairs| ==> pairs[i] != pairs[j]
  {
    pairs := [];
    var work: set<int>, absences: set<int> := {}, {};
    for n := 0 to |marks|
      invariant forall i :: i in work <==> Active(parts, marks, n, i) && !parts[i].absence
      invariant forall i :: i in absences <==> Active(parts, marks, n, i) && parts[i].absence
      invariant Reported(parts, marks, n, pairs)
    {
      var m := marks[n];
      assert m in marks;
      if m.starts {
        var met := OtherActive(parts, m.index, work, absences, parts[m.index].absence);
        ReportedMore(parts, marks, n, pairs, met, if parts[m.index].absence then work else absences);
        pairs := pairs + met;
      } else {
        ReportedSame(parts, marks, n, pairs);
      }
      hide Reported;
      StillActive(parts, marks, n);
      if m.starts {
        if parts[m.index].absence { absences := absences + {m.index}; } else { work := work + {m.index}; }
      } else {
        if parts[m.index].absence { absences := absences - {m.index}; } else { work := work - {m.index}; }
      }
    }
    assert marks[..|marks|] == marks;
  }

  method OtherActive(parts: map<int, Part>, i: int, work: set<int>, absences: set<int>, absence: bool)
    returns (met: seq<(int, int)>)
    requires i in parts && parts[i].absence == absence
    ensures forall p :: p in met <==> exists j :: j in (if absence then work else absences) && p == Pair(parts, i, j)
    ensures forall k, l :: 0 <= k < l < |met| ==> met[k] != met[l]
  {
    met := [];
    var others := if absence then work else absences;
    var left := others;
    while left != {}
      invariant left <= others
      invariant forall p :: p in met <==> exists j :: j in others - left && p == Pair(parts, i, j)
      invariant forall k, l :: 0 <= k < l < |met| ==> met[k] != met[l]
      decreases left
    {
      HasElement(left);
      var j :| j in left;
      assert Pair(parts, i, j) !in met;
      met := met + [Pair(parts, i, j)];
      left := left - {j};
    }
    assert others - {} == others;
  }

  lemma StillActive(parts: map<int, Part>, marks: seq<Mark>, n: nat)
    requires InOrder(marks) && Complete(parts, marks, parts.Keys) && n < |marks|
    requires forall i :: i in parts ==> parts[i].from < parts[i].to
    ensures forall i :: Active(parts, marks, n + 1, i) <==>
      (Active(parts, marks, n, i) && !(i == marks[n].index && !marks[n].starts))
        || (i == marks[n].index && marks[n].starts)
  {
    assert marks[n] in marks;
    forall i | i in parts
      ensures Active(parts, marks, n + 1, i) <==>
        (Active(parts, marks, n, i) && !(i == marks[n].index && !marks[n].starts))
        || (i == marks[n].index && marks[n].starts)
    {
      MarkBefore(marks, n, StartOf(parts, i));
      MarkBefore(marks, n, EndOf(parts, i));
    }
  }

  lemma ReportedSame(parts: map<int, Part>, marks: seq<Mark>, n: nat, pairs: seq<(int, int)>)
    requires InOrder(marks) && Complete(parts, marks, parts.Keys) && n < |marks| && !marks[n].starts
    requires Reported(parts, marks, n, pairs)
    ensures Reported(parts, marks, n + 1, pairs)
  {
    forall p: (int, int) ensures Begun(parts, marks, n + 1, p) <==> Begun(parts, marks, n, p) {
      if Meet(parts, p.0, p.1) {
        MarkBefore(marks, n, StartOf(parts, p.0));
        MarkBefore(marks, n, StartOf(parts, p.1));
      }
    }
  }

  lemma ReportedMore(parts: map<int, Part>, marks: seq<Mark>, n: nat, pairs: seq<(int, int)>, met: seq<(int, int)>,
                     others: set<int>)
    requires InOrder(marks) && Complete(parts, marks, parts.Keys) && n < |marks| && marks[n].starts
    requires forall i :: i in parts ==> parts[i].from < parts[i].to
    requires marks[n].index in parts
    requires forall j :: j in others <==>
      Active(parts, marks, n, j) && parts[j].absence != parts[marks[n].index].absence
    requires forall p :: p in met <==> exists j :: j in others && p == Pair(parts, marks[n].index, j)
    requires forall k, l :: 0 <= k < l < |met| ==> met[k] != met[l]
    requires Reported(parts, marks, n, pairs)
    ensures Reported(parts, marks, n + 1, pairs + met)
  {
    var i := marks[n].index;
    assert marks[n] in marks;
    forall p ensures p in met <==> Begun(parts, marks, n + 1, p) && !Begun(parts, marks, n, p) {
      MetExactly(parts, marks, n, others, p);
    }
    forall p | Begun(parts, marks, n, p) ensures Begun(parts, marks, n + 1, p) {
      MarkBefore(marks, n, StartOf(parts, p.0));
      MarkBefore(marks, n, StartOf(parts, p.1));
    }
    hide InOrder, Complete, Begun, Active;
    var all := pairs + met;
    forall k, l | 0 <= k < l < |all| ensures all[k] != all[l] {
      if k < |pairs| <= l {
        assert all[k] in pairs && all[l] in met;
      }
    }
  }

  lemma MetExactly(parts: map<int, Part>, marks: seq<Mark>, n: nat, others: set<int>, p: (int, int))
    requires InOrder(marks) && Complete(parts, marks, parts.Keys) && n < |marks| && marks[n].starts
    requires forall i :: i in parts ==> parts[i].from < parts[i].to
    requires marks[n].index in parts && marks[n] == StartOf(parts, marks[n].index)
    requires forall j :: j in others <==>
      Active(parts, marks, n, j) && parts[j].absence != parts[marks[n].index].absence
    ensures (exists j :: j in others && p == Pair(parts, marks[n].index, j)) <==>
      Begun(parts, marks, n + 1, p) && !Begun(parts, marks, n, p)
  {
    var i := marks[n].index;
    MarkBefore(marks, n, StartOf(parts, i));
    if j :| j in others && p == Pair(parts, i, j) {
      MetAtStart(parts, marks, n, j);
      MarkBefore(marks, n, StartOf(parts, j));
    }
    if Begun(parts, marks, n + 1, p) && !Begun(parts, marks, n, p) {
      MarkBefore(marks, n, StartOf(parts, p.0));
      MarkBefore(marks, n, StartOf(parts, p.1));
      var j := if p.0 == i then p.1 else p.0;
      MetAtStart(parts, marks, n, j);
      assert j in others && p == Pair(parts, i, j);
    }
  }

  // --- Bookings ---

  /** The finished bookings of a user that take any time, by position. */
  function PartsOf(z: Zone, rows: seq<Row>, user: int): map<int, Part> {
    map i | 0 <= i < |rows| && Takes(z, rows[i].record, user) :: PartOf(z, rows[i].record)
  }

  predicate Takes(z: Zone, r: Record, user: int) {
    r.user == user && Calculate(z, r).Completed? && Span(z, r).0 < Span(z, r).1
  }

  function PartOf(z: Zone, r: Record): Part {
    Part(Span(z, r).0, Span(z, r).1, IsAbsence(r))
  }

  /** The pairs of one user's bookings that are in conflict, by position. */
  ghost predicate ConflictAt(z: Zone, rows: seq<Row>, w: int, a: int) {
    && 0 <= w < |rows| && 0 <= a < |rows| && rows[w].record.user == rows[a].record.user
    && Conflict(z, rows[w].record, rows[a].record)
  }

  /** All users, one sweep each: exactly the conflicting pairs, each once. */
  method AbsenceConflicts(z: Zone, rows: seq<Row>) returns (pairs: seq<(int, int)>)
    ensures forall p: (int, int) :: p in pairs <==> ConflictAt(z, rows, p.0, p.1)
    ensures forall i, j :: 0 <= i < j < |pairs| ==> pairs[i] != pairs[j]
  {
    hide Conflict, Takes, PartOf;
    pairs := [];
    var users := set i | 0 <= i < |rows| :: rows[i].record.user;
    var left := users;
    while left != {}
      invariant left <= users
      invariant forall p: (int, int) :: p in pairs <==> ConflictAt(z, rows, p.0, p.1) && rows[p.0].record.user !in left
      invariant forall i, j :: 0 <= i < j < |pairs| ==> pairs[i] != pairs[j]
      decreases left
    {
      HasElement(left);
      var user :| user in left;
      var parts := PartsOf(z, rows, user);
      PartsLast(z, rows, user);
      var marks := Timeline(parts);
      var found := Sweep(parts, marks);
      forall p: (int, int) ensures p in found <==> ConflictAt(z, rows, p.0, p.1) && rows[p.0].record.user == user {
        MeetIsConflict(z, rows, user, p.0, p.1);
      }
      pairs := pairs + found;
      left := left - {user};
    }
  }

  lemma PartsLast(z: Zone, rows: seq<Row>, user: int)
    ensures forall i :: i in PartsOf(z, rows, user) ==> PartsOf(z, rows, user)[i].from < PartsOf(z, rows, user)[i].to
  {
  }

  lemma MeetIsConflict(z: Zone, rows: seq<Row>, user: int, w: int, a: int)
    ensures Meet(PartsOf(z, rows, user), w, a) <==> ConflictAt(z, rows, w, a) && rows[w].record.user == user
  {
  }

  /** The instant belongs to the work and to the local day of the absence. */
  predicate Shared(z: Zone, work: Record, credit: Record, t: int) {
    && work.start <= t && (work.end.Some? ==> t < work.end.value)
    && z.midnight(z.DayOf(credit.start)) <= t < z.midnight(z.DayOf(credit.start) + 1)
  }

  /** Being in conflict means to share an instant: finished work and a finished whole-day absence, both taking time. */
  lemma ConflictExactly(z: Zone, work: Record, credit: Record)
    ensures Conflict(z, work, credit) <==>
      && Calculate(z, work).Completed? && Calculate(z, credit).Completed? && !IsAbsence(work) && IsAbsence(credit)
      && exists t :: Shared(z, work, credit, t)
  {
    if Conflict(z, work, credit) {
      var from := Span(z, credit).0;
      var t := if work.start < from then from else work.start;
      assert Shared(z, work, credit, t);
    }
  }
}
