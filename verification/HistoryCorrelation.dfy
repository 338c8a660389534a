/**
 * The bounded graph of sessions, events and requests around selected journal
 * rows (lib/history_correlation.php) and the checks its exporter makes
 * (lib/history_export.php).  Query results are arbitrary lists of at most 101
 * rows, so nothing rests on what a query promises to return.
 */
module HistoryCorrelation {
  import opened Wrappers
  import opened KeyedRows
  import Attendance

  const MOST := 100

  // --- Rows as queries return them; a value that is no integer is absent ---

  datatype Entity = BookingEntity | SessionEntity | BreakEntity | RequestEntity

  /** The structural reference read from the two stored images of a journal row. */
  datatype Snapshot = Snapshot(valid: bool, id: Option<int>)

  datatype AnchorRow = AnchorRow(id: Option<int>, entity: Option<Entity>, owner: Option<int>, record: Option<int>,
                                 snapshot: Snapshot)

  datatype SessionRow = SessionRow(id: Option<int>, owner: Option<int>, record: Option<int>)

  datatype BookingRow = BookingRow(owner: Option<int>, record: Option<int>)

  datatype EventRow = EventRow(id: Option<int>, eventId: Option<string>, owner: Option<int>, session: Option<int>,
                               kind: Option<string>, received: Option<int>)

  /** The booking column may be empty, which is different from unreadable. */
  datatype RequestRow = RequestRow(id: Option<int>, owner: Option<int>, record: Option<Option<int>>, status: string,
                                   cancel: Option<int>)

  // --- What is kept of them ---

  datatype Anchor = Anchor(id: int, entity: Entity, owner: int, record: int, seed: Option<int>, historical: Option<int>)

  datatype Session = Session(id: int, owner: int, record: int)

  datatype Event = Event(id: int, eventId: string, owner: int, session: int, kind: string, received: int)

  datatype Request = Request(id: int, owner: int, record: Option<int>, status: string, cancel: int)

  datatype Status = Linked | Unresolved | NotApplicable

  datatype Links = Links(id: int, status: Status, sessions: seq<int>, events: seq<int>, requests: seq<int>,
                         current: bool)

  datatype Graph = Graph(anchors: seq<Links>, sessions: seq<Session>, events: seq<Event>, requests: seq<Request>)

  function Integer(raw: Option<int>, minimum: int): Option<int> {
    if raw.Some? && raw.value >= minimum then raw else None
  }

  /** One row more than fits is the sign of truncation and is dropped. */
  function Limited<T(!new)>(rows: seq<T>): (kept: seq<T>)
    ensures |rows| <= MOST ==> kept == rows
    ensures |rows| == MOST + 1 ==> kept == rows[..MOST]
    ensures forall r :: r in kept ==> r in rows
  {
    if |rows| > MOST then rows[..|rows| - 1] else rows
  }

  /** The part of a collection that satisfies a condition, in order. */
  function Filter<T(!new)>(list: seq<T>, keep: T -> bool): (r: seq<T>)
    ensures |r| <= |list|
    ensures forall x :: x in r <==> x in list && keep(x)
  {
    if list == [] then []
    else Filter(list[..|list| - 1], keep) + (if keep(list[|list| - 1]) then [list[|list| - 1]] else [])
  }

  function SessionOf(r: SessionRow): Option<Session> {
    var id, owner, record := Integer(r.id, 1), Integer(r.owner, 1), Integer(r.record, 1);
    if id.None? || owner.None? || record.None? then None else Some(Session(id.value, owner.value, record.value))
  }

  predicate KnownKind(kind: string) {
    kind == "start" || kind == "pause_start" || kind == "pause_end" || kind == "end"
  }

  function EventOf(r: EventRow): Option<Event> {
    var id, owner, session := Integer(r.id, 1), Integer(r.owner, 1), Integer(r.session, 1);
    var received := Integer(r.received, 0);
    if id.None? || owner.None? || session.None? || received.None? || r.eventId.None? || r.kind.None? then None
    else if !Attendance.ValidEventId(r.eventId.value) || !KnownKind(r.kind.value) then None
    else Some(Event(id.value, r.eventId.value, owner.value, session.value, r.kind.value, received.value))
  }

  predicate KnownStatus(status: string) {
    status == "pending" || status == "approved" || status == "rejected" || status == "withdrawn"
  }

  datatype ReadRequest = Skipped | Bad(owner: int, id: int) | Good(request: Request)

  function RequestOf(r: RequestRow): ReadRequest {
    var id, owner, cancel := Integer(r.id, 1), Integer(r.owner, 1), Integer(r.cancel, 0);
    if id.None? || owner.None? then Skipped
    else
      var record := if r.record.None? then None else Integer(r.record.value, 1);
      if (r.record.Some? && record.None?) || !KnownStatus(r.status) || cancel.None? || cancel.value > 1
        then Bad(owner.value, id.value)
      else Good(Request(id.value, owner.value, record, r.status, cancel.value))
  }

  /** A session is read exactly from a row with these three positive numbers. */
  lemma SessionReadExactly(r: SessionRow, s: Session)
    ensures SessionOf(r) == Some(s) <==>
      r == SessionRow(Some(s.id), Some(s.owner), Some(s.record)) && 1 <= s.id && 1 <= s.owner && 1 <= s.record
  {
  }

  /** An event is read exactly from a row with its six columns, the numbers positive and the texts well formed. */
  lemma EventReadExactly(r: EventRow, e: Event)
    ensures EventOf(r) == Some(e) <==>
      && r == EventRow(Some(e.id), Some(e.eventId), Some(e.owner), Some(e.session), Some(e.kind), Some(e.received))
      && 1 <= e.id && 1 <= e.owner && 1 <= e.session && 0 <= e.received && Attendance.ValidEventId(e.eventId)
      && e.kind in {"start", "pause_start", "pause_end", "end"}
  {
    hide Attendance.ValidEventId;
  }

  /** A request is read exactly from its own columns, the booking column empty or a positive number. */
  lemma RequestReadExactly(r: RequestRow, q: Request)
    ensures RequestOf(r) == Good(q) <==>
      && r == RequestRow(Some(q.id), Some(q.owner), if q.record.None? then None else Some(q.record), q.status,
                         Some(q.cancel))
      && 1 <= q.id && 1 <= q.owner && (q.record.Some? ==> 1 <= q.record.value) && 0 <= q.cancel <= 1
      && q.status in {"pending", "approved", "rejected", "withdrawn"}
  {
  }

  /** A row with readable numbers that is no request is remembered as damaged under those numbers. */
  lemma RequestDamagedExactly(r: RequestRow, owner: int, id: int)
    ensures RequestOf(r) == Bad(owner, id) <==>
      && r.id == Some(id) && r.owner == Some(owner) && 1 <= id && 1 <= owner
      && forall q :: RequestOf(r) != Good(q)
  {
    if r.id == Some(id) && r.owner == Some(owner) && 1 <= id && 1 <= owner && RequestOf(r).Good? {
      assert RequestOf(r) == Good(RequestOf(r).request);
    }
  }

  // --- Staging ---

  predicate SoundRequest(q: Request) {
    1 <= q.id && 1 <= q.owner && (q.record.Some? ==> 1 <= q.record.value) && KnownStatus(q.status) && 0 <= q.cancel <= 1
  }

  predicate SoundEvent(e: Event) {
    1 <= e.id && 1 <= e.session && Attendance.ValidEventId(e.eventId) && KnownKind(e.kind) && 0 <= e.received
  }

  predicate SoundSession(s: Session) {
    1 <= s.id && 1 <= s.record
  }

  function SessionKey(s: Session): int {
    s.id
  }

  function EventKey(e: Event): int {
    e.id
  }

  function RequestKey(q: Request): (int, int) {
    (q.owner, q.id)
  }

  method StageSessions(rows: seq<SessionRow>) returns (sessions: seq<Session>)
    ensures sessions == Stored([], rows, SessionOf, SessionKey)
    ensures forall s :: s in sessions <==> exists i :: Newest(rows, SessionOf, SessionKey, s, i)
    ensures forall s :: s in sessions ==> SoundSession(s)
  {
    sessions := [];
    for i := 0 to |rows|
      invariant sessions == Stored([], rows[..i], SessionOf, SessionKey)
    {
      assert rows[..i + 1][..i] == rows[..i];
      var s := SessionOf(rows[i]);
      if s.Some? {
        sessions := Put(sessions, s.value, SessionKey);
      }
    }
    assert rows[..|rows|] == rows;
    SessionsSound(rows);
  }

  lemma SessionsSound(rows: seq<SessionRow>)
    ensures Distinct(Stored([], rows, SessionOf, SessionKey), SessionKey)
    ensures forall s :: s in Stored([], rows, SessionOf, SessionKey) <==>
      exists i :: Newest(rows, SessionOf, SessionKey, s, i)
    ensures forall s :: s in Stored([], rows, SessionOf, SessionKey) ==> SoundSession(s)
  {
    StoredExactly([], rows, SessionOf, SessionKey);
  }

  method StageEvents(rows: seq<EventRow>) returns (events: seq<Event>)
    ensures events == Stored([], rows, EventOf, EventKey)
    ensures forall e :: e in events <==> exists i :: Newest(rows, EventOf, EventKey, e, i)
    ensures Distinct(events, EventKey) && forall e :: e in events ==> SoundEvent(e)
  {
    events := [];
    for i := 0 to |rows|
      invariant events == Stored([], rows[..i], EventOf, EventKey)
    {
      assert rows[..i + 1][..i] == rows[..i];
      var e := EventOf(rows[i]);
      if e.Some? {
        events := Put(events, e.value, EventKey);
      }
    }
    assert rows[..|rows|] == rows;
    EventsSound(rows);
  }

  lemma EventsSound(rows: seq<EventRow>)
    ensures Distinct(Stored([], rows, EventOf, EventKey), EventKey)
    ensures forall e :: e in Stored([], rows, EventOf, EventKey) <==> exists i :: Newest(rows, EventOf, EventKey, e, i)
    ensures forall e :: e in Stored([], rows, EventOf, EventKey) ==> SoundEvent(e)
  {
    StoredExactly([], rows, EventOf, EventKey);
  }

  function GoodOf(r: RequestRow): Option<Request> {
    var q := RequestOf(r);
    if q.Good? then Some(q.request) else None
  }

  /** A request that names a booking. */
  function BookedOf(r: RequestRow): Option<Request> {
    var q := GoodOf(r);
    if q.Some? && q.value.record.Some? then q else None
  }

  /** The keys of unreadable requests. */
  function BadKeys(rows: seq<RequestRow>): set<(int, int)> {
    set r | r in rows && RequestOf(r).Bad? :: (RequestOf(r).owner, RequestOf(r).id)
  }

  lemma BadLonger(rows: seq<RequestRow>, i: nat)
    requires i < |rows|
    ensures BadKeys(rows[..i + 1]) == BadKeys(rows[..i]) +
      (if RequestOf(rows[i]).Bad? then {(RequestOf(rows[i]).owner, RequestOf(rows[i]).id)} else {})
  {
    hide RequestOf;
    assert forall r :: r in rows[..i + 1] <==> r in rows[..i] || r == rows[i];
  }

  lemma NoneBad()
    ensures BadKeys([]) == {}
  {
  }

  /** The requests named by anchors, and the keys of those that are unreadable. */
  method StageDirect(rows: seq<RequestRow>) returns (direct: seq<Request>, bad: set<(int, int)>)
    ensures direct == Stored([], rows, GoodOf, RequestKey)
    ensures bad == BadKeys(rows)
  {
    direct, bad := [], {};
    NoneBad();
    hide BadKeys, RequestOf;
    for i := 0 to |rows|
      invariant direct == Stored([], rows[..i], GoodOf, RequestKey)
      invariant bad == BadKeys(rows[..i])
    {
      assert rows[..i + 1][..i] == rows[..i];
      BadLonger(rows, i);
      match RequestOf(rows[i])
      case Skipped =>
      case Bad(owner, id) => bad := bad + {(owner, id)};
      case Good(q) => direct := Put(direct, q, RequestKey);
    }
    assert rows[..|rows|] == rows;
  }

  predicate ReadableBooking(r: BookingRow) {
    Integer(r.owner, 1).Some? && Integer(r.record, 1).Some?
  }

  /** The bookings whose owner is known, from sessions or from their own rows. */
  function Owned(sessions: seq<Session>, rows: seq<BookingRow>): set<(int, int)> {
    (set s | s in sessions :: (s.owner, s.record)) +
    (set r | r in rows && ReadableBooking(r) :: (r.owner.value, r.record.value))
  }

  method OwnedBookings(sessions: seq<Session>, rows: seq<BookingRow>) returns (owned: set<(int, int)>)
    ensures owned == Owned(sessions, rows)
  {
    owned := set s | s in sessions :: (s.owner, s.record);
    for i := 0 to |rows|
      invariant owned == Owned(sessions, rows[..i])
    {
      assert rows[..i + 1] == rows[..i] + [rows[i]];
      assert forall r :: r in rows[..i + 1] <==> r in rows[..i] || r == rows[i];
      var owner, record := Integer(rows[i].owner, 1), Integer(rows[i].record, 1);
      if owner.Some? && record.Some? {
        owned := owned + {(owner.value, record.value)};
      }
    }
    assert rows[..|rows|] == rows;
  }

  /** A booking counts as owned exactly when a staged session or a readable row of its own says so. */
  lemma OwnedExactly(sessions: seq<Session>, rows: seq<BookingRow>, owner: int, record: int)
    ensures (owner, record) in Owned(sessions, rows) <==>
      || (exists s :: s in sessions && s.owner == owner && s.record == record)
      || (BookingRow(Some(owner), Some(record)) in rows && 1 <= owner && 1 <= record)
  {
    if BookingRow(Some(owner), Some(record)) in rows && 1 <= owner && 1 <= record {
      assert ReadableBooking(BookingRow(Some(owner), Some(record)));
    }
  }

  lemma DamagedExactly(rows: seq<RequestRow>, owner: int, id: int)
    ensures (owner, id) in BadKeys(rows) <==> exists r :: r in rows && RequestOf(r) == Bad(owner, id)
  {
    hide RequestOf;
  }

  function SessionWithin(owned: set<(int, int)>): Session -> bool {
    (s: Session) => (s.owner, s.record) in owned
  }

  function RequestWithin(owned: set<(int, int)>): Request -> bool {
    (q: Request) => q.record.None? || (q.owner, q.record.value) in owned
  }

  /** A stable insertion by number. */
  function Inserted(sorted: seq<Request>, q: Request): (r: seq<Request>)
    ensures |r| == |sorted| + 1
    ensures forall x :: x in r <==> x in sorted || x == q
  {
    if sorted == [] || sorted[|sorted| - 1].id <= q.id then sorted + [q]
    else Inserted(sorted[..|sorted| - 1], q) + [sorted[|sorted| - 1]]
  }

  function Sorted(all: seq<Request>): (r: seq<Request>)
    ensures |r| == |all| && forall q :: q in r <==> q in all
  {
    if all == [] then [] else Inserted(Sorted(all[..|all| - 1]), all[|all| - 1])
  }

  function FirstByNumber(all: seq<Request>): (r: seq<Request>)
    ensures |r| <= MOST && forall q :: q in r ==> q in all
    ensures |all| <= MOST ==> forall q :: q in r <==> q in all
  {
    if |all| > MOST then Sorted(all)[..MOST] else Sorted(all)
  }

  ghost predicate Ascending(list: seq<Request>) {
    forall i, j :: 0 <= i < j < |list| ==> list[i].id <= list[j].id
  }

  function WithNumber(list: seq<Request>, id: int): seq<Request> {
    if list == [] then []
    else WithNumber(list[..|list| - 1], id) + (if list[|list| - 1].id == id then [list[|list| - 1]] else [])
  }

  lemma {:induction false} InsertedAscending(sorted: seq<Request>, q: Request)
    requires Ascending(sorted)
    ensures Ascending(Inserted(sorted, q))
  {
    if sorted != [] && sorted[|sorted| - 1].id > q.id {
      var front, last := sorted[..|sorted| - 1], sorted[|sorted| - 1];
      InsertedAscending(front, q);
      var rest := Inserted(front, q);
      forall i | 0 <= i < |rest| ensures rest[i].id <= last.id {
        assert rest[i] in rest;
      }
    }
  }

  /** A new request comes after those that have the same number. */
  lemma {:induction false} InsertedLast(sorted: seq<Request>, q: Request, id: int)
    requires Ascending(sorted)
    ensures WithNumber(Inserted(sorted, q), id) == WithNumber(sorted, id) + (if q.id == id then [q] else [])
  {
    if sorted == [] || sorted[|sorted| - 1].id <= q.id {
      assert (sorted + [q])[..|sorted|] == sorted;
    } else {
      var front, last := sorted[..|sorted| - 1], sorted[|sorted| - 1];
      InsertedLast(front, q, id);
      var rest := Inserted(front, q);
      assert (rest + [last])[..|rest|] == rest;
    }
  }

  /** The requests in ascending order; those with one number, which belong to different owners, stay in their order. */
  lemma {:induction false} SortedStable(all: seq<Request>, id: int)
    ensures Ascending(Sorted(all))
    ensures WithNumber(Sorted(all), id) == WithNumber(all, id)
  {
    if all != [] {
      SortedStable(all[..|all| - 1], id);
      InsertedAscending(Sorted(all[..|all| - 1]), all[|all| - 1]);
      InsertedLast(Sorted(all[..|all| - 1]), all[|all| - 1], id);
    }
  }

  /** A hundred requests are kept at most, and none that is left out has a lower number than one that is kept. */
  lemma FirstExactly(all: seq<Request>)
    ensures |FirstByNumber(all)| == if |all| < 100 then |all| else 100
    ensures FirstByNumber(all) <= Sorted(all)
    ensures forall i, j :: 0 <= i < |FirstByNumber(all)| <= j < |all| ==> FirstByNumber(all)[i].id <= Sorted(all)[j].id
  {
    SortedStable(all, 0);
  }

  /** The requests with an owned booking or none. */
  method WithinOwned(direct: seq<Request>, owned: set<(int, int)>) returns (within: seq<Request>)
    ensures within == Filter(direct, RequestWithin(owned))
  {
    within := [];
    for i := 0 to |direct|
      invariant within == Filter(direct[..i], RequestWithin(owned))
    {
      assert direct[..i + 1][..i] == direct[..i];
      if direct[i].record.None? || (direct[i].owner, direct[i].record.value) in owned {
        within := within + [direct[i]];
      }
    }
    assert direct[..|direct|] == direct;
  }

  method SortByNumber(all: seq<Request>) returns (requests: seq<Request>)
    ensures requests == Sorted(all)
  {
    requests := [];
    for i := 0 to |all|
      invariant requests == Sorted(all[..i])
    {
      assert all[..i + 1][..i] == all[..i];
      requests := Inserted(requests, all[i]);
    }
    assert all[..|all|] == all;
  }

  /** Direct requests with an owned booking or none, then all requests of owned bookings; the first 100 by number. */
  method StageRequests(direct: seq<Request>, rows: seq<RequestRow>, owned: set<(int, int)>)
    returns (requests: seq<Request>)
    ensures requests == FirstByNumber(Stored(Filter(direct, RequestWithin(owned)), rows, BookedOf, RequestKey))
  {
    hide Filter, Sorted;
    var all := WithinOwned(direct, owned);
    ghost var start := all;
    for i := 0 to |rows|
      invariant all == Stored(start, rows[..i], BookedOf, RequestKey)
    {
      assert rows[..i + 1][..i] == rows[..i];
      var q := RequestOf(rows[i]);
      if q.Good? && q.request.record.Some? {
        all := Put(all, q.request, RequestKey);
      }
    }
    assert rows[..|rows|] == rows;
    requests := SortByNumber(all);
    if |requests| > MOST {
      requests := requests[..MOST];
    }
  }

  /** What is in all the requests before the cut: the newest row of its key, or a direct one no such row replaces. */
  lemma RequestsExactly(direct: seq<RequestRow>, rows: seq<RequestRow>, owned: set<(int, int)>)
    ensures var all := AllRequests(direct, rows, owned);
      && Distinct(all, RequestKey)
      && (forall q :: q in all ==> SoundRequest(q))
      && (forall q :: q in all <==>
            || (exists i :: Newest(rows, BookedOf, RequestKey, q, i))
            || ((exists i :: Newest(direct, GoodOf, RequestKey, q, i))
                && (q.record.None? || (q.owner, q.record.value) in owned)
                && !KeyRead(rows, BookedOf, RequestKey, RequestKey(q))))
  {
    var named := Stored([], direct, GoodOf, RequestKey);
    var within := Filter(named, RequestWithin(owned));
    StoredExactly([], direct, GoodOf, RequestKey);
    FilterDistinct(named, RequestWithin(owned), RequestKey);
    StoredExactly(within, rows, BookedOf, RequestKey);
    forall q | q in AllRequests(direct, rows, owned) ensures SoundRequest(q) {
      if i :| Newest(rows, BookedOf, RequestKey, q, i) {
        BookedSound(rows[i]);
      } else {
        var i :| Newest(direct, GoodOf, RequestKey, q, i);
        BookedSound(direct[i]);
      }
    }
    hide KeyRead, Distinct, SoundRequest, Newest, Stored, BookedOf, GoodOf;
  }

  lemma BookedSound(r: RequestRow)
    ensures GoodOf(r).Some? ==> SoundRequest(GoodOf(r).value)
    ensures BookedOf(r).Some? ==> BookedOf(r) == GoodOf(r)
  {
  }

  /** Everything the two queries for requests yield. */
  function AllRequests(direct: seq<RequestRow>, rows: seq<RequestRow>, owned: set<(int, int)>): seq<Request> {
    Stored(Filter(Stored([], direct, GoodOf, RequestKey), RequestWithin(owned)), rows, BookedOf, RequestKey)
  }

  lemma {:induction false} FilterDistinct<T(!new), K>(list: seq<T>, keep: T -> bool, key: T -> K)
    requires Distinct(list, key)
    ensures Distinct(Filter(list, keep), key)
  {
    if list != [] {
      var front, last := list[..|list| - 1], list[|list| - 1];
      FilterDistinct(front, keep, key);
      forall i | 0 <= i < |Filter(front, keep)| ensures key(Filter(front, keep)[i]) != key(last) {
        assert Filter(front, keep)[i] in front;
      }
    }
  }

  // --- Anchors ---

  datatype ReadAnchor = Ignored | OutOfScope(id: int) | Usable(anchor: Anchor)

  /** Where an anchor leads to first: its booking, its session, or its request. */
  function AnchorOf(r: AnchorRow, wanted: seq<int>): ReadAnchor {
    var id, owner, record := Integer(r.id, 1), Integer(r.owner, 1), Integer(r.record, 1);
    if id.None? || id.value !in wanted then Ignored
    else if r.entity.None? then OutOfScope(id.value)
    else if owner.None? || record.None? then Ignored
    else
      match r.entity.value
      case BookingEntity => Usable(Anchor(id.value, BookingEntity, owner.value, record.value, record, None))
      case SessionEntity => Usable(Anchor(id.value, SessionEntity, owner.value, record.value, record, None))
      case BreakEntity =>
        if !r.snapshot.valid || r.snapshot.id.None? then Ignored
        else Usable(Anchor(id.value, BreakEntity, owner.value, record.value, r.snapshot.id, None))
      case RequestEntity =>
        if !r.snapshot.valid then Ignored
        else Usable(Anchor(id.value, RequestEntity, owner.value, record.value, None, r.snapshot.id))
  }

  /**
   * An anchor is read exactly from a wanted row of one of the four tables with its owner and record: a booking and a
   * session stand for themselves, a break for the session its images name, a request for the booking they name.
   */
  lemma AnchorReadExactly(r: AnchorRow, wanted: seq<int>, a: Anchor)
    ensures AnchorOf(r, wanted) == Usable(a) <==>
      && a.id in wanted && 1 <= a.id && 1 <= a.owner && 1 <= a.record
      && r.id == Some(a.id) && r.entity == Some(a.entity) && r.owner == Some(a.owner) && r.record == Some(a.record)
      && (a.entity == BookingEntity || a.entity == SessionEntity ==> a.seed == Some(a.record) && a.historical.None?)
      && (a.entity == BreakEntity ==>
           r.snapshot.valid && a.seed.Some? && a.seed == r.snapshot.id && a.historical.None?)
      && (a.entity == RequestEntity ==> r.snapshot.valid && a.seed.None? && a.historical == r.snapshot.id)
    ensures forall id :: AnchorOf(r, wanted) == OutOfScope(id) <==>
      r.id == Some(id) && 1 <= id && id in wanted && r.entity.None?
  {
  }

  function FindRequest(requests: seq<Request>, owner: int, id: int): Option<Request> {
    if requests == [] then None
    else if requests[0].owner == owner && requests[0].id == id then Some(requests[0])
    else FindRequest(requests[1..], owner, id)
  }

  function FindSession(sessions: seq<Session>, id: int): Option<Session> {
    if sessions == [] then None
    else if sessions[0].id == id then Some(sessions[0])
    else FindSession(sessions[1..], id)
  }

  /** The booking an anchor stands for, its own request if it is one, and whether only the current row relates it. */
  datatype Focus = Lost | Focus(booking: Option<int>, direct: Option<int>, current: bool)

  function FocusOf(a: Anchor, sessions: seq<Session>, requests: seq<Request>, bad: set<(int, int)>,
                   owned: set<(int, int)>): Focus {
    var focus :=
      match a.entity
      case BookingEntity => Focus(a.seed, None, false)
      case RequestEntity =>
        var direct := FindRequest(requests, a.owner, a.record);
        if direct.None? || (a.owner, a.record) in bad then Lost
        else if a.historical.Some? && a.historical != direct.value.record then Lost
        else Focus(direct.value.record, Some(direct.value.id), direct.value.record.Some? && a.historical.None?)
      case _ =>
        var session := if a.seed.None? then None else FindSession(sessions, a.seed.value);
        if session.None? || session.value.owner != a.owner then Lost
          else Focus(Some(session.value.record), None, false);
    if focus.Focus? && focus.booking.Some? && (a.owner, focus.booking.value) !in owned then Lost else focus
  }

  ghost predicate SessionOfOwner(sessions: seq<Session>, owner: int, id: int) {
    exists s :: s in sessions && s.id == id && s.owner == owner
  }

  ghost predicate EventOfOwner(events: seq<Event>, owner: int, id: int, among: seq<int>) {
    exists e :: e in events && e.id == id && e.owner == owner && e.session in among
  }

  ghost predicate RequestOfOwner(requests: seq<Request>, owner: int, id: int) {
    exists q :: q in requests && q.id == id && q.owner == owner
  }

  /** All linked numbers belong to the anchor's owner, and every linked event lies in a linked session. */
  ghost predicate OwnLinks(l: Links, owner: int, sessions: seq<Session>, events: seq<Event>, requests: seq<Request>) {
    && |l.sessions| <= MOST && |l.events| <= MOST && |l.requests| <= MOST
    && (forall id :: id in l.sessions ==> SessionOfOwner(sessions, owner, id))
    && (forall id :: id in l.events ==> EventOfOwner(events, owner, id, l.sessions))
    && (forall id :: id in l.requests ==> RequestOfOwner(requests, owner, id))
  }

  /** The numbers of the owner's sessions of a booking, in their order. */
  function SessionIds(owner: int, booking: Option<int>, sessions: seq<Session>): (ids: seq<int>)
    ensures |ids| <= |sessions|
    ensures forall id :: id in ids <==>
      exists s :: s in sessions && s.id == id && s.owner == owner && booking == Some(s.record)
  {
    if sessions == [] then []
    else
      var s := sessions[|sessions| - 1];
      SessionIds(owner, booking, sessions[..|sessions| - 1])
      + (if s.owner == owner && booking == Some(s.record) then [s.id] else [])
  }

  /** The numbers of the owner's events in some sessions, in their order. */
  function EventIds(owner: int, among: seq<int>, events: seq<Event>): (ids: seq<int>)
    ensures |ids| <= |events|
    ensures forall id :: id in ids <==> EventOfOwner(events, owner, id, among)
  {
    if events == [] then []
    else
      var e := events[|events| - 1];
      var front := EventIds(owner, among, events[..|events| - 1]);
      assert forall f :: f in events <==> f in events[..|events| - 1] || f == e;
      front + (if e.owner == owner && e.session in among then [e.id] else [])
  }

  /** A request of the owner is linked for the booking, or because the anchor is that request. */
  predicate Concerns(focus: Focus, owner: int, q: Request)
    requires focus.Focus?
  {
    q.owner == owner && ((focus.booking.Some? && q.record == focus.booking) || focus.direct == Some(q.id))
  }

  function RequestIds(owner: int, focus: Focus, requests: seq<Request>): (ids: seq<int>)
    requires focus.Focus?
    ensures |ids| <= |requests|
    ensures forall id :: id in ids <==> exists q :: q in requests && q.id == id && Concerns(focus, owner, q)
  {
    if requests == [] then []
    else
      var q := requests[|requests| - 1];
      RequestIds(owner, focus, requests[..|requests| - 1]) + (if Concerns(focus, owner, q) then [q.id] else [])
  }

  method LinkSessions(owner: int, booking: Option<int>, sessions: seq<Session>) returns (ids: seq<int>)
    ensures ids == SessionIds(owner, booking, sessions)
    ensures forall id :: id in ids <==>
      exists s :: s in sessions && s.id == id && s.owner == owner && booking == Some(s.record)
  {
    ids := [];
    for i := 0 to |sessions|
      invariant ids == SessionIds(owner, booking, sessions[..i])
    {
      assert sessions[..i + 1][..i] == sessions[..i];
      if sessions[i].owner == owner && booking == Some(sessions[i].record) {
        ids := ids + [sessions[i].id];
      }
    }
    assert sessions[..|sessions|] == sessions;
  }

  method LinkEvents(owner: int, among: seq<int>, events: seq<Event>) returns (ids: seq<int>)
    ensures ids == EventIds(owner, among, events)
    ensures forall id :: id in ids <==> EventOfOwner(events, owner, id, among)
  {
    ids := [];
    for i := 0 to |events|
      invariant ids == EventIds(owner, among, events[..i])
    {
      assert events[..i + 1][..i] == events[..i];
      if events[i].owner == owner && events[i].session in among {
        ids := ids + [events[i].id];
      }
    }
    assert events[..|events|] == events;
  }

  method LinkRequests(owner: int, focus: Focus, requests: seq<Request>) returns (ids: seq<int>)
    requires focus.Focus?
    ensures ids == RequestIds(owner, focus, requests)
    ensures forall id :: id in ids <==> exists q :: q in requests && q.id == id && Concerns(focus, owner, q)
  {
    ids := [];
    for i := 0 to |requests|
      invariant ids == RequestIds(owner, focus, requests[..i])
    {
      assert requests[..i + 1][..i] == requests[..i];
      if Concerns(focus, owner, requests[i]) {
        ids := ids + [requests[i].id];
      }
    }
    assert requests[..|requests|] == requests;
  }

  /** Everything that is staged before links are made. */
  datatype Staged = Staged(
    anchors: map<int, Anchor>,
    outside: set<int>,
    bad: set<(int, int)>,
    owned: set<(int, int)>,
    sessions: seq<Session>,
    events: seq<Event>,
    requests: seq<Request>)
  {
    function Focus(a: Anchor): Focus {
      FocusOf(a, sessions, requests, bad, owned)
    }

    ghost predicate Bounded() {
      |sessions| <= MOST && |events| <= MOST && |requests| <= MOST
    }
  }

  /** An anchor to which nothing is linked. */
  function Unlinked(st: Staged, id: int): Links {
    Links(id, if id in st.outside then NotApplicable else Unresolved, [], [], [], false)
  }

  /** What the links of an anchor are: nothing without a focus, otherwise all that the focus leads to. */
  ghost predicate LinksOf(st: Staged, a: Anchor, l: Links) {
    var focus := st.Focus(a);
    if focus.Lost? then l == Unlinked(st, a.id)
    else
      var any := l.sessions != [] || l.events != [] || l.requests != [];
      && l.id == a.id
      && l.sessions == SessionIds(a.owner, focus.booking, st.sessions)
      && l.events == EventIds(a.owner, l.sessions, st.events)
      && l.requests == RequestIds(a.owner, focus, st.requests)
      && l.status == (if any then Linked else Unlinked(st, a.id).status)
      && l.current == (any && focus.current)
  }

  method LinkAnchor(a: Anchor, st: Staged) returns (l: Links)
    requires st.Bounded()
    ensures LinksOf(st, a, l)
    ensures OwnLinks(l, a.owner, st.sessions, st.events, st.requests)
  {
    l := Unlinked(st, a.id);
    var focus := st.Focus(a);
    if focus.Focus? {
      var sessionIds := LinkSessions(a.owner, focus.booking, st.sessions);
      var eventIds := LinkEvents(a.owner, sessionIds, st.events);
      var requestIds := LinkRequests(a.owner, focus, st.requests);
      var any := sessionIds != [] || eventIds != [] || requestIds != [];
      l := Links(a.id, if any then Linked else l.status, sessionIds, eventIds, requestIds, any && focus.current);
    }
  }

  /** The status shown: linked whenever anything is linked, otherwise whether the row was one that could be. */
  lemma StatusExactly(st: Staged, a: Anchor, l: Links)
    requires LinksOf(st, a, l)
    ensures l.status == Linked <==> |l.sessions| + |l.events| + |l.requests| > 0
    ensures l.status == NotApplicable <==> |l.sessions| + |l.events| + |l.requests| == 0 && a.id in st.outside
    ensures l.current ==> l.status == Linked && st.Focus(a).Focus? && st.Focus(a).current
    ensures l.status == Linked && st.Focus(a).Focus? && st.Focus(a).current ==> l.current
  {
    hide FocusOf;
  }

  /**
   * The booking that an anchor leads to is owned by the anchor's owner, and it is the anchor's own, the one of its
   * session, or the one its readable request names now, which must not differ from the one it named then.
   */
  lemma FocusExactly(st: Staged, a: Anchor, booking: int)
    requires OnePerKey(st.sessions, SessionKey) && OnePerKey(st.requests, RequestKey)
    ensures st.Focus(a).Focus? && st.Focus(a).booking == Some(booking) <==>
      && (a.owner, booking) in st.owned
      && match a.entity
         case BookingEntity => a.seed == Some(booking)
         case RequestEntity =>
           && (a.owner, a.record) !in st.bad
           && (exists q :: q in st.requests && q.owner == a.owner && q.id == a.record && q.record == Some(booking))
           && (a.historical.None? || a.historical == Some(booking))
         case _ => exists s :: s in st.sessions && a.seed == Some(s.id) && s.owner == a.owner && s.record == booking
  {
    FindRequestExactly(st.requests, a.owner, a.record);
    if a.seed.Some? {
      FindSessionExactly(st.sessions, a.seed.value);
    }
  }

  /**
   * When an anchor leads somewhere but to no booking, and what it carries besides a booking: a request leads to itself
   * too, even without a booking, and its relation is current when it names a booking now and named none then.
   */
  lemma FocusMarks(st: Staged, a: Anchor)
    requires OnePerKey(st.sessions, SessionKey) && OnePerKey(st.requests, RequestKey)
    ensures st.Focus(a).Focus? && st.Focus(a).booking.None? <==>
      || (a.entity == BookingEntity && a.seed.None?)
      || (&& a.entity == RequestEntity && (a.owner, a.record) !in st.bad && a.historical.None?
          && exists q :: q in st.requests && q.owner == a.owner && q.id == a.record && q.record.None?)
    ensures st.Focus(a).Focus? ==>
      && st.Focus(a).direct == (if a.entity == RequestEntity then Some(a.record) else None)
      && (st.Focus(a).current <==> a.entity == RequestEntity && st.Focus(a).booking.Some? && a.historical.None?)
  {
    FindRequestExactly(st.requests, a.owner, a.record);
  }

  /**
   * Everything an anchor with a focus links, said of the staged rows: the owner's sessions of the booking, the owner's
   * events in them, the owner's requests for the booking, and the request the anchor itself is.
   */
  lemma LinksExactly(st: Staged, a: Anchor, l: Links, id: int)
    requires OnePerKey(st.sessions, SessionKey) && OnePerKey(st.requests, RequestKey)
    requires LinksOf(st, a, l) && st.Focus(a).Focus?
    ensures id in l.sessions <==>
      exists s :: s in st.sessions && s.id == id && s.owner == a.owner && st.Focus(a).booking == Some(s.record)
    ensures id in l.events <==>
      exists e :: e in st.events && e.id == id && e.owner == a.owner && e.session in l.sessions
    ensures id in l.requests <==>
      exists q :: && q in st.requests && q.id == id && q.owner == a.owner
                  && ((q.record.Some? && st.Focus(a).booking == q.record)
                       || (a.entity == RequestEntity && id == a.record))
  {
    FocusMarks(st, a);
    hide FocusOf;
  }

  lemma {:induction false} FindRequestExactly(requests: seq<Request>, owner: int, id: int)
    requires OnePerKey(requests, RequestKey)
    ensures forall q :: FindRequest(requests, owner, id) == Some(q) <==> q in requests && q.owner == owner && q.id == id
  {
    if requests != [] {
      assert requests == [requests[0]] + requests[1..];
      assert OnePerKey(requests[1..], RequestKey);
      forall q | q in requests && q.owner == requests[0].owner && q.id == requests[0].id ensures q == requests[0] {
        assert RequestKey(q) == RequestKey(requests[0]);
      }
      FindRequestExactly(requests[1..], owner, id);
    }
  }

  lemma {:induction false} FindSessionExactly(sessions: seq<Session>, id: int)
    requires OnePerKey(sessions, SessionKey)
    ensures forall s :: FindSession(sessions, id) == Some(s) <==> s in sessions && s.id == id
  {
    if sessions != [] {
      assert sessions == [sessions[0]] + sessions[1..];
      assert OnePerKey(sessions[1..], SessionKey);
      forall s | s in sessions && s.id == sessions[0].id ensures s == sessions[0] {
        assert SessionKey(s) == SessionKey(sessions[0]);
      }
      FindSessionExactly(sessions[1..], id);
    }
  }

  // --- The whole graph ---

  function Positive(raw: Option<int>): Option<int> {
    Integer(raw, 1)
  }

  function Itself(id: int): int {
    id
  }

  function FirstHundred(raw: seq<Option<int>>): seq<Option<int>> {
    if |raw| > MOST then raw[..MOST] else raw
  }

  function WantedOf(raw: seq<Option<int>>): seq<int> {
    Stored([], FirstHundred(raw), Positive, Itself)
  }

  lemma WantedExactly(raw: seq<Option<int>>)
    ensures |WantedOf(raw)| <= MOST && Distinct(WantedOf(raw), Itself)
    ensures forall id :: id in WantedOf(raw) <==>
      exists i :: 0 <= i < |raw| && i < MOST && raw[i] == Some(id) && 1 <= id
    ensures forall i, j :: 0 <= i < j < |WantedOf(raw)| ==>
      AppearsBefore(FirstHundred(raw), Positive, Itself, WantedOf(raw)[i], WantedOf(raw)[j])
  {
    var rows := FirstHundred(raw);
    StoredExactly([], rows, Positive, Itself);
    forall id ensures id in WantedOf(raw) <==> exists i :: 0 <= i < |raw| && i < MOST && raw[i] == Some(id) && 1 <= id {
      KeyStored(rows, Positive, Itself, id);
      forall i | 0 <= i < |raw| && i < MOST && raw[i] == Some(id) && 1 <= id
        ensures HasKey(rows, Positive, Itself, i, id)
      {
        assert rows[i] == raw[i];
      }
      forall i | HasKey(rows, Positive, Itself, i, id) ensures raw[i] == Some(id) && 1 <= id {
        assert rows[i] == raw[i];
      }
    }
    forall i, j | 0 <= i < j < |WantedOf(raw)|
      ensures AppearsBefore(rows, Positive, Itself, WantedOf(raw)[i], WantedOf(raw)[j]) {
      StoredInOrder(rows, Positive, Itself, i, j);
    }
  }

  /** The readable numbers among the first hundred rows of the page, each once, in the order of their appearance. */
  method Wanted(raw: seq<Option<int>>) returns (wanted: seq<int>)
    ensures wanted == WantedOf(raw)
    ensures |wanted| <= MOST
    ensures forall i, j :: 0 <= i < j < |wanted| ==> wanted[i] != wanted[j]
    ensures forall id :: id in wanted <==> exists i :: 0 <= i < |raw| && i < MOST && raw[i] == Some(id) && 1 <= id
    ensures forall i, j :: 0 <= i < j < |wanted| ==>
      AppearsBefore(FirstHundred(raw), Positive, Itself, wanted[i], wanted[j])
  {
    wanted := [];
    ghost var rows := FirstHundred(raw);
    for i := 0 to if |raw| < MOST then |raw| else MOST
      invariant wanted == Stored([], rows[..i], Positive, Itself)
    {
      assert rows[..i + 1][..i] == rows[..i];
      var id := Integer(raw[i], 1);
      if id.Some? {
        wanted := Put(wanted, id.value, Itself);
      }
    }
    assert rows[..|rows|] == rows;
    WantedExactly(raw);
  }

  function UsableOf(wanted: seq<int>): AnchorRow -> Option<Anchor> {
    (r: AnchorRow) => if AnchorOf(r, wanted).Usable? then Some(AnchorOf(r, wanted).anchor) else None
  }

  function AnchorKey(a: Anchor): int {
    a.id
  }

  function AnchorsOf(rows: seq<AnchorRow>, wanted: seq<int>): map<int, Anchor> {
    if rows == [] then map[]
    else
      var front := AnchorsOf(rows[..|rows| - 1], wanted);
      var a := UsableOf(wanted)(rows[|rows| - 1]);
      if a.Some? then front[a.value.id := a.value] else front
  }

  function OutsideOf(rows: seq<AnchorRow>, wanted: seq<int>): set<int> {
    set r | r in rows && AnchorOf(r, wanted).OutOfScope? :: AnchorOf(r, wanted).id
  }

  /** Exactly the newest usable row of each wanted number is an anchor. */
  lemma {:induction false} AnchorsExactly(rows: seq<AnchorRow>, wanted: seq<int>)
    ensures forall id :: id in AnchorsOf(rows, wanted) ==> id in wanted && AnchorsOf(rows, wanted)[id].id == id
    ensures forall a: Anchor :: a.id in AnchorsOf(rows, wanted) && AnchorsOf(rows, wanted)[a.id] == a <==>
      exists i :: Newest(rows, UsableOf(wanted), AnchorKey, a, i)
  {
    if rows != [] {
      var front, last := rows[..|rows| - 1], |rows| - 1;
      AnchorsExactly(front, wanted);
      forall a: Anchor ensures a.id in AnchorsOf(rows, wanted) && AnchorsOf(rows, wanted)[a.id] == a <==>
          exists i :: Newest(rows, UsableOf(wanted), AnchorKey, a, i) {
        NewestLonger(rows, UsableOf(wanted), AnchorKey, a);
        hide Newest;
      }
      hide Newest;
    }
  }

  lemma OutsideLonger(rows: seq<AnchorRow>, wanted: seq<int>, i: nat)
    requires i < |rows|
    ensures OutsideOf(rows[..i + 1], wanted)
         == OutsideOf(rows[..i], wanted) +
            (if AnchorOf(rows[i], wanted).OutOfScope? then {AnchorOf(rows[i], wanted).id} else {})
  {
    hide AnchorOf;
    assert forall r :: r in rows[..i + 1] <==> r in rows[..i] || r == rows[i];
  }

  /** The usable anchors, by number, and the numbers of rows that are out of scope. */
  method StageAnchors(rows: seq<AnchorRow>, wanted: seq<int>) returns (anchors: map<int, Anchor>, outside: set<int>)
    ensures anchors == AnchorsOf(rows, wanted) && outside == OutsideOf(rows, wanted)
    ensures forall id :: id in anchors ==> id in wanted && anchors[id].id == id
    ensures forall a: Anchor :: a.id in anchors && anchors[a.id] == a <==>
      exists i :: Newest(rows, UsableOf(wanted), AnchorKey, a, i)
  {
    anchors, outside := map[], {};
    for i := 0 to |rows|
      invariant anchors == AnchorsOf(rows[..i], wanted) && outside == OutsideOf(rows[..i], wanted)
    {
      assert rows[..i + 1][..i] == rows[..i];
      OutsideLonger(rows, wanted, i);
      match AnchorOf(rows[i], wanted)
      case Ignored =>
      case OutOfScope(id) => outside := outside + {id};
      case Usable(a) => anchors := anchors[a.id := a];
    }
    assert rows[..|rows|] == rows;
    AnchorsExactly(rows, wanted);
  }

  /** What the staged collections and the anchors guarantee about every link. */
  ghost predicate OwnGraph(links: seq<Links>, anchors: map<int, Anchor>, sessions: seq<Session>, events: seq<Event>,
                           requests: seq<Request>) {
    forall i :: 0 <= i < |links| ==>
      if links[i].id in anchors then OwnLinks(links[i], anchors[links[i].id].owner, sessions, events, requests)
      else links[i].sessions == links[i].events == [] && links[i].requests == []
  }

  /** One description for each wanted number, in order. */
  ghost predicate AllLinked(links: seq<Links>, wanted: seq<int>, st: Staged) {
    && |links| == |wanted|
    && forall i :: 0 <= i < |wanted| ==>
         && links[i].id == wanted[i]
         && (if wanted[i] in st.anchors then LinksOf(st, st.anchors[wanted[i]], links[i])
              else links[i] == Unlinked(st, wanted[i]))
  }

  method LinkAll(wanted: seq<int>, st: Staged) returns (links: seq<Links>)
    requires st.Bounded()
    requires forall id :: id in st.anchors ==> st.anchors[id].id == id
    ensures AllLinked(links, wanted, st)
    ensures OwnGraph(links, st.anchors, st.sessions, st.events, st.requests)
  {
    hide OwnLinks, LinksOf;
    links := [];
    for i := 0 to |wanted|
      invariant AllLinked(links, wanted[..i], st)
      invariant OwnGraph(links, st.anchors, st.sessions, st.events, st.requests)
    {
      var l := Unlinked(st, wanted[i]);
      if wanted[i] in st.anchors {
        l := LinkAnchor(st.anchors[wanted[i]], st);
        LinkNumber(st, st.anchors[wanted[i]], l);
      }
      links := links + [l];
    }
    assert wanted[..|wanted|] == wanted;
  }

  lemma LinkNumber(st: Staged, a: Anchor, l: Links)
    requires LinksOf(st, a, l)
    ensures l.id == a.id
  {
  }

  predicate SessionUsed(links: seq<Links>, id: int) {
    exists i :: 0 <= i < |links| && id in links[i].sessions
  }

  predicate EventUsed(links: seq<Links>, id: int) {
    exists i :: 0 <= i < |links| && id in links[i].events
  }

  predicate RequestUsed(links: seq<Links>, id: int) {
    exists i :: 0 <= i < |links| && id in links[i].requests
  }

  /** Everything the exporter insists on. */
  ghost predicate Exportable(g: Graph) {
    && |g.anchors| <= MOST && |g.sessions| <= MOST && |g.events| <= MOST && |g.requests| <= MOST
    && (forall s :: s in g.sessions ==> SoundSession(s))
    && (forall e :: e in g.events ==> ExportableEvent(e) && Listed(g, e.session))
    && (forall q :: q in g.requests ==> ExportableRequest(q))
    && (forall l :: l in g.anchors ==> ExportableLinks(g, l))
  }

  predicate ExportableEvent(e: Event) {
    1 <= e.id && 1 <= e.session && Attendance.ValidEventId(e.eventId) && KnownKind(e.kind)
  }

  predicate ExportableRequest(q: Request) {
    1 <= q.id && (q.record.Some? ==> 1 <= q.record.value) && KnownStatus(q.status) && 0 <= q.cancel <= 1
  }

  predicate Listed(g: Graph, session: int) {
    exists s :: s in g.sessions && s.id == session
  }

  ghost predicate ExportableLinks(g: Graph, l: Links) {
    && 1 <= l.id && |l.sessions| <= MOST && |l.events| <= MOST && |l.requests| <= MOST
    && (forall id :: id in l.sessions ==> Listed(g, id))
    && (forall id :: id in l.events ==> exists e :: e in g.events && e.id == id)
    && (forall id :: id in l.requests ==> exists q :: q in g.requests && q.id == id)
  }

  /** Only what some anchor links is published. */
  function Published(links: seq<Links>, sessions: seq<Session>, events: seq<Event>, requests: seq<Request>): Graph {
    Graph(links,
          Filter(sessions, (s: Session) => SessionUsed(links, s.id)),
          Filter(events, (e: Event) => EventUsed(links, e.id)),
          Filter(requests, (q: Request) => RequestUsed(links, q.id)))
  }

  lemma PublishedLinks(links: seq<Links>, anchors: map<int, Anchor>, sessions: seq<Session>, events: seq<Event>,
                       requests: seq<Request>, i: nat)
    requires OwnGraph(links, anchors, sessions, events, requests)
    requires |sessions| <= MOST && |events| <= MOST && |requests| <= MOST
    requires i < |links| && 1 <= links[i].id
    ensures ExportableLinks(Published(links, sessions, events, requests), links[i])
  {
    var g := Published(links, sessions, events, requests);
    var l := links[i];
    if l.id in anchors {
      var owner := anchors[l.id].owner;
      forall id | id in l.sessions ensures Listed(g, id) {
        assert SessionOfOwner(sessions, owner, id);
        var s :| s in sessions && s.id == id && s.owner == owner;
        assert SessionUsed(links, id);
        assert s in g.sessions;
      }
      forall id | id in l.events ensures exists e :: e in g.events && e.id == id {
        assert EventOfOwner(events, owner, id, l.sessions);
        var e :| e in events && e.id == id && e.owner == owner && e.session in l.sessions;
        assert EventUsed(links, id);
        assert e in g.events;
      }
      forall id | id in l.requests ensures exists q :: q in g.requests && q.id == id {
        assert RequestOfOwner(requests, owner, id);
        var q :| q in requests && q.id == id && q.owner == owner;
        assert RequestUsed(links, id);
        assert q in g.requests;
      }
    }
  }

  lemma PublishedEvent(links: seq<Links>, anchors: map<int, Anchor>, sessions: seq<Session>, events: seq<Event>,
                       requests: seq<Request>, e: Event)
    requires OwnGraph(links, anchors, sessions, events, requests) && Distinct(events, EventKey)
    requires e in Published(links, sessions, events, requests).events
    ensures e in events && Listed(Published(links, sessions, events, requests), e.session)
  {
    var g := Published(links, sessions, events, requests);
    assert EventUsed(links, e.id);
    var i :| 0 <= i < |links| && e.id in links[i].events;
    LinkedEvent(links[i], anchors[links[i].id].owner, sessions, events, requests, e);
    hide OwnGraph, Distinct, OwnLinks;
    var s :| s in sessions && s.id == e.session;
    assert e.session in links[i].sessions;
    assert SessionUsed(links, s.id);
    assert s in g.sessions;
  }

  lemma LinkedEvent(l: Links, owner: int, sessions: seq<Session>, events: seq<Event>, requests: seq<Request>, e: Event)
    requires OwnLinks(l, owner, sessions, events, requests) && Distinct(events, EventKey)
    requires e in events && e.id in l.events
    ensures e.session in l.sessions && exists s :: s in sessions && s.id == e.session
  {
    assert EventOfOwner(events, owner, e.id, l.sessions);
    var f :| f in events && f.id == e.id && f.owner == owner && f.session in l.sessions;
    var j :| 0 <= j < |events| && events[j] == e;
    var k :| 0 <= k < |events| && events[k] == f;
    assert j == k;
    assert SessionOfOwner(sessions, owner, e.session);
  }

  /** The published graph passes every check of the exporter. */
  lemma PublishedExportable(links: seq<Links>, anchors: map<int, Anchor>, sessions: seq<Session>, events: seq<Event>,
                            requests: seq<Request>)
    requires OwnGraph(links, anchors, sessions, events, requests) && Distinct(events, EventKey)
    requires |links| <= MOST && |sessions| <= MOST && |events| <= MOST && |requests| <= MOST
    requires forall i :: 0 <= i < |links| ==> 1 <= links[i].id
    requires forall s :: s in sessions ==> SoundSession(s)
    requires forall e :: e in events ==> SoundEvent(e)
    requires forall q :: q in requests ==> SoundRequest(q)
    ensures Exportable(Published(links, sessions, events, requests))
  {
    var g := Published(links, sessions, events, requests);
    assert forall q :: q in g.requests ==> SoundRequest(q);
    hide OwnGraph, SoundSession, Distinct;
    forall l | l in g.anchors ensures ExportableLinks(g, l) {
      var i :| 0 <= i < |links| && links[i] == l;
      PublishedLinks(links, anchors, sessions, events, requests, i);
    }
    forall e | e in g.events ensures ExportableEvent(e) && Listed(g, e.session) {
      assert SoundEvent(e);
      PublishedEvent(links, anchors, sessions, events, requests, e);
    }
  }

  /** The page of journal rows and what the queries return for it. */
  datatype Answers = Answers(
    page: seq<Option<int>>,
    anchors: seq<AnchorRow>,
    named: seq<RequestRow>,
    sessions: seq<SessionRow>,
    bookings: seq<BookingRow>,
    requests: seq<RequestRow>,
    events: seq<EventRow>)

  /** What is staged: see AnchorsExactly, StageSessions, RequestsExactly and StageEvents for what is in it. */
  function StagedFrom(q: Answers): Staged {
    var wanted := WantedOf(q.page);
    var named := Limited(q.named);
    var sessions := Stored([], Limited(q.sessions), SessionOf, SessionKey);
    var owned := Owned(sessions, Limited(q.bookings));
    Staged(
      AnchorsOf(Limited(q.anchors), wanted),
      OutsideOf(Limited(q.anchors), wanted),
      BadKeys(named),
      owned,
      Filter(sessions, SessionWithin(owned)),
      Stored([], Limited(q.events), EventOf, EventKey),
      FirstByNumber(AllRequests(named, Limited(q.requests), owned)))
  }

  /** What is staged is sound, and has one row under each key. */
  lemma StagedSound(q: Answers)
    requires |q.sessions| <= MOST + 1 && |q.events| <= MOST + 1
    ensures var st := StagedFrom(q);
      && st.Bounded()
      && (forall id :: id in st.anchors ==> st.anchors[id].id == id)
      && (forall s :: s in st.sessions ==> SoundSession(s))
      && (forall e :: e in st.events ==> SoundEvent(e))
      && (forall r :: r in st.requests ==> SoundRequest(r))
      && Distinct(st.events, EventKey) && OnePerKey(st.sessions, SessionKey) && OnePerKey(st.requests, RequestKey)
  {
    AnchorsExactly(Limited(q.anchors), WantedOf(q.page));
    SessionsSound(Limited(q.sessions));
    EventsSound(Limited(q.events));
    RequestsExactly(Limited(q.named), Limited(q.requests), StagedFrom(q).owned);
    hide SoundSession, SoundEvent, SoundRequest, Newest, KeyRead, Sorted;
  }

  /**
   * The builder: whatever the queries return, its graph consists of exactly the links of the wanted anchors and what
   * they name, passes the exporter, and links only numbers that belong to the owner of the anchor.
   */
  method Correlate(q: Answers) returns (g: Graph)
    requires |q.sessions| <= MOST + 1 && |q.events| <= MOST + 1
    ensures AllLinked(g.anchors, WantedOf(q.page), StagedFrom(q))
    ensures var st := StagedFrom(q); g == Published(g.anchors, st.sessions, st.events, st.requests)
    ensures Exportable(g)
    ensures OwnGraph(g.anchors, StagedFrom(q).anchors, g.sessions, g.events, g.requests)
  {
    hide AllLinked, Exportable, OwnGraph, SoundSession, SoundEvent, SoundRequest, Newest, KeyRead;
    var wanted := Wanted(q.page);
    var anchors, outside := StageAnchors(Limited(q.anchors), wanted);
    var direct, bad := StageDirect(Limited(q.named));
    var sessions := StageSessions(Limited(q.sessions));
    var owned := OwnedBookings(sessions, Limited(q.bookings));
    var kept := Filter(sessions, SessionWithin(owned));
    var requests := StageRequests(direct, Limited(q.requests), owned);
    var events := StageEvents(Limited(q.events));
    var st := Staged(anchors, outside, bad, owned, kept, events, requests);
    assert st == StagedFrom(q);
    StagedSound(q);
    var links := LinkAll(wanted, st);
    PublishedGraph(q, links);
    g := Published(links, kept, events, requests);
  }

  lemma PublishedGraph(q: Answers, links: seq<Links>)
    requires |q.sessions| <= MOST + 1 && |q.events| <= MOST + 1
    requires var st := StagedFrom(q);
      AllLinked(links, WantedOf(q.page), st) && OwnGraph(links, st.anchors, st.sessions, st.events, st.requests)
    ensures var st := StagedFrom(q);
      var g := Published(links, st.sessions, st.events, st.requests);
      Exportable(g) && OwnGraph(g.anchors, st.anchors, g.sessions, g.events, g.requests)
  {
    var st := StagedFrom(q);
    StagedSound(q);
    WantedExactly(q.page);
    hide StagedFrom, WantedOf, LinksOf, OwnGraph, Exportable, Distinct, AppearsBefore, OnePerKey, SoundSession,
      SoundEvent, SoundRequest;
    forall i | 0 <= i < |links| ensures 1 <= links[i].id {
      assert WantedOf(q.page)[i] in WantedOf(q.page);
    }
    PublishedExportable(links, st.anchors, st.sessions, st.events, st.requests);
    PublishedOwn(links, st.anchors, st.sessions, st.events, st.requests);
  }

  /** The wanted number has an anchor that leads to this booking of this owner. */
  predicate LeadsTo(st: Staged, id: int, owner: int, booking: int) {
    && id in st.anchors && st.anchors[id].owner == owner
    && st.Focus(st.anchors[id]).Focus? && st.Focus(st.anchors[id]).booking == Some(booking)
  }

  /**
   * Seen from the rows: a session is published exactly when it is the newest row of its number and a wanted anchor of
   * its owner leads to its booking.
   */
  lemma PublishedSession(q: Answers, g: Graph, s: Session)
    requires |q.sessions| <= MOST + 1 && |q.events| <= MOST + 1
    requires AllLinked(g.anchors, WantedOf(q.page), StagedFrom(q))
    requires var st := StagedFrom(q); g == Published(g.anchors, st.sessions, st.events, st.requests)
    ensures s in g.sessions <==>
      && (exists i :: Newest(Limited(q.sessions), SessionOf, SessionKey, s, i))
      && (exists id :: id in WantedOf(q.page) && LeadsTo(StagedFrom(q), id, s.owner, s.record))
  {
    var st, wanted := StagedFrom(q), WantedOf(q.page);
    StagedSound(q);
    SessionsSound(Limited(q.sessions));
    SessionsOwned(q, s);
    hide StagedFrom, WantedOf, FocusOf, SoundSession, SoundEvent, SoundRequest, Newest, Distinct;
    if s in st.sessions {
      forall i | 0 <= i < |wanted|
        ensures s.id in g.anchors[i].sessions <==> LeadsTo(st, wanted[i], s.owner, s.record)
      {
        SessionLinked(st, wanted[i], g.anchors[i], s);
      }
      hide LeadsTo, LinksOf, Unlinked, OnePerKey;
      if id :| id in wanted && LeadsTo(st, id, s.owner, s.record) {
        var i :| 0 <= i < |wanted| && wanted[i] == id;
        assert SessionUsed(g.anchors, s.id);
      }
    }
  }

  /** Exactly the staged sessions, events and requests that some anchor names are published, in their order. */
  lemma PublishedExactly(links: seq<Links>, sessions: seq<Session>, events: seq<Event>, requests: seq<Request>)
    ensures var g := Published(links, sessions, events, requests);
      && g.anchors == links
      && (forall s :: s in g.sessions <==> s in sessions && exists i :: 0 <= i < |links| && s.id in links[i].sessions)
      && (forall e :: e in g.events <==> e in events && exists i :: 0 <= i < |links| && e.id in links[i].events)
      && (forall q :: q in g.requests <==> q in requests && exists i :: 0 <= i < |links| && q.id in links[i].requests)
  {
  }

  /** Every staged session belongs to an owned booking, so none is left out. */
  lemma SessionsOwned(q: Answers, s: Session)
    ensures s in StagedFrom(q).sessions <==> s in Stored([], Limited(q.sessions), SessionOf, SessionKey)
  {
  }

  lemma SessionLinked(st: Staged, id: int, l: Links, s: Session)
    requires s in st.sessions && OnePerKey(st.sessions, SessionKey)
    requires id in st.anchors ==> LinksOf(st, st.anchors[id], l)
    requires id !in st.anchors ==> l == Unlinked(st, id)
    ensures s.id in l.sessions <==> LeadsTo(st, id, s.owner, s.record)
  {
    hide FocusOf;
    forall t | t in st.sessions && t.id == s.id ensures t == s {
      assert SessionKey(t) == SessionKey(s);
    }
  }

  /** Leaving out what nobody links changes no link. */
  lemma PublishedOwn(links: seq<Links>, anchors: map<int, Anchor>, sessions: seq<Session>, events: seq<Event>,
                     requests: seq<Request>)
    requires OwnGraph(links, anchors, sessions, events, requests)
    ensures var g := Published(links, sessions, events, requests);
      OwnGraph(links, anchors, g.sessions, g.events, g.requests)
  {
  }

  // --- The exporter ---

  predicate AllIn(ids: seq<int>, known: set<int>) {
    forall id :: id in ids ==> id in known
  }

  /** The checks as the exporter makes them: collections first, then every reference against what was collected. */
  method Export(g: Graph) returns (accepted: bool)
    ensures accepted <==> Exportable(g)
  {
    if |g.anchors| > MOST || |g.sessions| > MOST || |g.events| > MOST || |g.requests| > MOST {
      return false;
    }
    for i := 0 to |g.sessions|
      invariant forall s :: s in g.sessions[..i] ==> SoundSession(s)
    {
      assert g.sessions[i] in g.sessions && g.sessions[..i + 1] == g.sessions[..i] + [g.sessions[i]];
      if !SoundSession(g.sessions[i]) {
        return false;
      }
    }
    assert g.sessions[..|g.sessions|] == g.sessions;
    var sessionIds := set s | s in g.sessions :: s.id;
    for i := 0 to |g.events|
      invariant forall e :: e in g.events[..i] ==> ExportableEvent(e) && Listed(g, e.session)
    {
      assert g.events[i] in g.events && g.events[..i + 1] == g.events[..i] + [g.events[i]];
      if g.events[i].session !in sessionIds || !ExportableEvent(g.events[i]) {
        return false;
      }
    }
    assert g.events[..|g.events|] == g.events;
    for i := 0 to |g.requests|
      invariant forall q :: q in g.requests[..i] ==> ExportableRequest(q)
    {
      assert g.requests[i] in g.requests && g.requests[..i + 1] == g.requests[..i] + [g.requests[i]];
      if !ExportableRequest(g.requests[i]) {
        return false;
      }
    }
    assert g.requests[..|g.requests|] == g.requests;
    var eventIds := set e | e in g.events :: e.id;
    var requestIds := set q | q in g.requests :: q.id;
    for i := 0 to |g.anchors|
      invariant forall l :: l in g.anchors[..i] ==> ExportableLinks(g, l)
    {
      var l := g.anchors[i];
      assert l in g.anchors && g.anchors[..i + 1] == g.anchors[..i] + [l];
      if l.id < 1 || |l.sessions| > MOST || |l.events| > MOST || |l.requests| > MOST {
        return false;
      }
      if !AllIn(l.sessions, sessionIds) || !AllIn(l.events, eventIds) || !AllIn(l.requests, requestIds) {
        assert !ExportableLinks(g, l);
        return false;
      }
    }
    assert g.anchors[..|g.anchors|] == g.anchors;
    return true;
  }
}
