/**
 * The two quotas on changing one's own password (lib/native_own_password.php)
 * in the table they share with the login throttle (security.php).
 */
module PasswordLimiter {
  import opened Wrappers

  const WINDOW := 600
  const USER_LIMIT := 5
  const PEER_LIMIT := 20
  const LOGIN_PEER_LIMIT := 60
  const LOGIN_USER_LIMIT := 15

  /** The namespaced rows; different buckets have different hashed keys. */
  datatype Bucket =
    | PasswordUser(user: int)
    | PasswordPeer(peer: string)
    | LoginPeer(address: string)
    | LoginUser(name: string)

  datatype Counter = Counter(starts: int, attempts: int)

  type Table = map<Bucket, Counter>

  /** What one more attempt would store, unless the row is unusable or the quota is used up. */
  function Booked(table: Table, b: Bucket, limit: int, now: int): Option<Counter> {
    if b !in table then (if 0 >= limit then None else Some(Counter(now, 1)))
    else
      var row := table[b];
      if row.starts < 0 || row.starts > now || row.attempts < 0 then None
      else
        var over := now - row.starts >= WINDOW;
        var attempts := if over then 0 else row.attempts;
        if attempts >= limit then None else Some(Counter(if over then now else row.starts, attempts + 1))
  }

  function Accepts(table: Table, now: int, user: int, peer: string): bool {
    Booked(table, PasswordUser(user), USER_LIMIT, now).Some? && Booked(table, PasswordPeer(peer), PEER_LIMIT, now).Some?
  }

  /** Both quotas are booked, or neither. */
  function Consumed(table: Table, now: int, user: int, peer: string): Table {
    if !Accepts(table, now, user, peer) then table
    else
      table[PasswordUser(user) := Booked(table, PasswordUser(user), USER_LIMIT, now).value]
           [PasswordPeer(peer) := Booked(table, PasswordPeer(peer), PEER_LIMIT, now).value]
  }

  function Cleaned(table: Table, now: int): Table {
    map b | b in table && table[b].starts >= now - WINDOW :: table[b]
  }

  function Bumped(table: Table, b: Bucket, now: int): Table {
    table[b := if b in table then Counter(table[b].starts, table[b].attempts + 1) else Counter(now, 1)]
  }

  /** The login throttle removes old rows of every bucket before it counts its own. */
  function Throttled(table: Table, now: int, address: string, name: string): Table {
    var first := Bumped(Cleaned(table, now), LoginPeer(address), now);
    if first[LoginPeer(address)].attempts > LOGIN_PEER_LIMIT then first else Bumped(first, LoginUser(name), now)
  }

  class Attempts {
    var table: Table

    method Consume(now: int, user: int, peer: string) returns (accepted: bool)
      modifies this
      ensures accepted == Accepts(old(table), now, user, peer)
      ensures table == Consumed(old(table), now, user, peer)
    {
      var subjects := [(PasswordUser(user), USER_LIMIT), (PasswordPeer(peer), PEER_LIMIT)];
      var updates: seq<(Bucket, Counter)> := [];
      for i := 0 to 2
        invariant |updates| == i
        invariant forall k :: 0 <= k < i ==> Booked(table, subjects[k].0, subjects[k].1, now) == Some(updates[k].1)
        invariant forall k :: 0 <= k < i ==> updates[k].0 == subjects[k].0
      {
        var (key, maximum) := subjects[i];
        var starts, attempts := now, 0;
        if key in table {
          starts, attempts := table[key].starts, table[key].attempts;
          if starts < 0 || starts > now || attempts < 0 {
            return false;
          }
          if now - starts >= WINDOW {
            starts, attempts := now, 0;
          }
        }
        if attempts >= maximum {
          return false;
        }
        updates := updates + [(key, Counter(starts, attempts + 1))];
      }
      table := table[updates[0].0 := updates[0].1];
      table := table[updates[1].0 := updates[1].1];
      return true;
    }

    method Throttle(now: int, address: string, name: string) returns (ok: bool)
      modifies this
      ensures table == Throttled(old(table), now, address, name)
      ensures ok <==>
        table[LoginPeer(address)].attempts <= LOGIN_PEER_LIMIT && LoginUser(name) in table
          && table[LoginUser(name)].attempts <= LOGIN_USER_LIMIT
    {
      ghost var before := table;
      table := map b | b in table && table[b].starts >= now - WINDOW :: table[b];
      assert table == Cleaned(before, now);
      table := Bumped(table, LoginPeer(address), now);
      if table[LoginPeer(address)].attempts > LOGIN_PEER_LIMIT {
        return false;
      }
      table := Bumped(table, LoginUser(name), now);
      return table[LoginUser(name)].attempts <= LOGIN_USER_LIMIT;
    }
  }

  // --- Runs ---

  datatype Call = Password(user: int, peer: string) | Login(address: string, name: string)

  datatype Timed = Timed(now: int, call: Call)

  /** An accepted attempt with the beginnings of the windows it was booked in. */
  datatype Entry = Entry(time: int, user: int, peer: string, userStart: int, peerStart: int)

  datatype State = State(table: Table, log: seq<Entry>)

  function Next(s: State, t: Timed): State {
    match t.call
    case Login(address, name) => s.(table := Throttled(s.table, t.now, address, name))
    case Password(user, peer) =>
      if !Accepts(s.table, t.now, user, peer) then s
      else
        var after := Consumed(s.table, t.now, user, peer);
        State(after, s.log + [Entry(t.now, user, peer, after[PasswordUser(user)].starts,
                                    after[PasswordPeer(peer)].starts)])
  }

  function Run(s: State, calls: seq<Timed>): State {
    if calls == [] then s else Next(Run(s, calls[..|calls| - 1]), calls[|calls| - 1])
  }

  predicate ClockMonotone(calls: seq<Timed>) {
    forall i, j :: 0 <= i <= j < |calls| ==> calls[i].now <= calls[j].now
  }

  predicate IsPassword(b: Bucket) {
    b.PasswordUser? || b.PasswordPeer?
  }

  /** The entry was booked in the bucket. */
  predicate In(e: Entry, b: Bucket) {
    b == PasswordUser(e.user) || b == PasswordPeer(e.peer)
  }

  function StartIn(e: Entry, b: Bucket): int {
    if b.PasswordUser? then e.userStart else e.peerStart
  }

  function LimitOf(b: Bucket): int {
    if b.PasswordUser? then USER_LIMIT else PEER_LIMIT
  }

  ghost function Count(log: seq<Entry>, p: Entry -> bool): nat {
    if log == [] then 0 else Count(log[..|log| - 1], p) + (if p(log[|log| - 1]) then 1 else 0)
  }

  ghost function InWindow(b: Bucket, w: int): Entry -> bool {
    (e: Entry) => In(e, b) && StartIn(e, b) == w
  }

  ghost function InInterval(b: Bucket, from: int): Entry -> bool {
    (e: Entry) => In(e, b) && from <= e.time <= from + WINDOW
  }

  /** Accepted attempts lie inside their windows, windows do not meet, and none holds more than the quota. */
  ghost predicate Windowed(log: seq<Entry>, b: Bucket) {
    && (forall i :: 0 <= i < |log| && In(log[i], b) ==> StartIn(log[i], b) <= log[i].time < StartIn(log[i], b) + WINDOW)
    && (forall i, j :: 0 <= i < |log| && 0 <= j < |log| && In(log[i], b) && In(log[j], b) ==>
         Apart(StartIn(log[i], b), StartIn(log[j], b)))
    && (forall w :: Count(log, InWindow(b, w)) <= LimitOf(b))
  }

  predicate Apart(v: int, w: int) {
    v == w || v + WINDOW <= w || w + WINDOW <= v
  }

  /**
   * How a row relates to the log: its window is the latest, and it counts at least the logged attempts of that window.
   */
  ghost predicate RowCurrent(s: State, b: Bucket, clock: int) {
    if b in s.table then
      && (forall i :: 0 <= i < |s.log| && In(s.log[i], b) ==>
           StartIn(s.log[i], b) == s.table[b].starts || StartIn(s.log[i], b) + WINDOW <= s.table[b].starts)
      && (s.table[b].attempts >= 0 ==> Count(s.log, InWindow(b, s.table[b].starts)) <= s.table[b].attempts)
    else
      forall i :: 0 <= i < |s.log| && In(s.log[i], b) ==> StartIn(s.log[i], b) + WINDOW <= clock
  }

  ghost predicate Bounded(s: State, b: Bucket, clock: int) {
    Windowed(s.log, b) && RowCurrent(s, b, clock)
  }

  // --- Every call keeps it ---

  lemma {:induction false} CountNone(log: seq<Entry>, p: Entry -> bool)
    requires forall i :: 0 <= i < |log| ==> !p(log[i])
    ensures Count(log, p) == 0
  {
    if log != [] {
      CountNone(log[..|log| - 1], p);
    }
  }

  lemma CountAppended(log: seq<Entry>, e: Entry, p: Entry -> bool)
    ensures Count(log + [e], p) == Count(log, p) + (if p(e) then 1 else 0)
  {
    assert (log + [e])[..|log|] == log;
  }

  /** Booking one more attempt in a bucket. */
  lemma BookingKeeps(s: State, b: Bucket, e: Entry, after: State, clock: int)
    requires IsPassword(b) && In(e, b) && Bounded(s, b, clock) && clock <= e.time
    requires Booked(s.table, b, LimitOf(b), e.time).Some?
    requires after.log == s.log + [e] && b in after.table
      && after.table[b] == Booked(s.table, b, LimitOf(b), e.time).value
    requires StartIn(e, b) == after.table[b].starts
    ensures Bounded(after, b, e.time)
  {
    var w := after.table[b].starts;
    forall i | 0 <= i < |s.log| && In(s.log[i], b)
      ensures StartIn(s.log[i], b) == w || StartIn(s.log[i], b) + WINDOW <= w
    {
    }
    if b !in s.table || e.time - s.table[b].starts >= WINDOW {
      forall i | 0 <= i < |s.log| ensures !InWindow(b, w)(s.log[i]) {
      }
      CountNone(s.log, InWindow(b, w));
    }
    forall v ensures Count(after.log, InWindow(b, v)) <= LimitOf(b) {
      CountAppended(s.log, e, InWindow(b, v));
    }
    CountAppended(s.log, e, InWindow(b, w));
    forall i | 0 <= i < |after.log| && In(after.log[i], b)
      ensures StartIn(after.log[i], b) == w || StartIn(after.log[i], b) + WINDOW <= w {
      assert i < |s.log| ==> after.log[i] == s.log[i];
    }
    LogWindowed(s.log, e, b, w);
  }

  lemma LogWindowed(log: seq<Entry>, e: Entry, b: Bucket, w: int)
    requires Windowed(log, b) && In(e, b) && StartIn(e, b) == w && w <= e.time < w + WINDOW
    requires forall i :: 0 <= i < |log| && In(log[i], b) ==> StartIn(log[i], b) == w || StartIn(log[i], b) + WINDOW <= w
    requires forall v :: Count(log + [e], InWindow(b, v)) <= LimitOf(b)
    ensures Windowed(log + [e], b)
  {
    hide Count, InWindow, LimitOf, In, StartIn, Apart;
    var more := log + [e];
    forall i | 0 <= i < |more| && In(more[i], b)
      ensures StartIn(more[i], b) <= more[i].time < StartIn(more[i], b) + WINDOW
    {
      assert i < |log| ==> more[i] == log[i];
    }
    forall i | 0 <= i < |log| && In(log[i], b) ensures Apart(StartIn(log[i], b), w) && Apart(w, StartIn(log[i], b)) {
      EarlierApart(StartIn(log[i], b), w);
    }
    EarlierApart(w, w);
    forall i, j | 0 <= i < |more| && 0 <= j < |more| && In(more[i], b) && In(more[j], b)
      ensures Apart(StartIn(more[i], b), StartIn(more[j], b)) {
      assert (i < |log| ==> more[i] == log[i]) && (j < |log| ==> more[j] == log[j]);
    }
  }

  lemma EarlierApart(v: int, w: int)
    requires v == w || v + WINDOW <= w
    ensures Apart(v, w) && Apart(w, v)
  {
  }

  /** An attempt of somebody else leaves the bucket as it is. */
  lemma OtherKeeps(s: State, b: Bucket, e: Entry, after: State, clock: int)
    requires IsPassword(b) && !In(e, b) && Bounded(s, b, clock) && clock <= e.time
    requires after.log == s.log + [e]
    requires b in s.table <==> b in after.table
    requires b in s.table ==> after.table[b] == s.table[b]
    ensures Bounded(after, b, e.time)
  {
    forall w ensures Count(after.log, InWindow(b, w)) == Count(s.log, InWindow(b, w)) {
      CountAppended(s.log, e, InWindow(b, w));
    }
    forall i | 0 <= i < |after.log| && In(after.log[i], b) ensures i < |s.log| && after.log[i] == s.log[i] {
    }
  }

  /** The cleanup removes a row only when its window is over. */
  lemma LoginKeeps(s: State, b: Bucket, now: int, address: string, name: string, clock: int)
    requires IsPassword(b) && Bounded(s, b, clock) && clock <= now
    ensures Bounded(s.(table := Throttled(s.table, now, address, name)), b, now)
  {
    var after := Throttled(s.table, now, address, name);
    assert b in after <==> b in s.table && s.table[b].starts >= now - WINDOW;
    assert b in after ==> after[b] == s.table[b];
  }

  lemma NextKeeps(s: State, t: Timed, b: Bucket, clock: int)
    requires IsPassword(b) && Bounded(s, b, clock) && clock <= t.now
    ensures Bounded(Next(s, t), b, t.now)
  {
    match t.call
    case Login(address, name) => LoginKeeps(s, b, t.now, address, name, clock);
    case Password(user, peer) =>
      if Accepts(s.table, t.now, user, peer) {
        var after := Next(s, t);
        var e := after.log[|s.log|];
        if In(e, b) {
          BookingKeeps(s, b, e, after, clock);
        } else {
          OtherKeeps(s, b, e, after, clock);
        }
      } else {
        LaterKeeps(s, b, clock, t.now);
      }
  }

  lemma LaterKeeps(s: State, b: Bucket, clock: int, later: int)
    requires Bounded(s, b, clock) && clock <= later
    ensures Bounded(s, b, later)
  {
  }

  lemma {:induction false} RunKeeps(s: State, calls: seq<Timed>, b: Bucket, clock: int)
    requires IsPassword(b) && Bounded(s, b, clock) && ClockMonotone(calls)
    requires forall i :: 0 <= i < |calls| ==> clock <= calls[i].now
    ensures Bounded(Run(s, calls), b, if calls == [] then clock else calls[|calls| - 1].now)
  {
    hide Bounded, Next;
    if calls != [] {
      var before := calls[..|calls| - 1];
      RunKeeps(s, before, b, clock);
      NextKeeps(Run(s, before), calls[|calls| - 1], b, if before == [] then clock else before[|before| - 1].now);
    }
  }

  // --- The bound ---

  lemma {:induction false} CountSplit(log: seq<Entry>, p: Entry -> bool, q: Entry -> bool, r: Entry -> bool)
    requires forall i :: 0 <= i < |log| && p(log[i]) ==> q(log[i]) || r(log[i])
    ensures Count(log, p) <= Count(log, q) + Count(log, r)
  {
    if log != [] {
      CountSplit(log[..|log| - 1], p, q, r);
    }
  }

  /** Windows that hold an attempt of one interval are at most two. */
  lemma ThreeWindows(log: seq<Entry>, b: Bucket, from: int, i: nat, j: nat, k: nat)
    requires Windowed(log, b) && i < |log| && j < |log| && k < |log|
    requires InInterval(b, from)(log[i]) && InInterval(b, from)(log[j]) && InInterval(b, from)(log[k])
    ensures StartIn(log[i], b) == StartIn(log[j], b) || StartIn(log[j], b) == StartIn(log[k], b)
      || StartIn(log[i], b) == StartIn(log[k], b)
  {
    var u, v, w := StartIn(log[i], b), StartIn(log[j], b), StartIn(log[k], b);
    assert Apart(u, v) && Apart(v, w) && Apart(u, w);
  }

  /** No interval of 600 seconds, ends included, holds more than twice the quota. */
  lemma IntervalBounded(log: seq<Entry>, b: Bucket, from: int)
    requires Windowed(log, b)
    ensures Count(log, InInterval(b, from)) <= 2 * LimitOf(b)
  {
    var p := InInterval(b, from);
    if i: int :| 0 <= i < |log| && p(log[i]) {
      var v := StartIn(log[i], b);
      if j: int :| 0 <= j < |log| && p(log[j]) && StartIn(log[j], b) != v {
        var w := StartIn(log[j], b);
        forall k | 0 <= k < |log| && p(log[k]) ensures InWindow(b, v)(log[k]) || InWindow(b, w)(log[k]) {
          ThreeWindows(log, b, from, i, j, k);
        }
        CountSplit(log, p, InWindow(b, v), InWindow(b, w));
      } else {
        CountSplit(log, p, InWindow(b, v), InWindow(b, v));
      }
    } else {
      CountNone(log, p);
    }
  }

  /**
   * With a clock that never runs backwards and from any stored table, no 600 seconds contain more than 10 accepted
   * attempts of one user or 40 of one peer, however the login throttle cleans the table in between.
   */
  lemma AttemptsBounded(table: Table, calls: seq<Timed>, user: int, peer: string, from: int)
    requires ClockMonotone(calls)
    ensures Count(Run(State(table, []), calls).log, InInterval(PasswordUser(user), from)) <= 10
    ensures Count(Run(State(table, []), calls).log, InInterval(PasswordPeer(peer), from)) <= 40
  {
    var start := State(table, []);
    if calls != [] {
      UserAndPeer(start, calls, PasswordUser(user), from);
      UserAndPeer(start, calls, PasswordPeer(peer), from);
    }
  }

  lemma UserAndPeer(start: State, calls: seq<Timed>, b: Bucket, from: int)
    requires start.log == [] && ClockMonotone(calls) && calls != [] && IsPassword(b)
    ensures Count(Run(start, calls).log, InInterval(b, from)) <= 2 * LimitOf(b)
  {
    assert Bounded(start, b, calls[0].now);
    RunKeeps(start, calls, b, calls[0].now);
    IntervalBounded(Run(start, calls).log, b, from);
  }

  // --- Nobody is refused too early ---

  /** The row counts exactly the accepted attempts of its window, which has begun. */
  ghost predicate RowExact(s: State, b: Bucket, clock: int) {
    b in s.table ==>
      && 0 <= s.table[b].starts <= clock
      && s.table[b].attempts == Count(s.log, InWindow(b, s.table[b].starts))
  }

  lemma BookingExact(s: State, b: Bucket, e: Entry, after: State, clock: int)
    requires IsPassword(b) && In(e, b) && RowExact(s, b, clock) && Bounded(s, b, clock) && 0 <= clock <= e.time
    requires Booked(s.table, b, LimitOf(b), e.time).Some?
    requires after.log == s.log + [e] && b in after.table
      && after.table[b] == Booked(s.table, b, LimitOf(b), e.time).value
    requires StartIn(e, b) == after.table[b].starts
    ensures RowExact(after, b, e.time)
  {
    var w := after.table[b].starts;
    if b !in s.table || e.time - s.table[b].starts >= WINDOW {
      forall i | 0 <= i < |s.log| ensures !InWindow(b, w)(s.log[i]) {
      }
      CountNone(s.log, InWindow(b, w));
    }
    CountAppended(s.log, e, InWindow(b, w));
  }

  lemma NextExact(s: State, t: Timed, b: Bucket, clock: int)
    requires IsPassword(b) && RowExact(s, b, clock) && Bounded(s, b, clock) && 0 <= clock <= t.now
    ensures RowExact(Next(s, t), b, t.now)
  {
    match t.call
    case Login(address, name) =>
    case Password(user, peer) =>
      if Accepts(s.table, t.now, user, peer) {
        var after := Next(s, t);
        var e := after.log[|s.log|];
        if In(e, b) {
          BookingExact(s, b, e, after, clock);
        } else if b in after.table {
          CountAppended(s.log, e, InWindow(b, after.table[b].starts));
        }
      }
  }

  lemma {:induction false} RunExact(s: State, calls: seq<Timed>, b: Bucket, clock: int)
    requires IsPassword(b) && RowExact(s, b, clock) && Bounded(s, b, clock) && ClockMonotone(calls)
    requires 0 <= clock && forall i :: 0 <= i < |calls| ==> clock <= calls[i].now
    ensures RowExact(Run(s, calls), b, if calls == [] then clock else calls[|calls| - 1].now)
  {
    hide Bounded, RowExact, Next;
    if calls != [] {
      var before := calls[..|calls| - 1];
      RunExact(s, before, b, clock);
      RunKeeps(s, before, b, clock);
      NextExact(Run(s, before), calls[|calls| - 1], b, if before == [] then clock else before[|before| - 1].now);
    }
  }

  /** The bucket has a window of 600 seconds that is not over and holds the whole quota of accepted attempts. */
  ghost predicate UsedUp(log: seq<Entry>, b: Bucket, quota: nat, now: int) {
    exists w :: w <= now < w + 600 && Count(log, InWindow(b, w)) >= quota
  }

  /** A bucket refuses exactly when its quota is used up. */
  lemma BookedExactly(s: State, b: Bucket, now: int, clock: int)
    requires IsPassword(b) && RowExact(s, b, clock) && Bounded(s, b, clock) && 0 <= clock <= now
    ensures Booked(s.table, b, LimitOf(b), now).None? <==> UsedUp(s.log, b, LimitOf(b), now)
  {
    if w :| w <= now < w + WINDOW && Count(s.log, InWindow(b, w)) >= LimitOf(b) {
      if forall i :: 0 <= i < |s.log| ==> !InWindow(b, w)(s.log[i]) {
        CountNone(s.log, InWindow(b, w));
      }
      var i: int :| 0 <= i < |s.log| && InWindow(b, w)(s.log[i]);
      assert b in s.table && s.table[b].starts == w;
    }
  }

  predicate FromScratch(table: Table) {
    forall b :: b in table ==> !IsPassword(b)
  }

  /**
   * From a table without password counters and with a clock that never runs backwards, whatever logins come between:
   * an attempt is refused if and only if the user has five accepted attempts, or the peer twenty, in a window of 600
   * seconds that is not over.
   */
  lemma RefusedExactly(table: Table, calls: seq<Timed>, now: int, user: int, peer: string)
    requires FromScratch(table) && ClockMonotone(calls) && 0 <= now
    requires forall i :: 0 <= i < |calls| ==> 0 <= calls[i].now <= now
    ensures var s := Run(State(table, []), calls);
      !Accepts(s.table, now, user, peer) <==>
        UsedUp(s.log, PasswordUser(user), 5, now) || UsedUp(s.log, PasswordPeer(peer), 20, now)
  {
    hide Booked, UsedUp, Run;
    BucketExactly(table, calls, now, PasswordUser(user));
    BucketExactly(table, calls, now, PasswordPeer(peer));
  }

  lemma BucketExactly(table: Table, calls: seq<Timed>, now: int, b: Bucket)
    requires FromScratch(table) && ClockMonotone(calls) && IsPassword(b) && 0 <= now
    requires forall i :: 0 <= i < |calls| ==> 0 <= calls[i].now <= now
    ensures var s := Run(State(table, []), calls);
      Booked(s.table, b, LimitOf(b), now).None? <==> UsedUp(s.log, b, LimitOf(b), now)
  {
    var start := State(table, []);
    assert Bounded(start, b, 0) && RowExact(start, b, 0);
    RunKeeps(start, calls, b, 0);
    RunExact(start, calls, b, 0);
    hide Bounded, RowExact, Booked, UsedUp, Run;
    BookedExactly(Run(start, calls), b, now, if calls == [] then 0 else calls[|calls| - 1].now);
  }

  /**
   * What the throttle does to each row: old ones go, its own are counted, the name only while the address may go on.
   */
  lemma ThrottledRows(table: Table, now: int, address: string, name: string, b: Bucket)
    ensures var after := Throttled(table, now, address, name);
      var kept := b in table && now - WINDOW <= table[b].starts;
      var tried := if LoginPeer(address) in table && now - WINDOW <= table[LoginPeer(address)].starts
                   then table[LoginPeer(address)].attempts else 0;
      var counted := b == LoginPeer(address) || (b == LoginUser(name) && tried < 60);
      && (b in after <==> kept || counted)
      && (b in after ==> after[b].starts == (if kept then table[b].starts else now))
      && (b in after ==> after[b].attempts == (if kept then table[b].attempts else 0) + (if counted then 1 else 0))
  {
  }
}
