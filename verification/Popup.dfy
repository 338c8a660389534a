/**
 * The booking client (firefox_add_on/popup.js): a pending event is stored
 * before it is sent, retried with the identical body, and forgotten only on a
 * matching acknowledgement or a refusal.
 */
module Popup {
  import opened Wrappers
  import opened Schema
  import opened Attendance

  /** The body of a booking request; `expected` is the bound booking. */
  datatype Body = Body(eventId: string, action: Action, confirm: bool, expected: Option<int>,
                       metadata: Option<Metadata>)

  /** A body together with the account it belongs to. */
  datatype Owned = Owned(user: int, body: Body)

  datatype Known = Known(state: State, record: Option<int>)

  /** Idle, writing the pending event to storage, or waiting for the answer to a numbered request. */
  datatype Phase = Idle | Storing | Waiting(send: nat)

  datatype Client = Client(user: Option<int>, status: Option<Known>, pending: Option<Body>, phase: Phase,
                           saved: Option<Owned>)

  /** What reaches the client: a receipt, a refusal (4xx), a failed sign-in (401) or anything else. */
  datatype Answer = Accepted(receipt: Receipt) | Declined(status: int) | Unauthorised | Unclear

  datatype Outcome = Acknowledged | Dropped

  /** The client's own table of actions. */
  function Offered(state: State): set<Action> {
    match state
    case Absent => {Start}
    case Working => {PauseStart, End}
    case Paused => {PauseEnd, End}
  }

  /** What a restored event must look like. */
  predicate ValidPending(b: Body) {
    && ValidEventId(b.eventId)
    && (b.action == End ==> b.expected.Some?)
    && (b.action != End ==> !b.confirm)
    && (b.action == Start ==> b.expected.None?)
    && (b.expected.Some? ==> 0 < b.expected.value)
    && (b.metadata.Some? ==> b.action == Start && ValidMetadata(b.metadata.value))
  }

  /** An answer that acknowledges exactly this event. */
  predicate Matching(b: Body, r: Receipt) {
    && r.eventId == b.eventId
    && (Nondefault(b.metadata) ==> r.metadata == b.metadata)
    && 0 < r.record
    && (b.expected.Some? ==> r.record == b.expected.value)
  }

  /** A status is believed only when it binds a booking exactly while somebody is present. */
  predicate Credible(k: Known) {
    (k.state == Absent <==> k.record.None?) && (k.record.Some? ==> 0 < k.record.value)
  }

  /** A new event for an offered action, if the client may create one. */
  function Built(c: Client, id: string, action: Action, metadata: Metadata): Option<Body> {
    if c.status.None? || action !in Offered(c.status.value.state) || (action == Start && !ValidMetadata(metadata))
      then None
    else
      Some(Body(id, action, action == End && c.status.value.state == Paused,
                if action == Start then None else c.status.value.record,
                if action == Start && Nondefault(Some(metadata)) then Some(metadata) else None))
  }

  /** Storing the pending event; a failed write leaves it unsent. */
  function Stored(c: Client, user: int, b: Body, written: bool): Client {
    c.(pending := Some(b),
       phase := if written then Storing else Idle,
       saved := if written then Some(Owned(user, b)) else c.saved)
  }

  /** Leaving; `forget` says that a sign-out removed the stored event, which it keeps when the removal fails. */
  function Left(c: Client, forget: bool): Client {
    Client(None, None, None, Idle, if forget then None else c.saved)
  }

  /** An event that is kept even when it is malformed, because it carries a binding or metadata. */
  predicate Bound(b: Body) {
    b.expected.Some? || b.metadata.Some?
  }

  /**
   * Signing in restores the event of the same account.  An event of another account, an unbound malformed one and
   * whatever is there when the storage cannot be read are removed, if the removal succeeds.
   */
  function SignedIn(c: Client, user: int, read: bool, removed: bool): Client {
    var entered := c.(user := Some(user), status := None, pending := None, phase := Idle);
    if read && c.saved.Some? && c.saved.value.user == user
      && (ValidPending(c.saved.value.body) || Bound(c.saved.value.body)) then
      entered.(pending := Some(c.saved.value.body))
    else
      entered.(saved := if removed then None else c.saved)
  }

  /** The client after an answer, and what became of the event if it is forgotten. */
  function Answered(c: Client, b: Body, a: Answer, removed: bool): (Client, Option<Outcome>) {
    var idle := c.(phase := Idle);
    match a
    case Unauthorised => (Left(c, false), None)
    case Unclear => (idle, None)
    case Declined(_) =>
      if removed then (idle.(pending := None, status := None, saved := None), Some(Dropped)) else (idle, None)
    case Accepted(r) =>
      if !Matching(b, r) then (idle, None)
      else if removed then (idle.(pending := None, status := None, saved := None), Some(Acknowledged))
      else (idle.(status := None), None)
  }

  /** The controller as it runs, one method for each stretch between two awaits. */
  class Controller {
    var user: Option<int>
    var status: Option<Known>
    var pending: Option<Body>
    var phase: Phase
    var saved: Option<Owned>

    ghost function View(): Client
      reads this
    {
      Client(user, status, pending, phase, saved)
    }

    method ClearSession(forget: bool)
      modifies this
      ensures View() == Left(old(View()), forget)
    {
      user, status := None, None;
      phase, pending := Idle, None;
      if forget {
        saved := None;
      }
    }

    method RestorePending(account: int, read: bool, removed: bool)
      modifies this
      ensures View() == SignedIn(old(View()), account, read, removed)
    {
      user, status, pending, phase := Some(account), None, None, Idle;
      if !read {
        if removed {
          saved := None;
        }
        return;
      }
      if saved.Some? && saved.value.user == account && ValidPending(saved.value.body) {
        pending := Some(saved.value.body);
      } else if saved.Some? && saved.value.user == account && Bound(saved.value.body) {
        pending := Some(saved.value.body);
      } else if removed {
        saved := None;
      }
    }

    method ApplyStatus(state: State, record: Option<int>) returns (ok: bool)
      modifies this
      ensures ok <==> Credible(Known(state, record))
      ensures View() == if ok then old(View()).(status := Some(Known(state, record))) else old(View())
    {
      if record.Some? && record.value <= 0 {
        return false;
      }
      if (state == Absent && record.Some?) || (state != Absent && record.None?) {
        return false;
      }
      status := Some(Known(state, record));
      return true;
    }

    /** Up to the end of the write: a pending event is stored again unchanged, otherwise a new one is built. */
    method SendTimeEntry(action: Action, id: string, metadata: Metadata, written: bool) returns (started: bool)
      modifies this
      ensures started <==>
        && old(phase).Idle? && old(user).Some?
        && (if old(pending).Some? then ValidPending(old(pending).value) && old(pending).value.action == action
            else Built(old(View()), id, action, metadata).Some?)
      ensures started && old(pending).Some? ==>
        View() == Stored(old(View()), old(user).value, old(pending).value, written)
      ensures started && old(pending).None? ==>
        View() == Stored(old(View()), old(user).value, Built(old(View()), id, action, metadata).value, written)
      ensures !started ==> View() == old(View())
    {
      if !phase.Idle? || user.None? {
        return false;
      }
      if pending.Some? && (!ValidPending(pending.value) || pending.value.action != action) {
        return false;
      }
      if pending.None? {
        if status.None? || action !in Offered(status.value.state) {
          return false;
        }
        var confirm := action == End && status.value.state == Paused;
        if action == Start && !ValidMetadata(metadata) {
          return false;
        }
        var details := if action == Start && Nondefault(Some(metadata)) then Some(metadata) else None;
        pending := Some(Body(id, action, confirm, if action == Start then None else status.value.record, details));
      }
      phase := Storing;
      if written {
        saved := Some(Owned(user.value, pending.value));
      } else {
        phase := Idle;
      }
      return true;
    }

    /** The rest of a send, once its answer is there. */
    method Settle(a: Answer, removed: bool) returns (outcome: Option<Outcome>)
      requires phase.Waiting? && pending.Some?
      modifies this
      ensures (View(), outcome) == Answered(old(View()), old(pending).value, a, removed)
    {
      outcome := None;
      if a.Unauthorised? {
        ClearSession(false);
        return;
      }
      if a.Declined? {
        if removed {
          saved, pending, status, outcome := None, None, None, Some(Dropped);
        }
      } else if a.Accepted? && Matching(pending.value, a.receipt) {
        status := None;
        if removed {
          saved, pending, outcome := None, None, Some(Acknowledged);
        }
      }
      phase := Idle;
    }
  }
}
