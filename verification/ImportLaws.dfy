/** Whom the directory makes a supervisor, said of the imported rows themselves, and what an import leaves behind. */
module ImportLaws {
  import opened Wrappers
  import opened Sums
  import opened Schema
  import opened SupervisorGraph
  import opened ManagerPlan
  import opened SupervisorRuns

  // --- Rows, names and keys ---

  /** Row i is the only one of its account. */
  ghost predicate OnlyRow(rows: seq<Identity>, i: int) {
    0 <= i < |rows| && forall j :: 0 <= j < |rows| && rows[j].id == rows[i].id ==> j == i
  }

  ghost predicate HasKey(rows: seq<Identity>, key: Key, i: int, k: Option<string>) {
    0 <= i < |rows| && k.Some? && key(rows[i].dn) == k
  }

  /** Somebody's name has the key, and nobody's but this account's. */
  ghost predicate HeldBy(rows: seq<Identity>, key: Key, k: Option<string>, id: int) {
    && (exists i :: HasKey(rows, key, i, k))
    && (forall i :: HasKey(rows, key, i, k) ==> rows[i].id == id)
  }

  /** The account is told apart from all others: one row, and a readable name of its own. */
  ghost predicate Clear(rows: seq<Identity>, key: Key, i: int) {
    OnlyRow(rows, i) && HeldBy(rows, key, key(rows[i].dn), rows[i].id)
  }

  /** The manager named in row i is the account m, and m has a single row. */
  ghost predicate Names(rows: seq<Identity>, key: Key, i: int, m: int)
    requires 0 <= i < |rows|
  {
    && rows[i].manager != ""
    && HeldBy(rows, key, key(rows[i].manager), m)
    && (exists j :: OnlyRow(rows, j) && rows[j].id == m)
  }

  /** The directory gives the account this supervisor, or expressly none. */
  ghost predicate Gives(rows: seq<Identity>, key: Key, id: int, supervisor: Option<int>) {
    exists i :: && Clear(rows, key, i) && rows[i].id == id
                && (if supervisor.None? then rows[i].manager == ""
                    else supervisor.value != id && Names(rows, key, i, supervisor.value))
  }

  /** Why the directory says nothing about the account. */
  ghost predicate Unsaid(rows: seq<Identity>, key: Key, id: int, reason: Reason) {
    match reason
    case AmbiguousIdentity =>
      exists i :: && 0 <= i < |rows| && rows[i].id == id
                  && (!OnlyRow(rows, i) || (key(rows[i].dn).Some? && !HeldBy(rows, key, key(rows[i].dn), id)))
    case InvalidIdentity => exists i :: OnlyRow(rows, i) && rows[i].id == id && key(rows[i].dn).None?
    case InvalidManager =>
      exists i :: Clear(rows, key, i) && rows[i].id == id && rows[i].manager != "" && key(rows[i].manager).None?
    case UnknownManager =>
      exists i :: && Clear(rows, key, i) && rows[i].id == id && rows[i].manager != "" && key(rows[i].manager).Some?
                  && forall j :: !HasKey(rows, key, j, key(rows[i].manager))
    case AmbiguousManager =>
      exists i, j :: && Clear(rows, key, i) && rows[i].id == id && rows[i].manager != ""
                     && HasKey(rows, key, j, key(rows[i].manager))
                     && (!HeldBy(rows, key, key(rows[i].manager), rows[j].id) || !OnlyRow(rows, j))
    case SelfManager => exists i :: Clear(rows, key, i) && rows[i].id == id && Names(rows, key, i, id)
    case CyclicManager => false
  }

  // --- The indexes in these terms ---

  lemma {:induction false} RowsOfOne(rows: seq<Identity>, i: int)
    requires OnlyRow(rows, i)
    ensures RowsOf(rows, rows[i].id) == [rows[i]]
  {
    var last := |rows| - 1;
    var front := rows[..last];
    if i == last {
      assert rows[i].id !in Ids(front);
      RowsOfImported(front, rows[i].id);
    } else {
      assert forall j :: 0 <= j < last ==> front[j] == rows[j];
      RowsOfOne(front, i);
      assert rows[last].id != rows[i].id;
    }
  }

  lemma {:induction false} RowsOfMany(rows: seq<Identity>, i: int, j: int)
    requires 0 <= i < j < |rows| && rows[i].id == rows[j].id
    ensures |RowsOf(rows, rows[i].id)| > 1
  {
    var last := |rows| - 1;
    var front := rows[..last];
    if j == last {
      assert front[i].id == rows[i].id;
      RowsOfImported(front, rows[i].id);
    } else {
      RowsOfMany(front, i, j);
    }
  }

  lemma RowsOfExactly(rows: seq<Identity>, i: int)
    requires 0 <= i < |rows|
    ensures |RowsOf(rows, rows[i].id)| == 1 <==> OnlyRow(rows, i)
    ensures OnlyRow(rows, i) ==> RowsOf(rows, rows[i].id) == [rows[i]]
  {
    if OnlyRow(rows, i) {
      RowsOfOne(rows, i);
    } else {
      var j :| 0 <= j < |rows| && rows[j].id == rows[i].id && j != i;
      RowsOfMany(rows, if i < j then i else j, if i < j then j else i);
    }
  }

  lemma HoldersExactly(rows: seq<Identity>, key: Key, k: string, id: int)
    ensures Holders(rows, key, k) == {id} <==> HeldBy(rows, key, Some(k), id)
    ensures Holders(rows, key, k) == {} <==> forall i :: !HasKey(rows, key, i, Some(k))
    ensures forall i :: HasKey(rows, key, i, Some(k)) ==> rows[i].id in Holders(rows, key, k)
  {
    if HeldBy(rows, key, Some(k), id) {
      var i :| HasKey(rows, key, i, Some(k));
      assert rows[i].id == id;
    }
    if Holders(rows, key, k) == {id} {
      assert id in Holders(rows, key, k);
      var i :| 0 <= i < |rows| && key(rows[i].dn) == Some(k) && rows[i].id == id;
      assert HasKey(rows, key, i, Some(k));
      forall j | HasKey(rows, key, j, Some(k)) ensures rows[j].id == id {
        assert rows[j].id in Holders(rows, key, k);
      }
    }
    if h :| h in Holders(rows, key, k) {
      var i :| 0 <= i < |rows| && key(rows[i].dn) == Some(k) && rows[i].id == h;
      assert HasKey(rows, key, i, Some(k));
    }
    forall i | HasKey(rows, key, i, Some(k)) ensures rows[i].id in Holders(rows, key, k) {
    }
    assert (forall h :: h !in Holders(rows, key, k)) ==> Holders(rows, key, k) == {};
  }

  lemma SingleHolder(s: set<int>, id: int)
    requires id in s
    ensures |s| == 1 <==> s == {id}
  {
    if |s| == 1 {
      OneElement(s);
    }
  }

  // --- The classification says so ---

  ghost predicate Says(rows: seq<Identity>, key: Key, id: int, p: Proposal) {
    if p.Assigned? then Gives(rows, key, id, p.supervisor) else Unsaid(rows, key, id, p.reason)
  }

  lemma ManagerExactly(rows: seq<Identity>, key: Key, i: int)
    requires Clear(rows, key, i)
    ensures RowsOf(rows, rows[i].id) != []
    ensures Says(rows, key, rows[i].id, Classified(rows, key, rows[i].id))
  {
    var id := rows[i].id;
    RowsOfExactly(rows, i);
    var name := key(rows[i].dn);
    HoldersExactly(rows, key, name.value, id);
    SingleHolder(Holders(rows, key, name.value), id);
    var boss := key(rows[i].manager);
    if rows[i].manager != "" && boss.Some? {
      NamedExactly(rows, key, i);
    }
    hide Holders, RowsOf, OnlyRow, HeldBy;
  }

  lemma NamedExactly(rows: seq<Identity>, key: Key, i: int)
    requires Clear(rows, key, i) && rows[i].manager != "" && key(rows[i].manager).Some?
    ensures var matches := Holders(rows, key, key(rows[i].manager).value);
      && (matches == {} ==> Unsaid(rows, key, rows[i].id, UnknownManager))
      && (matches != {} && (|matches| != 1 || exists m :: m in matches && |RowsOf(rows, m)| != 1) ==>
           Unsaid(rows, key, rows[i].id, AmbiguousManager))
      && (|matches| == 1 && (forall m :: m in matches ==> |RowsOf(rows, m)| == 1) ==>
           Names(rows, key, i, Only(matches)))
  {
    var boss := key(rows[i].manager);
    var matches := Holders(rows, key, boss.value);
    HoldersExactly(rows, key, boss.value, rows[i].id);
    if matches != {} {
      HasElement(matches);
      var m :| m in matches;
      var j :| 0 <= j < |rows| && key(rows[j].dn) == boss && rows[j].id == m;
      assert HasKey(rows, key, j, boss);
      HoldersExactly(rows, key, boss.value, m);
      SingleHolder(matches, m);
      RowsOfExactly(rows, j);
    }
    hide RowsOf, OnlyRow, HeldBy, Holders;
  }

  lemma ClassifiedExactly(rows: seq<Identity>, key: Key, id: int)
    requires id in Ids(rows)
    ensures RowsOf(rows, id) != []
    ensures Says(rows, key, id, Classified(rows, key, id))
  {
    RowsOfImported(rows, id);
    var i :| 0 <= i < |rows| && rows[i].id == id;
    RowsOfExactly(rows, i);
    if Clear(rows, key, i) {
      ManagerExactly(rows, key, i);
    } else if OnlyRow(rows, i) && key(rows[i].dn).Some? {
      assert HasKey(rows, key, i, key(rows[i].dn));
      HoldersExactly(rows, key, key(rows[i].dn).value, id);
      SingleHolder(Holders(rows, key, key(rows[i].dn).value), id);
      hide OnlyRow, HeldBy, Holders, RowsOf, Gives;
    }
  }

  // --- And nothing else ---

  lemma ClearClassified(rows: seq<Identity>, key: Key, i: int)
    requires Clear(rows, key, i)
    ensures RowsOf(rows, rows[i].id) == [rows[i]]
    ensures key(rows[i].dn).Some? && |Holders(rows, key, key(rows[i].dn).value)| == 1
  {
    RowsOfExactly(rows, i);
    HoldersExactly(rows, key, key(rows[i].dn).value, rows[i].id);
  }

  lemma NamesClassified(rows: seq<Identity>, key: Key, i: int, m: int)
    requires 0 <= i < |rows| && Names(rows, key, i, m)
    ensures key(rows[i].manager).Some? && Holders(rows, key, key(rows[i].manager).value) == {m}
    ensures |RowsOf(rows, m)| == 1
  {
    HoldersExactly(rows, key, key(rows[i].manager).value, m);
    var j :| OnlyRow(rows, j) && rows[j].id == m;
    RowsOfExactly(rows, j);
  }

  lemma GivesClassified(rows: seq<Identity>, key: Key, id: int, s: Option<int>)
    requires Gives(rows, key, id, s)
    ensures RowsOf(rows, id) != [] && Classified(rows, key, id) == Assigned(s)
  {
    var i :| && Clear(rows, key, i) && rows[i].id == id
             && (if s.None? then rows[i].manager == "" else s.value != id && Names(rows, key, i, s.value));
    ClearClassified(rows, key, i);
    if s.Some? {
      NamesClassified(rows, key, i, s.value);
    }
    hide Clear, Names, RowsOf, Holders;
  }

  lemma AmbiguousClassified(rows: seq<Identity>, key: Key, id: int)
    requires Unsaid(rows, key, id, AmbiguousIdentity)
    ensures RowsOf(rows, id) != [] && Classified(rows, key, id) == Conflicted(AmbiguousIdentity)
  {
    var i :| && 0 <= i < |rows| && rows[i].id == id
             && (!OnlyRow(rows, i) || (key(rows[i].dn).Some? && !HeldBy(rows, key, key(rows[i].dn), id)));
    RowsOfImported(rows, id);
    assert id in Ids(rows);
    RowsOfExactly(rows, i);
    if OnlyRow(rows, i) {
      var k := key(rows[i].dn).value;
      HoldersExactly(rows, key, k, id);
      assert HasKey(rows, key, i, Some(k));
      SingleHolder(Holders(rows, key, k), id);
    }
    hide OnlyRow, HeldBy, RowsOf, Holders, Ids;
  }

  lemma ManagerClassified(rows: seq<Identity>, key: Key, id: int, r: Reason)
    requires Unsaid(rows, key, id, r)
    requires r == InvalidManager || r == UnknownManager || r == SelfManager
    ensures RowsOf(rows, id) != [] && Classified(rows, key, id) == Conflicted(r)
  {
    var i :| && Clear(rows, key, i) && rows[i].id == id && rows[i].manager != ""
             && (r == InvalidManager ==> key(rows[i].manager).None?)
             && (r == UnknownManager ==>
                  key(rows[i].manager).Some? && forall j :: !HasKey(rows, key, j, key(rows[i].manager)))
             && (r == SelfManager ==> Names(rows, key, i, id));
    ClearClassified(rows, key, i);
    if r == UnknownManager {
      HoldersExactly(rows, key, key(rows[i].manager).value, id);
    } else if r == SelfManager {
      NamesClassified(rows, key, i, id);
    }
    hide Clear, Names, RowsOf, Holders, HasKey, Unsaid;
  }

  lemma AmbiguousManagerClassified(rows: seq<Identity>, key: Key, id: int)
    requires Unsaid(rows, key, id, AmbiguousManager)
    ensures RowsOf(rows, id) != [] && Classified(rows, key, id) == Conflicted(AmbiguousManager)
  {
    var i, j :| && Clear(rows, key, i) && rows[i].id == id && rows[i].manager != ""
                && HasKey(rows, key, j, key(rows[i].manager))
                && (!HeldBy(rows, key, key(rows[i].manager), rows[j].id) || !OnlyRow(rows, j));
    ClearClassified(rows, key, i);
    var k := key(rows[i].manager).value;
    var m := rows[j].id;
    HoldersExactly(rows, key, k, m);
    SingleHolder(Holders(rows, key, k), m);
    RowsOfExactly(rows, j);
    hide Clear, HeldBy, OnlyRow, RowsOf, Holders, HasKey, Unsaid;
  }

  lemma UnsaidClassified(rows: seq<Identity>, key: Key, id: int, r: Reason)
    requires Unsaid(rows, key, id, r)
    ensures RowsOf(rows, id) != [] && Classified(rows, key, id) == Conflicted(r)
  {
    match r
    case AmbiguousIdentity => AmbiguousClassified(rows, key, id);
    case AmbiguousManager => AmbiguousManagerClassified(rows, key, id);
    case InvalidIdentity =>
      var i :| OnlyRow(rows, i) && rows[i].id == id && key(rows[i].dn).None?;
      RowsOfExactly(rows, i);
    case _ => ManagerClassified(rows, key, id, r);
  }

  // --- What is planned ---

  /**
   * The proposals are read off the rows: an account gets the supervisor its only row names, or none where the row names
   * none, exactly when the account and the named one can be told apart from all others; and every other imported
   * account is a conflict, with its reason.
   */
  lemma ProposalsExactly(rows: seq<Identity>, key: Key, id: int)
    ensures forall s :: id in Proposals(rows, key) && Proposals(rows, key)[id] == s <==> Gives(rows, key, id, s)
    ensures forall r :: id in Conflicts(rows, key) && Conflicts(rows, key)[id] == r <==> Unsaid(rows, key, id, r)
  {
    hide Classified, RowsOf, Gives, Unsaid;
    if id in Ids(rows) {
      Planned(rows, key, id);
      ClassifiedExactly(rows, key, id);
    }
    forall s | Gives(rows, key, id, s) ensures id in Proposals(rows, key) && Proposals(rows, key)[id] == s {
      GivesClassified(rows, key, id, s);
      RowsOfImported(rows, id);
    }
    forall r | Unsaid(rows, key, id, r) ensures id in Conflicts(rows, key) && Conflicts(rows, key)[id] == r {
      UnsaidClassified(rows, key, id, r);
      RowsOfImported(rows, id);
    }
  }

  // --- What is withdrawn ---

  /**
   * A round of proposals, at least those that are kept at the end, in which this account's chain runs into a cycle.
   */
  ghost predicate RunsRound(current: Graph, proposals: Graph, kept: Graph, round: Graph, id: int) {
    && kept.Keys <= round.Keys <= proposals.Keys
    && (forall x :: x in round ==> round[x] == proposals[x])
    && id in round && !Ends(current + round, id)
  }

  ghost predicate Withdrawn(current: Graph, proposals: Graph, kept: Graph, id: int) {
    exists round :: RunsRound(current, proposals, kept, round, id)
  }

  /** Only proposals that would have led into a cycle are withdrawn, and a plan without cycles is kept as it is. */
  lemma {:induction false} OnlyCyclicWithdrawn(current: Graph, proposals: Graph, id: int)
    requires id in proposals && id !in Settled(current, proposals)
    ensures Withdrawn(current, proposals, Settled(current, proposals), id)
    decreases |proposals|
  {
    var cyclic := Cyclic(current, proposals);
    if id in cyclic {
      assert RunsRound(current, proposals, Settled(current, proposals), proposals, id);
    } else {
      var left := proposals - cyclic;
      FewerLeft(proposals, cyclic);
      OnlyCyclicWithdrawn(current, left, id);
      var round :| RunsRound(current, left, Settled(current, left), round, id);
      assert RunsRound(current, proposals, Settled(current, proposals), round, id);
    }
  }

  // --- What an import leaves ---

  /** The supervisor an account had before the import; a new one had none. */
  function Before(users: map<int, User>, id: int): Option<int> {
    if id in users then users[id].supervisor else None
  }

  /**
   * After an import an account has the supervisor its row names, unless that would have closed a cycle; then, and when
   * the directory says nothing about it, it keeps the supervisor it had.  Nobody's role changes, and new accounts are
   * employees.
   */
  lemma ImportedExactly(users: map<int, User>, rows: seq<Identity>, key: Key, id: int)
    ensures var after := Imported(users, rows, key);
      var all := Supervisors(WithNew(users, rows));
      && after.Keys == users.Keys + Ids(rows)
      && (id in users ==> after[id].role == users[id].role)
      && (id in after && id !in users ==> after[id].role == Employee)
      && (forall s :: Gives(rows, key, id, s) ==>
            && id in after
            && (after[id].supervisor == s
                || (after[id].supervisor == Before(users, id)
                    && Withdrawn(all, Proposals(rows, key), Settled(all, Proposals(rows, key)), id))))
      && ((forall s :: !Gives(rows, key, id, s)) && id in after ==> after[id].supervisor == Before(users, id))
  {
    hide Imported, WithNew, Proposals, Settled, Gives, Unsaid, Withdrawn, Conflicts, Ids;
    ImportedAt(users, rows, key, id);
    PlanDomains(rows, key);
    SettledSome(Supervisors(WithNew(users, rows)), Proposals(rows, key));
    if s :| Gives(rows, key, id, s) {
      GivenProposed(rows, key, id, s);
      forall t | Gives(rows, key, id, t) ensures t == s {
        GivenProposed(rows, key, id, t);
      }
      if id !in Settled(Supervisors(WithNew(users, rows)), Proposals(rows, key)) {
        OnlyCyclicWithdrawn(Supervisors(WithNew(users, rows)), Proposals(rows, key), id);
      }
    } else if id in Proposals(rows, key) {
      ProposedGiven(rows, key, id);
    }
  }

  lemma SettledSome(current: Graph, proposals: Graph)
    ensures forall id :: id in Settled(current, proposals) ==>
      id in proposals && Settled(current, proposals)[id] == proposals[id]
  {
  }

  lemma GivenProposed(rows: seq<Identity>, key: Key, id: int, s: Option<int>)
    requires Gives(rows, key, id, s)
    ensures id in Proposals(rows, key) && Proposals(rows, key)[id] == s
  {
    hide Proposals, Gives, Unsaid, Conflicts;
    ProposalsExactly(rows, key, id);
  }

  lemma ProposedGiven(rows: seq<Identity>, key: Key, id: int)
    requires id in Proposals(rows, key)
    ensures Gives(rows, key, id, Proposals(rows, key)[id])
  {
    hide Proposals, Gives, Unsaid, Conflicts;
    ProposalsExactly(rows, key, id);
  }

  lemma ImportedAt(users: map<int, User>, rows: seq<Identity>, key: Key, id: int)
    ensures var after := Imported(users, rows, key);
      var kept := Settled(Supervisors(WithNew(users, rows)), Proposals(rows, key));
      && after.Keys == users.Keys + Ids(rows)
      && (id in kept ==> id in after)
      && (id in after ==>
           && after[id].role == (if id in users then users[id].role else Employee)
           && after[id].supervisor == (if id in kept then kept[id] else Before(users, id)))
  {
    PlanDomains(rows, key);
    hide Proposals, Settled, Ids;
  }

  /** When the proposals close no cycle at all, every one of them is carried out. */
  lemma AllCarriedOut(users: map<int, User>, rows: seq<Identity>, key: Key, id: int, s: Option<int>)
    requires Gives(rows, key, id, s)
    requires forall x :: Ends(Supervisors(WithNew(users, rows)) + Proposals(rows, key), x)
    ensures id in Imported(users, rows, key) && Imported(users, rows, key)[id].supervisor == s
  {
    PlanDomains(rows, key);
    ProposalsExactly(rows, key, id);
    assert Cyclic(Supervisors(WithNew(users, rows)), Proposals(rows, key)) == {};
    hide Proposals, Ends, Gives, Unsaid, Conflicts;
  }
}
