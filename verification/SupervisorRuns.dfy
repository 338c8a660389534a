/**
 * Every writer of the supervisor relation: directory imports
 * (lib/ldap_import.php) and the validated edits of administrators
 * (lib/admin_users.php), one transaction at a time.
 */
module SupervisorRuns {
  import opened Wrappers
  import opened Sums
  import opened Schema
  import opened SupervisorGraph
  import opened ManagerPlan
  import opened SupervisorLaws

  function Supervisors(users: map<int, User>): Graph {
    map id | id in users :: users[id].supervisor
  }

  function Admins(users: map<int, User>): set<int> {
    set id | id in users && users[id].role == Admin
  }

  /** Every account up the chain exists, and the chain ends without meeting the edited account. */
  ghost predicate ChainClear(g: Graph, s: int, target: Option<int>) {
    && Ends(g, s)
    && (forall n: nat :: Walk(g, s, n).Some? ==> Walk(g, s, n).value in g && Walk(g, s, n) != target)
  }

  ghost predicate ValidAssignment(users: map<int, User>, supervisor: Option<int>, target: Option<int>) {
    supervisor.Some? ==>
      && supervisor.value in users
      && users[supervisor.value].role != Employee
      && ChainClear(Supervisors(users), supervisor.value, target)
  }

  /** The target exists, and the last administrator stays one. */
  predicate GuardPasses(users: map<int, User>, target: int, nextRole: Option<Role>) {
    && target in users
    && (users[target].role == Admin && nextRole != Some(Admin) ==> |Admins(users)| > 1)
  }

  /**
   * The guard refuses exactly the changes of an existing account that would leave no administrator where there was one.
   */
  lemma GuardExactly(users: map<int, User>, target: int, nextRole: Option<Role>)
    ensures GuardPasses(users, target, nextRole) <==>
      && target in users
      && (users[target].role == Admin && nextRole != Some(Admin) ==>
           exists other :: other != target && other in users && users[other].role == Admin)
  {
    if target in users && users[target].role == Admin {
      var others := Admins(users) - {target};
      assert Admins(users) == others + {target};
      assert |Admins(users)| == |others| + 1;
      if others != {} {
        HasElement(others);
        var other :| other in others;
      } else {
        forall other | other != target && other in users ensures users[other].role != Admin {
          assert other !in others;
        }
      }
    }
  }

  /** The walk up the selected chain. */
  method AssignmentValid(users: map<int, User>, supervisor: Option<int>, target: Option<int>) returns (ok: bool)
    ensures ok <==> ValidAssignment(users, supervisor, target)
  {
    if supervisor.None? {
      return true;
    }
    var first := supervisor.value;
    if first !in users || users[first].role == Employee {
      return false;
    }
    ghost var g := Supervisors(users);
    if supervisor == target {
      assert Walk(g, first, 0) == target;
      return false;
    }
    var seen: set<int> := {};
    var cursor := supervisor;
    ghost var n: nat := 0;
    while cursor.Some?
      invariant cursor == Walk(g, first, n)
      invariant seen <= users.Keys
      invariant forall c :: c in seen ==> Visited(g, first, n, c)
      invariant forall i: nat :: i < n ==>
        Walk(g, first, i).Some? && Walk(g, first, i).value in g && Walk(g, first, i) != target
      decreases users.Keys - seen
    {
      if cursor == target {
        return false;
      }
      if cursor.value in seen {
        assert Visited(g, first, n, cursor.value);
        ghost var i :| 0 <= i < n && Walk(g, first, i) == Some(cursor.value);
        RepeatNeverEnds(g, first, i, n);
        return false;
      }
      if cursor.value !in users {
        assert Walk(g, first, n).value !in g;
        return false;
      }
      forall c | c in seen + {cursor.value} ensures Visited(g, first, n + 1, c) {
        if c in seen {
          ghost var i :| 0 <= i < n && Walk(g, first, i) == Some(c);
        } else {
          assert Walk(g, first, n) == Some(c);
        }
      }
      seen := seen + {cursor.value};
      cursor := users[cursor.value].supervisor;
      n := n + 1;
    }
    assert Walk(g, first, n).None?;
    forall k: nat | Walk(g, first, k).Some? ensures k < n {
      if n <= k {
        WalkOver(g, first, n, k);
      }
    }
    return true;
  }

  datatype Change =
    | Edit(target: int, role: Role, supervisor: Option<int>)
    | Create(id: int, role: Role, supervisor: Option<int>)
    | Delete(target: int)
    | Import(rows: seq<Identity>)

  /** Unknown accounts are added as employees, then the planned edges are written. */
  ghost function Imported(users: map<int, User>, rows: seq<Identity>, key: Key): map<int, User> {
    var all := WithNew(users, rows);
    WithEdges(all, Settled(Supervisors(all), Proposals(rows, key)))
  }

  ghost function WithNew(users: map<int, User>, rows: seq<Identity>): map<int, User> {
    users + map id | id in Ids(rows) - users.Keys :: User(Employee, None)
  }

  ghost function WithEdges(users: map<int, User>, edges: Graph): map<int, User> {
    map id | id in users :: if id in edges then User(users[id].role, edges[id]) else users[id]
  }

  /** A refused change leaves the accounts as they are. */
  ghost function Changed(users: map<int, User>, key: Key, c: Change): map<int, User> {
    match c
    case Edit(target, role, supervisor) =>
      if GuardPasses(users, target, Some(role)) && ValidAssignment(users, supervisor, Some(target))
        then users[target := User(role, supervisor)]
      else users
    case Create(id, role, supervisor) =>
      if id !in users && ValidAssignment(users, supervisor, None) then users[id := User(role, supervisor)] else users
    case Delete(target) => if GuardPasses(users, target, None) then users - {target} else users
    case Import(rows) => Imported(users, rows, key)
  }

  ghost function History(users: map<int, User>, key: Key, changes: seq<Change>): map<int, User> {
    if changes == [] then users
    else Changed(History(users, key, changes[..|changes| - 1]), key, changes[|changes| - 1])
  }

  /** The accounts table as the writers change it. */
  class Accounts {
    var users: map<int, User>

    method EditUser(target: int, role: Role, supervisor: Option<int>, key: Key) returns (ok: bool)
      modifies this
      ensures users == Changed(old(users), key, Edit(target, role, supervisor))
      ensures ok <==>
        GuardPasses(old(users), target, Some(role)) && ValidAssignment(old(users), supervisor, Some(target))
      ensures ok && supervisor.Some? ==>
        && supervisor != Some(target) && supervisor.value in old(users)
        && old(users)[supervisor.value].role in {Supervisor, Admin}
    {
      assert supervisor.Some? ==> Walk(Supervisors(users), supervisor.value, 0) == supervisor;
      ok := GuardPasses(users, target, Some(role));
      if ok {
        ok := AssignmentValid(users, supervisor, Some(target));
        if ok {
          users := users[target := User(role, supervisor)];
        }
      }
    }

    method CreateUser(id: int, role: Role, supervisor: Option<int>, key: Key) returns (ok: bool)
      requires id !in users
      modifies this
      ensures users == Changed(old(users), key, Create(id, role, supervisor))
      ensures ok <==> ValidAssignment(old(users), supervisor, None)
      ensures ok && supervisor.Some? ==>
        supervisor.value in old(users) && old(users)[supervisor.value].role in {Supervisor, Admin}
    {
      ok := AssignmentValid(users, supervisor, None);
      if ok {
        users := users[id := User(role, supervisor)];
      }
    }

    method DeleteUser(target: int, key: Key) returns (ok: bool)
      modifies this
      ensures users == Changed(old(users), key, Delete(target))
      ensures ok <==> GuardPasses(old(users), target, None)
    {
      ok := GuardPasses(users, target, None);
      if ok {
        users := users - {target};
      }
    }

    /** First pass: every identity gets an account. */
    method InsertNew(rows: seq<Identity>)
      modifies this
      ensures users == WithNew(old(users), rows)
    {
      hide WithNew, Ids;
      assert rows[..0] == [];
      NobodyNew(users);
      for i := 0 to |rows|
        invariant users == WithNew(old(users), rows[..i])
      {
        assert rows[..i + 1] == rows[..i] + [rows[i]];
        OneNew(old(users), rows[..i], rows[i]);
        if rows[i].id !in users {
          users := users[rows[i].id := User(Employee, None)];
        }
      }
      assert rows[..|rows|] == rows;
    }

    /** Second pass: the planned edges, written where they differ. */
    method WriteEdges(assignments: Graph)
      requires assignments.Keys <= users.Keys
      modifies this
      ensures users == WithEdges(old(users), assignments)
    {
      var current := map id | id in users :: users[id].supervisor;
      var left := assignments.Keys;
      while left != {}
        invariant left <= assignments.Keys
        invariant users == WithEdgesBut(old(users), assignments, left)
        decreases left
      {
        HasElement(left);
        var id :| id in left;
        EdgeWritten(old(users), assignments, left, id);
        if current[id] != assignments[id] {
          users := users[id := User(users[id].role, assignments[id])];
        }
        left := left - {id};
      }
      assert WithEdgesBut(old(users), assignments, {}) == WithEdges(old(users), assignments);
    }

    method ImportDirectory(rows: seq<Identity>, key: Key)
      modifies this
      ensures users == Changed(old(users), key, Import(rows))
    {
      InsertNew(rows);
      var current := map id | id in users :: users[id].supervisor;
      assert current == Supervisors(users);
      var assignments, _ := PlanManagers(rows, current, key);
      PlanDomains(rows, key);
      hide Proposals, Settled;
      WriteEdges(assignments);
    }
  }

  lemma NobodyNew(users: map<int, User>)
    ensures WithNew(users, []) == users
  {
  }

  lemma OneNew(users: map<int, User>, rows: seq<Identity>, r: Identity)
    ensures var before := WithNew(users, rows);
      WithNew(users, rows + [r]) == if r.id in before then before else before[r.id := User(Employee, None)]
  {
    IdsAppended(rows, r);
  }

  lemma EdgeWritten(users: map<int, User>, edges: Graph, left: set<int>, id: int)
    requires id in left && left <= edges.Keys && id in users
    ensures WithEdgesBut(users, edges, left - {id})
      == WithEdgesBut(users, edges, left)[id := User(users[id].role, edges[id])]
    ensures WithEdgesBut(users, edges, left)[id] == users[id]
  {
  }

  ghost function WithEdgesBut(users: map<int, User>, edges: Graph, left: set<int>): map<int, User> {
    map id | id in users :: if id in edges && id !in left then User(users[id].role, edges[id]) else users[id]
  }

  // --- Nobody's chain ever stops ending ---

  /** Walking up from a chain that stays clear of the changed account. */
  lemma ClearChainKept(g: Graph, h: Graph, s: int, target: int)
    requires ChainClear(g, s, Some(target))
    requires forall y :: y != target ==> Up(h, y) == Up(g, y)
    ensures Ends(h, s)
  {
    var n: nat :| Walk(g, s, n).None?;
    SameWalk(g, h, s, n);
  }

  lemma NewEdgeEnds(g: Graph, h: Graph, target: int, supervisor: Option<int>)
    requires supervisor.Some? ==> ChainClear(g, supervisor.value, Some(target))
    requires forall y :: y != target ==> Up(h, y) == Up(g, y)
    requires Up(h, target) == supervisor
    ensures Ends(h, target)
  {
    if supervisor.Some? {
      ClearChainKept(g, h, supervisor.value, target);
      assert Walk(h, target, 1) == supervisor by {
        assert Walk(h, target, 0) == Some(target);
      }
      EndsFrom(h, target, 1);
    } else {
      assert Walk(h, target, 0) == Some(target);
      assert Walk(h, target, 1).None?;
    }
  }

  lemma EditEnds(users: map<int, User>, target: int, role: Role, supervisor: Option<int>, x: int)
    requires supervisor.Some? ==> ChainClear(Supervisors(users), supervisor.value, Some(target))
    ensures Ends(Supervisors(users), x) ==> Ends(Supervisors(users[target := User(role, supervisor)]), x)
  {
    hide Ends, ChainClear;
    var g, h := Supervisors(users), Supervisors(users[target := User(role, supervisor)]);
    NewEdgeEnds(g, h, target, supervisor);
    ChangedEnds(g, h, {target}, x);
  }

  /** A chain of existing accounts does not meet a new one. */
  lemma ClearOfNew(g: Graph, s: int, id: int)
    requires ChainClear(g, s, None) && id !in g
    ensures ChainClear(g, s, Some(id))
  {
  }

  lemma ChangeEnds(users: map<int, User>, key: Key, c: Change, x: int)
    ensures Ends(Supervisors(users), x) ==> Ends(Supervisors(Changed(users, key, c)), x)
  {
    hide Ends, ChainClear, Settled, Proposals;
    match c
    case Edit(target, role, supervisor) =>
      if ValidAssignment(users, supervisor, Some(target)) {
        EditEnds(users, target, role, supervisor, x);
      }
    case Create(id, role, supervisor) =>
      if id !in users && ValidAssignment(users, supervisor, None) {
        if supervisor.Some? {
          ClearOfNew(Supervisors(users), supervisor.value, id);
        }
        EditEnds(users, id, role, supervisor, x);
      }
    case Delete(target) => ChangedEnds(Supervisors(users), Supervisors(users - {target}), {}, x);
    case Import(rows) =>
      var all := WithNew(users, rows);
      ChangedEnds(Supervisors(users), Supervisors(all), {}, x);
      PlanSafe(Supervisors(all), Proposals(rows, key), x);
      ImportedGraph(users, rows, key);
  }

  lemma ImportedGraph(users: map<int, User>, rows: seq<Identity>, key: Key)
    ensures var all := Supervisors(WithNew(users, rows));
      Supervisors(Imported(users, rows, key)) == all + Settled(all, Proposals(rows, key))
  {
    hide Settled, Proposals;
    PlanDomains(rows, key);
  }

  /** Over every run of imports and administration, an account whose chain ends keeps an ending chain. */
  lemma {:induction false} HistoryEnds(users: map<int, User>, key: Key, changes: seq<Change>, x: int)
    ensures Ends(Supervisors(users), x) ==> Ends(Supervisors(History(users, key, changes)), x)
  {
    hide Changed, Ends;
    if changes != [] {
      HistoryEnds(users, key, changes[..|changes| - 1], x);
      ChangeEnds(History(users, key, changes[..|changes| - 1]), key, changes[|changes| - 1], x);
    }
  }

  /** An acyclic supervisor relation stays acyclic over every run. */
  lemma HistoryAcyclic(users: map<int, User>, key: Key, changes: seq<Change>)
    requires Acyclic(Supervisors(users))
    ensures Acyclic(Supervisors(History(users, key, changes)))
  {
    hide Acyclic, Ends, History;
    AcyclicMeans(Supervisors(users));
    forall x ensures Ends(Supervisors(History(users, key, changes)), x) {
      HistoryEnds(users, key, changes, x);
    }
    AcyclicMeans(Supervisors(History(users, key, changes)));
  }

  // --- An administrator remains ---

  lemma ChangeKeepsAdmin(users: map<int, User>, key: Key, c: Change)
    requires Admins(users) != {}
    ensures Admins(Changed(users, key, c)) != {}
  {
    hide ValidAssignment, Settled, Proposals;
    var after := Changed(users, key, c);
    match c
    case Edit(target, role, supervisor) =>
      if after != users {
        AdminLeft(users, after, target, role == Admin);
      }
    case Delete(target) =>
      if after != users {
        AdminLeft(users, after, target, false);
      }
    case Create(id, role, supervisor) =>
      HasElement(Admins(users));
      var a :| a in Admins(users);
      assert a in Admins(after);
    case Import(rows) =>
      HasElement(Admins(users));
      var a :| a in Admins(users);
      assert a in Admins(after);
  }

  /** Removing one administrator of several, or none. */
  lemma AdminLeft(users: map<int, User>, after: map<int, User>, target: int, stays: bool)
    requires Admins(users) != {} && target in users
    requires users[target].role == Admin && !stays ==> |Admins(users)| > 1
    requires stays ==> target in after && after[target].role == Admin
    requires forall id :: id in users && id != target ==> id in after && after[id] == users[id]
    ensures Admins(after) != {}
  {
    if stays {
      assert target in Admins(after);
    } else {
      var others := Admins(users) - {target};
      if target in Admins(users) {
        assert |others| == |Admins(users)| - 1;
      } else {
        assert others == Admins(users);
      }
      HasElement(others);
      var a :| a in others;
      assert a in Admins(after);
    }
  }

  /** Once there is an administrator there is always one. */
  lemma {:induction false} HistoryKeepsAdmin(users: map<int, User>, key: Key, changes: seq<Change>)
    requires Admins(users) != {}
    ensures Admins(History(users, key, changes)) != {}
  {
    hide Changed, Admins;
    if changes != [] {
      HistoryKeepsAdmin(users, key, changes[..|changes| - 1]);
      ChangeKeepsAdmin(History(users, key, changes[..|changes| - 1]), key, changes[|changes| - 1]);
    }
  }
}
