/**
 * The plan for supervisors taken from a directory (lib/ldap_manager_mapping.php):
 * identities are classified, and proposals that would lead into a cycle are
 * withdrawn until none is left.
 */
module ManagerPlan {
  import opened Wrappers
  import opened Sums
  import opened SupervisorGraph

  /** One imported row: the account, its distinguished name and that of its manager. */
  datatype Identity = Identity(id: int, dn: string, manager: string)

  datatype Reason =
    | AmbiguousIdentity
    | InvalidIdentity
    | InvalidManager
    | UnknownManager
    | AmbiguousManager
    | SelfManager
    | CyclicManager

  datatype Proposal = Assigned(supervisor: Option<int>) | Conflicted(reason: Reason)

  type Key = string -> Option<string>

  function Ids(rows: seq<Identity>): set<int> {
    set i | 0 <= i < |rows| :: rows[i].id
  }

  /** The rows of one account, in order. */
  function RowsOf(rows: seq<Identity>, id: int): seq<Identity> {
    if rows == [] then []
    else
      var last := rows[|rows| - 1];
      RowsOf(rows[..|rows| - 1], id) + (if last.id == id then [last] else [])
  }

  /** The accounts whose name has the key. */
  function Holders(rows: seq<Identity>, key: Key, k: string): set<int> {
    set i | 0 <= i < |rows| && key(rows[i].dn) == Some(k) :: rows[i].id
  }

  /** What the directory says about one imported account. */
  function Classified(rows: seq<Identity>, key: Key, id: int): Proposal
    requires RowsOf(rows, id) != []
  {
    var own := RowsOf(rows, id);
    if |own| != 1 then Conflicted(AmbiguousIdentity)
    else
      var name := key(own[0].dn);
      if name.None? then Conflicted(InvalidIdentity)
      else if |Holders(rows, key, name.value)| != 1 then Conflicted(AmbiguousIdentity)
      else if own[0].manager == "" then Assigned(None)
      else
        var boss := key(own[0].manager);
        if boss.None? then Conflicted(InvalidManager)
        else
          var matches := Holders(rows, key, boss.value);
          if matches == {} then Conflicted(UnknownManager)
          else if |matches| != 1 || exists m :: m in matches && |RowsOf(rows, m)| != 1 then Conflicted(AmbiguousManager)
          else if id in matches then Conflicted(SelfManager)
          else Assigned(Some(Only(matches)))
  }

  lemma OneElement(s: set<int>)
    requires |s| == 1
    ensures exists x :: s == {x}
  {
    HasElement(s);
    var x :| x in s;
    assert |s - {x}| == 0;
    assert s == {x};
  }

  /** The element of a set that has just one. */
  function Only(s: set<int>): (x: int)
    requires |s| == 1
    ensures s == {x}
  {
    OneElement(s);
    var x :| x in s && s == {x};
    x
  }

  lemma {:induction false} RowsOfImported(rows: seq<Identity>, id: int)
    ensures RowsOf(rows, id) != [] <==> id in Ids(rows)
    ensures forall r :: r in RowsOf(rows, id) <==> r in rows && r.id == id
  {
    if rows != [] {
      var last := |rows| - 1;
      RowsOfImported(rows[..last], id);
      assert rows == rows[..last] + [rows[last]];
      assert forall r :: r in rows <==> r in rows[..last] || r == rows[last];
      IdsAppended(rows[..last], rows[last]);
    }
  }

  lemma IdsAppended(rows: seq<Identity>, r: Identity)
    ensures Ids(rows + [r]) == Ids(rows) + {r.id}
  {
    var more := rows + [r];
    forall id | id in Ids(rows) + {r.id} ensures id in Ids(more) {
      if id in Ids(rows) {
        var i :| 0 <= i < |rows| && rows[i].id == id;
        assert more[i].id == id;
      } else {
        assert more[|rows|].id == id;
      }
    }
  }

  lemma HoldersAppended(rows: seq<Identity>, r: Identity, key: Key, k: string)
    ensures Holders(rows + [r], key, k) == Holders(rows, key, k) + (if key(r.dn) == Some(k) then {r.id} else {})
  {
    var more := rows + [r];
    forall id | id in Holders(rows, key, k) ensures id in Holders(more, key, k) {
      var i :| 0 <= i < |rows| && key(rows[i].dn) == Some(k) && rows[i].id == id;
      assert more[i] == rows[i];
    }
    if key(r.dn) == Some(k) {
      assert more[|rows|] == r;
    }
  }

  lemma HolderImported(rows: seq<Identity>, key: Key, k: string)
    ensures Holders(rows, key, k) <= Ids(rows)
  {
  }

  ghost function Proposals(rows: seq<Identity>, key: Key): Graph {
    map id | id in Ids(rows) && RowsOf(rows, id) != [] && Classified(rows, key, id).Assigned? ::
      Classified(rows, key, id).supervisor
  }

  ghost function Conflicts(rows: seq<Identity>, key: Key): map<int, Reason> {
    map id | id in Ids(rows) && RowsOf(rows, id) != [] && Classified(rows, key, id).Conflicted? ::
      Classified(rows, key, id).reason
  }

  // --- Classification as it runs ---

  ghost predicate IndexesIds(byId: map<int, seq<Identity>>, rows: seq<Identity>) {
    byId.Keys == Ids(rows) && forall id :: RowsOf(rows, id) == if id in byId then byId[id] else []
  }

  ghost predicate IndexesNames(byDn: map<string, set<int>>, rows: seq<Identity>, key: Key) {
    forall k :: Holders(rows, key, k) == if k in byDn then byDn[k] else {}
  }

  function AddId(byId: map<int, seq<Identity>>, r: Identity): map<int, seq<Identity>> {
    byId[r.id := (if r.id in byId then byId[r.id] else []) + [r]]
  }

  function AddName(byDn: map<string, set<int>>, r: Identity, key: Key): map<string, set<int>> {
    var k := key(r.dn);
    if k.None? then byDn else byDn[k.value := (if k.value in byDn then byDn[k.value] else {}) + {r.id}]
  }

  lemma IdAdded(byId: map<int, seq<Identity>>, rows: seq<Identity>, r: Identity)
    requires IndexesIds(byId, rows)
    ensures IndexesIds(AddId(byId, r), rows + [r])
  {
    assert (rows + [r])[..|rows|] == rows;
    IdsAppended(rows, r);
  }

  lemma NameAdded(byDn: map<string, set<int>>, rows: seq<Identity>, r: Identity, key: Key)
    requires IndexesNames(byDn, rows, key)
    ensures IndexesNames(AddName(byDn, r, key), rows + [r], key)
  {
    hide Holders;
    forall k
      ensures Holders(rows + [r], key, k) == Holders(rows, key, k) + (if key(r.dn) == Some(k) then {r.id} else {})
    {
      HoldersAppended(rows, r, key, k);
    }
  }

  method Indexed(rows: seq<Identity>, key: Key) returns (byId: map<int, seq<Identity>>, byDn: map<string, set<int>>)
    ensures IndexesIds(byId, rows) && IndexesNames(byDn, rows, key)
  {
    byId, byDn := map[], map[];
    assert rows[..0] == [];
    for i := 0 to |rows|
      invariant IndexesIds(byId, rows[..i]) && IndexesNames(byDn, rows[..i], key)
    {
      hide IndexesIds, IndexesNames;
      assert rows[..i + 1] == rows[..i] + [rows[i]];
      IdAdded(byId, rows[..i], rows[i]);
      NameAdded(byDn, rows[..i], rows[i], key);
      byId := AddId(byId, rows[i]);
      byDn := AddName(byDn, rows[i], key);
    }
    assert rows[..|rows|] == rows;
  }

  lemma PlanDomains(rows: seq<Identity>, key: Key)
    ensures Proposals(rows, key).Keys <= Ids(rows) && Conflicts(rows, key).Keys <= Ids(rows)
  {
  }

  /** What the classification of one account contributes to the plan. */
  lemma Planned(rows: seq<Identity>, key: Key, id: int)
    requires id in Ids(rows)
    ensures RowsOf(rows, id) != []
    ensures match Classified(rows, key, id)
      case Assigned(s) => id in Proposals(rows, key) && Proposals(rows, key)[id] == s && id !in Conflicts(rows, key)
      case Conflicted(r) => id in Conflicts(rows, key) && Conflicts(rows, key)[id] == r && id !in Proposals(rows, key)
  {
    RowsOfImported(rows, id);
    hide Classified, RowsOf;
  }

  method Classify(rows: seq<Identity>, key: Key) returns (assignments: Graph, conflicts: map<int, Reason>)
    ensures assignments == Proposals(rows, key)
    ensures conflicts == Conflicts(rows, key)
  {
    hide Classified, Holders, RowsOf, Proposals, Conflicts, IndexesNames;
    var byId, byDn := Indexed(rows, key);
    PlanDomains(rows, key);
    assignments, conflicts := map[], map[];
    var left := byId.Keys;
    while left != {}
      invariant left <= byId.Keys
      invariant assignments.Keys == Proposals(rows, key).Keys - left
      invariant conflicts.Keys == Conflicts(rows, key).Keys - left
      invariant forall id :: id in assignments ==> assignments[id] == Proposals(rows, key)[id]
      invariant forall id :: id in conflicts ==> conflicts[id] == Conflicts(rows, key)[id]
      decreases left
    {
      HasElement(left);
      var id :| id in left;
      Planned(rows, key, id);
      var p := ClassifyOne(rows, byId, byDn, key, id);
      if p.Assigned? {
        assignments := assignments[id := p.supervisor];
      } else {
        conflicts := conflicts[id := p.reason];
      }
      left := left - {id};
    }
  }

  /** One turn of the loop, with its early continuations. */
  method ClassifyOne(rows: seq<Identity>, byId: map<int, seq<Identity>>, byDn: map<string, set<int>>, key: Key,
                     id: int) returns (p: Proposal)
    requires IndexesIds(byId, rows) && IndexesNames(byDn, rows, key)
    requires id in byId && RowsOf(rows, id) != []
    ensures p == Classified(rows, key, id)
  {
    RowsOfImported(rows, id);
    hide RowsOf;
    if |byId[id]| != 1 {
      return Conflicted(AmbiguousIdentity);
    }
    var row := byId[id][0];
    var name := key(row.dn);
    if name.None? {
      return Conflicted(InvalidIdentity);
    }
    assert row in rows && row.id == id;
    ghost var at :| 0 <= at < |rows| && rows[at] == row;
    assert id in Holders(rows, key, name.value);
    hide Holders;
    if |byDn[name.value]| != 1 {
      return Conflicted(AmbiguousIdentity);
    }
    if row.manager == "" {
      return Assigned(None);
    }
    var boss := key(row.manager);
    if boss.None? {
      return Conflicted(InvalidManager);
    }
    var matches := if boss.value in byDn then byDn[boss.value] else {};
    assert matches == Holders(rows, key, boss.value);
    if matches == {} {
      return Conflicted(UnknownManager);
    }
    if |matches| != 1 {
      return Conflicted(AmbiguousManager);
    }
    var m := Only(matches);
    HolderImported(rows, key, boss.value);
    if |byId[m]| != 1 {
      return Conflicted(AmbiguousManager);
    }
    if m == id {
      return Conflicted(SelfManager);
    }
    return Assigned(Some(m));
  }

  // --- Withdrawing proposals ---

  /** The proposals whose account would not reach an end in the resulting graph. */
  ghost function Cyclic(current: Graph, proposals: Graph): set<int> {
    set id | id in proposals && !Ends(current + proposals, id)
  }

  /** Withdrawing restores old edges, so the rest is checked again until nothing more is withdrawn. */
  ghost function Settled(current: Graph, proposals: Graph): (kept: Graph)
    ensures kept.Keys <= proposals.Keys && forall id :: id in kept ==> kept[id] == proposals[id]
    ensures Cyclic(current, kept) == {}
    decreases |proposals|
  {
    if Cyclic(current, proposals) == {} then proposals
    else
      FewerLeft(proposals, Cyclic(current, proposals));
      Settled(current, proposals - Cyclic(current, proposals))
  }

  lemma FewerLeft(g: Graph, gone: set<int>)
    requires gone != {} && gone <= g.Keys
    ensures |g - gone| < |g|
  {
    assert (g - gone).Keys == g.Keys - gone;
    assert g.Keys == (g.Keys - gone) + gone;
    assert |g.Keys| == |g.Keys - gone| + |gone|;
    assert |g| == |g.Keys| && |g - gone| == |(g - gone).Keys|;
  }

  method FindCyclic(graph: Graph, assignments: Graph) returns (cyclic: set<int>)
    ensures cyclic == set id | id in assignments && !Ends(graph, id)
  {
    cyclic := {};
    var left := assignments.Keys;
    while left != {}
      invariant left <= assignments.Keys
      invariant cyclic == set id | id in assignments && id !in left && !Ends(graph, id)
      decreases left
    {
      HasElement(left);
      var id :| id in left;
      var runs := RunsIntoCycle(graph, id);
      if runs {
        cyclic := cyclic + {id};
      }
      left := left - {id};
    }
  }

  /** The conflicts of the plan: those found first, and every withdrawn proposal. */
  ghost function Reported(found: map<int, Reason>, proposed: Graph, kept: Graph): map<int, Reason> {
    found + map id | id in proposed.Keys - kept.Keys :: CyclicManager
  }

  lemma ReportedMore(found: map<int, Reason>, proposed: Graph, kept: Graph, cyclic: set<int>)
    requires cyclic <= kept.Keys <= proposed.Keys
    ensures Reported(found, proposed, kept - cyclic)
      == Reported(found, proposed, kept) + map id | id in cyclic :: CyclicManager
  {
    assert proposed.Keys - (kept - cyclic).Keys == (proposed.Keys - kept.Keys) + cyclic;
  }

  /** The whole plan: classification, then rounds of withdrawal; each further round has fewer assignments. */
  method PlanManagers(rows: seq<Identity>, current: Graph, key: Key)
    returns (assignments: Graph, conflicts: map<int, Reason>)
    ensures assignments == Settled(current, Proposals(rows, key))
    ensures conflicts == Reported(Conflicts(rows, key), Proposals(rows, key), assignments)
  {
    hide Proposals, Conflicts, Reported, Ends;
    assignments, conflicts := Classify(rows, key);
    ghost var found := conflicts;
    ghost var proposed := assignments;
    assert conflicts == Reported(found, proposed, assignments) by {
      NothingReported(found, proposed);
    }
    var again := true;
    while again
      invariant assignments.Keys <= proposed.Keys
      invariant Settled(current, assignments) == Settled(current, proposed)
      invariant conflicts == Reported(found, proposed, assignments)
      invariant !again ==> Settled(current, assignments) == assignments
      decreases again, |assignments|
    {
      var cyclic := FindCyclic(current + assignments, assignments);
      assert cyclic == Cyclic(current, assignments);
      again := cyclic != {};
      if again {
        FewerLeft(assignments, cyclic);
        ReportedMore(found, proposed, assignments, cyclic);
        assignments := assignments - cyclic;
        conflicts := conflicts + map id | id in cyclic :: CyclicManager;
      }
    }
  }

  lemma NothingReported(found: map<int, Reason>, proposed: Graph)
    ensures Reported(found, proposed, proposed) == found
  {
    assert proposed.Keys - proposed.Keys == {};
  }
}
