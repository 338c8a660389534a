/** What the manager plan guarantees. */
module SupervisorLaws {
  import opened Wrappers
  import opened Sums
  import opened SupervisorGraph
  import opened ManagerPlan

  // --- Each identity is assigned or reported, never both ---

  lemma PlanPartition(rows: seq<Identity>, key: Key)
    ensures Proposals(rows, key).Keys !! Conflicts(rows, key).Keys
    ensures Proposals(rows, key).Keys + Conflicts(rows, key).Keys == Ids(rows)
  {
    hide Proposals, Conflicts, Classified;
    PlanDomains(rows, key);
    forall id | id in Ids(rows) ensures id in Proposals(rows, key).Keys + Conflicts(rows, key).Keys {
      Planned(rows, key, id);
    }
    forall id | id in Proposals(rows, key).Keys ensures id !in Conflicts(rows, key).Keys {
      Planned(rows, key, id);
    }
  }

  /**
   * Every imported account is either assigned a supervisor (possibly none) or reported as a conflict, and nobody else
   * is touched.
   */
  lemma ExactlyOne(rows: seq<Identity>, key: Key, current: Graph, id: int)
    ensures var kept := Settled(current, Proposals(rows, key));
      var reported := Reported(Conflicts(rows, key), Proposals(rows, key), kept);
      && (id in kept || id in reported <==> id in Ids(rows))
      && !(id in kept && id in reported)
  {
    hide Proposals, Conflicts, Settled;
    PlanPartition(rows, key);
  }

  // --- Cycles ---

  /** In the final graph no assigned account reaches a cycle, and no account whose chain ended before reaches one. */
  lemma PlanSafe(current: Graph, proposals: Graph, x: int)
    ensures var kept := Settled(current, proposals);
      && (x in kept ==> Ends(current + kept, x))
      && (Ends(current, x) ==> Ends(current + kept, x))
  {
    var kept := Settled(current, proposals);
    assert forall id :: id in kept ==> id !in Cyclic(current, kept);
    ChangedEnds(current, current + kept, kept.Keys, x);
  }

  lemma PlanKeepsAcyclic(current: Graph, proposals: Graph)
    requires Acyclic(current)
    ensures Acyclic(current + Settled(current, proposals))
  {
    hide Acyclic, Ends, Settled;
    AcyclicMeans(current);
    forall x ensures Ends(current + Settled(current, proposals), x) {
      PlanSafe(current, proposals, x);
    }
    AcyclicMeans(current + Settled(current, proposals));
  }

  // --- Repeating the import ---

  /** The first graph of a round is not changed by having applied a part of its proposals before. */
  lemma AppliedBefore(current: Graph, kept: Graph, proposals: Graph)
    requires kept.Keys <= proposals.Keys && forall id :: id in kept ==> kept[id] == proposals[id]
    ensures current + kept + proposals == current + proposals
  {
  }

  lemma {:induction false} RepeatFrom(current: Graph, proposals: Graph, kept: Graph)
    requires kept == Settled(current, proposals)
    ensures Settled(current + kept, proposals) == kept
    decreases |proposals|
  {
    hide Ends;
    AppliedBefore(current, kept, proposals);
    assert Cyclic(current + kept, proposals) == Cyclic(current, proposals);
    if Cyclic(current, proposals) != {} {
      FewerLeft(proposals, Cyclic(current, proposals));
      RepeatFrom(current, proposals - Cyclic(current, proposals), kept);
    }
  }

  /** Planning again after the plan was applied gives the same plan. */
  lemma RepeatStable(rows: seq<Identity>, key: Key, current: Graph)
    ensures var kept := Settled(current, Proposals(rows, key));
      Settled(current + kept, Proposals(rows, key)) == kept
  {
    RepeatFrom(current, Proposals(rows, key), Settled(current, Proposals(rows, key)));
  }

  // --- Order of the rows ---

  lemma {:induction false} RowsCounted(rows: seq<Identity>, id: int)
    ensures forall r :: multiset(RowsOf(rows, id))[r] == if r.id == id then multiset(rows)[r] else 0
  {
    if rows != [] {
      var last := |rows| - 1;
      RowsCounted(rows[..last], id);
      assert rows == rows[..last] + [rows[last]];
    }
  }

  lemma SameBag(a: seq<Identity>, b: seq<Identity>)
    requires multiset(a) == multiset(b)
    ensures |a| == |b|
    ensures |a| == 1 ==> a == b
  {
    assert |multiset(a)| == |a| && |multiset(b)| == |b|;
    if |a| == 1 {
      assert a[0] in multiset(b);
    }
  }

  lemma SameRows(p: seq<Identity>, q: seq<Identity>, id: int)
    requires multiset(p) == multiset(q)
    ensures |RowsOf(p, id)| == |RowsOf(q, id)|
    ensures |RowsOf(p, id)| == 1 ==> RowsOf(p, id) == RowsOf(q, id)
  {
    RowsCounted(p, id);
    RowsCounted(q, id);
    hide RowsOf;
    assert multiset(RowsOf(p, id)) == multiset(RowsOf(q, id));
    SameBag(RowsOf(p, id), RowsOf(q, id));
  }

  lemma SameHolders(p: seq<Identity>, q: seq<Identity>, key: Key, k: string)
    requires multiset(p) == multiset(q)
    ensures Holders(p, key, k) <= Holders(q, key, k)
  {
    forall id | id in Holders(p, key, k) ensures id in Holders(q, key, k) {
      var i :| 0 <= i < |p| && key(p[i].dn) == Some(k) && p[i].id == id;
      assert p[i] in multiset(q);
      var j :| 0 <= j < |q| && q[j] == p[i];
    }
  }

  lemma SameIds(p: seq<Identity>, q: seq<Identity>)
    requires multiset(p) == multiset(q)
    ensures Ids(p) <= Ids(q)
  {
    forall id | id in Ids(p) ensures id in Ids(q) {
      var i :| 0 <= i < |p| && p[i].id == id;
      assert p[i] in multiset(q);
      var j :| 0 <= j < |q| && q[j] == p[i];
    }
  }

  lemma SameClassification(p: seq<Identity>, q: seq<Identity>, key: Key, id: int)
    requires multiset(p) == multiset(q) && RowsOf(p, id) != []
    ensures RowsOf(q, id) != [] && Classified(p, key, id) == Classified(q, key, id)
  {
    hide Holders, RowsOf;
    forall i ensures |RowsOf(p, i)| == |RowsOf(q, i)| && (|RowsOf(p, i)| == 1 ==> RowsOf(p, i) == RowsOf(q, i)) {
      SameRows(p, q, i);
    }
    forall k ensures Holders(p, key, k) == Holders(q, key, k) {
      SameHolders(p, q, key, k);
      SameHolders(q, p, key, k);
    }
  }

  /** The plan does not depend on the order in which the directory lists its entries. */
  lemma OrderIrrelevant(p: seq<Identity>, q: seq<Identity>, key: Key)
    requires multiset(p) == multiset(q)
    ensures Proposals(p, key) == Proposals(q, key)
    ensures Conflicts(p, key) == Conflicts(q, key)
  {
    SameIds(p, q);
    SameIds(q, p);
    forall id | id in Ids(p)
      ensures RowsOf(p, id) != [] && RowsOf(q, id) != [] && Classified(p, key, id) == Classified(q, key, id) {
      RowsOfImported(p, id);
      SameClassification(p, q, key, id);
    }
    hide Classified, RowsOf, Ids;
  }
}
