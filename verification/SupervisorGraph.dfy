/**
 * The supervisor relation as a partial function on account numbers: walking up
 * the chain of an account, and whether the chain comes to an end.
 */
module SupervisorGraph {
  import opened Wrappers
  import opened Sums

  /** Every account and its supervisor; a supervisor need not be an account any more. */
  type Graph = map<int, Option<int>>

  function Up(g: Graph, x: int): Option<int> {
    if x in g then g[x] else None
  }

  /** Where n steps up the chain lead, if the chain is that long. */
  function Walk(g: Graph, x: int, n: nat): Option<int> {
    if n == 0 then Some(x)
    else
      var c := Walk(g, x, n - 1);
      if c.None? then None else Up(g, c.value)
  }

  /** The chain of an account ends; otherwise it runs into a cycle. */
  ghost predicate Ends(g: Graph, x: int) {
    exists n: nat :: Walk(g, x, n).None?
  }

  ghost predicate OnCycle(g: Graph, x: int) {
    exists n: nat :: n > 0 && Walk(g, x, n) == Some(x)
  }

  ghost predicate Acyclic(g: Graph) {
    forall x :: !OnCycle(g, x)
  }

  lemma {:induction false} WalkOn(g: Graph, x: int, a: nat, b: nat)
    requires Walk(g, x, a).Some?
    ensures Walk(g, x, a + b) == Walk(g, Walk(g, x, a).value, b)
  {
    if b > 0 {
      WalkOn(g, x, a, b - 1);
    }
  }

  lemma {:induction false} WalkOver(g: Graph, x: int, a: nat, b: nat)
    requires a <= b && Walk(g, x, a).None?
    ensures Walk(g, x, b).None?
  {
    if a < b {
      WalkOver(g, x, a, b - 1);
    }
  }

  /** Coming back to a place already visited means never ending. */
  lemma {:induction false} Periodic(g: Graph, x: int, i: nat, n: nat, k: nat)
    requires i < n && Walk(g, x, n).Some? && Walk(g, x, i) == Walk(g, x, n)
    ensures Walk(g, x, k).Some?
  {
    if k <= n {
      if Walk(g, x, k).None? {
        WalkOver(g, x, k, n);
      }
    } else {
      Periodic(g, x, i, n, k - (n - i));
      WalkOn(g, x, n, k - n);
      WalkOn(g, x, i, k - n);
    }
  }

  lemma RepeatNeverEnds(g: Graph, x: int, i: nat, n: nat)
    requires i < n && Walk(g, x, n).Some? && Walk(g, x, i) == Walk(g, x, n)
    ensures !Ends(g, x)
  {
    forall k: nat ensures Walk(g, x, k).Some? {
      Periodic(g, x, i, n, k);
    }
  }

  /** The place is one of the first n of the chain. */
  ghost predicate Visited(g: Graph, x: int, n: nat, c: int) {
    exists i :: 0 <= i < n && Walk(g, x, i) == Some(c)
  }

  /** The loop both writers share: follow the chain until it ends or a place is seen again. */
  method RunsIntoCycle(g: Graph, x: int) returns (cyclic: bool)
    ensures cyclic <==> !Ends(g, x)
  {
    var seen: set<int> := {};
    var cursor := Some(x);
    ghost var n: nat := 0;
    while cursor.Some? && cursor.value in g
      invariant cursor == Walk(g, x, n)
      invariant seen <= g.Keys
      invariant forall c :: c in seen ==> Visited(g, x, n, c)
      decreases g.Keys - seen
    {
      if cursor.value in seen {
        assert Visited(g, x, n, cursor.value);
        ghost var i :| 0 <= i < n && Walk(g, x, i) == Some(cursor.value);
        RepeatNeverEnds(g, x, i, n);
        return true;
      }
      forall c | c in seen + {cursor.value} ensures Visited(g, x, n + 1, c) {
        if c in seen {
          ghost var i :| 0 <= i < n && Walk(g, x, i) == Some(c);
        } else {
          assert Walk(g, x, n) == Some(c);
        }
      }
      seen := seen + {cursor.value};
      cursor := g[cursor.value];
      n := n + 1;
    }
    assert Walk(g, x, if cursor.None? then n else n + 1).None?;
    return false;
  }

  // --- Ending and cycles ---

  /** A chain ends exactly when the chain from any later place of it does. */
  lemma EndsFrom(g: Graph, x: int, a: nat)
    requires Walk(g, x, a).Some?
    ensures Ends(g, x) <==> Ends(g, Walk(g, x, a).value)
  {
    var y := Walk(g, x, a).value;
    if Ends(g, x) {
      var n: nat :| Walk(g, x, n).None?;
      if n <= a {
        WalkOver(g, x, n, a);
      } else {
        WalkOn(g, x, a, n - a);
        assert Walk(g, y, n - a).None?;
      }
    }
    if Ends(g, y) {
      var n: nat :| Walk(g, y, n).None?;
      WalkOn(g, x, a, n);
      assert Walk(g, x, a + n).None?;
    }
  }

  ghost function Places(g: Graph, x: int, n: nat): set<int> {
    if n == 0 then {} else Places(g, x, n - 1) + (if Walk(g, x, n - 1).Some? then {Walk(g, x, n - 1).value} else {})
  }

  lemma {:induction false} PlacesAre(g: Graph, x: int, n: nat)
    requires forall i: nat :: i <= n ==> Walk(g, x, i).Some?
    ensures Places(g, x, n) <= g.Keys
    ensures forall c :: c in Places(g, x, n) ==> Visited(g, x, n, c)
    ensures (forall i: nat, j: nat :: i < j < n ==> Walk(g, x, i) != Walk(g, x, j)) ==> |Places(g, x, n)| == n
  {
    if n > 0 {
      PlacesAre(g, x, n - 1);
      assert Walk(g, x, n).Some? && Walk(g, x, n - 1).Some?;
      forall c | c in Places(g, x, n) ensures Visited(g, x, n, c) {
        if c in Places(g, x, n - 1) {
          var i :| 0 <= i < n - 1 && Walk(g, x, i) == Some(c);
        } else {
          assert Walk(g, x, n - 1) == Some(c);
        }
      }
    }
  }

  /** A chain longer than there are accounts visits one twice. */
  lemma Pigeonhole(g: Graph, x: int) returns (i: nat, j: nat)
    requires !Ends(g, x)
    ensures i < j && Walk(g, x, i) == Walk(g, x, j)
  {
    var n := |g| + 1;
    PlacesAre(g, x, n);
    SubsetSize(Places(g, x, n), g.Keys);
    assert |g.Keys| == |g|;
    i, j :| i < j < n && Walk(g, x, i) == Walk(g, x, j);
  }

  /** Every chain ends exactly when nobody is their own supervisor's supervisor's … supervisor. */
  lemma AcyclicMeans(g: Graph)
    ensures Acyclic(g) <==> forall x :: Ends(g, x)
  {
    if x :| OnCycle(g, x) {
      var n: nat :| n > 0 && Walk(g, x, n) == Some(x);
      RepeatNeverEnds(g, x, 0, n);
    }
    if x :| !Ends(g, x) {
      var i, j := Pigeonhole(g, x);
      var y := Walk(g, x, i);
      if y.Some? {
        WalkOn(g, x, i, j - i);
        assert OnCycle(g, y.value);
      }
    }
  }

  // --- Changing edges ---

  /** Two graphs that agree on a chain walk it alike. */
  lemma {:induction false} SameWalk(g: Graph, h: Graph, x: int, n: nat)
    requires forall i: nat :: i < n && Walk(g, x, i).Some? ==> Up(g, Walk(g, x, i).value) == Up(h, Walk(g, x, i).value)
    ensures Walk(h, x, n) == Walk(g, x, n)
  {
    if n > 0 {
      SameWalk(g, h, x, n - 1);
    }
  }

  /**
   * An account whose chain no longer ends had no end before, if every account with a new edge now has an ending chain.
   */
  lemma ChangedEnds(g: Graph, h: Graph, changed: set<int>, x: int)
    requires forall y :: y !in changed ==> Up(h, y) == Up(g, y) || Up(h, y).None?
    requires forall y :: y in changed ==> Ends(h, y)
    ensures Ends(g, x) ==> Ends(h, x)
  {
    if !Ends(h, x) {
      forall n: nat ensures Walk(h, x, n).Some? && Up(h, Walk(h, x, n).value) == Up(g, Walk(h, x, n).value) {
        assert Walk(h, x, n).Some?;
        EndsFrom(h, x, n);
        assert Walk(h, x, n + 1).Some?;
      }
      forall n: nat ensures Walk(g, x, n).Some? {
        SameWalk(h, g, x, n);
      }
    }
  }
}
