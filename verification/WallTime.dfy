/**
 * How many instants a local wall time denotes
 * (lib/legacy_timestamp_assessment.php).  A wall time is the number of seconds
 * that its digits would denote at offset zero.
 */
module WallTime {
  import opened Sums

  const DAY := 86400
  const WINDOW := 172800

  datatype Transition = Transition(at: int, offset: int)

  /** A time zone: the offset before all transitions, and the transitions in order. */
  datatype Rules = Rules(base: int, transitions: seq<Transition>)

  predicate Valid(z: Rules) {
    && -DAY < z.base < DAY
    && (forall i :: 0 <= i < |z.transitions| ==> -DAY < z.transitions[i].offset < DAY)
    && (forall i, j :: 0 <= i < j < |z.transitions| ==> z.transitions[i].at < z.transitions[j].at)
  }

  /** The offset in force at an instant: that of the last transition not after it. */
  function OffsetAt(z: Rules, t: int): int
    decreases |z.transitions|
  {
    if z.transitions == [] then z.base
    else
      var last := z.transitions[|z.transitions| - 1];
      if last.at <= t then last.offset else OffsetAt(Rules(z.base, z.transitions[..|z.transitions| - 1]), t)
  }

  /** Transition i is the last one not after the instant. */
  predicate LastBy(z: Rules, i: int, t: int) {
    0 <= i < |z.transitions| && z.transitions[i].at <= t && (i + 1 < |z.transitions| ==> t < z.transitions[i + 1].at)
  }

  /** Before all transitions the base offset is in force, and from each transition on its own until the next. */
  lemma {:induction false} OffsetExactly(z: Rules, t: int)
    requires Valid(z)
    ensures (forall i :: 0 <= i < |z.transitions| ==> t < z.transitions[i].at) ==> OffsetAt(z, t) == z.base
    ensures forall i :: LastBy(z, i, t) ==> OffsetAt(z, t) == z.transitions[i].offset
    decreases |z.transitions|
  {
    if z.transitions != [] {
      var last := |z.transitions| - 1;
      var earlier := Rules(z.base, z.transitions[..last]);
      OffsetExactly(earlier, t);
      hide Valid;
      assert OffsetAt(z, t) == if z.transitions[last].at <= t then z.transitions[last].offset else OffsetAt(earlier, t);
      hide OffsetAt;
      forall i | LastBy(z, i, t) ensures OffsetAt(z, t) == z.transitions[i].offset {
        if i < last {
          TransitionsOrdered(z, i + 1, last);
          assert LastBy(earlier, i, t);
        }
      }
    }
  }

  lemma TransitionsOrdered(z: Rules, i: int, j: int)
    requires Valid(z) && 0 <= i <= j < |z.transitions|
    ensures z.transitions[i].at <= z.transitions[j].at
  {
  }

  /** The instant shows the wall time. */
  predicate Shows(z: Rules, t: int, wall: int) {
    t + OffsetAt(z, t) == wall
  }

  ghost function Instants(z: Rules, wall: int): set<int> {
    set t | wall - DAY < t < wall + DAY && Shows(z, t, wall)
  }

  /** The offset at the beginning of a window and those that come into force strictly inside it. */
  ghost function OffsetsIn(z: Rules, from: int, until: int): set<int> {
    {OffsetAt(z, from)} +
    set i | 0 <= i < |z.transitions| && from < z.transitions[i].at < until :: z.transitions[i].offset
  }

  ghost function Candidates(z: Rules, offsets: set<int>, wall: int): set<int> {
    set o | o in offsets && Shows(z, wall - o, wall)
  }

  lemma {:induction false} OffsetBounded(z: Rules, t: int)
    requires Valid(z)
    ensures -DAY < OffsetAt(z, t) < DAY
    decreases |z.transitions|
  {
    if z.transitions != [] {
      OffsetBounded(Rules(z.base, z.transitions[..|z.transitions| - 1]), t);
    }
  }

  /** The offset at t is in force since the given earlier instant or came into force after it. */
  lemma {:induction false} OffsetSince(z: Rules, from: int, t: int)
    requires Valid(z) && from <= t
    ensures OffsetAt(z, t) == OffsetAt(z, from)
      || exists i :: && 0 <= i < |z.transitions| && from < z.transitions[i].at <= t
                     && z.transitions[i].offset == OffsetAt(z, t)
    decreases |z.transitions|
  {
    if z.transitions != [] {
      var last := |z.transitions| - 1;
      if z.transitions[last].at > t {
        var before := Rules(z.base, z.transitions[..last]);
        OffsetSince(before, from, t);
        if OffsetAt(before, t) != OffsetAt(before, from) {
          var i :| 0 <= i < last && from < before.transitions[i].at <= t
            && before.transitions[i].offset == OffsetAt(before, t);
          assert z.transitions[i].offset == OffsetAt(z, t);
        }
      } else if z.transitions[last].at > from {
        assert z.transitions[last].offset == OffsetAt(z, t);
      }
    }
  }

  /** No instant with the wall time has an offset from outside the window. */
  lemma WindowComplete(z: Rules, wall: int, t: int)
    requires Valid(z) && Shows(z, t, wall)
    ensures t in Instants(z, wall) && wall - t in Candidates(z, OffsetsIn(z, wall - WINDOW, wall + WINDOW), wall)
  {
    OffsetBounded(z, t);
    OffsetSince(z, wall - WINDOW, t);
    assert wall - t in OffsetsIn(z, wall - WINDOW, wall + WINDOW);
  }

  /** Candidate offsets and instants correspond one to one. */
  lemma CandidatesAreInstants(z: Rules, wall: int)
    requires Valid(z)
    ensures var offsets := OffsetsIn(z, wall - WINDOW, wall + WINDOW);
      && (forall o :: o in Candidates(z, offsets, wall) ==> wall - o in Instants(z, wall))
      && (forall t :: t in Instants(z, wall) ==> wall - t in Candidates(z, offsets, wall))
  {
    hide Valid, OffsetsIn, OffsetAt;
    var offsets := OffsetsIn(z, wall - WINDOW, wall + WINDOW);
    forall o | o in Candidates(z, offsets, wall) ensures wall - o in Instants(z, wall) {
      OffsetBounded(z, wall - o);
    }
    forall t | t in Instants(z, wall) ensures wall - t in Candidates(z, offsets, wall) {
      WindowComplete(z, wall, t);
    }
  }

  lemma {:induction false} SameSize(s: set<int>, t: set<int>, wall: int)
    requires forall x :: x in s ==> wall - x in t
    requires forall x :: x in t ==> wall - x in s
    ensures |s| == |t|
  {
    if s == {} {
      assert t == {} by {
        forall x ensures x !in t {
          assert x in t ==> wall - x in s;
        }
      }
    } else {
      HasElement(s);
      var x :| x in s;
      SameSize(s - {x}, t - {wall - x}, wall);
    }
  }

  /**
   * The number of candidate offsets is the number of instants, for every wall time and every zone with offsets below a
   * day.
   */
  lemma CountExact(z: Rules, wall: int)
    requires Valid(z)
    ensures |Candidates(z, OffsetsIn(z, wall - WINDOW, wall + WINDOW), wall)| == |Instants(z, wall)|
    ensures forall t :: Shows(z, t, wall) <==> t in Instants(z, wall)
  {
    CandidatesAreInstants(z, wall);
    SameSize(Candidates(z, OffsetsIn(z, wall - WINDOW, wall + WINDOW), wall), Instants(z, wall), wall);
    forall t | Shows(z, t, wall) ensures t in Instants(z, wall) {
      WindowComplete(z, wall, t);
    }
  }

  // --- The assessment as it runs ---

  datatype Category = Unique | Nonexistent | Ambiguous

  method FindOffsets(z: Rules, from: int, until: int) returns (offsets: set<int>)
    ensures offsets == OffsetsIn(z, from, until)
  {
    offsets := {OffsetAt(z, from)};
    for i := 0 to |z.transitions|
      invariant offsets == {OffsetAt(z, from)} +
        set k | 0 <= k < i && from < z.transitions[k].at < until :: z.transitions[k].offset
    {
      if from < z.transitions[i].at < until {
        offsets := offsets + {z.transitions[i].offset};
      }
    }
  }

  lemma OneMoreCandidate(z: Rules, offsets: set<int>, wall: int, o: int)
    requires o !in offsets
    ensures Candidates(z, offsets + {o}, wall)
      == Candidates(z, offsets, wall) + (if Shows(z, wall - o, wall) then {o} else {})
    ensures o !in Candidates(z, offsets, wall)
  {
    hide OffsetAt;
  }

  lemma NoCandidates(z: Rules, wall: int)
    ensures Candidates(z, {}, wall) == {}
  {
  }

  method CountCandidates(z: Rules, offsets: set<int>, wall: int) returns (candidates: nat)
    ensures candidates == |Candidates(z, offsets, wall)|
  {
    hide OffsetAt, Candidates;
    candidates := 0;
    NoCandidates(z, wall);
    assert offsets - offsets == {};
    var left := offsets;
    ghost var found: set<int> := {};
    while left != {}
      invariant left <= offsets
      invariant found == Candidates(z, offsets - left, wall) && candidates == |found|
      decreases left
    {
      HasElement(left);
      var o :| o in left;
      OneMoreCandidate(z, offsets - left, wall, o);
      assert offsets - (left - {o}) == offsets - left + {o};
      if wall - o + OffsetAt(z, wall - o) == wall {
        candidates := candidates + 1;
        found := found + {o};
      }
      left := left - {o};
    }
    assert offsets - {} == offsets;
  }

  /** Exactly one instant, none, or several: the three categories mean what they say. */
  method Assess(z: Rules, wall: int) returns (category: Category)
    requires Valid(z)
    ensures category == Nonexistent <==> forall t :: !Shows(z, t, wall)
    ensures category == Ambiguous <==> Several(z, wall)
    ensures category == Unique <==> exists t :: Just(z, wall, t)
  {
    var offsets := FindOffsets(z, wall - WINDOW, wall + WINDOW);
    var candidates := CountCandidates(z, offsets, wall);
    CountExact(z, wall);
    CategoriesMean(z, wall);
    hide Valid, Shows, Instants, Several, Just;
    category := if candidates == 0 then Nonexistent else if candidates > 1 then Ambiguous else Unique;
  }

  ghost predicate Several(z: Rules, wall: int) {
    exists t, u :: t != u && Shows(z, t, wall) && Shows(z, u, wall)
  }

  ghost predicate Just(z: Rules, wall: int, t: int) {
    Shows(z, t, wall) && forall u :: Shows(z, u, wall) ==> u == t
  }

  lemma CategoriesMean(z: Rules, wall: int)
    requires forall t :: Shows(z, t, wall) <==> t in Instants(z, wall)
    ensures |Instants(z, wall)| == 0 <==> forall t :: !Shows(z, t, wall)
    ensures |Instants(z, wall)| > 1 <==> Several(z, wall)
    ensures |Instants(z, wall)| == 1 <==> exists t :: Just(z, wall, t)
  {
    hide Shows, Instants;
    var s := Instants(z, wall);
    if s != {} {
      HasElement(s);
      var x :| x in s;
      assert |s| == 1 + |s - {x}| by {
        assert s == {x} + (s - {x});
      }
      if s - {x} != {} {
        HasElement(s - {x});
        var y :| y in s - {x};
        assert Shows(z, x, wall) && Shows(z, y, wall);
      } else {
        assert Just(z, wall, x);
      }
    }
  }
}
