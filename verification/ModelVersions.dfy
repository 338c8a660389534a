/**
 * Which version of a work model applies to a day: the newest rule, the binary
 * search of the planning snapshot (lib/planning_snapshot.php) and the forward
 * sweep of the period comparison (lib/own_period_comparison.php).
 */
module ModelVersions {
  import opened Wrappers

  /** A stored version; days are numbered in calendar order. */
  datatype Version = Version(id: int, from: int, minutes: seq<int>)

  /** Later in the order in which versions supersede each other. */
  predicate Before(v: Version, w: Version) {
    v.from < w.from || (v.from == w.from && v.id < w.id)
  }

  /** The stored rule: the last version in force on the day, if any is. */
  ghost predicate Newest(versions: set<Version>, day: int, chosen: Option<Version>) {
    match chosen
    case None => forall v :: v in versions ==> v.from > day
    case Some(c) => c in versions && c.from <= day && forall v :: v in versions && v.from <= day ==>
      v == c || Before(v, c)
  }

  lemma NewestUnique(versions: set<Version>, day: int, a: Option<Version>, b: Option<Version>)
    requires Newest(versions, day, a) && Newest(versions, day, b)
    ensures a == b
  {
  }

  /** A query for the versions that begin no later than a day, in ascending order. */
  ghost predicate Listed(versions: set<Version>, last: int, models: seq<Version>) {
    && (forall i, j :: 0 <= i < j < |models| ==> Before(models[i], models[j]))
    && (forall v :: v in models <==> v in versions && v.from <= last)
  }

  /** A position splits the list at the day. */
  ghost predicate SplitsAt(models: seq<Version>, day: int, k: int) {
    && 0 <= k <= |models|
    && (forall i :: 0 <= i < k ==> models[i].from <= day)
    && (forall i :: k <= i < |models| ==> models[i].from > day)
  }

  /** The version before the split is the newest one of all stored versions, later ones included. */
  lemma SplitIsNewest(versions: set<Version>, last: int, models: seq<Version>, day: int, k: int)
    requires Listed(versions, last, models) && day <= last && SplitsAt(models, day, k)
    ensures Newest(versions, day, if k == 0 then None else Some(models[k - 1]))
  {
    forall v | v in versions && v.from <= day ensures k > 0 && (v == models[k - 1] || Before(v, models[k - 1])) {
      assert v in models;
      var i :| 0 <= i < |models| && models[i] == v;
    }
    if k > 0 {
      assert models[k - 1] in models;
    }
  }

  /** The binary search for the last listed version that has begun. */
  method Search(ghost versions: set<Version>, ghost last: int, models: seq<Version>, day: int)
    returns (model: Option<Version>)
    requires Listed(versions, last, models) && day <= last
    ensures Newest(versions, day, model)
  {
    var low, high := 0, |models| - 1;
    model := None;
    while low <= high
      invariant 0 <= low <= high + 1 <= |models|
      invariant forall i :: 0 <= i < low ==> models[i].from <= day
      invariant forall i :: high < i < |models| ==> models[i].from > day
      invariant model == if low == 0 then None else Some(models[low - 1])
      decreases high - low
    {
      var middle := (low + high) / 2;
      if models[middle].from <= day {
        forall i | 0 <= i < middle + 1 ensures models[i].from <= day {
          assert i < middle ==> Before(models[i], models[middle]);
        }
        model, low := Some(models[middle]), middle + 1;
      } else {
        forall i | middle - 1 < i < |models| ensures models[i].from > day {
          assert i > middle ==> Before(models[middle], models[i]);
        }
        high := middle - 1;
      }
    }
    SplitIsNewest(versions, last, models, day, low);
  }

  /** The day of the week, Monday being 0; day 0 is a Thursday. */
  function Weekday(day: int): (w: int)
    ensures 0 <= w < 7
  {
    (day + 3) % 7
  }

  /** What the model says for the weekday; without a model the regular minutes from Monday to Friday. */
  function PlannedMinutes(day: int, model: Option<Version>, regular: int): int {
    if model.Some? then
      (if Weekday(day) < |model.value.minutes| then model.value.minutes[Weekday(day)] else 0)
    else if Weekday(day) > 4 then 0
    else if regular < 0 then 0
    else if regular > 1440 then 1440
    else regular
  }

  /** The target of a day: nothing on a holiday, otherwise what the model or the fallback says for it. */
  function Target(holidays: set<int>, regular: int, day: int, model: Option<Version>): int {
    if day in holidays then 0 else PlannedMinutes(day, model, regular)
  }

  /** The minutes are the target of the day under its newest version. */
  ghost predicate TargetOn(versions: set<Version>, holidays: set<int>, regular: int,
                           day: int, minutes: int) {
    exists m :: Newest(versions, day, m) && minutes == Target(holidays, regular, day, m)
  }

  /** There is one target for a day, so everything that computes it agrees. */
  lemma OneTarget(versions: set<Version>, holidays: set<int>, regular: int, day: int, a: int,
                  b: int)
    requires TargetOn(versions, holidays, regular, day, a) && TargetOn(versions, holidays, regular, day, b)
    ensures a == b
  {
    var m :| Newest(versions, day, m) && a == Target(holidays, regular, day, m);
    var n :| Newest(versions, day, n) && b == Target(holidays, regular, day, n);
    NewestUnique(versions, day, m, n);
  }

  /** The version is in force: it has begun, and every other one that has begun is superseded by it. */
  ghost predicate InForce(versions: set<Version>, day: int, v: Version) {
    v in versions && v.from <= day && forall w :: w in versions && w.from <= day && w != v ==>
      w.from < v.from || (w.from == v.from && w.id < v.id)
  }

  /**
   * The target of a day, said of the stored versions: nothing on a holiday, the minutes that the version in force has
   * for the weekday, and before any version the regular minutes, within a day, from Monday to Friday.
   */
  lemma TargetExactly(versions: set<Version>, holidays: set<int>, regular: int, day: int, minutes: int)
    requires TargetOn(versions, holidays, regular, day, minutes)
    requires forall v :: v in versions ==> |v.minutes| == 7
    ensures day in holidays ==> minutes == 0
    ensures day !in holidays ==> forall v :: InForce(versions, day, v) ==> minutes == v.minutes[(day + 3) % 7]
    ensures day !in holidays && (forall v :: v in versions ==> v.from > day) ==>
      && ((day + 3) % 7 >= 5 ==> minutes == 0)
      && ((day + 3) % 7 < 5 ==> minutes == Within(regular, 0, 1440))
    ensures (exists v :: InForce(versions, day, v)) || forall v :: v in versions ==> v.from > day
  {
    var m :| Newest(versions, day, m) && minutes == Target(holidays, regular, day, m);
    if m.Some? {
      assert InForce(versions, day, m.value);
    }
    forall v | InForce(versions, day, v) ensures m == Some(v) {
      NewestUnique(versions, day, m, Some(v));
    }
  }

  /** The nearest number between the bounds. */
  function Within(n: int, least: int, most: int): (r: int)
    requires least <= most
    ensures least <= r <= most
    ensures least <= n <= most ==> r == n
    ensures n < least ==> r == least
    ensures n > most ==> r == most
  {
    if n < least then least else if n > most then most else n
  }

  lemma {:induction false} FindSplit(models: seq<Version>, day: int) returns (k: nat)
    requires forall i, j :: 0 <= i < j < |models| ==> Before(models[i], models[j])
    ensures SplitsAt(models, day, k)
  {
    if models == [] {
      k := 0;
    } else if models[|models| - 1].from <= day {
      k := |models|;
      forall i | 0 <= i < |models| ensures models[i].from <= day {
        assert i < |models| - 1 ==> Before(models[i], models[|models| - 1]);
      }
    } else {
      k := FindSplit(models[..|models| - 1], day);
      assert forall i :: 0 <= i < |models| - 1 ==> models[..|models| - 1][i] == models[i];
    }
  }

  lemma HolidayTarget(versions: set<Version>, last: int, models: seq<Version>, holidays: set<int>,
                      regular: int, day: int)
    requires Listed(versions, last, models) && day <= last && day in holidays
    ensures TargetOn(versions, holidays, regular, day, 0)
  {
    var k := FindSplit(models, day);
    SplitIsNewest(versions, last, models, day, k);
    assert Target(holidays, regular, day, if k == 0 then None else Some(models[k - 1])) == 0;
  }

  /** One lookup of the snapshot; a day outside its bounds is refused. */
  method Planned(ghost versions: set<Version>, first: int, last: int, holidays: set<int>, models: seq<Version>,
                 regular: int, day: int) returns (minutes: Option<int>)
    requires Listed(versions, last, models)
    ensures minutes.Some? <==> first <= day <= last
    ensures minutes.Some? ==> TargetOn(versions, holidays, regular, day, minutes.value)
  {
    if day < first || day > last {
      return None;
    }
    if day in holidays {
      HolidayTarget(versions, last, models, holidays, regular, day);
      return Some(0);
    }
    var model := Search(versions, last, models, day);
    return Some(PlannedMinutes(day, model, regular));
  }

  /** The sweep over consecutive days: one index moves forward through the list. */
  method Sweep(ghost versions: set<Version>, first: int, through: int, holidays: set<int>, models: seq<Version>,
               regular: int) returns (targets: seq<int>)
    requires Listed(versions, through, models) && first <= through
    ensures |targets| == through - first + 1
    ensures forall k :: 0 <= k < |targets| ==> TargetOn(versions, holidays, regular, first + k, targets[k])
  {
    targets := [];
    var index := 0;
    var effective: Option<Version> := None;
    var day := first;
    while day <= through
      invariant first <= day <= through + 1 && |targets| == day - first
      invariant 0 <= index <= |models|
      invariant forall i :: 0 <= i < index ==> models[i].from < day
      invariant effective == if index == 0 then None else Some(models[index - 1])
      invariant forall k :: 0 <= k < |targets| ==> TargetOn(versions, holidays, regular, first + k, targets[k])
      decreases through - day
    {
      while index < |models| && models[index].from <= day
        invariant 0 <= index <= |models|
        invariant forall i :: 0 <= i < index ==> models[i].from <= day
        invariant effective == if index == 0 then None else Some(models[index - 1])
        decreases |models| - index
      {
        effective := Some(models[index]);
        index := index + 1;
      }
      forall i | index <= i < |models| ensures models[i].from > day {
        assert i > index ==> Before(models[index], models[i]);
      }
      SplitIsNewest(versions, through, models, day, index);
      var minutes := if day in holidays then 0 else PlannedMinutes(day, effective, regular);
      assert minutes == Target(holidays, regular, day, effective);
      targets := targets + [minutes];
      day := day + 1;
    }
  }
}
