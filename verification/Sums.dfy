/** Finite sets of numbers, and sums over them. */
module Sums {

  lemma HasElement(s: set<int>)
    requires s != {}
    ensures exists x :: x in s
  {
    if forall x :: x !in s {
      assert false;
    }
  }

  lemma SubsetSize<T>(s: set<T>, t: set<T>)
    requires s <= t
    ensures |s| <= |t|
  {
    assert t == s + (t - s);
    assert |s + (t - s)| == |s| + |t - s|;
  }

  ghost function SumOver(s: set<int>, f: int -> int): int {
    if s == {} then 0
    else
      HasElement(s);
      var x :| x in s;
      f(x) + SumOver(s - {x}, f)
  }

  lemma {:induction false} SumRemove(s: set<int>, f: int -> int, x: int)
    requires x in s
    ensures SumOver(s, f) == f(x) + SumOver(s - {x}, f)
  {
    HasElement(s);
    var y :| y in s && SumOver(s, f) == f(y) + SumOver(s - {y}, f);
    if y != x {
      SumRemove(s - {y}, f, x);
      SumRemove(s - {x}, f, y);
      assert s - {y} - {x} == s - {x} - {y};
    }
  }

  lemma SumAdd(s: set<int>, f: int -> int, x: int)
    requires x !in s
    ensures SumOver(s + {x}, f) == SumOver(s, f) + f(x)
  {
    SumRemove(s + {x}, f, x);
    assert s + {x} - {x} == s;
  }

  lemma {:induction false} SumUnion(s: set<int>, t: set<int>, f: int -> int)
    requires s !! t
    ensures SumOver(s + t, f) == SumOver(s, f) + SumOver(t, f)
  {
    if t == {} {
      assert s + t == s;
    } else {
      HasElement(t);
      var x :| x in t;
      SumUnion(s, t - {x}, f);
      SumAdd(s + (t - {x}), f, x);
      SumRemove(t, f, x);
      assert s + t == s + (t - {x}) + {x};
    }
  }

  lemma {:induction false} SumEqual(s: set<int>, f: int -> int, g: int -> int)
    requires forall x :: x in s ==> f(x) == g(x)
    ensures SumOver(s, f) == SumOver(s, g)
  {
    if s != {} {
      HasElement(s);
      var x :| x in s;
      SumRemove(s, f, x);
      SumRemove(s, g, x);
      SumEqual(s - {x}, f, g);
    }
  }

  /** Two sums over different sets differ by what only one of them has. */
  lemma SumDifference(s: set<int>, t: set<int>, f: int -> int)
    ensures SumOver(t, f) - SumOver(s, f) == SumOver(t - s, f) - SumOver(s - t, f)
  {
    SumUnion(s * t, s - t, f);
    SumUnion(s * t, t - s, f);
    assert s * t + (s - t) == s && s * t + (t - s) == t;
  }
}
