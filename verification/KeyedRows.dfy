/** Arrays that are filled row by row under a key of each row: a later row replaces an earlier one in its place. */
module KeyedRows {
  import opened Wrappers

  /** Writing under a key: a key that is there keeps its place, a new one comes last. */
  function Put<T, K(==)>(list: seq<T>, item: T, key: T -> K): (r: seq<T>)
    ensures |list| <= |r| <= |list| + 1
  {
    if |list| == 0 then [item]
    else if key(list[0]) == key(item) then [item] + list[1..]
    else [list[0]] + Put(list[1..], item, key)
  }

  /** What is stored once all readable rows are written into a list. */
  function Stored<R, T, K(==)>(list: seq<T>, rows: seq<R>, read: R -> Option<T>, key: T -> K): (r: seq<T>)
    ensures |r| <= |list| + |rows|
  {
    if |rows| == 0 then list
    else
      var front := Stored(list, rows[..|rows| - 1], read, key);
      var item := read(rows[|rows| - 1]);
      if item.Some? then Put(front, item.value, key) else front
  }

  ghost predicate Distinct<T(!new), K>(list: seq<T>, key: T -> K) {
    forall i, j :: 0 <= i < j < |list| ==> key(list[i]) != key(list[j])
  }

  /** The readable row i has this key. */
  predicate HasKey<R, T, K(==)>(rows: seq<R>, read: R -> Option<T>, key: T -> K, i: int, k: K) {
    0 <= i < |rows| && read(rows[i]).Some? && key(read(rows[i]).value) == k
  }

  ghost predicate KeyRead<R, T, K>(rows: seq<R>, read: R -> Option<T>, key: T -> K, k: K) {
    exists i :: HasKey(rows, read, key, i, k)
  }

  /** Row i reads as x, and no later row has the same key. */
  ghost predicate Newest<R(!new), T, K>(rows: seq<R>, read: R -> Option<T>, key: T -> K, x: T, i: int) {
    0 <= i < |rows| && read(rows[i]) == Some(x) && forall j :: i < j ==> !HasKey(rows, read, key, j, key(x))
  }

  lemma {:induction false} PutKeys<T(!new), K>(list: seq<T>, item: T, key: T -> K)
    ensures forall i :: 0 <= i < |list| ==> key(Put(list, item, key)[i]) == key(list[i])
    ensures |Put(list, item, key)| > |list| ==>
      key(Put(list, item, key)[|list|]) == key(item) && forall i :: 0 <= i < |list| ==> key(list[i]) != key(item)
  {
    if |list| > 0 && key(list[0]) != key(item) {
      var rest := list[1..];
      PutKeys(rest, item, key);
      assert forall i :: 1 <= i < |list| ==> list[i] == rest[i - 1];
      assert forall i :: 1 <= i <= |list| && i < |Put(list, item, key)| ==>
        Put(list, item, key)[i] == Put(rest, item, key)[i - 1];
    }
  }

  lemma {:induction false} PutMembers<T(!new), K>(list: seq<T>, item: T, key: T -> K)
    requires Distinct(list, key)
    ensures forall x :: x in Put(list, item, key) <==> x == item || (x in list && key(x) != key(item))
  {
    if |list| > 0 {
      var first, rest := list[0], list[1..];
      assert list == [first] + rest;
      RestDistinct(list, key);
      hide Distinct;
      if key(first) != key(item) {
        PutMembers(rest, item, key);
        assert Put(list, item, key) == [first] + Put(rest, item, key);
      }
    }
  }

  lemma RestDistinct<T(!new), K>(list: seq<T>, key: T -> K)
    requires Distinct(list, key) && |list| > 0
    ensures Distinct(list[1..], key)
    ensures forall x :: x in list[1..] ==> key(x) != key(list[0])
  {
    var rest := list[1..];
    assert forall i :: 0 <= i < |rest| ==> rest[i] == list[i + 1];
  }

  lemma PutExactly<T(!new), K>(list: seq<T>, item: T, key: T -> K)
    requires Distinct(list, key)
    ensures Distinct(Put(list, item, key), key)
    ensures forall x :: x in Put(list, item, key) <==> x == item || (x in list && key(x) != key(item))
    ensures forall i :: 0 <= i < |list| ==> key(Put(list, item, key)[i]) == key(list[i])
    ensures |Put(list, item, key)| > |list| ==> forall x :: x in list ==> key(x) != key(item)
  {
    PutKeys(list, item, key);
    PutMembers(list, item, key);
    hide Put;
  }

  lemma KeysLonger<R(!new), T(!new), K>(rows: seq<R>, read: R -> Option<T>, key: T -> K, k: K)
    requires |rows| > 0
    ensures var last := |rows| - 1;
      KeyRead(rows, read, key, k) <==> KeyRead(rows[..last], read, key, k) || HasKey(rows, read, key, last, k)
  {
    var front := rows[..|rows| - 1];
    assert forall i :: 0 <= i < |front| ==> front[i] == rows[i];
    forall i | HasKey(rows, read, key, i, k) && i < |front| ensures HasKey(front, read, key, i, k) {
    }
    forall i | HasKey(front, read, key, i, k) ensures HasKey(rows, read, key, i, k) {
    }
  }

  lemma NewestLonger<R(!new), T(!new), K>(rows: seq<R>, read: R -> Option<T>, key: T -> K, x: T)
    requires |rows| > 0
    ensures var last := |rows| - 1;
      (exists i :: Newest(rows, read, key, x, i)) <==>
        || read(rows[last]) == Some(x)
        || (!HasKey(rows, read, key, last, key(x)) && exists i :: Newest(rows[..last], read, key, x, i))
  {
    var last := |rows| - 1;
    var front := rows[..last];
    assert forall i :: 0 <= i < |front| ==> front[i] == rows[i];
    assert forall j :: 0 <= j < last ==> HasKey(front, read, key, j, key(x)) == HasKey(rows, read, key, j, key(x));
    if read(rows[last]) == Some(x) {
      assert Newest(rows, read, key, x, last);
    }
    forall i | Newest(front, read, key, x, i) && !HasKey(rows, read, key, last, key(x))
      ensures Newest(rows, read, key, x, i)
    {
    }
    forall i | Newest(rows, read, key, x, i) && i != last ensures Newest(front, read, key, x, i) {
    }
  }

  /**
   * Exactly the newest readable row of every key is stored, and what was in the list before under a key that no row
   * has; every key is there once.
   */
  lemma {:induction false} StoredExactly<R(!new), T(!new), K>(
    list: seq<T>, rows: seq<R>, read: R -> Option<T>, key: T -> K)
    requires Distinct(list, key)
    ensures Distinct(Stored(list, rows, read, key), key)
    ensures forall x :: x in Stored(list, rows, read, key) <==>
      (exists i :: Newest(rows, read, key, x, i)) || (x in list && !KeyRead(rows, read, key, key(x)))
  {
    if |rows| > 0 {
      var last := |rows| - 1;
      StoredExactly(list, rows[..last], read, key);
      var front := Stored(list, rows[..last], read, key);
      forall x ensures x in Stored(list, rows, read, key) <==>
          (exists i :: Newest(rows, read, key, x, i)) || (x in list && !KeyRead(rows, read, key, key(x))) {
        NewestLonger(rows, read, key, x);
        KeysLonger(rows, read, key, key(x));
        if read(rows[last]).Some? {
          PutExactly(front, read(rows[last]).value, key);
        }
        hide Newest, KeyRead, Distinct;
      }
      if read(rows[last]).Some? {
        PutExactly(front, read(rows[last]).value, key);
      }
    }
  }

  lemma {:induction false} KeyStored<R(!new), T(!new), K>(rows: seq<R>, read: R -> Option<T>, key: T -> K, k: K)
    ensures KeyRead(rows, read, key, k) <==> exists x :: x in Stored([], rows, read, key) && key(x) == k
  {
    if |rows| > 0 {
      var last := |rows| - 1;
      KeyStored(rows[..last], read, key, k);
      KeysLonger(rows, read, key, k);
      StoredExactly([], rows[..last], read, key);
      if read(rows[last]).Some? {
        PutExactly(Stored([], rows[..last], read, key), read(rows[last]).value, key);
      }
      hide KeyRead, Newest, Distinct;
    }
  }

  /** Some row has the first key, and up to it none has the second. */
  ghost predicate AppearsBefore<R(!new), T, K>(rows: seq<R>, read: R -> Option<T>, key: T -> K, first: K, second: K) {
    exists a :: HasKey(rows, read, key, a, first) && forall b :: b <= a ==> !HasKey(rows, read, key, b, second)
  }

  lemma AppearsLonger<R(!new), T, K>(rows: seq<R>, read: R -> Option<T>, key: T -> K, first: K, second: K)
    requires |rows| > 0
    requires var front := rows[..|rows| - 1];
      AppearsBefore(front, read, key, first, second)
        || (KeyRead(front, read, key, first) && !KeyRead(front, read, key, second))
    ensures AppearsBefore(rows, read, key, first, second)
  {
    var front := rows[..|rows| - 1];
    var a :| HasKey(front, read, key, a, first) && forall b :: b <= a ==> !HasKey(front, read, key, b, second);
    assert HasKey(rows, read, key, a, first);
    forall b | b <= a ensures !HasKey(rows, read, key, b, second) {
      assert !HasKey(front, read, key, b, second);
    }
  }

  /** What is stored stands in the order in which the keys first appear. */
  lemma {:induction false} StoredInOrder<R(!new), T(!new), K>(
    rows: seq<R>, read: R -> Option<T>, key: T -> K, i: nat, j: nat)
    requires i < j < |Stored([], rows, read, key)|
    ensures AppearsBefore(rows, read, key, key(Stored([], rows, read, key)[i]), key(Stored([], rows, read, key)[j]))
  {
    var last := |rows| - 1;
    var before := rows[..last];
    var front := Stored([], before, read, key);
    StoredExactly([], before, read, key);
    if read(rows[last]).Some? {
      PutExactly(front, read(rows[last]).value, key);
    }
    var first, second := key(Stored([], rows, read, key)[i]), key(Stored([], rows, read, key)[j]);
    hide AppearsBefore, Newest, HasKey;
    if j < |front| {
      StoredInOrder(before, read, key, i, j);
    } else {
      assert first == key(front[i]) && front[i] in front;
      StoredExactly([], rows, read, key);
      hide KeyRead, Put;
      KeyStored(before, read, key, first);
      KeyStored(before, read, key, second);
    }
    AppearsLonger(rows, read, key, first, second);
  }

  /** Members with the same key are the same. */
  ghost predicate OnePerKey<T(!new), K(!new)>(list: seq<T>, key: T -> K) {
    forall x, y :: x in list && y in list && key(x) == key(y) ==> x == y
  }

  lemma DistinctOnePerKey<T(!new), K(!new)>(list: seq<T>, key: T -> K)
    requires Distinct(list, key)
    ensures OnePerKey(list, key)
  {
  }
}
