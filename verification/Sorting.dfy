/** The library's sort by a key that no two elements share. */
module Sorting {
  predicate Ascends<T(!new)>(key: T -> nat, xs: seq<T>) {
    forall i: nat, k: nat | i < k < |xs| :: key(xs[i]) < key(xs[k])
  }

  function Insert<T>(key: T -> nat, x: T, xs: seq<T>): seq<T> {
    if |xs| == 0 || key(x) <= key(xs[0]) then [x] + xs else [xs[0]] + Insert(key, x, xs[1..])
  }

  function Sort<T>(key: T -> nat, xs: seq<T>): seq<T> {
    if |xs| == 0 then [] else Insert(key, xs[0], Sort(key, xs[1..]))
  }

  lemma {:induction false} InsertHolds<T>(key: T -> nat, x: T, xs: seq<T>)
    ensures forall y :: y in Insert(key, x, xs) <==> y == x || y in xs
  {
    if |xs| > 0 && key(xs[0]) < key(x) {
      InsertHolds(key, x, xs[1..]);
      assert xs == [xs[0]] + xs[1..];
    }
  }

  lemma FirstAscends<T(!new)>(key: T -> nat, x: T, xs: seq<T>)
    requires Ascends(key, xs) && forall y | y in xs :: key(x) < key(y)
    ensures Ascends(key, [x] + xs)
  {
    var all := [x] + xs;
    forall i: nat, k: nat | i < k < |all| ensures key(all[i]) < key(all[k]) {
      assert all[k] == xs[k - 1] && xs[k - 1] in xs;
    }
  }

  lemma RestAscends<T(!new)>(key: T -> nat, xs: seq<T>)
    requires Ascends(key, xs) && |xs| > 0
    ensures Ascends(key, xs[1..]) && forall y | y in xs[1..] :: key(xs[0]) < key(y)
  {
  }

  lemma {:induction false} InsertSorts<T(!new)>(key: T -> nat, x: T, xs: seq<T>)
    requires Ascends(key, xs) && forall y | y in xs :: key(y) != key(x)
    ensures Ascends(key, Insert(key, x, xs))
    ensures forall y :: y in Insert(key, x, xs) <==> y == x || y in xs
  {
    InsertHolds(key, x, xs);
    if |xs| == 0 {
      FirstAscends(key, x, xs);
    } else {
      RestAscends(key, xs);
      assert xs == [xs[0]] + xs[1..];
      if key(xs[0]) < key(x) {
        InsertSorts(key, x, xs[1..]);
        FirstAscends(key, xs[0], Insert(key, x, xs[1..]));
      } else {
        FirstAscends(key, x, xs);
      }
    }
  }

  /** The same elements, in ascending order. */
  lemma {:induction false} SortSorts<T(!new)>(key: T -> nat, xs: seq<T>)
    requires forall i: nat, k: nat | i < k < |xs| :: key(xs[i]) != key(xs[k])
    ensures Ascends(key, Sort(key, xs))
    ensures forall y :: y in Sort(key, xs) <==> y in xs
  {
    if |xs| > 0 {
      SortSorts(key, xs[1..]);
      InsertSorts(key, xs[0], Sort(key, xs[1..]));
      assert xs == [xs[0]] + xs[1..];
    }
  }
}
