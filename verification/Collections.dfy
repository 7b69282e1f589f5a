/** Id ranges and sequence filters. */
module Collections {
  /** The ids `lo, lo+1, ..., hi-1`. */
  function Range(lo: nat, hi: nat): (r: set<nat>)
    ensures forall k: nat :: k in r <==> lo <= k < hi
  {
    if hi <= lo then {} else Range(lo, hi - 1) + {hi - 1}
  }

  lemma {:induction false} RangeSize(lo: nat, hi: nat)
    requires lo <= hi
    ensures |Range(lo, hi)| == hi - lo
    decreases hi
  {
    if lo < hi {
      RangeSize(lo, hi - 1);
      var less := Range(lo, hi - 1);
      assert hi - 1 !in less;
      assert |less + {hi - 1}| == |less| + 1;
    }
  }

  lemma SubsetSize<T>(a: set<T>, b: set<T>)
    requires a <= b
    ensures |a| <= |b|
    ensures |a| == |b| ==> a == b
  {
    assert b == a + (b - a);
    assert |b| == |a| + |b - a|;
  }

  lemma ConcatAssoc<T>(a: seq<T>, b: seq<T>, c: seq<T>)
    ensures a + b + c == a + (b + c)
  {
  }

  predicate Distinct<T(==)>(s: seq<T>) {
    forall i: nat, k: nat | i < k < |s| :: s[i] != s[k]
  }

  function Elements<T>(s: seq<T>): set<T> {
    set x | x in s
  }

  lemma DistinctSnoc<T>(s: seq<T>, x: T)
    requires Distinct(s) && x !in s
    ensures Distinct(s + [x]) && Elements(s + [x]) == Elements(s) + {x}
  {
  }

  lemma {:induction false} DistinctSize<T>(s: seq<T>)
    requires Distinct(s)
    ensures |Elements(s)| == |s|
  {
    if |s| == 0 {
      assert Elements(s) == {};
    } else {
      var front := s[..|s| - 1];
      DistinctSize(front);
      assert s == front + [s[|s| - 1]];
      assert Elements(s) == Elements(front) + {s[|s| - 1]};
    }
  }

  lemma ElementsAppend<T>(s: seq<T>, x: T)
    ensures Elements(s + [x]) == Elements(s) + {x}
  {
  }

  lemma {:induction false} ElementsSize<T>(s: seq<T>)
    ensures |Elements(s)| <= |s|
  {
    if |s| == 0 {
      assert Elements(s) == {};
    } else {
      var front, last := s[..|s| - 1], s[|s| - 1];
      ElementsSize(front);
      assert s == front + [last];
      assert Elements(s) == Elements(front) + {last};
    }
  }

  predicate Ascending(s: seq<nat>) {
    forall i: nat, k: nat | i < k < |s| :: s[i] < s[k]
  }

  lemma AscendingAppend(s: seq<nat>, x: nat)
    requires Ascending(s) && forall y | y in s :: y < x
    ensures Ascending(s + [x])
  {
    forall i: nat | i < |s| ensures s[i] < x {
      assert s[i] in s;
    }
  }

  /** The elements of `s` that satisfy `p`, in order. */
  function Filter<T>(p: T -> bool, s: seq<T>): (r: seq<T>)
    ensures |r| <= |s|
  {
    if |s| == 0 then []
    else Filter(p, s[..|s| - 1]) + if p(s[|s| - 1]) then [s[|s| - 1]] else []
  }

  lemma FilterSnoc<T>(p: T -> bool, s: seq<T>, x: T)
    ensures Filter(p, s + [x]) == Filter(p, s) + if p(x) then [x] else []
  {
    assert (s + [x])[..|s|] == s;
  }

  lemma FilterOne<T>(p: T -> bool, x: T)
    ensures Filter(p, [x]) == if p(x) then [x] else []
  {
    FilterSnoc(p, [], x);
    assert [] + [x] == [x];
  }

  lemma {:induction false} FilterIs<T>(p: T -> bool, s: seq<T>)
    ensures forall x | x in s && p(x) :: x in Filter(p, s)
    ensures forall x | x in Filter(p, s) :: x in s && p(x)
  {
    if |s| > 0 {
      var front := s[..|s| - 1];
      FilterIs(p, front);
      assert s == front + [s[|s| - 1]];
    }
  }

  lemma {:induction false} FilterAppend<T>(p: T -> bool, s: seq<T>, t: seq<T>)
    ensures Filter(p, s + t) == Filter(p, s) + Filter(p, t)
  {
    if |t| == 0 {
      assert s + t == s;
    } else {
      var front, last := t[..|t| - 1], t[|t| - 1];
      FilterAppend(p, s, front);
      FilterSnoc(p, s + front, last);
      FilterSnoc(p, front, last);
      assert t == front + [last];
      assert s + t == s + front + [last];
    }
  }

  lemma {:induction false} FilterAll<T>(p: T -> bool, s: seq<T>)
    ensures (forall x | x in s :: p(x)) ==> Filter(p, s) == s
    ensures |Filter(p, s)| == |s| ==> Filter(p, s) == s && forall x | x in s :: p(x)
  {
    if |s| > 0 {
      var front, last := s[..|s| - 1], s[|s| - 1];
      FilterAll(p, front);
      assert s == front + [last];
    }
  }

  // ----- missing chunks -----

  /** The ids of `lo..hi` that are not in `ids`, ascending. */
  function Absent(ids: set<nat>, lo: nat, hi: nat): seq<nat> {
    if hi <= lo then []
    else Absent(ids, lo, hi - 1) + if hi - 1 in ids then [] else [hi - 1]
  }

  function Present(ids: set<nat>, lo: nat, hi: nat): seq<nat> {
    if hi <= lo then []
    else Present(ids, lo, hi - 1) + if hi - 1 in ids then [hi - 1] else []
  }

  /** An ascending list of exactly the missing ids. */
  lemma {:induction false} AbsentIs(ids: set<nat>, lo: nat, hi: nat)
    ensures forall k :: k in Absent(ids, lo, hi) <==> lo <= k < hi && k !in ids
    ensures Ascending(Absent(ids, lo, hi))
  {
    if lo < hi {
      AbsentIs(ids, lo, hi - 1);
      AscendingAppend(Absent(ids, lo, hi - 1), hi - 1);
    }
  }

  /** An ascending list of exactly the recorded ids. */
  lemma {:induction false} PresentIs(ids: set<nat>, lo: nat, hi: nat)
    ensures forall k :: k in Present(ids, lo, hi) <==> lo <= k < hi && k in ids
    ensures Ascending(Present(ids, lo, hi))
  {
    if lo < hi {
      PresentIs(ids, lo, hi - 1);
      AscendingAppend(Present(ids, lo, hi - 1), hi - 1);
    }
  }

  lemma {:induction false} AbsentSplit(ids: set<nat>, lo: nat, mid: nat, hi: nat)
    requires lo <= mid <= hi
    ensures Absent(ids, lo, hi) == Absent(ids, lo, mid) + Absent(ids, mid, hi)
  {
    if mid < hi {
      AbsentSplit(ids, lo, mid, hi - 1);
    }
  }

  function Below(ids: set<nat>, n: nat): set<nat> {
    set k | k in ids && k < n
  }

  /** Missing and recorded ids below `n` make up `n`. */
  lemma {:induction false} MissingCount(ids: set<nat>, n: nat)
    ensures |Absent(ids, 0, n)| + |Below(ids, n)| == n
  {
    if n == 0 {
      assert Below(ids, 0) == {};
    } else {
      MissingCount(ids, n - 1);
      if n - 1 in ids {
        assert Below(ids, n) == Below(ids, n - 1) + {n - 1};
      } else {
        assert Below(ids, n) == Below(ids, n - 1);
      }
    }
  }

  /** Counting the recorded ids gives the right answer to whether any id below `n` is missing. */
  predicate CountRight(ids: set<nat>, n: nat) {
    |ids| == n <==> Absent(ids, 0, n) == []
  }

  /** At one moment: the count is right if no id lies beyond the end, and otherwise exactly if some are missing, but
      not as many as lie beyond. */
  lemma CountRightNowIff(ids: set<nat>, n: nat)
    ensures var (missing, over) := (|Absent(ids, 0, n)|, |ids - Below(ids, n)|);
            CountRight(ids, n) <==> over == 0 || (missing > 0 && missing != over)
  {
    MissingCount(ids, n);
    assert ids == Below(ids, n) + (ids - Below(ids, n));
    assert |ids| == |Below(ids, n)| + |ids - Below(ids, n)|;
  }

  lemma NoneBeyond(ids: set<nat>, n: nat)
    ensures (forall k | k in ids :: k < n) <==> |ids - Below(ids, n)| == 0
  {
    var over := ids - Below(ids, n);
    if forall k | k in ids :: k < n {
      assert over == {};
    }
    if |over| == 0 {
      forall k | k in ids ensures k < n {
        assert k !in over;
      }
    }
  }

  /** Once everything below the end has arrived, the count is right exactly if nothing lies beyond. */
  lemma FilledCount(ids: set<nat>, n: nat)
    requires Range(0, n) <= ids
    ensures Absent(ids, 0, n) == []
    ensures CountRight(ids, n) <==> forall k | k in ids :: k < n
  {
    MissingCount(ids, n);
    RangeSize(0, n);
    assert Below(ids, n) == Range(0, n);
    CountRightNowIff(ids, n);
    NoneBeyond(ids, n);
  }

  lemma WithinCount(ids: set<nat>, n: nat)
    requires forall k | k in ids :: k < n
    ensures CountRight(ids, n)
  {
    CountRightNowIff(ids, n);
    NoneBeyond(ids, n);
  }
}
