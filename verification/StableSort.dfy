/**
 A stable sort, standing for Python's `sorted` and `list.sort`: each item is inserted after every
 earlier item that does not come strictly later in the order.
 */
module StableSort {

  ghost predicate IsTotalOrder<T(!new)>(le: (T, T) -> bool) {
    && (forall x, y :: le(x, y) || le(y, x))
    && (forall x, y, z :: le(x, y) && le(y, z) ==> le(x, z))
  }

  ghost predicate IsSorted<T(!new)>(le: (T, T) -> bool, s: seq<T>) {
    forall i, j :: 0 <= i < j < |s| ==> le(s[i], s[j])
  }

  function Insert<T>(le: (T, T) -> bool, s: seq<T>, x: T): seq<T> {
    if s == [] then [x]
    else if le(s[|s| - 1], x) then s + [x]
    else Insert(le, s[..|s| - 1], x) + [s[|s| - 1]]
  }

  function Sort<T>(le: (T, T) -> bool, s: seq<T>): seq<T> {
    if s == [] then [] else Insert(le, Sort(le, s[..|s| - 1]), s[|s| - 1])
  }

  function Filter<T>(keep: T -> bool, s: seq<T>): seq<T> {
    if s == [] then []
    else Filter(keep, s[..|s| - 1]) + if keep(s[|s| - 1]) then [s[|s| - 1]] else []
  }

  lemma {:induction false} InsertKeepsItems<T>(le: (T, T) -> bool, s: seq<T>, x: T)
    ensures multiset(Insert(le, s, x)) == multiset(s) + multiset{x}
  {
    if s != [] {
      assert s == s[..|s| - 1] + [s[|s| - 1]];
      InsertKeepsItems(le, s[..|s| - 1], x);
    }
  }

  lemma {:induction false} SortKeepsItems<T>(le: (T, T) -> bool, s: seq<T>)
    ensures multiset(Sort(le, s)) == multiset(s)
  {
    if s != [] {
      assert s == s[..|s| - 1] + [s[|s| - 1]];
      SortKeepsItems(le, s[..|s| - 1]);
      InsertKeepsItems(le, Sort(le, s[..|s| - 1]), s[|s| - 1]);
    }
  }

  lemma SortKeepsLength<T(!new)>(le: (T, T) -> bool, s: seq<T>)
    ensures |Sort(le, s)| == |s| && forall x :: x in Sort(le, s) <==> x in s
  {
    SortKeepsItems(le, s);
    var r := Sort(le, s);
    assert |multiset(r)| == |multiset(s)|;
    forall x
      ensures x in r <==> x in s
    {
      assert x in r <==> x in multiset(r);
      assert x in s <==> x in multiset(s);
    }
  }

  lemma {:induction false} InsertKeepsOrder<T(!new)>(le: (T, T) -> bool, s: seq<T>, x: T)
    requires IsTotalOrder(le) && IsSorted(le, s)
    ensures IsSorted(le, Insert(le, s, x))
  {
    if s != [] && !le(s[|s| - 1], x) {
      var last := s[|s| - 1];
      var init := s[..|s| - 1];
      InsertKeepsOrder(le, init, x);
      var r := Insert(le, init, x);
      InsertKeepsItems(le, init, x);
      forall i | 0 <= i < |r|
        ensures le(r[i], last)
      {
        assert r[i] in multiset(init) + multiset{x};
      }
    }
  }

  lemma {:induction false} SortSorts<T(!new)>(le: (T, T) -> bool, s: seq<T>)
    requires IsTotalOrder(le)
    ensures IsSorted(le, Sort(le, s))
  {
    if s != [] {
      SortSorts(le, s[..|s| - 1]);
      InsertKeepsOrder(le, Sort(le, s[..|s| - 1]), s[|s| - 1]);
    }
  }

  /** Items of one class, whose members all tie, keep their order: the sort is stable. */
  lemma {:induction false} SortIsStable<T(!new)>(le: (T, T) -> bool, s: seq<T>, tied: T -> bool)
    requires forall x, y :: tied(x) && tied(y) ==> le(x, y)
    ensures Filter(tied, Sort(le, s)) == Filter(tied, s)
  {
    if s != [] {
      SortIsStable(le, s[..|s| - 1], tied);
      InsertIsStable(le, Sort(le, s[..|s| - 1]), s[|s| - 1], tied);
    }
  }

  lemma {:induction false} InsertIsStable<T(!new)>(le: (T, T) -> bool, s: seq<T>, x: T, tied: T -> bool)
    requires forall x, y :: tied(x) && tied(y) ==> le(x, y)
    ensures Filter(tied, Insert(le, s, x)) == Filter(tied, s) + if tied(x) then [x] else []
  {
    var r := Insert(le, s, x);
    if s == [] {
      assert r[..0] == [];
    } else if le(s[|s| - 1], x) {
      assert r[..|s|] == s;
    } else {
      InsertIsStable(le, s[..|s| - 1], x, tied);
      assert r[..|r| - 1] == Insert(le, s[..|s| - 1], x);
    }
  }

  // ----- Filtering -----

  lemma FilterOneMore<T>(keep: T -> bool, s: seq<T>, x: T)
    ensures Filter(keep, s + [x]) == Filter(keep, s) + if keep(x) then [x] else []
  {
    assert (s + [x])[..|s|] == s;
  }

  lemma {:induction false} FilterMembers<T(!new)>(keep: T -> bool, s: seq<T>)
    ensures |Filter(keep, s)| <= |s|
    ensures forall x :: x in Filter(keep, s) <==> x in s && keep(x)
  {
    if s != [] {
      FilterMembers(keep, s[..|s| - 1]);
      assert s == s[..|s| - 1] + [s[|s| - 1]];
    }
  }

  lemma {:induction false} FilterAll<T>(keep: T -> bool, s: seq<T>)
    requires forall i :: 0 <= i < |s| ==> keep(s[i])
    ensures Filter(keep, s) == s
  {
    if s != [] {
      FilterAll(keep, s[..|s| - 1]);
    }
  }

  lemma {:induction false} FilterNone<T>(keep: T -> bool, s: seq<T>)
    requires forall i :: 0 <= i < |s| ==> !keep(s[i])
    ensures Filter(keep, s) == []
  {
    if s != [] {
      FilterNone(keep, s[..|s| - 1]);
    }
  }

  lemma {:induction false} InsertCounts<T>(le: (T, T) -> bool, s: seq<T>, x: T, keep: T -> bool)
    ensures |Filter(keep, Insert(le, s, x))| == |Filter(keep, s)| + if keep(x) then 1 else 0
  {
    var r := Insert(le, s, x);
    if s == [] {
      assert r[..0] == [];
    } else if le(s[|s| - 1], x) {
      assert r[..|s|] == s;
    } else {
      InsertCounts(le, s[..|s| - 1], x, keep);
      assert r[..|r| - 1] == Insert(le, s[..|s| - 1], x);
    }
  }

  lemma {:induction false} SortCounts<T>(le: (T, T) -> bool, s: seq<T>, keep: T -> bool)
    ensures |Filter(keep, Sort(le, s))| == |Filter(keep, s)|
  {
    if s != [] {
      SortCounts(le, s[..|s| - 1], keep);
      InsertCounts(le, Sort(le, s[..|s| - 1]), s[|s| - 1], keep);
    }
  }

  lemma {:induction false} FilterTwice<T(!new)>(p: T -> bool, q: T -> bool, both: T -> bool, s: seq<T>)
    requires forall x :: both(x) == (q(x) && p(x))
    ensures Filter(p, Filter(q, s)) == Filter(both, s)
  {
    if s != [] {
      var init, last := s[..|s| - 1], s[|s| - 1];
      FilterTwice(p, q, both, init);
      var kept := Filter(q, init);
      if q(last) {
        assert (kept + [last])[..|kept|] == kept;
      } else {
        assert Filter(q, s) == kept;
      }
    }
  }

  ghost function Positions<T>(keep: T -> bool, s: seq<T>): set<int> {
    set i | 0 <= i < |s| && keep(s[i])
  }

  lemma {:induction false} FilterSame<T(!new)>(p: T -> bool, q: T -> bool, s: seq<T>)
    requires forall x :: p(x) == q(x)
    ensures Filter(p, s) == Filter(q, s)
  {
    if s != [] {
      FilterSame(p, q, s[..|s| - 1]);
    }
  }

  lemma {:induction false} FilterSplits<T(!new)>(p: T -> bool, q: T -> bool, s: seq<T>)
    requires forall x :: p(x) == !q(x)
    ensures |Filter(p, s)| + |Filter(q, s)| == |s|
  {
    if s != [] {
      FilterSplits(p, q, s[..|s| - 1]);
    }
  }
}
