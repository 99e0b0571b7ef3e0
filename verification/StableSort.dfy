/** A stable sort by key, as Rust's `sort_by_key` promises, and how it meets filtering. */
module StableSort {

  ghost predicate Ordered<T(!new)>(s: seq<T>, key: T -> int) {
    forall i, j | 0 <= i < j < |s| :: key(s[i]) <= key(s[j])
  }

  /** `x` behind everything no greater. */
  function Insert<T>(s: seq<T>, x: T, key: T -> int): seq<T> {
    if s == [] || key(s[|s| - 1]) <= key(x) then s + [x] else Insert(s[..|s| - 1], x, key) + [s[|s| - 1]]
  }

  function Sorted<T>(s: seq<T>, key: T -> int): seq<T> {
    if s == [] then [] else Insert(Sorted(s[..|s| - 1], key), s[|s| - 1], key)
  }

  function Filter<T>(s: seq<T>, keep: T -> bool): seq<T> {
    if s == [] then [] else Filter(s[..|s| - 1], keep) + if keep(s[|s| - 1]) then [s[|s| - 1]] else []
  }

  lemma OneMore<T(!new)>(s: seq<T>, last: T, key: T -> int, keep: T -> bool)
    ensures Filter(s + [last], keep) == if keep(last) then Filter(s, keep) + [last] else Filter(s, keep)
    ensures Sorted(s + [last], key) == Insert(Sorted(s, key), last, key)
  {
    assert (s + [last])[..|s|] == s;
  }

  lemma InsertOneMore<T(!new)>(s: seq<T>, last: T, x: T, key: T -> int)
    ensures Insert(s + [last], x, key)
         == if key(last) <= key(x) then s + [last] + [x] else Insert(s, x, key) + [last]
  {
    assert (s + [last])[..|s|] == s;
  }

  lemma OrderedOneMore<T(!new)>(s: seq<T>, last: T, key: T -> int)
    ensures Ordered(s + [last], key) <==> Ordered(s, key) && forall x | x in s :: key(x) <= key(last)
  {
    if Ordered(s + [last], key) {
      assert forall i | 0 <= i < |s| :: (s + [last])[i] == s[i];
      assert (s + [last])[|s|] == last;
    }
  }

  lemma {:induction false} InsertIsOrdered<T(!new)>(s: seq<T>, x: T, key: T -> int)
    requires Ordered(s, key)
    ensures Ordered(Insert(s, x, key), key) && multiset(Insert(s, x, key)) == multiset(s) + multiset{x}
  {
    hide Ordered, Insert;
    if s == [] {
      assert Insert(s, x, key) == [x] && Ordered([x], key) by { Singleton(x, key); }
    } else {
      var most, last := s[..|s| - 1], s[|s| - 1];
      assert s == most + [last];
      InsertOneMore(most, last, x, key);
      OrderedOneMore(most, last, key);
      OrderedOneMore(s, x, key);
      InsertIsOrdered(most, x, key);
      OrderedOneMore(Insert(most, x, key), last, key);
      forall y | y in Insert(most, x, key) ensures y in most || y == x {
        assert y in multiset(Insert(most, x, key));
      }
    }
  }

  lemma Singleton<T(!new)>(x: T, key: T -> int)
    ensures Insert([], x, key) == [x] && Ordered([x], key) && Ordered<T>([], key) && Sorted<T>([], key) == []
  {
  }

  /** The result is in order and holds what it was given. */
  lemma {:induction false} SortedIsOrdered<T(!new)>(s: seq<T>, key: T -> int)
    ensures Ordered(Sorted(s, key), key) && multiset(Sorted(s, key)) == multiset(s)
  {
    if s != [] {
      assert s == s[..|s| - 1] + [s[|s| - 1]];
      SortedIsOrdered(s[..|s| - 1], key);
      InsertIsOrdered(Sorted(s[..|s| - 1], key), s[|s| - 1], key);
    }
  }

  /** What is in order stays as it is. */
  lemma {:induction false} OrderedIsSorted<T(!new)>(s: seq<T>, key: T -> int)
    requires Ordered(s, key)
    ensures Sorted(s, key) == s
  {
    if s != [] {
      OrderedIsSorted(s[..|s| - 1], key);
    }
  }

  lemma {:induction false} FilterKeeps<T(!new)>(s: seq<T>, keep: T -> bool)
    ensures forall x :: x in Filter(s, keep) <==> x in s && keep(x)
    ensures |Filter(s, keep)| <= |s|
  {
    if s != [] {
      FilterKeeps(s[..|s| - 1], keep);
      assert s == s[..|s| - 1] + [s[|s| - 1]];
    }
  }

  lemma {:induction false} FilterConcat<T>(a: seq<T>, b: seq<T>, keep: T -> bool)
    ensures Filter(a + b, keep) == Filter(a, keep) + Filter(b, keep)
  {
    if b == [] {
      assert a + b == a;
    } else {
      FilterConcat(a, b[..|b| - 1], keep);
      assert (a + b)[..|a + b| - 1] == a + b[..|b| - 1];
    }
  }

  lemma {:induction false} FilterAllOrNone<T(!new)>(s: seq<T>, keep: T -> bool)
    ensures (forall x | x in s :: keep(x)) ==> Filter(s, keep) == s
    ensures (forall x | x in s :: !keep(x)) ==> Filter(s, keep) == []
  {
    if s != [] {
      var most, last := s[..|s| - 1], s[|s| - 1];
      assert s == most + [last] && last in s;
      assert forall x | x in most :: x in s;
      FilterAllOrNone(most, keep);
    }
  }

  /** Of a beginning, what is kept is a beginning of what is kept. */
  lemma FilterOfPrefix<T>(s: seq<T>, n: nat, keep: T -> bool)
    requires n <= |s|
    ensures Filter(s[..n], keep) <= Filter(s, keep)
  {
    hide Filter;
    FilterConcat(s[..n], s[n..], keep);
    assert s == s[..n] + s[n..];
  }

  /** And every beginning of what is kept comes so. */
  lemma {:induction false} EveryPrefixIsReached<T(!new)>(s: seq<T>, c: nat, keep: T -> bool) returns (n: nat)
    requires c <= |Filter(s, keep)|
    ensures n <= |s| && |Filter(s[..n], keep)| == c
  {
    if c == |Filter(s, keep)| {
      n := |s|;
      assert s[..n] == s;
    } else {
      n := EveryPrefixIsReached(s[..|s| - 1], c, keep);
      assert s[..|s| - 1][..n] == s[..n];
    }
  }

  lemma FilterIsBelow<T(!new)>(s: seq<T>, last: T, key: T -> int, keep: T -> bool)
    requires forall x | x in s :: key(x) <= key(last)
    ensures Insert(Filter(s, keep), last, key) == Filter(s, keep) + [last]
  {
    FilterKeeps(s, keep);
    if Filter(s, keep) != [] {
      assert Filter(s, keep)[|Filter(s, keep)| - 1] in Filter(s, keep);
    }
  }

  lemma {:induction false} InsertFilters<T(!new)>(s: seq<T>, x: T, key: T -> int, keep: T -> bool)
    requires Ordered(s, key)
    ensures Filter(Insert(s, x, key), keep)
         == if keep(x) then Insert(Filter(s, keep), x, key) else Filter(s, keep)
  {
    hide Ordered, Insert, Filter;
    if s == [] {
      Singleton(x, key);
      NoneToFilter(x, key, keep);
    } else {
      var most, last := s[..|s| - 1], s[|s| - 1];
      assert s == most + [last];
      InsertOneMore(most, last, x, key);
      OrderedOneMore(most, last, key);
      OneMore(most, last, key, keep);
      if key(last) <= key(x) {
        OneMore(s, x, key, keep);
        FilterIsBelow(s, x, key, keep);
      } else {
        InsertFilters(most, x, key, keep);
        OneMore(Insert(most, x, key), last, key, keep);
        InsertOneMore(Filter(most, keep), last, x, key);
      }
    }
  }

  lemma NoneToFilter<T(!new)>(x: T, key: T -> int, keep: T -> bool)
    ensures Filter<T>([], keep) == [] && Filter([x], keep) == if keep(x) then [x] else []
  {
    assert [x][..0] == [];
  }

  /** Stability: sorting and then keeping some is keeping them and then sorting. So of any
      that were already in order, the order stays. */
  lemma {:induction false} SortingKeepsOrder<T(!new)>(s: seq<T>, key: T -> int, keep: T -> bool)
    ensures Filter(Sorted(s, key), keep) == Sorted(Filter(s, keep), key)
  {
    if s == [] {
    } else {
      hide Ordered, Insert, Filter, Sorted;
      var most, last := s[..|s| - 1], s[|s| - 1];
      assert s == most + [last];
      SortingKeepsOrder(most, key, keep);
      SortedIsOrdered(most, key);
      OneMore(most, last, key, keep);
      InsertFilters(Sorted(most, key), last, key, keep);
      OneMore(Filter(most, keep), last, key, keep);
    }
  }

  /** In order by key, and among equal keys by rank. */
  ghost predicate Ranked<T(!new)>(s: seq<T>, key: T -> int, rank: T -> int) {
    forall i, j | 0 <= i < j < |s| :: key(s[i]) < key(s[j]) || (key(s[i]) == key(s[j]) && rank(s[i]) < rank(s[j]))
  }

  lemma RankedOneMore<T(!new)>(s: seq<T>, last: T, key: T -> int, rank: T -> int)
    requires Ranked(s, key, rank)
    requires forall y | y in s :: key(y) < key(last) || (key(y) == key(last) && rank(y) < rank(last))
    ensures Ranked(s + [last], key, rank)
  {
  }

  lemma {:induction false} InsertKeepsRank<T(!new)>(s: seq<T>, x: T, key: T -> int, rank: T -> int)
    requires Ranked(s, key, rank) && forall y | y in s :: rank(y) < rank(x)
    ensures Ranked(Insert(s, x, key), key, rank)
    ensures forall y :: y in Insert(s, x, key) <==> y in s || y == x
  {
    if s == [] || key(s[|s| - 1]) <= key(x) {
      forall y | y in s ensures key(y) <= key(x) {
        var i :| 0 <= i < |s| && s[i] == y;
      }
      RankedOneMore(s, x, key, rank);
    } else {
      var most, last := s[..|s| - 1], s[|s| - 1];
      assert s == most + [last];
      InsertKeepsRank(most, x, key, rank);
      forall y | y in most ensures key(y) < key(last) || (key(y) == key(last) && rank(y) < rank(last)) {
        var i :| 0 <= i < |most| && most[i] == y;
        assert s[i] == y;
      }
      RankedOneMore(Insert(most, x, key), last, key, rank);
    }
  }

  /** Stability by position: what went in with its ranks rising comes out with them rising
      among equal keys. */
  lemma {:induction false} SortedKeepsRank<T(!new)>(s: seq<T>, key: T -> int, rank: T -> int)
    requires forall i, j | 0 <= i < j < |s| :: rank(s[i]) < rank(s[j])
    ensures Ranked(Sorted(s, key), key, rank)
    ensures |Sorted(s, key)| == |s| && forall y :: y in Sorted(s, key) <==> y in s
  {
    hide Insert, Ranked;
    SortedIsOrdered(s, key);
    assert |multiset(Sorted(s, key))| == |multiset(s)|;
    forall y ensures y in Sorted(s, key) <==> y in s {
      assert y in multiset(Sorted(s, key)) <==> y in multiset(s);
    }
    if s == [] {
      NothingIsRanked(key, rank);
    } else {
      var most, last := s[..|s| - 1], s[|s| - 1];
      SortedKeepsRank(most, key, rank);
      InsertKeepsRank(Sorted(most, key), last, key, rank);
    }
  }

  lemma NothingIsRanked<T(!new)>(key: T -> int, rank: T -> int)
    ensures Ranked<T>([], key, rank)
  {
  }
}
