// A stand-in for the library's unstable sort. Callers may rely on nothing but
// the contract of SortSlice: some permutation that satisfies the comparator.
module Sorting {
  import opened Sequences

  ghost predicate StrictWeakOrder<T(!new)>(less: (T, T) -> bool) {
    && (forall x, y :: less(x, y) ==> !less(y, x))
    && (forall x, y, z :: !less(y, x) && !less(z, y) ==> !less(z, x))
  }

  ghost predicate Sorted<T>(less: (T, T) -> bool, s: seq<T>) {
    forall i, j :: 0 <= i < j < |s| ==> !less(s[j], s[i])
  }

  function Insert<T>(less: (T, T) -> bool, x: T, s: seq<T>): seq<T> {
    if s == [] || less(x, s[0]) then [x] + s else [s[0]] + Insert(less, x, s[1..])
  }

  lemma {:induction false} InsertMultiset<T>(less: (T, T) -> bool, x: T, s: seq<T>)
    ensures multiset(Insert(less, x, s)) == multiset(s) + multiset{x}
  {
    if !(s == [] || less(x, s[0])) {
      InsertMultiset(less, x, s[1..]);
      assert s == [s[0]] + s[1..];
    }
  }

  lemma ConsSorted<T>(less: (T, T) -> bool, x: T, s: seq<T>)
    requires Sorted(less, s)
    requires forall y :: y in multiset(s) ==> !less(y, x)
    ensures Sorted(less, [x] + s)
  {
    forall i, j | 0 <= i < j < |s| + 1
      ensures !less(([x] + s)[j], ([x] + s)[i])
    {
      assert s[j - 1] in multiset(s);
    }
  }

  lemma {:induction false} InsertSorted<T(!new)>(less: (T, T) -> bool, x: T, s: seq<T>)
    requires StrictWeakOrder(less) && Sorted(less, s)
    ensures Sorted(less, Insert(less, x, s))
  {
    if s == [] {
    } else if less(x, s[0]) {
      forall y | y in multiset(s)
        ensures !less(y, x)
      {
        var j :| 0 <= j < |s| && s[j] == y;
        assert !less(s[0], x);
      }
      ConsSorted(less, x, s);
    } else {
      InsertSorted(less, x, s[1..]);
      InsertMultiset(less, x, s[1..]);
      forall y | y in multiset(Insert(less, x, s[1..]))
        ensures !less(y, s[0])
      {
        if y != x {
          assert y in multiset(s[1..]);
          var j :| 0 <= j < |s| - 1 && s[1..][j] == y;
          assert s[j + 1] == y;
        }
      }
      ConsSorted(less, s[0], Insert(less, x, s[1..]));
    }
  }

  function InsertAll<T>(less: (T, T) -> bool, s: seq<T>): seq<T> {
    if s == [] then [] else Insert(less, s[0], InsertAll(less, s[1..]))
  }

  lemma {:induction false} InsertAllSorts<T(!new)>(less: (T, T) -> bool, s: seq<T>)
    requires StrictWeakOrder(less)
    ensures Sorted(less, InsertAll(less, s))
    ensures multiset(InsertAll(less, s)) == multiset(s)
  {
    if s != [] {
      InsertAllSorts(less, s[1..]);
      InsertSorted(less, s[0], InsertAll(less, s[1..]));
      InsertMultiset(less, s[0], InsertAll(less, s[1..]));
      assert s == [s[0]] + s[1..];
    }
  }

  method SortSlice<T(!new)>(a: array<T>, less: (T, T) -> bool)
    requires StrictWeakOrder(less)
    modifies a
    ensures multiset(a[..]) == multiset(old(a[..]))
    ensures Sorted(less, a[..])
  {
    var sorted := InsertAll(less, a[..]);
    InsertAllSorts(less, a[..]);
    assert |sorted| == |multiset(sorted)| == |multiset(a[..])| == a.Length;
    for i := 0 to a.Length
      invariant a[..i] == sorted[..i]
    {
      a[i] := sorted[i];
    }
    assert a[..] == a[..a.Length] == sorted[..a.Length] == sorted;
  }

  // The elements of a set, each once, in this order.
  ghost predicate SortedListing<T(!new)>(less: (T, T) -> bool, all: seq<T>, s: set<T>) {
    Distinct(all) && (forall x :: x in all <==> x in s) && Sorted(less, all)
  }

  lemma {:induction false} DistinctPermutation<T>(a: seq<T>, b: seq<T>)
    requires Distinct(a) && multiset(a) == multiset(b)
    ensures Distinct(b)
  {
    PairwisePermutation((x, y) => x != y, a, b);
  }

  method SortDistinct<T(!new)>(list: seq<T>, less: (T, T) -> bool) returns (all: seq<T>)
    requires StrictWeakOrder(less) && Distinct(list)
    ensures Distinct(all) && Sorted(less, all)
    ensures forall x :: x in all <==> x in list
  {
    var a := new T[|list|](i requires 0 <= i < |list| => list[i]);
    assert a[..] == list;
    SortSlice(a, less);
    all := a[..];
    DistinctPermutation(list, all);
    SameMembers(list, all);
  }

  // The elements of a set, each once, in no particular order.
  method Enumerate<T(==)>(s: set<T>) returns (all: seq<T>)
    ensures Distinct(all)
    ensures forall x :: x in all <==> x in s
  {
    all := [];
    var todo := s;
    while todo != {}
      invariant todo <= s && Distinct(all)
      invariant forall x :: x in all <==> x in s - todo
      decreases todo
    {
      var x :| x in todo;
      todo := todo - {x};
      assert x !in all;
      all := all + [x];
    }
  }
}
