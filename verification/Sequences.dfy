// Facts about sequences that the rewrite engine and the planner share:
// reversal, permutations as equal multisets, and uniqueness of sorted order.
module Sequences {

  function Reverse<T>(s: seq<T>): (r: seq<T>)
    ensures |r| == |s|
  {
    if s == [] then [] else Reverse(s[1..]) + [s[0]]
  }

  function MapSeq<T, U>(f: T -> U, s: seq<T>): (r: seq<U>)
    ensures |r| == |s|
    ensures forall i :: 0 <= i < |s| ==> r[i] == f(s[i])
  {
    seq(|s|, i requires 0 <= i < |s| => f(s[i]))
  }

  function Remove<T>(s: seq<T>, k: nat): (r: seq<T>)
    requires k < |s|
    ensures |r| == |s| - 1
    ensures forall m :: 0 <= m < |r| ==> r[m] == s[if m < k then m else m + 1]
  {
    s[..k] + s[k + 1..]
  }

  lemma Associate<T>(a: seq<T>, b: seq<T>, c: seq<T>)
    ensures a + (b + c) == (a + b) + c
  {
  }

  predicate Distinct<T(==)>(s: seq<T>) {
    forall i, j :: 0 <= i < j < |s| ==> s[i] != s[j]
  }

  lemma {:induction false} ReverseIndex<T>(s: seq<T>, i: nat)
    requires i < |s|
    ensures Reverse(s)[i] == s[|s| - 1 - i]
  {
    if i < |s| - 1 {
      ReverseIndex(s[1..], i);
    }
  }

  lemma {:induction false} ReverseAppend<T>(s: seq<T>, t: seq<T>)
    ensures Reverse(s + t) == Reverse(t) + Reverse(s)
  {
    if s == [] {
      assert s + t == t;
    } else {
      ReverseAppend(s[1..], t);
      assert (s + t)[1..] == s[1..] + t;
    }
  }

  lemma {:induction false} ReverseTwice<T>(s: seq<T>)
    ensures Reverse(Reverse(s)) == s
  {
    if s != [] {
      ReverseTwice(s[1..]);
      ReverseAppend(Reverse(s[1..]), [s[0]]);
    }
  }

  lemma {:induction false} ReverseMultiset<T>(s: seq<T>)
    ensures multiset(Reverse(s)) == multiset(s)
  {
    if s != [] {
      ReverseMultiset(s[1..]);
      assert s == [s[0]] + s[1..];
    }
  }

  lemma RemoveMultiset<T>(s: seq<T>, k: nat)
    requires k < |s|
    ensures multiset(Remove(s, k)) == multiset(s) - multiset{s[k]}
  {
    assert s == s[..k] + [s[k]] + s[k + 1..];
  }

  ghost predicate Pairwise<T>(rel: (T, T) -> bool, s: seq<T>) {
    forall i, j :: 0 <= i < |s| && 0 <= j < |s| && i != j ==> rel(s[i], s[j])
  }

  lemma PairwiseRemove<T>(rel: (T, T) -> bool, s: seq<T>, k: nat)
    requires k < |s| && Pairwise(rel, s)
    ensures Pairwise(rel, Remove(s, k))
    ensures forall y :: y in Remove(s, k) ==> rel(s[k], y) && rel(y, s[k])
  {
    forall i, j | 0 <= i < |s| - 1 && 0 <= j < |s| - 1 && i != j
      ensures rel(Remove(s, k)[i], Remove(s, k)[j])
    {
      assert Remove(s, k)[i] == s[if i < k then i else i + 1];
      assert Remove(s, k)[j] == s[if j < k then j else j + 1];
    }
  }

  lemma PairwiseCons<T>(rel: (T, T) -> bool, s: seq<T>)
    requires s != [] && Pairwise(rel, s[1..])
    requires forall y :: y in s[1..] ==> rel(s[0], y) && rel(y, s[0])
    ensures Pairwise(rel, s)
  {
    forall i, j | 0 <= i < |s| && 0 <= j < |s| && i != j
      ensures rel(s[i], s[j])
    {
      if i == 0 {
        assert s[j] == s[1..][j - 1];
      } else if j == 0 {
        assert s[i] == s[1..][i - 1];
      } else {
        assert s[i] == s[1..][i - 1] && s[j] == s[1..][j - 1];
      }
    }
  }

  // A relation that holds between every two entries of a sequence holds
  // between every two entries of any permutation of it.
  lemma {:induction false} PairwisePermutation<T>(rel: (T, T) -> bool, a: seq<T>, b: seq<T>)
    requires multiset(a) == multiset(b)
    requires Pairwise(rel, a)
    ensures Pairwise(rel, b)
  {
    if b != [] {
      var k := HeadIn(a, b);
      PairwiseRemove(rel, a, k);
      PairwisePermutation(rel, Remove(a, k), b[1..]);
      SameMembers(Remove(a, k), b[1..]);
      PairwiseCons(rel, b);
    }
  }

  // Where the head of a permutation sits in the original, and what remains.
  lemma HeadIn<T>(a: seq<T>, b: seq<T>) returns (k: nat)
    requires multiset(a) == multiset(b) && b != []
    ensures k < |a| && a[k] == b[0]
    ensures multiset(Remove(a, k)) == multiset(b[1..])
  {
    assert b == [b[0]] + b[1..];
    assert b[0] in multiset(a);
    k :| 0 <= k < |a| && a[k] == b[0];
    RemoveMultiset(a, k);
  }

  lemma SameMembers<T>(a: seq<T>, b: seq<T>)
    requires multiset(a) == multiset(b)
    ensures |a| == |b|
    ensures forall x :: x in a <==> x in b
  {
    assert |multiset(a)| == |multiset(b)|;
    forall x
      ensures x in a <==> x in b
    {
      assert x in a <==> x in multiset(a);
      assert x in b <==> x in multiset(b);
    }
  }

  lemma {:induction false} MapMultiset<T, U>(f: T -> U, a: seq<T>, b: seq<T>)
    requires multiset(a) == multiset(b)
    ensures multiset(MapSeq(f, a)) == multiset(MapSeq(f, b))
  {
    SameMembers(a, b);
    if b != [] {
      var k := HeadIn(a, b);
      MapMultiset(f, Remove(a, k), b[1..]);
      MapRemove(f, a, k);
      MapRemove(f, b, 0);
      assert Remove(b, 0) == b[1..];
    } else {
      assert a == b;
    }
  }

  lemma MapRemove<T, U>(f: T -> U, s: seq<T>, k: nat)
    requires k < |s|
    ensures multiset(MapSeq(f, s)) == multiset(MapSeq(f, Remove(s, k))) + multiset{f(s[k])}
  {
    RemoveMultiset(MapSeq(f, s), k);
    assert MapSeq(f, Remove(s, k)) == Remove(MapSeq(f, s), k);
    assert f(s[k]) in MapSeq(f, s) by { assert MapSeq(f, s)[k] == f(s[k]); }
  }

  ghost predicate SortedBy<T>(le: (T, T) -> bool, s: seq<T>) {
    forall i, j :: 0 <= i < j < |s| ==> le(s[i], s[j])
  }

  ghost predicate Antisymmetric<T>(le: (T, T) -> bool, s: seq<T>) {
    forall i, j :: 0 <= i < |s| && 0 <= j < |s| && le(s[i], s[j]) && le(s[j], s[i]) ==> s[i] == s[j]
  }

  lemma SortedHeads<T>(le: (T, T) -> bool, a: seq<T>, b: seq<T>)
    requires multiset(a) == multiset(b) && b != [] && a != []
    requires SortedBy(le, a) && SortedBy(le, b) && Antisymmetric(le, a)
    ensures a[0] == b[0]
  {
    var k := HeadIn(a, b);
    var m := HeadIn(b, a);
    assert m > 0 ==> le(b[0], b[m]);
    assert k > 0 ==> le(a[0], a[k]);
  }

  lemma TailMultiset<T>(s: seq<T>)
    requires s != []
    ensures multiset(s[1..]) == multiset(s) - multiset{s[0]}
  {
    assert s == [s[0]] + s[1..];
  }

  // Sorting by an order that is antisymmetric on the entries has one outcome.
  lemma {:induction false} SortedUnique<T>(le: (T, T) -> bool, a: seq<T>, b: seq<T>)
    requires multiset(a) == multiset(b)
    requires SortedBy(le, a) && SortedBy(le, b)
    requires Antisymmetric(le, a)
    ensures a == b
  {
    SameMembers(a, b);
    if b != [] {
      SortedHeads(le, a, b);
      TailMultiset(a);
      TailMultiset(b);
      TailSorted(le, a);
      TailSorted(le, b);
      SortedUnique(le, a[1..], b[1..]);
    }
  }

  lemma TailSorted<T>(le: (T, T) -> bool, s: seq<T>)
    requires s != [] && SortedBy(le, s)
    ensures SortedBy(le, s[1..])
    ensures Antisymmetric(le, s) ==> Antisymmetric(le, s[1..])
  {
    forall i, j | 0 <= i < j < |s| - 1
      ensures le(s[1..][i], s[1..][j])
    {
      assert le(s[i + 1], s[j + 1]);
    }
  }

  // ---- Selections --------------------------------------------------------

  // part is what whole has at the indices in idx, left to right, and these
  // are the ones to keep.
  ghost predicate PicksAt<T>(whole: seq<T>, part: seq<T>, keep: set<nat>, idx: seq<nat>) {
    && |idx| == |part| && (forall j :: 0 <= j < |idx| ==> idx[j] < |whole| && part[j] == whole[idx[j]])
    && (forall j, k :: 0 <= j < k < |idx| ==> idx[j] < idx[k])
    && forall i: nat :: i in keep <==> i in idx
  }

  // part is exactly the entries of whole at these indices, in their order.
  ghost predicate Selects<T>(whole: seq<T>, part: seq<T>, keep: set<nat>) {
    exists idx :: PicksAt(whole, part, keep, idx)
  }

  lemma SelectsNone<T>()
    ensures Selects<T>([], [], {})
  {
    assert PicksAt<T>([], [], {}, []);
  }

  lemma SelectsAppend<T>(whole: seq<T>, part: seq<T>, keep: set<nat>, x: T, taken: bool, more: set<nat>)
    requires Selects(whole, part, keep)
    requires more == if taken then keep + {|whole|} else keep
    ensures Selects(whole + [x], if taken then part + [x] else part, more)
  {
    var idx :| PicksAt(whole, part, keep, idx);
    if taken {
      var last: seq<nat> := [|whole|];
      assert PicksAt(whole + [x], part + [x], more, idx + last);
    } else {
      assert PicksAt(whole + [x], part, more, idx);
    }
  }

  // Every index one higher.
  function Shifted(idx: seq<nat>): (up: seq<nat>)
    ensures |up| == |idx| && forall j :: 0 <= j < |idx| ==> up[j] == idx[j] + 1
  {
    seq(|idx|, j requires 0 <= j < |idx| => idx[j] + 1)
  }

  lemma ShiftedMembers(idx: seq<nat>)
    ensures forall i: nat :: i in Shifted(idx) <==> i > 0 && i - 1 in idx
  {
    forall i: nat
      ensures i in Shifted(idx) <==> i > 0 && i - 1 in idx
    {
      if i > 0 && i - 1 in idx {
        var j :| 0 <= j < |idx| && idx[j] == i - 1;
        assert Shifted(idx)[j] == i;
      }
    }
  }

  lemma PicksShifted<T>(whole: seq<T>, part: seq<T>, keep: set<nat>, idx: seq<nat>, x: T, more: set<nat>)
    requires PicksAt(whole, part, keep, idx)
    requires forall i: nat :: i in more <==> i > 0 && i - 1 in keep
    ensures PicksAt([x] + whole, part, more, Shifted(idx))
  {
    ShiftedMembers(idx);
  }

  lemma PicksFirst<T>(whole: seq<T>, part: seq<T>, keep: set<nat>, idx: seq<nat>, more: set<nat>)
    requires whole != [] && PicksAt(whole, part, keep, idx) && (idx != [] ==> idx[0] > 0)
    requires more == keep + {0}
    ensures Selects(whole, [whole[0]] + part, more)
  {
    var all: seq<nat> := [0] + idx;
    assert forall i: nat :: i in all <==> i == 0 || i in idx;
    assert PicksAt(whole, [whole[0]] + part, more, all);
  }

  lemma SelectsCons<T>(whole: seq<T>, part: seq<T>, keep: set<nat>, x: T, taken: bool, more: set<nat>)
    requires Selects(whole, part, keep)
    requires forall i: nat :: i in more <==> if i == 0 then taken else i - 1 in keep
    ensures Selects([x] + whole, if taken then [x] + part else part, more)
  {
    var idx :| PicksAt(whole, part, keep, idx);
    PicksShifted(whole, part, keep, idx, x, more - {0});
    if taken {
      PicksFirst([x] + whole, part, more - {0}, Shifted(idx), more);
    } else {
      assert more - {0} == more;
    }
  }

  // A selection is determined by what it keeps.
  lemma SelectsUnique<T>(whole: seq<T>, a: seq<T>, b: seq<T>, keep: set<nat>)
    requires Selects(whole, a, keep) && Selects(whole, b, keep)
    ensures a == b
  {
    var i :| PicksAt(whole, a, keep, i);
    var j :| PicksAt(whole, b, keep, j);
    RisingUnique(i, j);
  }

  lemma {:induction false} RisingUnique(a: seq<nat>, b: seq<nat>)
    requires forall j, k :: 0 <= j < k < |a| ==> a[j] < a[k]
    requires forall j, k :: 0 <= j < k < |b| ==> b[j] < b[k]
    requires forall i: nat :: i in a <==> i in b
    ensures a == b
  {
    assert (b != [] ==> b[0] in a) && (a != [] ==> a[0] in b);
    if a != [] {
      var k :| 0 <= k < |b| && b[k] == a[0];
      var m :| 0 <= m < |a| && a[m] == b[0];
      assert a[0] == b[0];
      assert a == [a[0]] + a[1..] && b == [b[0]] + b[1..];
      assert a[0] !in a[1..] && b[0] !in b[1..];
      forall i: nat
        ensures i in a[1..] <==> i in b[1..]
      {
        assert i in a <==> i == a[0] || i in a[1..];
        assert i in b <==> i == b[0] || i in b[1..];
      }
      RisingUnique(a[1..], b[1..]);
    }
  }
}
