// What overlap resolution keeps and drops, for every outcome of its sort.
module Overlap {
  import opened Sequences
  import opened Edits
  import opened Splicing

  // ---- The survivors form a layout ---------------------------------------

  lemma {:induction false} KeptFromPlaced(sorted: seq<Edit>, lastEnd: int, n: nat)
    requires lastEnd <= n && forall e :: e in sorted ==> e.InBounds(n)
    ensures Placed(KeptFrom(sorted, lastEnd), lastEnd, n)
  {
    if sorted != [] {
      var e := sorted[0];
      assert e in sorted && forall x :: x in sorted[1..] ==> x in sorted;
      KeptFromPlaced(sorted[1..], if e.start < lastEnd then lastEnd else e.end, n);
    }
  }

  lemma KeptPlaced(sorted: seq<Edit>, n: nat)
    requires forall e :: e in sorted ==> e.InBounds(n)
    ensures Placed(Kept(sorted), 0, n)
  {
    if sorted != [] {
      assert sorted[0] in sorted && forall x :: x in sorted[1..] ==> x in sorted;
      KeptFromPlaced(sorted[1..], sorted[0].end, n);
    }
  }

  // ---- Every edit is kept or dropped, once -------------------------------

  lemma {:induction false} KeptFromPartition(sorted: seq<Edit>, lastEnd: int)
    ensures multiset(KeptFrom(sorted, lastEnd)) + multiset(DroppedFrom(sorted, lastEnd)) == multiset(sorted)
  {
    if sorted != [] {
      var e := sorted[0];
      KeptFromPartition(sorted[1..], if e.start < lastEnd then lastEnd else e.end);
      assert sorted == [e] + sorted[1..];
    }
  }

  lemma KeptPartition(sorted: seq<Edit>)
    ensures multiset(Kept(sorted)) + multiset(Dropped(sorted)) == multiset(sorted)
  {
    if sorted != [] {
      KeptFromPartition(sorted[1..], sorted[0].end);
      assert sorted == [sorted[0]] + sorted[1..];
    }
  }

  // ---- A dropped edit starts inside a survivor ---------------------------

  predicate StartsInside(d: Edit, k: Edit) { k.start <= d.start < k.end }

  // k comes before d in sorted order, and d starts inside it.
  predicate Blocks(k: Edit, d: Edit) { StartsInside(d, k) && !RangeLess(d, k) }

  lemma {:induction false} DroppedFromStartsInside(last: Edit, sorted: seq<Edit>, d: Edit)
    requires Ascending([last] + sorted) && d in DroppedFrom(sorted, last.end)
    ensures exists k :: k in [last] + KeptFrom(sorted, last.end) && Blocks(k, d)
    decreases |sorted|
  {
    var e, rest := sorted[0], sorted[1..];
    AscendingTails(last, sorted);
    if e.start < last.end {
      if d == e {
        assert !RangeLess(([last] + sorted)[1], ([last] + sorted)[0]);
        assert Blocks(last, d);
      } else {
        DroppedFromStartsInside(last, rest, d);
      }
    } else {
      DroppedFromStartsInside(e, rest, d);
      var k :| k in [e] + KeptFrom(rest, e.end) && Blocks(k, d);
      assert k in [last] + KeptFrom(sorted, last.end);
    }
  }

  lemma AscendingTails(last: Edit, sorted: seq<Edit>)
    requires Ascending([last] + sorted) && sorted != []
    ensures Ascending([last] + sorted[1..]) && Ascending([sorted[0]] + sorted[1..])
  {
    var all := [last] + sorted;
    forall i, j | 0 <= i < j < |sorted|
      ensures !RangeLess(([last] + sorted[1..])[j], ([last] + sorted[1..])[i])
    {
      assert ([last] + sorted[1..])[j] == all[j + 1];
      assert ([last] + sorted[1..])[i] == all[if i == 0 then 0 else i + 1];
    }
    forall i, j | 0 <= i < j < |sorted|
      ensures !RangeLess(([sorted[0]] + sorted[1..])[j], ([sorted[0]] + sorted[1..])[i])
    {
      assert ([sorted[0]] + sorted[1..])[j] == all[j + 1] && ([sorted[0]] + sorted[1..])[i] == all[i + 1];
    }
  }

  // Maximality: no dropped edit could have been added to the survivors.
  lemma DroppedStartsInside(sorted: seq<Edit>, d: Edit)
    requires Ascending(sorted) && d in Dropped(sorted)
    ensures exists k :: k in Kept(sorted) && StartsInside(d, k)
  {
    DroppedBlocked(sorted, d);
  }

  lemma DroppedBlocked(sorted: seq<Edit>, d: Edit)
    requires Ascending(sorted) && d in Dropped(sorted)
    ensures exists k :: k in Kept(sorted) && Blocks(k, d)
  {
    assert sorted == [sorted[0]] + sorted[1..];
    DroppedFromStartsInside(sorted[0], sorted[1..], d);
  }

  lemma Everywhere(edits: seq<Edit>, sorted: seq<Edit>)
    requires SortOutcome(edits, sorted)
    ensures forall e :: e in edits <==> e in Kept(sorted) || e in Dropped(sorted)
    ensures forall e :: multiset(Kept(sorted))[e] + multiset(Dropped(sorted))[e] == multiset(edits)[e]
  {
    SameMembers(edits, sorted);
    KeptPartition(sorted);
    forall e
      ensures e in edits <==> e in Kept(sorted) || e in Dropped(sorted)
    {
      assert e in sorted <==> e in multiset(Kept(sorted)) + multiset(Dropped(sorted));
    }
  }

  // A non-empty edit survives exactly when no other survivor covers its start.
  lemma SurvivesIff(edits: seq<Edit>, sorted: seq<Edit>, e: Edit, n: nat)
    requires SortOutcome(edits, sorted) && e in edits && e.start < e.end
    requires forall x :: x in edits ==> x.InBounds(n)
    ensures e in Kept(sorted) <==> forall k :: k in Kept(sorted) && k != e ==> !StartsInside(e, k)
  {
    SameMembers(edits, sorted);
    Everywhere(edits, sorted);
    if e in Kept(sorted) {
      forall k | k in Kept(sorted) && k != e
        ensures !StartsInside(e, k)
      {
        SurvivorsApart(sorted, n, k, e);
      }
    } else {
      DroppedStartsInside(sorted, e);
    }
  }

  lemma SurvivorsApart(sorted: seq<Edit>, n: nat, k: Edit, e: Edit)
    requires forall x :: x in sorted ==> x.InBounds(n)
    requires k in Kept(sorted) && e in Kept(sorted) && k != e
    ensures Apart(k, e)
  {
    var i :| 0 <= i < |Kept(sorted)| && Kept(sorted)[i] == k;
    var j :| 0 <= j < |Kept(sorted)| && Kept(sorted)[j] == e;
    KeptApart(sorted, n, if i < j then i else j, if i < j then j else i);
  }

  // An insertion point strictly inside the range.
  predicate Encloses(k: Edit, e: Edit) { k.start < e.start < k.end }

  // Insertions survive with all their copies, ties and identical ones
  // included, exactly unless some survivor encloses them.
  lemma InsertionsSurviveIff(edits: seq<Edit>, sorted: seq<Edit>, e: Edit, n: nat)
    requires SortOutcome(edits, sorted) && e.IsInsertion()
    requires forall x :: x in edits ==> x.InBounds(n)
    ensures multiset(Kept(sorted))[e]
      == if exists k :: k in Kept(sorted) && Encloses(k, e) then 0 else multiset(edits)[e]
  {
    SameMembers(edits, sorted);
    Everywhere(edits, sorted);
    if k :| k in Kept(sorted) && Encloses(k, e) {
      if e in Kept(sorted) {
        SurvivorsApart(sorted, n, k, e);
      }
    } else if e in Dropped(sorted) {
      DroppedBlocked(sorted, e);
    }
  }

  // Where some non-empty edit starts, so does a surviving one, unless a
  // survivor runs across.
  lemma StartSurvives(edits: seq<Edit>, sorted: seq<Edit>, x: Edit)
    requires SortOutcome(edits, sorted) && x in edits && x.start < x.end
    requires forall k :: k in Kept(sorted) ==> !Encloses(k, x)
    ensures exists k :: k in Kept(sorted) && k.start == x.start < k.end
  {
    Everywhere(edits, sorted);
    if x !in Kept(sorted) {
      DroppedStartsInside(sorted, x);
      var k :| k in Kept(sorted) && StartsInside(x, k);
      assert !Encloses(k, x);
    }
  }

  predicate Overlapping(a: Edit, b: Edit) { a.start < b.end && b.start < a.end }

  // In particular one that no other collected edit overlaps is never dropped.
  lemma LoneSurvives(edits: seq<Edit>, sorted: seq<Edit>, e: Edit)
    requires SortOutcome(edits, sorted) && e in edits && e.start < e.end
    requires forall x :: x in edits && x != e ==> !Overlapping(x, e)
    ensures e in Kept(sorted)
  {
    Everywhere(edits, sorted);
    if e !in Kept(sorted) {
      DroppedStartsInside(sorted, e);
    }
  }

  // ---- The kept ranges do not depend on the input order ------------------

  type Range = (int, int)

  function RangeOf(e: Edit): Range { (e.start, e.end) }

  function Ranges(edits: seq<Edit>): seq<Range> { MapSeq(RangeOf, edits) }

  function KeptRanges(sorted: seq<Range>, lastEnd: int): seq<Range> {
    if sorted == [] then []
    else if sorted[0].0 < lastEnd then KeptRanges(sorted[1..], lastEnd)
    else [sorted[0]] + KeptRanges(sorted[1..], sorted[0].1)
  }

  lemma {:induction false} KeptFromRanges(sorted: seq<Edit>, lastEnd: int)
    ensures Ranges(KeptFrom(sorted, lastEnd)) == KeptRanges(Ranges(sorted), lastEnd)
  {
    if sorted != [] {
      var e := sorted[0];
      assert Ranges(sorted)[1..] == Ranges(sorted[1..]);
      if e.start < lastEnd {
        KeptFromRanges(sorted[1..], lastEnd);
      } else {
        KeptFromRanges(sorted[1..], e.end);
        assert Ranges([e] + KeptFrom(sorted[1..], e.end)) == [RangeOf(e)] + Ranges(KeptFrom(sorted[1..], e.end));
      }
    }
  }

  lemma SortedRangesUnique(a: seq<Edit>, b: seq<Edit>)
    requires multiset(a) == multiset(b) && Ascending(a) && Ascending(b)
    ensures Ranges(a) == Ranges(b)
  {
    MapMultiset(RangeOf, a, b);
    var le := (x: Range, y: Range) => x.0 < y.0 || (x.0 == y.0 && x.1 <= y.1);
    RangesSorted(a);
    RangesSorted(b);
    SortedUnique(le, Ranges(a), Ranges(b));
  }

  lemma RangesSorted(a: seq<Edit>)
    requires Ascending(a)
    ensures SortedBy((x: Range, y: Range) => x.0 < y.0 || (x.0 == y.0 && x.1 <= y.1), Ranges(a))
  {
    forall i, j | 0 <= i < j < |a|
      ensures var x, y := Ranges(a)[i], Ranges(a)[j]; x.0 < y.0 || (x.0 == y.0 && x.1 <= y.1)
    {
      assert !RangeLess(a[j], a[i]);
    }
  }

  // collectEdits is fed from Go maps: whatever order the edits arrive in and
  // however the sort breaks ties, the same ranges survive.
  lemma KeptRangesCanonical(edits: seq<Edit>, other: seq<Edit>, sorted: seq<Edit>, sorted': seq<Edit>)
    requires multiset(edits) == multiset(other)
    requires SortOutcome(edits, sorted) && SortOutcome(other, sorted')
    ensures Ranges(Kept(sorted)) == Ranges(Kept(sorted'))
  {
    SortedRangesUnique(sorted, sorted');
    SameMembers(sorted, sorted');
    if sorted != [] {
      assert Ranges(sorted)[0] == Ranges(sorted')[0];
      assert Ranges(sorted[1..]) == Ranges(sorted)[1..] == Ranges(sorted')[1..] == Ranges(sorted'[1..]);
      KeptFromRanges(sorted[1..], sorted[0].end);
      KeptFromRanges(sorted'[1..], sorted'[0].end);
      KeptRangesHead(sorted);
      KeptRangesHead(sorted');
    }
  }

  lemma KeptRangesHead(sorted: seq<Edit>)
    requires sorted != []
    ensures Ranges(Kept(sorted)) == [RangeOf(sorted[0])] + Ranges(KeptFrom(sorted[1..], sorted[0].end))
  {
  }

  // The survivors themselves are determined once edits of one range agree.
  lemma KeptCanonical(edits: seq<Edit>, other: seq<Edit>, sorted: seq<Edit>, sorted': seq<Edit>)
    requires multiset(edits) == multiset(other)
    requires SortOutcome(edits, sorted) && SortOutcome(other, sorted')
    requires forall x, y :: x in edits && y in edits && RangeOf(x) == RangeOf(y) ==> x == y
    ensures Kept(sorted) == Kept(sorted')
  {
    SameMembers(edits, sorted);
    forall i, j | 0 <= i < |sorted| && 0 <= j < |sorted| && !RangeLess(sorted[j], sorted[i]) &&
      !RangeLess(sorted[i], sorted[j])
      ensures sorted[i] == sorted[j]
    {
      assert sorted[i] in edits && sorted[j] in edits;
    }
    SortedUnique((x: Edit, y: Edit) => !RangeLess(y, x), sorted, sorted');
  }

  // Pairwise non-overlap, spelled out on the survivors.
  lemma KeptApart(sorted: seq<Edit>, n: nat, i: nat, j: nat)
    requires forall e :: e in sorted ==> e.InBounds(n)
    requires i < j < |Kept(sorted)|
    ensures Kept(sorted)[i].end <= Kept(sorted)[j].start
  {
    KeptPlaced(sorted, n);
    PlacedOrdered(Kept(sorted), 0, n, i, j);
  }
}
