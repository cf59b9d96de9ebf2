// Where one edit's text ends up whatever happens elsewhere in the file: only
// survivors tied with that very edit can spoil it.
module Landing {
  import opened Sequences
  import opened Edits
  import opened Splicing
  import opened Overlap

  // How far these edits move what lies behind them.
  function Moved(edits: seq<Edit>): int {
    if edits == [] then 0 else |edits[0].text| - edits[0].Width() + Moved(edits[1..])
  }

  // Edits to the right of the first m bytes leave those alone.
  lemma {:induction false} PrefixKept(buf: Text, order: seq<Edit>, m: nat)
    requires m <= |buf| && forall x :: x in order ==> m <= x.start
    ensures m <= |Splice(buf, order)| && Splice(buf, order)[..m] == buf[..m]
    decreases |order|
  {
    if order != [] {
      var next := SpliceOne(buf, order[0]);
      assert order[0] in order;
      assert m <= |next| && next[..m] == buf[..m];
      PrefixKept(next, order[1..], m);
    }
  }

  // Every edit lies within the first n bytes, and none overlaps another.
  ghost predicate Leftward(order: seq<Edit>, n: nat) {
    && Descending(order) && Pairwise(Apart, order)
    && forall x :: x in order ==> x.InBounds(n)
  }

  lemma LeftwardNext(p: Text, order: seq<Edit>)
    requires order != [] && Leftward(order, |p|)
    ensures Leftward(order[1..], |SpliceOne(p, order[0])|)
    ensures |SpliceOne(p, order[0])| == |p| + |order[0].text| - order[0].Width()
  {
    var e, rest := order[0], order[1..];
    assert e in order;
    var next := SpliceOne(p, e);
    forall x | x in rest
      ensures x.InBounds(|next|)
    {
      var i :| 0 <= i < |rest| && rest[i] == x;
      assert order[i + 1] == x && x in order;
      assert !StartGreater(order[i + 1], order[0]);
      assert Apart(order[0], order[i + 1]);
    }
    forall i, j | 0 <= i < |rest| && 0 <= j < |rest| && i != j
      ensures Apart(rest[i], rest[j])
    {
      assert Apart(order[i + 1], order[j + 1]);
    }
    forall i, j | 0 <= i < j < |rest|
      ensures !StartGreater(rest[j], rest[i])
    {
      assert !StartGreater(order[j + 1], order[i + 1]);
    }
  }

  // Edits to the left of a text only move it, ties among them or not.
  lemma {:induction false} TailMoves(p: Text, tail: Text, order: seq<Edit>)
    requires Leftward(order, |p|)
    ensures Splice(p + tail, order) == Splice(p, order) + tail
    ensures |Splice(p, order)| == |p| + Moved(order)
    decreases |order|
  {
    if order != [] {
      var e := order[0];
      assert e in order;
      LeftwardNext(p, order);
      SpliceOneFrame(p, tail, e);
      TailMoves(SpliceOne(p, e), tail, order[1..]);
    }
  }

  lemma SpliceOneFrame(p: Text, tail: Text, e: Edit)
    requires e.InBounds(|p|)
    ensures SpliceOne(p + tail, e) == SpliceOne(p, e) + tail
  {
    assert p + tail == p[..e.start] + p[e.start..e.end] + (p[e.end..] + tail);
    SpliceOneParts(p[..e.start], p[e.start..e.end], p[e.end..] + tail, e);
    Associate(p[..e.start] + e.text, p[e.end..], tail);
  }

  // Some copy of the edit has its text where its range stood, moved by the
  // edits that are spliced after it.
  ghost predicate Lands(src: Text, order: seq<Edit>, e: Edit) {
    exists i :: 0 <= i < |order| && LandsAt(src, order, e, i)
  }

  predicate LandsAt(src: Text, order: seq<Edit>, e: Edit, i: nat)
    requires i < |order|
  {
    order[i] == e && Reads(Splice(src, order), e.start + Moved(order[i + 1..]), e.text)
  }

  ghost predicate TiedWith(kept: seq<Edit>, e: Edit) {
    exists x :: x in kept && MixedTie(x, e)
  }

  // Whatever the sorts do and whatever is tied elsewhere, a survivor that is
  // in no mixed tie itself lands.
  lemma UntiedLands(src: Text, kept: seq<Edit>, order: seq<Edit>, e: Edit)
    requires Placed(kept, 0, |src|) && SpliceOrder(kept, order)
    requires e in kept && !TiedWith(kept, e)
    ensures Lands(src, order, e)
  {
    SameMembers(kept, order);
    PlacedWithin(kept, 0, |src|);
    OrderApart(kept, order, |src|);
    var i :| 0 <= i < |order| && order[i] == e;
    SplitBeside(kept, order, |src|, i);
    LeftOf(order, i, e.start);
    SpliceAround(src, order[..i], e, order[i + 1..]);
    assert order == order[..i] + [e] + order[i + 1..];
    assert LandsAt(src, order, e, i);
  }

  // What is spliced before an untied survivor lies to its right, and what is
  // spliced after it to its left.
  lemma SplitBeside(kept: seq<Edit>, order: seq<Edit>, n: nat, i: nat)
    requires SpliceOrder(kept, order) && Pairwise(Apart, order) && i < |order|
    requires forall x :: x in kept ==> x.InBounds(n)
    requires !TiedWith(kept, order[i])
    ensures order[i].InBounds(n)
    ensures forall x :: x in order[..i] ==> order[i].end <= x.start
    ensures forall x :: x in order[i + 1..] ==> x.InBounds(order[i].start)
  {
    SameMembers(kept, order);
    assert order[i] in kept;
    forall j | 0 <= j < |order|
      ensures !MixedTie(order[j], order[i])
    {
      assert order[j] in kept;
    }
    forall j | 0 <= j < i
      ensures order[i].end <= order[j].start
    {
      Beside(kept, order, n, j, i);
    }
    forall j | i < j < |order|
      ensures order[j].InBounds(order[i].start)
    {
      Beside(kept, order, n, i, j);
    }
  }

  // Of two survivors not tied, the one spliced later lies to the left.
  lemma Beside(kept: seq<Edit>, order: seq<Edit>, n: nat, i: nat, j: nat)
    requires SpliceOrder(kept, order) && Pairwise(Apart, order) && i < j < |order|
    requires forall x :: x in kept ==> x.InBounds(n)
    requires !MixedTie(order[i], order[j])
    ensures order[j].InBounds(n) && order[j].end <= order[i].start
  {
    SameMembers(kept, order);
    assert order[i] in kept && order[j] in kept;
    assert !StartGreater(order[j], order[i]) && Apart(order[i], order[j]);
  }

  lemma LeftOf(order: seq<Edit>, i: nat, n: nat)
    requires i < |order| && Descending(order) && Pairwise(Apart, order)
    requires forall x :: x in order[i + 1..] ==> x.InBounds(n)
    ensures Leftward(order[i + 1..], n)
  {
    var b := order[i + 1..];
    forall j, k | 0 <= j < |b| && 0 <= k < |b| && j != k
      ensures Apart(b[j], b[k])
    {
      assert Apart(order[i + 1 + j], order[i + 1 + k]);
    }
    forall j, k | 0 <= j < k < |b|
      ensures !StartGreater(b[k], b[j])
    {
      assert !StartGreater(order[i + 1 + k], order[i + 1 + j]);
    }
  }

  lemma OrderApart(kept: seq<Edit>, order: seq<Edit>, n: nat)
    requires Placed(kept, 0, n) && SpliceOrder(kept, order)
    ensures Pairwise(Apart, order)
  {
    forall i, j | 0 <= i < |kept| && 0 <= j < |kept| && i != j
      ensures Apart(kept[i], kept[j])
    {
      PlacedOrdered(kept, 0, n, if i < j then i else j, if i < j then j else i);
    }
    PairwisePermutation(Apart, kept, order);
  }

  lemma SpliceAround(src: Text, a: seq<Edit>, e: Edit, b: seq<Edit>)
    requires e.InBounds(|src|) && forall x :: x in a ==> e.end <= x.start
    requires Leftward(b, e.start)
    ensures Reads(Splice(src, a + [e] + b), e.start + Moved(b), e.text)
  {
    var behind := Splice(src, a);
    PrefixKept(src, a, e.end);
    var p, gone, tail := src[..e.start], src[e.start..e.end], behind[e.end..];
    assert behind == p + gone + tail by {
      assert behind == behind[..e.end] + tail;
      assert src[..e.end] == p + gone;
    }
    SpliceAppend(src, a + [e], b);
    SpliceAppend(src, a, [e]);
    SpliceSingle(behind, e);
    SpliceOneParts(p, gone, tail, e);
    Associate(p, e.text, tail);
    TailMoves(p, e.text + tail, b);
    Associate(Splice(p, b), e.text, tail);
    ReadsInFront(Splice(p, b), e.text, tail);
  }

  // ---- Insertions --------------------------------------------------------

  predicate StartsNonEmpty(edits: seq<Edit>, at: int) {
    exists i :: 0 <= i < |edits| && edits[i].start == at < edits[i].end
  }

  // For every source of n bytes and every splice order the edit lands.
  ghost predicate AlwaysLands(kept: seq<Edit>, e: Edit, n: nat) {
    forall src: Text, order :: |src| == n && SpliceOrder(kept, order) ==> Lands(src, order, e)
  }

  // An insertion that no collected edit encloses survives. It is in a mixed
  // tie exactly when some collected non-empty edit starts at it; then some
  // outcome of the sort is no substitution of the survivors, and otherwise it
  // lands in all of them.
  lemma InsertionTieIff(edits: seq<Edit>, sorted: seq<Edit>, a: Edit, n: nat)
    requires SortOutcome(edits, sorted) && a in edits && a.IsInsertion()
    requires forall x :: x in edits ==> x.InBounds(n) && !Encloses(x, a)
    ensures a in Kept(sorted)
    ensures TiedWith(Kept(sorted), a) <==> StartsNonEmpty(edits, a.start)
    ensures AllProper(edits) && StartsNonEmpty(edits, a.start) ==> !EveryOutcomeFaithful(Kept(sorted), n)
    ensures !StartsNonEmpty(edits, a.start) ==> AlwaysLands(Kept(sorted), a, n)
  {
    Everywhere(edits, sorted);
    SameMembers(edits, sorted);
    InsertionsSurviveIff(edits, sorted, a, n);
    KeptPlaced(sorted, n);
    TiedByStart(edits, sorted, a);
    if StartsNonEmpty(edits, a.start) {
      if AllProper(edits) {
        TieIsUnfaithful(Kept(sorted), a, n);
      }
    } else {
      forall src: Text, order | |src| == n && SpliceOrder(Kept(sorted), order)
        ensures Lands(src, order, a)
      {
        UntiedLands(src, Kept(sorted), order, a);
      }
    }
  }

  lemma TiedByStart(edits: seq<Edit>, sorted: seq<Edit>, a: Edit)
    requires SortOutcome(edits, sorted) && a.IsInsertion()
    requires forall x :: x in edits ==> x.start <= x.end && !Encloses(x, a)
    ensures TiedWith(Kept(sorted), a) <==> StartsNonEmpty(edits, a.start)
  {
    Everywhere(edits, sorted);
    if i :| 0 <= i < |edits| && edits[i].start == a.start < edits[i].end {
      StartSurvives(edits, sorted, edits[i]);
      var k :| k in Kept(sorted) && k.start == a.start < k.end;
      assert MixedTie(k, a);
    }
    if x :| x in Kept(sorted) && MixedTie(x, a) {
      assert x in edits;
    }
  }

  lemma TieIsUnfaithful(kept: seq<Edit>, a: Edit, n: nat)
    requires Placed(kept, 0, n) && AllProper(kept) && a in kept && TiedWith(kept, a)
    ensures !EveryOutcomeFaithful(kept, n)
  {
    var x :| x in kept && MixedTie(x, a);
    var i :| 0 <= i < |kept| && kept[i] == x;
    var j :| 0 <= j < |kept| && kept[j] == a;
    assert MixedTie(kept[i], kept[j]);
    ApplyIsFaithfulIff(kept, n);
  }
}
