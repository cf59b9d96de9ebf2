// Right-to-left splicing in place refines simultaneous substitution on the
// original bytes, and exactly when it does so for every outcome of the sort.
module Splicing {
  import opened Sequences
  import opened Edits

  // ---- One splice order: placed edits ------------------------------------

  lemma {:induction false} SpliceAppend(buf: Text, a: seq<Edit>, b: seq<Edit>)
    ensures Splice(buf, a + b) == Splice(Splice(buf, a), b)
    ensures GuardNeverFires(buf, a + b) == (GuardNeverFires(buf, a) && GuardNeverFires(Splice(buf, a), b))
    decreases |a|
  {
    if a == [] {
      assert a + b == b;
    } else {
      assert (a + b)[1..] == a[1..] + b;
      SpliceAppend(SpliceOne(buf, a[0]), a[1..], b);
    }
  }

  // Splicing placed edits from the last to the first leaves everything before
  // `from` alone and substitutes in the rest; no edit is skipped.
  lemma {:induction false} SpliceIsSubstitute(src: Text, from: nat, placed: seq<Edit>)
    requires Placed(placed, from, |src|)
    ensures from <= |src|
    ensures Splice(src, Reverse(placed)) == src[..from] + Substitute(src, from, placed)
    ensures GuardNeverFires(src, Reverse(placed))
    decreases |placed|
  {
    PlacedBounds(placed, from, |src|);
    if placed == [] {
      assert src == src[..from] + src[from..];
    } else {
      var e, rest := placed[0], placed[1..];
      SpliceIsSubstitute(src, e.end, rest);
      SpliceAppend(src, Reverse(rest), [e]);
      SpliceSingle(src[..e.end] + Substitute(src, e.end, rest), e);
      SpliceHead(src, from, e, Substitute(src, e.end, rest));
    }
  }

  lemma SpliceSingle(buf: Text, e: Edit)
    ensures Splice(buf, [e]) == SpliceOne(buf, e)
    ensures GuardNeverFires(buf, [e]) <==> e.InBounds(|buf|)
  {
    assert [e][1..] == [];
  }

  lemma SpliceHead(src: Text, from: nat, e: Edit, tail: Text)
    requires from <= e.start <= e.end <= |src|
    ensures SpliceOne(src[..e.end] + tail, e) == src[..from] + (src[from..e.start] + e.text + tail)
  {
    assert src[..e.end] + tail == src[..e.start] + src[e.start..e.end] + tail;
    SpliceOneParts(src[..e.start], src[e.start..e.end], tail, e);
    assert src[..e.start] == src[..from] + src[from..e.start];
    Associate(src[..from], src[from..e.start], e.text);
    Associate(src[..from], src[from..e.start] + e.text, tail);
  }

  lemma SpliceOneParts(a: Text, b: Text, c: Text, e: Edit)
    requires e.start == |a| && e.end == |a| + |b|
    ensures SpliceOne(a + b + c, e) == a + e.text + c
  {
    assert (a + b + c)[..e.start] == a;
    assert (a + b + c)[e.end..] == c;
  }

  // ---- Where everything ends up ------------------------------------------

  // How far the first k edits have moved what follows them.
  function Shift(edits: seq<Edit>, k: nat): int
    requires k <= |edits|
  {
    if k == 0 then 0 else |edits[0].text| - edits[0].Width() + Shift(edits[1..], k - 1)
  }

  lemma {:induction false} SubstituteLength(src: Text, from: nat, edits: seq<Edit>)
    requires Placed(edits, from, |src|)
    ensures from <= |src|
    ensures |Substitute(src, from, edits)| == |src| - from + Shift(edits, |edits|)
    decreases |edits|
  {
    PlacedBounds(edits, from, |src|);
    if edits != [] {
      SubstituteCons(src, from, edits);
      SubstituteLength(src, edits[0].end, edits[1..]);
    }
  }

  // Everything between edit k-1 and edit k, ends of the source included.
  function GapStart(edits: seq<Edit>, from: int, k: nat): int
    requires k <= |edits|
  {
    if k == 0 then from else edits[k - 1].end
  }

  function GapEnd(edits: seq<Edit>, n: int, k: nat): int
    requires k <= |edits|
  {
    if k == |edits| then n else edits[k].start
  }

  // The part of `out` that starts at `at` reads `piece`.
  predicate Reads(out: Text, at: int, piece: Text) {
    0 <= at && at + |piece| <= |out| && out[at..at + |piece|] == piece
  }

  lemma ReadsBehind(head: Text, tail: Text, at: int, piece: Text)
    requires Reads(tail, at, piece)
    ensures Reads(head + tail, |head| + at, piece)
  {
    assert (head + tail)[|head| + at..|head| + at + |piece|] == tail[at..at + |piece|];
  }

  lemma ReadsInFront(a: Text, piece: Text, b: Text)
    ensures Reads(a + piece + b, |a|, piece)
  {
    assert (a + piece + b)[|a|..|a| + |piece|] == piece;
  }

  lemma SubstituteCons(src: Text, from: nat, edits: seq<Edit>)
    requires Placed(edits, from, |src|) && edits != []
    ensures from <= edits[0].start <= edits[0].end <= |src| && Placed(edits[1..], edits[0].end, |src|)
    ensures Substitute(src, from, edits) == src[from..edits[0].start] + edits[0].text
      + Substitute(src, edits[0].end, edits[1..])
  {
    PlacedBounds(edits, from, |src|);
  }

  // The bytes of gap k are in the output, moved by the edits to their left.
  predicate GapReads(src: Text, from: nat, edits: seq<Edit>, k: nat, out: Text)
    requires k <= |edits|
  {
    && 0 <= GapStart(edits, from, k) <= GapEnd(edits, |src|, k) <= |src|
    && Reads(out, GapStart(edits, from, k) + Shift(edits, k) - from,
      src[GapStart(edits, from, k)..GapEnd(edits, |src|, k)])
  }

  lemma {:induction false} GapsSurvive(src: Text, from: nat, edits: seq<Edit>, k: nat)
    requires Placed(edits, from, |src|) && k <= |edits|
    ensures GapReads(src, from, edits, k, Substitute(src, from, edits))
    decreases |edits|
  {
    if k == 0 {
      FirstGap(src, from, edits);
    } else {
      SubstituteCons(src, from, edits);
      var e, tail := edits[0], Substitute(src, edits[0].end, edits[1..]);
      var head := src[from..e.start] + e.text;
      assert |head| == e.start - from + |e.text|;
      GapsSurvive(src, e.end, edits[1..], k - 1);
      GapMoves(src, from, edits, k, head, tail);
    }
  }

  lemma GapMoves(src: Text, from: nat, edits: seq<Edit>, k: nat, head: Text, tail: Text)
    requires 0 < k <= |edits| && 0 <= edits[0].end && |head| == edits[0].start - from + |edits[0].text|
    requires GapReads(src, edits[0].end, edits[1..], k - 1, tail)
    ensures GapReads(src, from, edits, k, head + tail)
  {
    GapOfTail(edits, from, |src|, k);
    ReadsBehind(head, tail, GapStart(edits, from, k) + Shift(edits[1..], k - 1) - edits[0].end,
      src[GapStart(edits, from, k)..GapEnd(edits, |src|, k)]);
  }

  lemma GapOfTail(edits: seq<Edit>, from: int, n: int, k: nat)
    requires 0 < k <= |edits|
    ensures GapStart(edits[1..], edits[0].end, k - 1) == GapStart(edits, from, k)
    ensures GapEnd(edits[1..], n, k - 1) == GapEnd(edits, n, k)
  {
  }

  lemma FirstGap(src: Text, from: nat, edits: seq<Edit>)
    requires Placed(edits, from, |src|)
    ensures GapReads(src, from, edits, 0, Substitute(src, from, edits))
  {
    FirstGapSurvives(src, from, edits);
  }

  lemma FirstGapSurvives(src: Text, from: nat, edits: seq<Edit>)
    requires Placed(edits, from, |src|)
    ensures from <= GapEnd(edits, |src|, 0) <= |src|
    ensures Reads(Substitute(src, from, edits), 0, src[from..GapEnd(edits, |src|, 0)])
  {
    if edits == [] {
      assert src[from..|src|] == src[from..];
      ReadsInFront("", src[from..], "");
      assert "" + src[from..] + "" == src[from..];
    } else {
      SubstituteCons(src, from, edits);
      var gap, rest := src[from..edits[0].start], Substitute(src, edits[0].end, edits[1..]);
      Associate(gap, edits[0].text, rest);
      ReadsInFront("", gap, edits[0].text + rest);
      assert "" + gap == gap;
    }
  }

  // The text of edit k stands where its range stood, moved likewise.
  lemma {:induction false} TextsLand(src: Text, from: nat, edits: seq<Edit>, k: nat)
    requires Placed(edits, from, |src|) && k < |edits|
    ensures Reads(Substitute(src, from, edits), edits[k].start + Shift(edits, k) - from, edits[k].text)
    decreases |edits|
  {
    var e, rest := edits[0], edits[1..];
    SubstituteCons(src, from, edits);
    if k == 0 {
      ReadsInFront(src[from..e.start], e.text, Substitute(src, e.end, rest));
    } else {
      TextsLand(src, e.end, rest, k - 1);
      TextMoves(from, edits, k, src[from..e.start] + e.text, Substitute(src, e.end, rest));
    }
  }

  lemma TextMoves(from: nat, edits: seq<Edit>, k: nat, head: Text, tail: Text)
    requires 0 < k < |edits| && |head| == edits[0].start - from + |edits[0].text|
    requires Reads(tail, edits[1..][k - 1].start + Shift(edits[1..], k - 1) - edits[0].end, edits[1..][k - 1].text)
    ensures Reads(head + tail, edits[k].start + Shift(edits, k) - from, edits[k].text)
  {
    ReadsBehind(head, tail, edits[k].start + Shift(edits[1..], k - 1) - edits[0].end, edits[k].text);
  }

  // ---- Every outcome of the unstable sort --------------------------------

  predicate Apart(a: Edit, b: Edit) { a.end <= b.start || b.end <= a.start }

  // An insertion and a non-empty range that start at the same byte.
  predicate MixedTie(a: Edit, b: Edit) {
    a.start == b.start && a.IsInsertion() != b.IsInsertion()
  }

  ghost predicate HasMixedTie(kept: seq<Edit>) {
    exists i, j :: 0 <= i < |kept| && 0 <= j < |kept| && MixedTie(kept[i], kept[j])
  }

  predicate AllProper(edits: seq<Edit>) {
    forall e :: e in edits ==> e.Proper()
  }

  lemma {:induction false} PlacedOrdered(edits: seq<Edit>, from: int, n: int, i: nat, j: nat)
    requires Placed(edits, from, n) && i < j < |edits|
    ensures edits[i].end <= edits[j].start
  {
    PlacedWithin(edits[1..], edits[0].end, n);
    if i == 0 {
      assert edits[j] in edits[1..];
    } else {
      PlacedOrdered(edits[1..], edits[0].end, n, i - 1, j - 1);
    }
  }

  lemma {:induction false} OrderedPlaced(edits: seq<Edit>, from: int, n: int)
    requires from <= n
    requires forall i :: 0 <= i < |edits| ==> from <= edits[i].start <= edits[i].end <= n
    requires forall i :: 0 < i < |edits| ==> edits[i - 1].end <= edits[i].start
    ensures Placed(edits, from, n)
  {
    if edits != [] {
      var rest := edits[1..];
      forall i | 0 <= i < |rest|
        ensures edits[0].end <= rest[i].start <= rest[i].end <= n
      {
        assert rest[i] == edits[i + 1];
        StartsAfterFirst(edits, i + 1);
      }
      forall i | 0 < i < |rest|
        ensures rest[i - 1].end <= rest[i].start
      {
        assert rest[i - 1] == edits[i] && rest[i] == edits[i + 1];
      }
      OrderedPlaced(rest, edits[0].end, n);
    }
  }

  lemma {:induction false} StartsAfterFirst(edits: seq<Edit>, i: nat)
    requires 0 < i < |edits|
    requires forall k :: 0 <= k < |edits| ==> edits[k].start <= edits[k].end
    requires forall k :: 0 < k < |edits| ==> edits[k - 1].end <= edits[k].start
    ensures edits[0].end <= edits[i].start
  {
    if i > 1 {
      StartsAfterFirst(edits, i - 1);
    }
  }

  // Reading a splice order backwards gives a layout, unless an insertion is
  // tied with a non-empty range.
  lemma OrderIsPlaced(kept: seq<Edit>, order: seq<Edit>, n: nat)
    requires Placed(kept, 0, n) && !HasMixedTie(kept)
    requires SpliceOrder(kept, order)
    ensures multiset(Reverse(order)) == multiset(kept)
    ensures Placed(Reverse(order), 0, n)
  {
    var asc := Reverse(order);
    ReverseMultiset(order);
    SameMembers(kept, asc);
    PlacedWithin(kept, 0, n);
    forall i, j | 0 <= i < |kept| && 0 <= j < |kept| && i != j
      ensures Apart(kept[i], kept[j])
    {
      PlacedOrdered(kept, 0, n, if i < j then i else j, if i < j then j else i);
    }
    PairwisePermutation(Apart, kept, asc);
    forall i | 0 <= i < |asc|
      ensures 0 <= asc[i].start <= asc[i].end <= n
    {
      assert asc[i] in kept;
    }
    forall i | 0 < i < |asc|
      ensures asc[i - 1].end <= asc[i].start
    {
      assert asc[i - 1] in kept && asc[i] in kept;
      ReverseRises(order, i);
      ApartRises(kept, asc[i - 1], asc[i]);
    }
    OrderedPlaced(asc, 0, n);
  }

  lemma ReverseRises(order: seq<Edit>, i: nat)
    requires Descending(order) && 0 < i < |order|
    ensures Reverse(order)[i - 1].start <= Reverse(order)[i].start
  {
    ReverseIndex(order, i - 1);
    ReverseIndex(order, i);
    assert !StartGreater(order[|order| - i], order[|order| - 1 - i]);
  }

  lemma ApartRises(kept: seq<Edit>, p: Edit, q: Edit)
    requires p in kept && q in kept && !HasMixedTie(kept)
    requires Apart(p, q) && p.start <= p.end && q.start <= q.end && p.start <= q.start
    ensures p.end <= q.start
  {
    if q.end <= p.start {
      assert q.start == q.end == p.start;
      assert !MixedTie(p, q);
    }
  }

  // With no mixed tie, any sort outcome substitutes the survivors, tied
  // insertions in some order; with no ties at all there is just one result.
  lemma ApplyIsSubstitution(src: Text, kept: seq<Edit>, order: seq<Edit>)
    requires Placed(kept, 0, |src|) && !HasMixedTie(kept)
    requires SpliceOrder(kept, order)
    ensures multiset(Reverse(order)) == multiset(kept) && Placed(Reverse(order), 0, |src|)
    ensures Splice(src, order) == Substitute(src, 0, Reverse(order))
    ensures GuardNeverFires(src, order)
    ensures Distinct(MapSeq((e: Edit) => e.start, kept)) ==> Splice(src, order) == Substitute(src, 0, kept)
  {
    OrderIsPlaced(kept, order, |src|);
    ReverseTwice(order);
    SpliceIsSubstitute(src, 0, Reverse(order));
    assert src[..0] == "";
    if Distinct(MapSeq((e: Edit) => e.start, kept)) {
      DistinctStartsOneOrder(kept, Reverse(order), |src|);
    }
  }

  lemma DistinctStartsOneOrder(kept: seq<Edit>, asc: seq<Edit>, n: nat)
    requires Placed(kept, 0, n) && Placed(asc, 0, n) && multiset(kept) == multiset(asc)
    requires Distinct(MapSeq((e: Edit) => e.start, kept))
    ensures kept == asc
  {
    var starts := MapSeq((e: Edit) => e.start, kept);
    var le := (a: Edit, b: Edit) => a.start <= b.start;
    PlacedSorted(kept, 0, n);
    PlacedSorted(asc, 0, n);
    forall i, j | 0 <= i < |kept| && 0 <= j < |kept| && le(kept[i], kept[j]) && le(kept[j], kept[i])
      ensures kept[i] == kept[j]
    {
      assert starts[i] == starts[j];
    }
    SortedUnique(le, kept, asc);
  }

  lemma PlacedSorted(edits: seq<Edit>, from: int, n: int)
    requires Placed(edits, from, n)
    ensures SortedBy((a: Edit, b: Edit) => a.start <= b.start, edits)
  {
    PlacedWithin(edits, from, n);
    forall i, j | 0 <= i < j < |edits|
      ensures edits[i].start <= edits[j].start
    {
      PlacedOrdered(edits, from, n, i, j);
    }
  }

  // ---- And only then -----------------------------------------------------

  // Whatever the sort does with ties, there is one layout of the survivors
  // that every source of n bytes comes out as.
  ghost predicate EveryOutcomeFaithful(kept: seq<Edit>, n: nat) {
    forall order :: SpliceOrder(kept, order) ==> exists asc :: Faithful(kept, n, order, asc)
  }

  ghost predicate Faithful(kept: seq<Edit>, n: nat, order: seq<Edit>, asc: seq<Edit>) {
    && multiset(asc) == multiset(kept)
    && Placed(asc, 0, n)
    && forall src: Text :: |src| == n ==> Splice(src, order) == Substitute(src, 0, asc)
  }

  // Bytes under a replaced range do not show in a substitution.
  lemma {:induction false} SubstituteIgnores(src: Text, other: Text, from: nat, asc: seq<Edit>, k: nat, p: nat)
    requires |src| == |other| && Placed(asc, from, |src|) && k < |asc|
    requires asc[k].start <= p < asc[k].end
    requires forall i :: 0 <= i < |src| && i != p ==> src[i] == other[i]
    ensures Substitute(src, from, asc) == Substitute(other, from, asc)
    decreases |asc|
  {
    PlacedBounds(asc, from, |src|);
    if k == 0 {
      SubstituteSuffix(src, other, asc[0].end, asc[1..]);
    } else {
      PlacedOrdered(asc, from, |src|, 0, k);
      SubstituteIgnores(src, other, asc[0].end, asc[1..], k - 1, p);
    }
    assert src[from..asc[0].start] == other[from..asc[0].start];
  }

  lemma {:induction false} SubstituteSuffix(src: Text, other: Text, from: nat, asc: seq<Edit>)
    requires |src| == |other| && Placed(asc, from, |src|)
    requires forall i :: from <= i < |src| ==> src[i] == other[i]
    ensures Substitute(src, from, asc) == Substitute(other, from, asc)
    decreases |asc|
  {
    PlacedBounds(asc, from, |src|);
    if asc == [] {
      assert src[from..] == other[from..];
    } else {
      SubstituteSuffix(src, other, asc[0].end, asc[1..]);
      assert src[from..asc[0].start] == other[from..asc[0].start];
    }
  }

  // Edits that end by the end of `head` never touch what follows it.
  lemma {:induction false} SpliceFrame(head: Text, tail: Text, placed: seq<Edit>)
    requires Placed(placed, 0, |head|)
    ensures Splice(head + tail, Reverse(placed)) == Splice(head, Reverse(placed)) + tail
  {
    SpliceIsSubstitute(head, 0, placed);
    assert head[..0] + Substitute(head, 0, placed) == Substitute(head, 0, placed);
    PlacedWeaken(placed, 0, |head|, |head + tail|);
    SpliceIsSubstitute(head + tail, 0, placed);
    SubstituteFrame(head, tail, 0, placed);
    assert (head + tail)[..0] + Substitute(head + tail, 0, placed) == Substitute(head + tail, 0, placed);
  }

  lemma {:induction false} PlacedWeaken(placed: seq<Edit>, from: int, n: int, m: int)
    requires Placed(placed, from, n) && n <= m
    ensures Placed(placed, from, m)
  {
    if placed != [] {
      PlacedWeaken(placed[1..], placed[0].end, n, m);
    }
  }

  lemma {:induction false} SubstituteFrame(head: Text, tail: Text, from: nat, placed: seq<Edit>)
    requires Placed(placed, from, |head|) && Placed(placed, from, |head + tail|)
    ensures Substitute(head + tail, from, placed) == Substitute(head, from, placed) + tail
    decreases |placed|
  {
    PlacedBounds(placed, from, |head|);
    if placed == [] {
      assert (head + tail)[from..] == head[from..] + tail;
    } else {
      var e := placed[0];
      SubstituteFrame(head, tail, e.end, placed[1..]);
      assert (head + tail)[from..e.start] == head[from..e.start];
      Associate(head[from..e.start] + e.text, Substitute(head, e.end, placed[1..]), tail);
    }
  }

  // The splice order that meets a mixed tie insertion first.
  function BadOrder(pre: seq<Edit>, ins: Edit, rep: Edit, post: seq<Edit>): seq<Edit> {
    Reverse(post) + [ins] + [rep] + Reverse(pre)
  }

  // What an insertion met first leaves for the range tied with it.
  lemma TiedPairKeepsByte(a: Text, gone: Text, last: char, c: Text, ins: Edit, rep: Edit)
    requires ins.start == ins.end == rep.start == |a| && rep.end == |a| + |gone| + 1
    requires ins.text != ""
    ensures SpliceOne(SpliceOne(a + (gone + [last] + c), ins), rep)
      == a + rep.text + ((ins.text + gone)[|gone| + 1..] + [last] + c)
  {
    var rest := gone + [last] + c;
    SpliceOneParts(a, "", rest, ins);
    assert a + "" == a;
    var x, y := (ins.text + gone)[..|gone| + 1], (ins.text + gone)[|gone| + 1..];
    assert ins.text + gone == x + y;
    Associate(ins.text, gone, [last]);
    Associate(ins.text, gone + [last], c);
    Associate(x, y, [last]);
    Associate(x, y + [last], c);
    Associate(a, ins.text, rest);
    Associate(a, x, y + [last] + c);
    SpliceOneParts(a, x, y + [last] + c, rep);
  }

  // What that order makes of a source: the last byte under the replaced range
  // is still there, and some of the insertion is gone.
  lemma BadOrderKeepsByte(src: Text, pre: seq<Edit>, ins: Edit, rep: Edit, post: seq<Edit>)
    requires Placed(pre, 0, ins.start) && ins.IsInsertion() && ins.text != ""
    requires ins.start == rep.start < rep.end && Placed(post, rep.end, |src|)
    ensures 0 <= ins.start < rep.end <= |src|
    ensures Splice(src, BadOrder(pre, ins, rep, post))
      == BadLeft(src, pre, ins, rep) + ([src[rep.end - 1]] + Substitute(src, rep.end, post))
  {
    PlacedBounds(post, rep.end, |src|);
    PlacedBounds(pre, 0, ins.start);
    var right := Substitute(src, rep.end, post);
    var a, last := src[..rep.start], [src[rep.end - 1]];
    var y := (ins.text + src[rep.start..rep.end - 1])[rep.Width()..];
    BadOrderCollects(src, pre, ins, rep, post);
    BadTailFrame(a, rep.text, y, last, right, pre);
  }

  // The edits behind the tied pair and the pair itself.
  lemma BadOrderCollects(src: Text, pre: seq<Edit>, ins: Edit, rep: Edit, post: seq<Edit>)
    requires ins.IsInsertion() && ins.text != "" && 0 <= ins.start
    requires ins.start == rep.start < rep.end <= |src| && Placed(post, rep.end, |src|)
    ensures Splice(src, BadOrder(pre, ins, rep, post)) == Splice(
      src[..rep.start] + rep.text
        + ((ins.text + src[rep.start..rep.end - 1])[rep.Width()..] + [src[rep.end - 1]]
          + Substitute(src, rep.end, post)),
      Reverse(pre))
  {
    BadOrderSteps(src, pre, ins, rep, post);
    SpliceIsSubstitute(src, rep.end, post);
    BadPairKeepsByte(src, ins, rep, Substitute(src, rep.end, post));
  }

  // Edits before the tied pair leave what the pair left alone.
  lemma BadTailFrame(a: Text, t: Text, y: Text, last: Text, right: Text, pre: seq<Edit>)
    requires Placed(pre, 0, |a|)
    ensures Splice(a + t + (y + last + right), Reverse(pre)) == (Splice(a, Reverse(pre)) + (t + y)) + (last + right)
  {
    Associate(a, t, y + last + right);
    SpliceFrame(a, t + (y + last + right), pre);
    BadLeftGroups(Splice(a, Reverse(pre)), t, y, last, right);
  }

  lemma BadLeftGroups(p: Text, t: Text, y: Text, last: Text, right: Text)
    ensures p + (t + (y + last + right)) == (p + (t + y)) + (last + right)
  {
    Associate(y, last, right);
    Associate(t, y, last + right);
    Associate(p, t + y, last + right);
  }

  lemma BadPairKeepsByte(src: Text, ins: Edit, rep: Edit, right: Text)
    requires ins.IsInsertion() && ins.text != "" && 0 <= ins.start == rep.start < rep.end <= |src|
    ensures SpliceOne(SpliceOne(src[..rep.end] + right, ins), rep)
      == src[..rep.start] + rep.text + ((ins.text + src[rep.start..rep.end - 1])[rep.Width()..] + [src[rep.end - 1]]
        + right)
  {
    var s, e := rep.start, rep.end;
    var a, gone, last := src[..s], src[s..e - 1], src[e - 1];
    assert src[..e] == a + (gone + [last]);
    Associate(a, gone + [last], right);
    TiedPairKeepsByte(a, gone, last, right, ins, rep);
  }

  lemma BadOrderSteps(src: Text, pre: seq<Edit>, ins: Edit, rep: Edit, post: seq<Edit>)
    ensures Splice(src, BadOrder(pre, ins, rep, post))
      == Splice(SpliceOne(SpliceOne(Splice(src, Reverse(post)), ins), rep), Reverse(pre))
  {
    SpliceAppend(src, Reverse(post) + [ins] + [rep], Reverse(pre));
    SpliceAppend(src, Reverse(post) + [ins], [rep]);
    SpliceAppend(src, Reverse(post), [ins]);
  }

  function BadLeft(src: Text, pre: seq<Edit>, ins: Edit, rep: Edit): Text
    requires 0 <= ins.start == rep.start < rep.end <= |src| && ins.text != ""
  {
    Splice(src[..ins.start], Reverse(pre)) + (rep.text + (ins.text + src[rep.start..rep.end - 1])[rep.Width()..])
  }

  lemma BadOrderIsUnfaithful(kept: seq<Edit>, pre: seq<Edit>, ins: Edit, rep: Edit, post: seq<Edit>, n: nat,
                             asc: seq<Edit>)
    requires Placed(pre, 0, ins.start) && ins.IsInsertion() && ins.text != ""
    requires ins.start == rep.start < rep.end && Placed(post, rep.end, n)
    requires rep in kept
    ensures !Faithful(kept, n, BadOrder(pre, ins, rep, post), asc)
  {
    PlacedBounds(post, rep.end, n);
    PlacedBounds(pre, 0, ins.start);
    if Faithful(kept, n, BadOrder(pre, ins, rep, post), asc) {
      var src: Text := seq(n, i => 'a');
      var other := src[rep.end - 1 := 'b'];
      SameMembers(kept, asc);
      var k :| 0 <= k < |asc| && asc[k] == rep;
      SubstituteIgnores(src, other, 0, asc, k, rep.end - 1);
      BadOrderTells(src, other, pre, ins, rep, post);
    }
  }

  // The bad order tells two sources apart that differ in that byte only.
  lemma BadOrderTells(src: Text, other: Text, pre: seq<Edit>, ins: Edit, rep: Edit, post: seq<Edit>)
    requires Placed(pre, 0, ins.start) && ins.IsInsertion() && ins.text != ""
    requires ins.start == rep.start < rep.end && Placed(post, rep.end, |src|)
    requires 0 <= ins.start && rep.end <= |src| == |other|
    requires forall i :: 0 <= i < |src| && i != rep.end - 1 ==> src[i] == other[i]
    requires Splice(src, BadOrder(pre, ins, rep, post)) == Splice(other, BadOrder(pre, ins, rep, post))
    ensures src[rep.end - 1] == other[rep.end - 1]
  {
    var p := rep.end - 1;
    BadOrderKeepsByte(src, pre, ins, rep, post);
    BadOrderKeepsByte(other, pre, ins, rep, post);
    SubstituteSuffix(src, other, rep.end, post);
    BadLeftSame(src, other, pre, ins, rep);
    MiddleByte(BadLeft(src, pre, ins, rep), src[p], other[p], Substitute(src, rep.end, post));
  }

  lemma BadLeftSame(src: Text, other: Text, pre: seq<Edit>, ins: Edit, rep: Edit)
    requires 0 <= ins.start == rep.start < rep.end <= |src| == |other| && ins.text != ""
    requires forall i :: 0 <= i < |src| && i != rep.end - 1 ==> src[i] == other[i]
    ensures BadLeft(src, pre, ins, rep) == BadLeft(other, pre, ins, rep)
  {
    assert src[..ins.start] == other[..ins.start];
    assert src[rep.start..rep.end - 1] == other[rep.start..rep.end - 1];
  }

  lemma MiddleByte(left: Text, x: char, y: char, right: Text)
    requires left + ([x] + right) == left + ([y] + right)
    ensures x == y
  {
    assert (left + ([x] + right))[|left|] == x;
    assert (left + ([y] + right))[|left|] == y;
  }

  // A mixed tie sits at two neighbouring survivors, insertion first.
  lemma {:induction false} TieNeighbours(kept: seq<Edit>, from: int, n: nat) returns (k: nat)
    requires Placed(kept, from, n) && HasMixedTie(kept)
    ensures 0 < k < |kept| && kept[k - 1].IsInsertion() && !kept[k].IsInsertion()
    ensures kept[k - 1].start == kept[k].start
  {
    var i, j :| 0 <= i < |kept| && 0 <= j < |kept| && MixedTie(kept[i], kept[j]);
    PlacedWithin(kept, from, n);
    var a, b := if i < j then i else j, if i < j then j else i;
    PlacedOrdered(kept, from, n, a, b);
    assert kept[a].IsInsertion() && !kept[b].IsInsertion();
    k := b;
    if a < b - 1 {
      PlacedOrdered(kept, from, n, a, b - 1);
    }
    PlacedOrdered(kept, from, n, b - 1, b);
  }

  lemma {:induction false} PlacedSplit(edits: seq<Edit>, from: int, n: int, k: nat)
    requires Placed(edits, from, n) && k < |edits|
    ensures Placed(edits[..k], from, edits[k].start)
    ensures Placed(edits[k + 1..], edits[k].end, n)
  {
    PlacedWithin(edits, from, n);
    if k > 0 {
      PlacedSplit(edits[1..], edits[0].end, n, k - 1);
      assert edits[..k][1..] == edits[1..][..k - 1];
      assert edits[1..][k..] == edits[k + 1..];
    }
  }

  lemma BadOrderIsReverse(pre: seq<Edit>, ins: Edit, rep: Edit, post: seq<Edit>)
    ensures BadOrder(pre, ins, rep, post) == Reverse(pre + [rep] + [ins] + post)
  {
    ReverseAppend(pre + [rep] + [ins], post);
    ReverseAppend(pre + [rep], [ins]);
    ReverseAppend(pre, [rep]);
    assert Reverse([ins]) == [ins] && Reverse([rep]) == [rep];
  }

  lemma ReverseDescends(s: seq<Edit>)
    requires SortedBy((a: Edit, b: Edit) => a.start <= b.start, s)
    ensures Descending(Reverse(s))
  {
    forall i, j | 0 <= i < j < |s|
      ensures !StartGreater(Reverse(s)[j], Reverse(s)[i])
    {
      ReverseIndex(s, i);
      ReverseIndex(s, j);
    }
  }

  lemma SwapKeepsStarts(pre: seq<Edit>, ins: Edit, rep: Edit, post: seq<Edit>)
    requires ins.start == rep.start
    requires SortedBy((a: Edit, b: Edit) => a.start <= b.start, pre + [ins] + [rep] + post)
    ensures multiset(pre + [rep] + [ins] + post) == multiset(pre + [ins] + [rep] + post)
    ensures SortedBy((a: Edit, b: Edit) => a.start <= b.start, pre + [rep] + [ins] + post)
  {
    var was, swapped := pre + [ins] + [rep] + post, pre + [rep] + [ins] + post;
    assert forall i :: 0 <= i < |was| ==> swapped[i].start == was[i].start;
  }

  lemma BadOrderIsSpliceOrder(kept: seq<Edit>, n: nat, k: nat)
    requires Placed(kept, 0, n) && 0 < k < |kept|
    requires kept[k - 1].start == kept[k].start
    ensures SpliceOrder(kept, BadOrder(kept[..k - 1], kept[k - 1], kept[k], kept[k + 1..]))
  {
    var pre, ins, rep, post := kept[..k - 1], kept[k - 1], kept[k], kept[k + 1..];
    assert kept == pre + [ins] + [rep] + post;
    PlacedSorted(kept, 0, n);
    SwapKeepsStarts(pre, ins, rep, post);
    BadOrderIsReverse(pre, ins, rep, post);
    ReverseMultiset(pre + [rep] + [ins] + post);
    ReverseDescends(pre + [rep] + [ins] + post);
  }

  // The exact condition: every outcome of the sort gives the same substitution
  // on every source just when no insertion is tied with a non-empty range.
  lemma ApplyIsFaithfulIff(kept: seq<Edit>, n: nat)
    requires Placed(kept, 0, n) && AllProper(kept)
    ensures EveryOutcomeFaithful(kept, n) <==> !HasMixedTie(kept)
  {
    if HasMixedTie(kept) {
      var k := TieNeighbours(kept, 0, n);
      BadOrderIsSpliceOrder(kept, n, k);
      PlacedSplit(kept, 0, n, k);
      PlacedSplit(kept, 0, n, k - 1);
      var order := BadOrder(kept[..k - 1], kept[k - 1], kept[k], kept[k + 1..]);
      assert kept[k - 1] in kept;
      forall asc
        ensures !Faithful(kept, n, order, asc)
      {
        BadOrderIsUnfaithful(kept, kept[..k - 1], kept[k - 1], kept[k], kept[k + 1..], n, asc);
      }
    } else {
      forall order | SpliceOrder(kept, order)
        ensures exists asc :: Faithful(kept, n, order, asc)
      {
        OrderIsPlaced(kept, order, n);
        forall src: Text | |src| == n
          ensures Splice(src, order) == Substitute(src, 0, Reverse(order))
        {
          ApplyIsSubstitution(src, kept, order);
        }
        assert Faithful(kept, n, order, Reverse(order));
      }
    }
  }
}
