// A printed fragment as pieces that stay and pieces that are swapped: the
// edits of the swaps, applied by the engine, print the fragment afresh.
module Pieces {
  import opened Sequences
  import opened Edits
  import opened Splicing

  datatype Piece = Stay(text: Text) | Swap(was: Text, becomes: Text)

  function Before(pieces: seq<Piece>): Text {
    if pieces == [] then ""
    else (if pieces[0].Stay? then pieces[0].text else pieces[0].was) + Before(pieces[1..])
  }

  function After(pieces: seq<Piece>): Text {
    if pieces == [] then ""
    else (if pieces[0].Stay? then pieces[0].text else pieces[0].becomes) + After(pieces[1..])
  }

  function Size(p: Piece): nat {
    if p.Stay? then |p.text| else |p.was|
  }

  function SwapEdits(pieces: seq<Piece>, at: nat, tag: Tag): seq<Edit> {
    if pieces == [] then []
    else
      var rest := SwapEdits(pieces[1..], at + Size(pieces[0]), tag);
      if pieces[0].Stay? then rest
      else [Edit(at, at + |pieces[0].was|, pieces[0].becomes, tag)] + rest
  }

  lemma {:induction false} SwapsPlaced(pieces: seq<Piece>, at: nat, tag: Tag, from: int, n: int)
    requires from <= at && at + |Before(pieces)| <= n
    ensures Placed(SwapEdits(pieces, at, tag), from, n)
  {
    if pieces != [] {
      var p := pieces[0];
      SwapsPlaced(pieces[1..], at + Size(p), tag, if p.Stay? then from else at + Size(p), n);
    }
  }

  lemma SplitAt(src: Text, from: nat, at: nat, was: Text, rest: Text)
    requires from <= at <= |src| && src[at..] == was + rest
    ensures at + |was| <= |src| && src[at + |was|..] == rest
    ensures src[from..at + |was|] == src[from..at] + was
  {
    assert src[at..][|was|..] == rest;
    assert src[at..][..|was|] == was;
    assert src[from..at + |was|] == src[from..at] + src[at..at + |was|];
  }

  // Substituting from `from` on, with the pieces starting at `at`.
  lemma {:induction false} SwapsSubstitute(src: Text, pieces: seq<Piece>, at: nat, tag: Tag, from: nat, post: Text)
    requires from <= at <= |src| && src[at..] == Before(pieces) + post
    requires Placed(SwapEdits(pieces, at, tag), from, |src|)
    ensures Substitute(src, from, SwapEdits(pieces, at, tag)) == src[from..at] + After(pieces) + post
    decreases |pieces|, 0
  {
    if pieces == [] {
      SplitAt(src, from, at, src[at..], "");
      assert After(pieces) + post == post;
      Associate(src[from..at], After(pieces), post);
    } else {
      var p, rest := pieces[0], pieces[1..];
      var was := if p.Stay? then p.text else p.was;
      Associate(was, Before(rest), post);
      SplitAt(src, from, at, was, Before(rest) + post);
      if p.Stay? {
        SwapsSubstitute(src, rest, at + Size(p), tag, from, post);
        Associate(src[from..at], p.text, After(rest));
      } else {
        assert pieces == [p] + rest;
        SwapStep(src, p, rest, at, tag, from, post);
      }
    }
  }

  lemma {:induction false} SwapStep(src: Text, p: Piece, rest: seq<Piece>, at: nat, tag: Tag, from: nat, post: Text)
    requires p.Swap? && from <= at && at + Size(p) <= |src| && src[at + Size(p)..] == Before(rest) + post
    requires Placed(SwapEdits([p] + rest, at, tag), from, |src|)
    ensures Substitute(src, from, SwapEdits([p] + rest, at, tag)) == src[from..at] + After([p] + rest) + post
    decreases |rest|, 1
  {
    var next := at + Size(p);
    assert ([p] + rest)[1..] == rest;
    var e, tail := Edit(at, next, p.becomes, tag), SwapEdits(rest, next, tag);
    assert SwapEdits([p] + rest, at, tag) == [e] + tail;
    assert ([e] + tail)[1..] == tail;
    SwapsSubstitute(src, rest, next, tag, next, post);
    assert src[next..next] + After(rest) == After(rest);
    Associate(src[from..at] + p.becomes, After(rest), post);
    Associate(src[from..at], p.becomes, After(rest));
  }

  lemma OnePiece(p: Piece, at: nat, tag: Tag)
    ensures Before([p]) == if p.Stay? then p.text else p.was
    ensures After([p]) == if p.Stay? then p.text else p.becomes
    ensures SwapEdits([p], at, tag) == if p.Stay? then [] else [Edit(at, at + |p.was|, p.becomes, tag)]
  {
    assert [p][1..] == [];
  }

  // Emitted in any order and sorted in any way, edits whose layout has
  // distinct starts all survive and come out as the fresh print.
  lemma SwapsApply(pre: Text, pieces: seq<Piece>, post: Text, tag: Tag, emitted: seq<Edit>, sorted: seq<Edit>,
                   order: seq<Edit>)
    requires multiset(emitted) == multiset(SwapEdits(pieces, |pre|, tag))
    requires Distinct(MapSeq((e: Edit) => e.start, SwapEdits(pieces, |pre|, tag)))
    requires SortOutcome(emitted, sorted) && SpliceOrder(Kept(sorted), order)
    ensures Kept(sorted) == SwapEdits(pieces, |pre|, tag)
    ensures Splice(pre + Before(pieces) + post, order) == pre + After(pieces) + post
  {
    var src := pre + Before(pieces) + post;
    var swaps := SwapEdits(pieces, |pre|, tag);
    SwapsPlaced(pieces, |pre|, tag, 0, |src|);
    DistinctSwapsSurvive(swaps, sorted, |src|);
    SwapsSubstituteAll(pre, pieces, post, tag);
    NoTies(swaps);
    ApplyIsSubstitution(src, swaps, order);
  }

  lemma SwapsSubstituteAll(pre: Text, pieces: seq<Piece>, post: Text, tag: Tag)
    requires Placed(SwapEdits(pieces, |pre|, tag), 0, |pre + Before(pieces) + post|)
    ensures Substitute(pre + Before(pieces) + post, 0, SwapEdits(pieces, |pre|, tag)) == pre + After(pieces) + post
  {
    var src := pre + Before(pieces) + post;
    Associate(pre, Before(pieces), post);
    assert src[|pre|..] == Before(pieces) + post;
    assert src[0..|pre|] == pre;
    SwapsSubstitute(src, pieces, |pre|, tag, 0, post);
  }

  lemma NoTies(edits: seq<Edit>)
    requires Distinct(MapSeq((e: Edit) => e.start, edits))
    ensures !HasMixedTie(edits)
  {
    var starts := MapSeq((e: Edit) => e.start, edits);
    forall i, j | 0 <= i < |edits| && 0 <= j < |edits|
      ensures !MixedTie(edits[i], edits[j])
    {
      if i != j {
        assert starts[i] != starts[j];
      }
    }
  }

  lemma DistinctSwapsSurvive(swaps: seq<Edit>, sorted: seq<Edit>, n: nat)
    requires Placed(swaps, 0, n) && Distinct(MapSeq((e: Edit) => e.start, swaps))
    requires SortOutcome(swaps, sorted)
    ensures Kept(sorted) == swaps
  {
    var starts := MapSeq((e: Edit) => e.start, swaps);
    var le := (a: Edit, b: Edit) => a.start <= b.start;
    PlacedSorted(swaps, 0, n);
    forall i, j | 0 <= i < j < |sorted|
      ensures sorted[i].start <= sorted[j].start
    {
      assert !RangeLess(sorted[j], sorted[i]);
    }
    forall i, j | 0 <= i < |swaps| && 0 <= j < |swaps| && le(swaps[i], swaps[j]) && le(swaps[j], swaps[i])
      ensures swaps[i] == swaps[j]
    {
      assert starts[i] == starts[j];
    }
    SortedUnique(le, swaps, sorted);
    KeptAll(swaps, 0, n);
  }

  lemma {:induction false} KeptAll(placed: seq<Edit>, from: int, n: int)
    requires Placed(placed, from, n)
    ensures KeptFrom(placed, from) == placed && Kept(placed) == placed
  {
    if placed != [] {
      KeptAll(placed[1..], placed[0].end, n);
    }
  }
}
