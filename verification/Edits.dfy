// Byte-range edits, how overlapping ones are dropped, and how the survivors
// are spliced into the source. One char stands for one byte of source.
module Edits {
  import opened Sorting

  type Text = string

  // The rule that asked for an edit and the line of the matched node. Line 0
  // marks a side-effect edit (an injected import) that answers no finding.
  datatype Tag = Tag(ruleID: string, line: nat)

  datatype Edit = Edit(start: int, end: int, text: Text, tag: Tag) {
    function Width(): int { end - start }

    predicate InBounds(n: nat) { 0 <= start <= end <= n }

    // An edit that can change something: it removes a byte or adds one.
    predicate Proper() { start < end || text != "" }

    predicate IsInsertion() { start == end }
  }

  predicate RangeLess(a: Edit, b: Edit) {
    if a.start != b.start then a.start < b.start else a.end < b.end
  }

  predicate StartGreater(a: Edit, b: Edit) { a.start > b.start }

  ghost predicate Ascending(s: seq<Edit>) { Sorted(RangeLess, s) }

  ghost predicate Descending(s: seq<Edit>) { Sorted(StartGreater, s) }

  ghost predicate SortOutcome(edits: seq<Edit>, sorted: seq<Edit>) {
    multiset(sorted) == multiset(edits) && Ascending(sorted)
  }

  ghost predicate SpliceOrder(kept: seq<Edit>, order: seq<Edit>) {
    multiset(order) == multiset(kept) && Descending(order)
  }

  // ---- Overlap resolution ------------------------------------------------

  function KeptFrom(sorted: seq<Edit>, lastEnd: int): seq<Edit> {
    if sorted == [] then []
    else if sorted[0].start < lastEnd then KeptFrom(sorted[1..], lastEnd)
    else [sorted[0]] + KeptFrom(sorted[1..], sorted[0].end)
  }

  function DroppedFrom(sorted: seq<Edit>, lastEnd: int): seq<Edit> {
    if sorted == [] then []
    else if sorted[0].start < lastEnd then [sorted[0]] + DroppedFrom(sorted[1..], lastEnd)
    else DroppedFrom(sorted[1..], sorted[0].end)
  }

  // The first edit always survives; each later one survives unless it starts
  // before the end of the last survivor.
  function Kept(sorted: seq<Edit>): seq<Edit> {
    if sorted == [] then [] else [sorted[0]] + KeptFrom(sorted[1..], sorted[0].end)
  }

  function Dropped(sorted: seq<Edit>): seq<Edit> {
    if sorted == [] then [] else DroppedFrom(sorted[1..], sorted[0].end)
  }

  // ---- Splicing ----------------------------------------------------------

  function SpliceOne(buf: Text, e: Edit): Text {
    if e.start < 0 || e.end > |buf| || e.start > e.end then buf
    else buf[..e.start] + e.text + buf[e.end..]
  }

  function Splice(buf: Text, order: seq<Edit>): Text
    decreases |order|
  {
    if order == [] then buf else Splice(SpliceOne(buf, order[0]), order[1..])
  }

  // No edit of `order` is skipped by the bounds guard.
  predicate GuardNeverFires(buf: Text, order: seq<Edit>)
    decreases |order|
  {
    order == [] || (order[0].InBounds(|buf|) && GuardNeverFires(SpliceOne(buf, order[0]), order[1..]))
  }

  // ---- Simultaneous substitution, the reference meaning ------------------

  // The edits are laid out left to right in [from, n] without overlapping.
  predicate Placed(edits: seq<Edit>, from: int, n: int) {
    if edits == [] then from <= n
    else from <= edits[0].start <= edits[0].end && Placed(edits[1..], edits[0].end, n)
  }

  // Copy the source, replacing each range by its text, all at once: every
  // range is a range of the original bytes.
  function Substitute(src: Text, from: nat, edits: seq<Edit>): Text
    requires Placed(edits, from, |src|)
    decreases |edits|
  {
    PlacedBounds(edits, from, |src|);
    if edits == [] then src[from..]
    else src[from..edits[0].start] + edits[0].text + Substitute(src, edits[0].end, edits[1..])
  }

  lemma {:induction false} PlacedBounds(edits: seq<Edit>, from: int, n: int)
    requires Placed(edits, from, n)
    ensures from <= n
    ensures edits != [] ==> from <= edits[0].start <= edits[0].end <= n
  {
    if edits != [] {
      PlacedBounds(edits[1..], edits[0].end, n);
    }
  }

  lemma {:induction false} PlacedWithin(edits: seq<Edit>, from: int, n: int)
    requires Placed(edits, from, n)
    ensures from <= n
    ensures forall e :: e in edits ==> from <= e.start <= e.end <= n
  {
    if edits != [] {
      PlacedWithin(edits[1..], edits[0].end, n);
    }
  }

  // ---- The two loops -----------------------------------------------------

  // Sorts its argument in place and returns the survivors.
  method DeduplicateEdits(edits: array<Edit>) returns (result: seq<Edit>)
    modifies edits
    ensures SortOutcome(old(edits[..]), edits[..])
    ensures result == Kept(edits[..])
  {
    if edits.Length == 0 {
      return [];
    }
    SortSlice(edits, RangeLess);
    result := [edits[0]];
    for i := 1 to edits.Length
      invariant result != []
      invariant result + KeptFrom(edits[i..], result[|result| - 1].end) == Kept(edits[..])
    {
      assert edits[i..][1..] == edits[i + 1..];
      if edits[i].start < result[|result| - 1].end {
        continue;
      }
      result := result + [edits[i]];
    }
  }

  // Splices from right to left, in whatever order the unstable sort gives ties.
  method ApplyEdits(src: Text, edits: array<Edit>) returns (result: Text)
    modifies edits
    ensures SpliceOrder(old(edits[..]), edits[..])
    ensures result == Splice(src, edits[..])
  {
    SortSlice(edits, StartGreater);
    result := src;
    for i := 0 to edits.Length
      invariant Splice(result, edits[i..]) == Splice(src, edits[..])
    {
      var e := edits[i];
      assert edits[i..][1..] == edits[i + 1..];
      if e.start < 0 || e.end > |result| || e.start > e.end {
        continue;
      }
      result := result[..e.start] + e.text + result[e.end..];
    }
  }
}
