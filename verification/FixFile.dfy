// One source file: the scan reports findings, the fixer applies the edits that
// survive overlap resolution, and what no surviving edit answers remains.
module FixFile {
  import opened Sequences
  import opened Edits
  import opened Splicing
  import opened Overlap

  datatype Key = Key(ruleID: string, line: nat)

  datatype Finding = Finding(ruleID: string, line: nat, text: string) {
    function KeyOf(): Key { Key(ruleID, line) }
  }

  // ---- Scanning ----------------------------------------------------------

  // The first finding of every key, in the order the walk met them.
  function FirstPerKey(matches: seq<Finding>): seq<Finding> {
    if matches == [] then []
    else
      var front, last := matches[..|matches| - 1], matches[|matches| - 1];
      if HasKey(front, last.KeyOf()) then FirstPerKey(front) else FirstPerKey(front) + [last]
  }

  predicate HasKey(findings: seq<Finding>, key: Key) {
    exists i :: 0 <= i < |findings| && findings[i].KeyOf() == key
  }

  // Match i is the first of its rule and line.
  predicate IsFirst(matches: seq<Finding>, i: nat)
    requires i < |matches|
  {
    forall j :: 0 <= j < i ==> matches[j].ruleID != matches[i].ruleID || matches[j].line != matches[i].line
  }

  function Firsts(matches: seq<Finding>): set<nat> {
    set i: nat | i < |matches| && IsFirst(matches, i)
  }

  // The findings are the first match of every rule and line, in the order of
  // the walk.
  lemma {:induction false} FirstPerKeySelects(matches: seq<Finding>)
    ensures Selects(matches, FirstPerKey(matches), Firsts(matches))
  {
    if matches == [] {
      SelectsNone<Finding>();
      assert Firsts(matches) == {};
    } else {
      var n := |matches| - 1;
      var front, last := matches[..n], matches[n];
      FirstPerKeySelects(front);
      assert matches == front + [last];
      assert IsFirst(matches, n) <==> !HasKey(front, last.KeyOf()) by {
        if !IsFirst(matches, n) {
          var j :| 0 <= j < n && matches[j].ruleID == last.ruleID && matches[j].line == last.line;
          assert front[j].KeyOf() == last.KeyOf();
        }
      }
      assert forall i: nat :: i in Firsts(front) <==> i < n && i in Firsts(matches) by {
        assert forall i: nat :: i < n ==> (IsFirst(front, i) <==> IsFirst(matches, i));
      }
      SelectsAppend(front, FirstPerKey(front), Firsts(front), last, IsFirst(matches, n), Firsts(matches));
    }
  }

  // Structural matches are reported once per rule and line; the regex matches
  // of rules without matchers are appended as they are.
  method ScanFile(matches: seq<Finding>, regexFindings: seq<Finding>) returns (findings: seq<Finding>)
    ensures findings == FirstPerKey(matches) + regexFindings
  {
    findings := [];
    var matched: set<Key> := {};
    for i := 0 to |matches|
      invariant findings == FirstPerKey(matches[..i])
      invariant forall k :: k in matched <==> HasKey(matches[..i], k)
    {
      assert matches[..i + 1][..i] == matches[..i];
      var key := matches[i].KeyOf();
      HasKeyAppend(matches[..i], matches[i]);
      assert matches[..i] + [matches[i]] == matches[..i + 1];
      if key !in matched {
        matched := matched + {key};
        findings := findings + [matches[i]];
      }
    }
    assert matches[..|matches|] == matches;
    findings := findings + regexFindings;
  }

  lemma HasKeyAppend(findings: seq<Finding>, f: Finding)
    ensures forall k :: HasKey(findings + [f], k) <==> HasKey(findings, k) || k == f.KeyOf()
  {
    forall k
      ensures HasKey(findings + [f], k) <==> HasKey(findings, k) || k == f.KeyOf()
    {
      if HasKey(findings, k) {
        var i :| 0 <= i < |findings| && findings[i].KeyOf() == k;
        assert (findings + [f])[i].KeyOf() == k;
      }
      if k == f.KeyOf() {
        assert (findings + [f])[|findings|].KeyOf() == k;
      }
    }
  }

  // At most one structural finding per key, and one for every match.
  lemma {:induction false} FirstPerKeyExact(matches: seq<Finding>)
    ensures forall k :: HasKey(FirstPerKey(matches), k) <==> HasKey(matches, k)
    ensures Distinct(MapSeq((f: Finding) => f.KeyOf(), FirstPerKey(matches)))
    ensures forall f :: f in FirstPerKey(matches) ==> f in matches
  {
    if matches != [] {
      var front, last := matches[..|matches| - 1], matches[|matches| - 1];
      FirstPerKeyExact(front);
      assert matches == front + [last];
      HasKeyAppend(front, last);
      HasKeyAppend(FirstPerKey(front), last);
      if !HasKey(front, last.KeyOf()) {
        DistinctAppend(FirstPerKey(front), last);
      }
    }
  }

  lemma DistinctAppend(findings: seq<Finding>, f: Finding)
    requires Distinct(MapSeq((g: Finding) => g.KeyOf(), findings)) && !HasKey(findings, f.KeyOf())
    ensures Distinct(MapSeq((g: Finding) => g.KeyOf(), findings + [f]))
  {
    var keys := MapSeq((g: Finding) => g.KeyOf(), findings);
    var more := MapSeq((g: Finding) => g.KeyOf(), findings + [f]);
    assert forall i :: 0 <= i < |findings| ==> more[i] == keys[i] == findings[i].KeyOf();
  }

  // ---- Fixing ------------------------------------------------------------

  datatype FixResult =
    | Skipped
    | WriteFailed
    | Reported(applied: set<string>, remaining: seq<Finding>)

  // Some surviving edit was emitted for this rule and line.
  predicate FixedAt(kept: seq<Edit>, key: Key) {
    exists i :: 0 <= i < |kept| && kept[i].tag.line != 0 && Key(kept[i].tag.ruleID, kept[i].tag.line) == key
  }

  function Unfixed(kept: seq<Edit>, findings: seq<Finding>): seq<Finding> {
    if findings == [] then []
    else if FixedAt(kept, findings[0].KeyOf()) then Unfixed(kept, findings[1..])
    else [findings[0]] + Unfixed(kept, findings[1..])
  }

  // Some surviving edit was emitted for the finding's rule and line; an edit
  // of line 0 answers no finding.
  predicate Answered(kept: seq<Edit>, f: Finding) {
    exists e :: e in kept && e.tag.line != 0 && e.tag.ruleID == f.ruleID && e.tag.line == f.line
  }

  function Unanswered(kept: seq<Edit>, findings: seq<Finding>): set<nat> {
    set i: nat | i < |findings| && !Answered(kept, findings[i])
  }

  // What remains are the findings no survivor answers, in their order.
  lemma {:induction false} UnfixedSelects(kept: seq<Edit>, findings: seq<Finding>)
    ensures Selects(findings, Unfixed(kept, findings), Unanswered(kept, findings))
  {
    if findings == [] {
      SelectsNone<Finding>();
      assert Unanswered(kept, findings) == {};
    } else {
      var f, rest := findings[0], findings[1..];
      UnfixedSelects(kept, rest);
      assert findings == [f] + rest;
      assert FixedAt(kept, f.KeyOf()) <==> Answered(kept, f) by {
        if FixedAt(kept, f.KeyOf()) {
          var i :| 0 <= i < |kept| && kept[i].tag.line != 0 && Key(kept[i].tag.ruleID, kept[i].tag.line) == f.KeyOf();
          assert kept[i] in kept;
        }
      }
      SelectsCons(rest, Unfixed(kept, rest), Unanswered(kept, rest), f, !Answered(kept, f),
        Unanswered(kept, findings));
    }
  }

  function RuleIDs(kept: seq<Edit>): set<string> {
    set i | 0 <= i < |kept| :: kept[i].tag.ruleID
  }

  lemma AppliedExact(kept: seq<Edit>)
    ensures forall id :: id in RuleIDs(kept) <==> exists e :: e in kept && e.tag.ruleID == id
  {
    forall id
      ensures id in RuleIDs(kept) <==> exists e :: e in kept && e.tag.ruleID == id
    {
      if id in RuleIDs(kept) {
        var i :| 0 <= i < |kept| && kept[i].tag.ruleID == id;
        assert kept[i] in kept;
      }
    }
  }

  // `collected` is what the rewriters emitted, before overlap resolution.
  // `writes` says whether formatting and writing the result would succeed.
  method FixFileWithOptions(src: Text, collected: array<Edit>, allFindings: seq<Finding>, writes: Text -> bool)
    returns (result: FixResult, output: Text, ghost sorted: seq<Edit>, ghost order: seq<Edit>)
    modifies collected
    ensures SortOutcome(old(collected[..]), sorted) && SpliceOrder(Kept(sorted), order)
    ensures output == if Kept(sorted) != [] && writes(Splice(src, order)) then Splice(src, order) else src
    ensures result == if Kept(sorted) != [] && !writes(Splice(src, order)) then WriteFailed
      else if Kept(sorted) == [] && Unfixed(Kept(sorted), allFindings) == [] then Skipped
      else Reported(RuleIDs(Kept(sorted)), Unfixed(Kept(sorted), allFindings))
    ensures result.Reported? ==>
      && (forall id :: id in result.applied <==> exists e :: e in Kept(sorted) && e.tag.ruleID == id)
      && Selects(allFindings, result.remaining, Unanswered(Kept(sorted), allFindings))
  {
    var edits := DeduplicateEdits(collected);
    AppliedExact(edits);
    UnfixedSelects(edits, allFindings);
    sorted := collected[..];
    var unfixed := Remaining(edits, allFindings);
    output := src;
    if |edits| == 0 {
      order := [];
      result := if |unfixed| == 0 then Skipped else Reported({}, unfixed);
      return;
    }
    var applied := AppliedIDs(edits);
    var buffer := new Edit[|edits|](i requires 0 <= i < |edits| => edits[i]);
    assert buffer[..] == edits;
    var spliced := ApplyEdits(src, buffer);
    order := buffer[..];
    if !writes(spliced) {
      result := WriteFailed;
      return;
    }
    output := spliced;
    result := Reported(applied, unfixed);
  }

  method Remaining(edits: seq<Edit>, allFindings: seq<Finding>) returns (unfixed: seq<Finding>)
    ensures unfixed == Unfixed(edits, allFindings)
  {
    var fixedAt := FixedKeys(edits);
    unfixed := [];
    for i := 0 to |allFindings|
      invariant unfixed + Unfixed(edits, allFindings[i..]) == Unfixed(edits, allFindings)
    {
      assert allFindings[i..][1..] == allFindings[i + 1..];
      if allFindings[i].KeyOf() in fixedAt {
        continue;
      }
      Associate(unfixed, [allFindings[i]], Unfixed(edits, allFindings[i + 1..]));
      unfixed := unfixed + [allFindings[i]];
    }
  }

  method FixedKeys(edits: seq<Edit>) returns (fixedAt: set<Key>)
    ensures forall k :: k in fixedAt <==> FixedAt(edits, k)
  {
    fixedAt := {};
    for i := 0 to |edits|
      invariant forall k :: k in fixedAt <==> FixedAt(edits[..i], k)
    {
      FixedAtAppend(edits[..i], edits[i]);
      assert edits[..i] + [edits[i]] == edits[..i + 1];
      if edits[i].tag.line == 0 {
        continue;
      }
      fixedAt := fixedAt + {Key(edits[i].tag.ruleID, edits[i].tag.line)};
    }
    assert edits[..|edits|] == edits;
  }

  method AppliedIDs(edits: seq<Edit>) returns (applied: set<string>)
    ensures applied == RuleIDs(edits)
  {
    applied := {};
    for i := 0 to |edits|
      invariant applied == RuleIDs(edits[..i])
    {
      applied := applied + {edits[i].tag.ruleID};
    }
    assert edits[..|edits|] == edits;
  }

  lemma FixedAtAppend(kept: seq<Edit>, e: Edit)
    ensures forall k :: FixedAt(kept + [e], k) <==>
      FixedAt(kept, k) || (e.tag.line != 0 && k == Key(e.tag.ruleID, e.tag.line))
  {
    forall k
      ensures FixedAt(kept + [e], k) <==> FixedAt(kept, k) || (e.tag.line != 0 && k == Key(e.tag.ruleID, e.tag.line))
    {
      if FixedAt(kept, k) {
        var i :| 0 <= i < |kept| && kept[i].tag.line != 0 && Key(kept[i].tag.ruleID, kept[i].tag.line) == k;
        assert (kept + [e])[i] == kept[i];
      }
      if e.tag.line != 0 && k == Key(e.tag.ruleID, e.tag.line) {
        assert (kept + [e])[|kept|] == e;
      }
    }
  }

  // ---- Conservation ------------------------------------------------------

  // How many findings of a list carry a key.
  function CountKey(findings: seq<Finding>, key: Key): nat {
    if findings == [] then 0
    else (if findings[0].KeyOf() == key then 1 else 0) + CountKey(findings[1..], key)
  }

  // A finding remains, as often as it was found, exactly when no survivor
  // carries its key.
  lemma {:induction false} RemainingExact(kept: seq<Edit>, findings: seq<Finding>, key: Key)
    ensures CountKey(Unfixed(kept, findings), key) == if FixedAt(kept, key) then 0 else CountKey(findings, key)
  {
    if findings != [] {
      RemainingExact(kept, findings[1..], key);
    }
  }

  lemma {:induction false} CountKeyOfDistinct(findings: seq<Finding>, key: Key)
    requires Distinct(MapSeq((f: Finding) => f.KeyOf(), findings))
    ensures CountKey(findings, key) == if HasKey(findings, key) then 1 else 0
  {
    if findings != [] {
      var keys := MapSeq((f: Finding) => f.KeyOf(), findings);
      var rest := findings[1..];
      assert MapSeq((f: Finding) => f.KeyOf(), rest) == keys[1..];
      CountKeyOfDistinct(rest, key);
      if HasKey(rest, key) {
        var i :| 0 <= i < |rest| && rest[i].KeyOf() == key;
        assert findings[i + 1].KeyOf() == key && keys[0] != keys[i + 1];
      } else if HasKey(findings, key) {
        assert findings[0].KeyOf() == key by {
          var i :| 0 <= i < |findings| && findings[i].KeyOf() == key;
          if i > 0 {
            assert rest[i - 1].KeyOf() == key;
          }
        }
      }
    }
  }

  // Every structural match is either answered by a surviving edit or remains
  // as exactly one finding of its rule and line.
  lemma MatchesConserved(matches: seq<Finding>, kept: seq<Edit>, m: Finding)
    requires m in matches
    ensures CountKey(Unfixed(kept, FirstPerKey(matches)), m.KeyOf()) == if FixedAt(kept, m.KeyOf()) then 0 else 1
  {
    FirstPerKeyExact(matches);
    var i :| 0 <= i < |matches| && matches[i] == m;
    assert HasKey(matches, m.KeyOf());
    CountKeyOfDistinct(FirstPerKey(matches), m.KeyOf());
    RemainingExact(kept, FirstPerKey(matches), m.KeyOf());
  }

  // An edit dropped for overlap started inside a survivor, and its finding is
  // reported unless a sibling edit with the same key did survive.
  lemma DroppedFixIsReported(edits: seq<Edit>, sorted: seq<Edit>, matches: seq<Finding>, d: Edit, m: Finding)
    requires SortOutcome(edits, sorted) && d in Dropped(sorted)
    requires m in matches && d.tag == Tag(m.ruleID, m.line)
    ensures exists k :: k in Kept(sorted) && StartsInside(d, k)
    ensures || CountKey(Unfixed(Kept(sorted), FirstPerKey(matches)), m.KeyOf()) == 1
            || exists k :: k in Kept(sorted) && k.tag == d.tag
  {
    DroppedStartsInside(sorted, d);
    MatchesConserved(matches, Kept(sorted), m);
    if FixedAt(Kept(sorted), m.KeyOf()) {
      var i :| 0 <= i < |Kept(sorted)| && Kept(sorted)[i].tag.line != 0
        && Key(Kept(sorted)[i].tag.ruleID, Kept(sorted)[i].tag.line) == m.KeyOf();
      assert Kept(sorted)[i] in Kept(sorted) && Kept(sorted)[i].tag == d.tag;
    }
  }

  // The whole path from collected edits to bytes: for in-bounds edits and any
  // outcome of both sorts, without a mixed tie the file becomes a simultaneous
  // substitution of the survivors.
  lemma FixIsSubstitution(src: Text, collected: seq<Edit>, sorted: seq<Edit>, order: seq<Edit>)
    requires forall e :: e in collected ==> e.InBounds(|src|)
    requires SortOutcome(collected, sorted) && SpliceOrder(Kept(sorted), order)
    requires !HasMixedTie(Kept(sorted))
    ensures Placed(Kept(sorted), 0, |src|) && Placed(Reverse(order), 0, |src|)
    ensures multiset(Reverse(order)) == multiset(Kept(sorted))
    ensures GuardNeverFires(src, order)
    ensures Splice(src, order) == Substitute(src, 0, Reverse(order))
    ensures |Splice(src, order)| == |src| + Shift(Reverse(order), |order|)
  {
    SameMembers(collected, sorted);
    KeptPlaced(sorted, |src|);
    ApplyIsSubstitution(src, Kept(sorted), order);
    SubstituteLength(src, 0, Reverse(order));
  }
}
