// The diagnostic pass: drop findings whose Go version gate fails, append one
// report per unmet module floor of the rules that survive.
module FloorPass {
  import opened Options
  import opened Sequences
  import opened Semver
  import opened Floors
  import opened Paths
  import opened Sorting

  // Reads each module's go.mod at most once per directory.
  class ModuleStateCache {
    const fs: FileSystem
    var byFile: map<Dir, Option<ModuleState>>
    var byRoot: map<Dir, ModuleState>

    constructor (fs: FileSystem)
      ensures this.fs == fs && Valid() && byRoot == map[]
    {
      this.fs := fs;
      byFile, byRoot := map[], map[];
    }

    ghost predicate Valid()
      reads this
    {
      && (forall d :: d in byFile ==> byFile[d] == StateOf(fs, d))
      && (forall d :: d in byFile && byFile[d].Some? ==> byFile[d].value.root in byRoot)
      && (forall r :: r in byRoot ==> byRoot[r] == fs.ReadModuleState(r))
    }

    // Over any sequence of calls the answer is the direct lookup's, negative
    // answers included, and every root answered can be found in byRoot.
    method ForFile(file: seq<string>) returns (st: Option<ModuleState>)
      requires Valid()
      modifies this`byFile, this`byRoot
      ensures Valid() && st == StateOf(fs, Parent(file))
      ensures st.Some? ==> st.value.root in byRoot
      ensures old(byRoot.Keys) <= byRoot.Keys
    {
      var dir := Parent(file);
      if dir in byFile {
        return byFile[dir];
      }
      st := ModuleStateFor(fs, file);
      byFile := byFile[dir := st];
      if st.None? {
        return None;
      }
      byRoot := byRoot[st.value.root := st.value];
    }
  }

  datatype Finding = Finding(ruleID: string, file: seq<string>, line: nat)

  datatype Report = Scanned(f: Finding) | Floor(root: Dir, unmet: UnmetFloor)

  // ---- What the pass should do -------------------------------------------

  // The rules by ID; a later rule replaces an earlier one of the same ID.
  function ByID(rules: seq<Rule>): map<string, Rule> {
    if rules == [] then map[] else ByID(rules[..|rules| - 1])[rules[|rules| - 1].id := rules[|rules| - 1]]
  }

  // The rule is gated on a Go version the owning module does not declare.
  predicate GatedOut(fs: FileSystem, byID: map<string, Rule>, f: Finding) {
    f.ruleID in byID && Blocked(StateOf(fs, Parent(f.file)), byID[f.ruleID])
  }

  function KeptReports(fs: FileSystem, byID: map<string, Rule>, findings: seq<Finding>): seq<Report> {
    if findings == [] then []
    else
      var front, last := findings[..|findings| - 1], findings[|findings| - 1];
      KeptReports(fs, byID, front) + if GatedOut(fs, byID, last) then [] else [Scanned(last)]
  }

  // Rule k is the last of its ID, and the finding is one of it.
  predicate Governs(rules: seq<Rule>, k: nat, f: Finding) {
    k < |rules| && rules[k].id == f.ruleID && forall j :: k < j < |rules| ==> rules[j].id != f.ruleID
  }

  // No Go version is asked for, or the module has a directive at least as
  // high, component by component. A directive of more than three components
  // is no version: as a floor it is met by any directive, and it meets no
  // other floor.
  predicate GateOpen(fs: FileSystem, r: Rule, f: Finding) {
    var owner := OwnerOf(fs.hasGoMod, Parent(f.file));
    r.needs.None? || r.needs.value.go == [] ||
    (owner.Some? &&
     var has, floor := fs.goOf(owner.value), r.needs.value.go;
     has != [] && (|floor| > 3 || (|has| <= 3 && NotOlder(has, floor))))
  }

  lemma OpenExact(fs: FileSystem, rules: seq<Rule>, k: nat, f: Finding)
    requires Governs(rules, k, f)
    ensures GatedOut(fs, ByID(rules), f) <==> !GateOpen(fs, rules[k], f)
  {
    ByIDLast(rules, k);
    var owner := OwnerOf(fs.hasGoMod, Parent(f.file));
    if owner.Some? && rules[k].needs.Some? {
      DirectiveInNumbers(fs.goOf(owner.value), rules[k].needs.value.go);
    }
  }

  lemma {:induction false} LastRule(rules: seq<Rule>, f: Finding) returns (k: nat)
    requires exists r :: r in rules && r.id == f.ruleID
    ensures Governs(rules, k, f)
  {
    var n := |rules| - 1;
    if rules[n].id == f.ruleID {
      k := n;
    } else {
      k := LastRule(rules[..n], f);
    }
  }

  // A finding stays unless the last rule of its ID holds it back.
  ghost predicate Passes(fs: FileSystem, rules: seq<Rule>, f: Finding) {
    forall k: nat :: Governs(rules, k, f) ==> GateOpen(fs, rules[k], f)
  }

  lemma PassesExact(fs: FileSystem, rules: seq<Rule>, f: Finding)
    ensures GatedOut(fs, ByID(rules), f) <==> !Passes(fs, rules, f)
  {
    ByIDExact(rules);
    forall k: nat | Governs(rules, k, f)
      ensures GatedOut(fs, ByID(rules), f) <==> !GateOpen(fs, rules[k], f)
    {
      OpenExact(fs, rules, k, f);
    }
    if f.ruleID in ByID(rules) {
      var k := LastRule(rules, f);
      forall m: nat | Governs(rules, m, f)
        ensures m == k
      {
      }
    }
  }

  ghost function Passing(fs: FileSystem, rules: seq<Rule>, findings: seq<Finding>): set<nat> {
    set i: nat | i < |findings| && Passes(fs, rules, findings[i])
  }

  function AllScanned(findings: seq<Finding>): seq<Report> {
    MapSeq((f: Finding) => Scanned(f), findings)
  }

  lemma {:induction false} KeptSelects(fs: FileSystem, rules: seq<Rule>, findings: seq<Finding>)
    ensures Selects(AllScanned(findings), KeptReports(fs, ByID(rules), findings), Passing(fs, rules, findings))
  {
    var scanned := AllScanned(findings);
    if findings == [] {
      SelectsNone<Report>();
      assert Passing(fs, rules, findings) == {};
    } else {
      var n := |findings| - 1;
      var front, last := findings[..n], findings[n];
      KeptSelects(fs, rules, front);
      PassesExact(fs, rules, last);
      var kept := KeptReports(fs, ByID(rules), front);
      assert kept + [] == kept && scanned == AllScanned(front) + [Scanned(last)];
      assert forall i: nat :: i < n ==> (i in Passing(fs, rules, front) <==> i in Passing(fs, rules, findings));
      SelectsAppend(AllScanned(front), kept, Passing(fs, rules, front), Scanned(last), Passes(fs, rules, last),
                    Passing(fs, rules, findings));
    }
  }

  // The finding stays, in a module at this root, and its rule needs more than
  // the module's go.mod requires.
  ghost predicate Calls(fs: FileSystem, rules: seq<Rule>, f: Finding, root: Dir, u: UnmetFloor) {
    && Passes(fs, rules, f) && OwnerOf(fs.hasGoMod, Parent(f.file)) == Some(root)
    && exists k: nat :: Governs(rules, k, f) && NeedsMore(rules[k], fs.requiresOf(root), u)
  }

  lemma CallsExact(fs: FileSystem, rules: seq<Rule>, findings: seq<Finding>)
    ensures forall root, u ::
      Belongs(fs, ByID(rules), findings, root, u) <==> exists f :: f in findings && Calls(fs, rules, f, root, u)
  {
    forall root, u, f
      ensures Calls(fs, rules, f, root, u) <==>
        Fires(fs, ByID(rules), f, root, u.ruleID) && DeclaredUnmet(ByID(rules), u.ruleID, fs.requiresOf(root), u)
    {
      OneCall(fs, rules, f, root, u);
    }
  }

  lemma OneCall(fs: FileSystem, rules: seq<Rule>, f: Finding, root: Dir, u: UnmetFloor)
    ensures Calls(fs, rules, f, root, u) <==>
      Fires(fs, ByID(rules), f, root, u.ruleID) && DeclaredUnmet(ByID(rules), u.ruleID, fs.requiresOf(root), u)
  {
    ByIDExact(rules);
    PassesExact(fs, rules, f);
    if k: nat :| Governs(rules, k, f) && NeedsMore(rules[k], fs.requiresOf(root), u) {
      ByIDLast(rules, k);
    }
    if f.ruleID in ByID(rules) {
      var k := LastRule(rules, f);
      ByIDLast(rules, k);
    }
  }

  lemma {:induction false} KeptScanned(fs: FileSystem, rules: seq<Rule>, findings: seq<Finding>)
    ensures var kept := KeptReports(fs, ByID(rules), findings);
      && (forall r :: r in kept ==> r.Scanned?)
      && forall f :: Scanned(f) in kept <==> f in findings && Passes(fs, rules, f)
  {
    if findings != [] {
      var front, last := findings[..|findings| - 1], findings[|findings| - 1];
      KeptScanned(fs, rules, front);
      PassesExact(fs, rules, last);
      assert findings == front + [last];
    }
  }

  // A rule gated on 1.n, or on 1.n.0, against a module at 1.m or 1.m.p.
  lemma OpenInNumbers(fs: FileSystem, r: Rule, f: Finding, n: nat, m: nat, p: nat)
    requires r.needs.Some? && r.needs.value.go in {[1, n], [1, n, 0]}
    ensures var owner := OwnerOf(fs.hasGoMod, Parent(f.file));
      && (owner.None? || fs.goOf(owner.value) == [] ==> !GateOpen(fs, r, f))
      && (owner.Some? && fs.goOf(owner.value) in {[1, m], [1, m, p]} ==> (GateOpen(fs, r, f) <==> m >= n))
  {
  }

  // What a newer file system says: the same modules, each with a directive
  // that is not older.
  ghost predicate RaisesGo(fs: FileSystem, more: FileSystem) {
    && more.hasGoMod == fs.hasGoMod
    && forall d :: fs.goOf(d) == more.goOf(d)
                   || (fs.goOf(d) != [] ==> 0 < |more.goOf(d)| <= 3 && NotOlder(more.goOf(d), fs.goOf(d)))
  }

  // Raising the directive of modules never drops a finding.
  lemma RaisingKeeps(fs: FileSystem, more: FileSystem, rules: seq<Rule>, f: Finding)
    requires RaisesGo(fs, more) && Passes(fs, rules, f)
    ensures Passes(more, rules, f)
  {
    forall k: nat | Governs(rules, k, f)
      ensures GateOpen(more, rules[k], f)
    {
      assert GateOpen(fs, rules[k], f);
    }
  }

  // The rule has a surviving finding in a module rooted at root.
  ghost predicate FiredIn(fs: FileSystem, byID: map<string, Rule>, findings: seq<Finding>, root: Dir, id: string) {
    exists f :: f in findings && Fires(fs, byID, f, root, id)
  }

  predicate Fires(fs: FileSystem, byID: map<string, Rule>, f: Finding, root: Dir, id: string) {
    f.ruleID == id && id in byID && !GatedOut(fs, byID, f) && OwnerOf(fs.hasGoMod, Parent(f.file)) == Some(root)
  }

  // A floor report belongs exactly when its rule fired in the root, declares
  // the floor, and the root's go.mod requires the module below it.
  ghost predicate Belongs(fs: FileSystem, byID: map<string, Rule>, findings: seq<Finding>, root: Dir, u: UnmetFloor) {
    && FiredIn(fs, byID, findings, root, u.ruleID)
    && DeclaredUnmet(byID, u.ruleID, fs.requiresOf(root), u)
  }

  predicate DeclaredUnmet(byID: map<string, Rule>, id: string, required: RequireMap, u: UnmetFloor) {
    id in byID && u.ruleID == id && NeedsMore(byID[id], required, u)
  }

  // A later rule wins: the rule under an ID is the last that has it.
  lemma {:induction false} ByIDLast(rules: seq<Rule>, k: nat)
    requires k < |rules| && forall j :: k < j < |rules| ==> rules[j].id != rules[k].id
    ensures rules[k].id in ByID(rules) && ByID(rules)[rules[k].id] == rules[k]
  {
    var n := |rules| - 1;
    if k < n {
      assert rules[..n][k] == rules[k];
      ByIDLast(rules[..n], k);
    }
  }

  lemma {:induction false} ByIDExact(rules: seq<Rule>)
    ensures forall id :: id in ByID(rules) ==> ByID(rules)[id].id == id && ByID(rules)[id] in rules
    ensures forall r :: r in rules ==> r.id in ByID(rules)
  {
    if rules != [] {
      ByIDExact(rules[..|rules| - 1]);
      assert rules == rules[..|rules| - 1] + [rules[|rules| - 1]];
    }
  }

  // ---- The pass ----------------------------------------------------------

  method IndexRules(rules: seq<Rule>) returns (byID: map<string, Rule>)
    ensures byID == ByID(rules)
  {
    byID := map[];
    for i := 0 to |rules|
      invariant byID == ByID(rules[..i])
    {
      assert rules[..i + 1][..i] == rules[..i];
      byID := byID[rules[i].id := rules[i]];
    }
    assert rules[..|rules|] == rules;
  }

  predicate HasFired(fired: map<Dir, set<string>>, root: Dir, id: string) {
    root in fired && id in fired[root]
  }

  // The result is the findings that pass the gate, in order, then exactly the
  // floor reports that belong.
  method ApplyVersionFloors(fs: FileSystem, findings: seq<Finding>, rules: seq<Rule>) returns (out: seq<Report>)
    ensures var kept := KeptReports(fs, ByID(rules), findings);
      && kept <= out
      && (forall r :: r in out[|kept|..] ==> r.Floor?)
      && forall root, u :: Floor(root, u) in out[|kept|..] <==> Belongs(fs, ByID(rules), findings, root, u)
    ensures exists fired ::
      FiredExactly(fs, ByID(rules), findings, fired) &&
        InOrder(fs, ByID(rules), fired, out[|KeptReports(fs, ByID(rules), findings)|..])
    ensures exists k: nat ::
      k <= |out| && Selects(AllScanned(findings), out[..k], Passing(fs, rules, findings)) &&
        forall i :: k <= i < |out| ==> out[i].Floor?
    ensures forall f :: Scanned(f) in out <==> f in findings && Passes(fs, rules, f)
    ensures forall root, u :: Floor(root, u) in out <==> exists f :: f in findings && Calls(fs, rules, f, root, u)
  {
    KeptSelects(fs, rules, findings);
    CallsExact(fs, rules, findings);
    var byID := IndexRules(rules);
    ByIDExact(rules);
    var cache := new ModuleStateCache(fs);
    var kept, fired := Gate(cache, findings, byID);
    var more := FloorFindings(cache, fired, byID);
    out := kept + more;
    assert out[|kept|..] == more;
    assert FiredExactly(fs, byID, findings, fired) && InOrder(fs, byID, fired, out[|kept|..]);
    forall root, u
      ensures Floor(root, u) in more <==> Belongs(fs, byID, findings, root, u)
    {
      assert HasFired(fired, root, u.ruleID) <==> FiredIn(fs, byID, findings, root, u.ruleID);
    }
    KeptScanned(fs, rules, findings);
    assert forall f :: Scanned(f) in out <==> Scanned(f) in kept || Scanned(f) in more;
  }

  // The findings whose rule may fire, and which rules fired in which root.
  method Gate(cache: ModuleStateCache, findings: seq<Finding>, byID: map<string, Rule>)
    returns (kept: seq<Report>, fired: map<Dir, set<string>>)
    requires cache.Valid()
    modifies cache
    ensures cache.Valid()
    ensures kept == KeptReports(cache.fs, byID, findings)
    ensures forall root :: root in fired ==> root in cache.byRoot
    ensures forall root, id :: HasFired(fired, root, id) <==> FiredIn(cache.fs, byID, findings, root, id)
  {
    kept, fired := [], map[];
    for i := 0 to |findings|
      invariant cache.Valid()
      invariant kept == KeptReports(cache.fs, byID, findings[..i])
      invariant forall root :: root in fired ==> root in cache.byRoot
      invariant FiredExactly(cache.fs, byID, findings[..i], fired)
    {
      assert findings[..i + 1][..i] == findings[..i] && findings[..i + 1] == findings[..i] + [findings[i]];
      var more;
      more, fired := GateOne(cache, findings[..i], findings[i], byID, fired);
      kept := kept + more;
    }
    assert findings[..|findings|] == findings;
  }

  method GateOne(cache: ModuleStateCache, ghost done: seq<Finding>, f: Finding, byID: map<string, Rule>,
                 before: map<Dir, set<string>>)
    returns (more: seq<Report>, fired: map<Dir, set<string>>)
    requires cache.Valid() && forall root :: root in before ==> root in cache.byRoot
    requires FiredExactly(cache.fs, byID, done, before)
    modifies cache
    ensures cache.Valid() && forall root :: root in fired ==> root in cache.byRoot
    ensures more == if GatedOut(cache.fs, byID, f) then [] else [Scanned(f)]
    ensures FiredExactly(cache.fs, byID, done + [f], fired)
  {
    FiredInAppend(cache.fs, byID, done, f);
    fired := before;
    if f.ruleID !in byID {
      return [Scanned(f)], fired;
    }
    var st := cache.ForFile(f.file);
    if Blocked(st, byID[f.ruleID]) {
      return [], fired;
    }
    if st.Some? {
      fired := AddFired(fired, st.value.root, f.ruleID);
    }
    more := [Scanned(f)];
  }

  // The rule needs a Go version the module does not declare.
  predicate Blocked(st: Option<ModuleState>, rule: Rule) {
    rule.needs.Some? && rule.needs.value.go != [] &&
    (st.None? || !GoDirectiveAtLeast(st.value.go, rule.needs.value.go))
  }

  method AddFired(fired: map<Dir, set<string>>, root: Dir, id: string) returns (more: map<Dir, set<string>>)
    ensures more.Keys == fired.Keys + {root}
    ensures forall r, x :: HasFired(more, r, x) <==> (HasFired(fired, r, x) || (r == root && x == id))
  {
    var ids := if root in fired then fired[root] else {};
    more := fired[root := ids + {id}];
  }

  lemma FiredInAppend(fs: FileSystem, byID: map<string, Rule>, findings: seq<Finding>, f: Finding)
    ensures forall root, id ::
      FiredIn(fs, byID, findings + [f], root, id) <==>
        (FiredIn(fs, byID, findings, root, id) || Fires(fs, byID, f, root, id))
  {
    forall root, id
      ensures FiredIn(fs, byID, findings + [f], root, id)
        <==> (FiredIn(fs, byID, findings, root, id) || Fires(fs, byID, f, root, id))
    {
      if FiredIn(fs, byID, findings, root, id) {
        var g :| g in findings && Fires(fs, byID, g, root, id);
        assert g in findings + [f];
      }
      if Fires(fs, byID, f, root, id) {
        assert f in findings + [f];
      }
    }
  }

  // What fired in each module.
  ghost predicate FiredExactly(fs: FileSystem, byID: map<string, Rule>, findings: seq<Finding>, fired: map<Dir,
                               set<string>>) {
    forall root, id :: HasFired(fired, root, id) <==> FiredIn(fs, byID, findings, root, id)
  }

  function RulesAt(ids: seq<string>, byID: map<string, Rule>): seq<Rule> {
    if ids == [] then []
    else
      var n := |ids| - 1;
      RulesAt(ids[..n], byID) + if ids[n] in byID then [byID[ids[n]]] else []
  }

  // One root's reports: its unmet floors, rule by rule.
  function RootReports(fs: FileSystem, byID: map<string, Rule>, root: Dir, ids: seq<string>): seq<Report> {
    MapSeq((u: UnmetFloor) => Floor(root, u), UnmetOf(AllFloors(RulesAt(ids, byID)), fs.requiresOf(root)))
  }

  function ReportsIn(fs: FileSystem, byID: map<string, Rule>, roots: seq<Dir>, idsOf: map<Dir,
                     seq<string>>): seq<Report> {
    if roots == [] then []
    else
      var n := |roots| - 1;
      ReportsIn(fs, byID, roots[..n], idsOf) + if roots[n] in idsOf then RootReports(fs, byID, roots[n],
        idsOf[roots[n]]) else []
  }

  // Root by root in the order of their text, rule by rule in the order of
  // their IDs, each once.
  ghost predicate InOrder(fs: FileSystem, byID: map<string, Rule>, fired: map<Dir, set<string>>, out: seq<Report>) {
    exists roots, idsOf :: Lists(fired, roots, idsOf) && out == ReportsIn(fs, byID, roots, idsOf)
  }

  ghost predicate Lists(fired: map<Dir, set<string>>, roots: seq<Dir>, idsOf: map<Dir, seq<string>>) {
    && SortedListing(PathLess, roots, fired.Keys) && idsOf.Keys == fired.Keys
    && forall root :: root in fired ==> SortedListing(TextLess, idsOf[root], fired[root])
  }

  method FloorFindings(cache: ModuleStateCache, fired: map<Dir, set<string>>, byID: map<string,
                       Rule>) returns (out: seq<Report>)
    requires cache.Valid()
    requires forall root :: root in fired ==> root in cache.byRoot
    requires forall id :: id in byID ==> byID[id].id == id
    ensures forall r :: r in out ==> r.Floor?
    ensures forall root, u ::
      Floor(root, u) in out <==>
        HasFired(fired, root, u.ruleID) && DeclaredUnmet(byID, u.ruleID, cache.fs.requiresOf(root), u)
    ensures InOrder(cache.fs, byID, fired, out)
  {
    TextOrders();
    var roots := Enumerate(fired.Keys);
    roots := SortDistinct(roots, PathLess);
    ghost var idsOf;
    out, idsOf := ReportRoots(cache, fired, byID, roots);
    AllListed(fired, roots, idsOf);
    ReportsAre(cache.fs, byID, fired, roots, idsOf);
  }

  // The IDs of these roots have been listed.
  ghost predicate ListedUpTo(fired: map<Dir, set<string>>, done: seq<Dir>, idsOf: map<Dir, seq<string>>) {
    && (forall root :: root in idsOf <==> root in done)
    && forall root :: root in idsOf ==> root in fired && SortedListing(TextLess, idsOf[root], fired[root])
  }

  lemma AllListed(fired: map<Dir, set<string>>, roots: seq<Dir>, idsOf: map<Dir, seq<string>>)
    requires SortedListing(PathLess, roots, fired.Keys) && ListedUpTo(fired, roots, idsOf)
    ensures Lists(fired, roots, idsOf)
  {
  }

  // These roots have been reported.
  ghost predicate RootsDone(fs: FileSystem, byID: map<string, Rule>, fired: map<Dir, set<string>>, done: seq<Dir>,
                            idsOf: map<Dir, seq<string>>, out: seq<Report>) {
    ListedUpTo(fired, done, idsOf) && out == ReportsIn(fs, byID, done, idsOf)
  }

  lemma OneMore(fs: FileSystem, byID: map<string, Rule>, fired: map<Dir, set<string>>, done: seq<Dir>,
                idsOf: map<Dir, seq<string>>, out: seq<Report>, root: Dir, ids: seq<string>)
    requires RootsDone(fs, byID, fired, done, idsOf, out) && root !in done
    requires root in fired && SortedListing(TextLess, ids, fired[root])
    ensures RootsDone(fs, byID, fired, done + [root], idsOf[root := ids], out + RootReports(fs, byID, root, ids))
  {
    NewRoot(fs, byID, done, idsOf, root, ids);
  }

  method ReportRoots(cache: ModuleStateCache, fired: map<Dir, set<string>>, byID: map<string, Rule>, roots: seq<Dir>)
    returns (out: seq<Report>, ghost idsOf: map<Dir, seq<string>>)
    requires cache.Valid() && Distinct(roots)
    requires forall root :: root in roots ==> root in fired && root in cache.byRoot
    ensures RootsDone(cache.fs, byID, fired, roots, idsOf, out)
  {
    out, idsOf := [], map[];
    for i := 0 to |roots|
      invariant RootsDone(cache.fs, byID, fired, roots[..i], idsOf, out)
    {
      var root := roots[i];
      NextEntry(roots, i);
      var more;
      ghost var ids;
      more, ids := ReportRoot(cache, fired[root], byID, root);
      OneMore(cache.fs, byID, fired, roots[..i], idsOf, out, root, ids);
      out, idsOf := out + more, idsOf[root := ids];
    }
    assert roots[..|roots|] == roots;
  }

  lemma NextEntry(roots: seq<Dir>, i: nat)
    requires Distinct(roots) && i < |roots|
    ensures roots[i] in roots && roots[i] !in roots[..i] && roots[..i + 1] == roots[..i] + [roots[i]]
  {
  }

  lemma ReportsAre(fs: FileSystem, byID: map<string, Rule>, fired: map<Dir, set<string>>, roots: seq<Dir>,
                   idsOf: map<Dir, seq<string>>)
    requires Lists(fired, roots, idsOf) && forall id :: id in byID ==> byID[id].id == id
    ensures var out := ReportsIn(fs, byID, roots, idsOf);
      && (forall r :: r in out ==> r.Floor?)
      && forall root, u ::
           Floor(root, u) in out <==>
             HasFired(fired, root, u.ruleID) && DeclaredUnmet(byID, u.ruleID, fs.requiresOf(root), u)
  {
    ReportsMembers(fs, byID, roots, idsOf);
    forall root, u
      ensures RootDeclares(fs, byID, idsOf, root, u) && root in roots
        <==> HasFired(fired, root, u.ruleID) && DeclaredUnmet(byID, u.ruleID, fs.requiresOf(root), u)
    {
      assert root in roots <==> root in fired;
      assert root in fired ==> (u.ruleID in idsOf[root] <==> u.ruleID in fired[root]);
    }
  }

  predicate RootDeclares(fs: FileSystem, byID: map<string, Rule>, idsOf: map<Dir, seq<string>>, root: Dir,
                         u: UnmetFloor) {
    root in idsOf && u.ruleID in idsOf[root] && DeclaredUnmet(byID, u.ruleID, fs.requiresOf(root), u)
  }

  lemma {:induction false} ReportsMembers(fs: FileSystem, byID: map<string, Rule>, roots: seq<Dir>, idsOf: map<Dir,
                                          seq<string>>)
    requires forall id :: id in byID ==> byID[id].id == id
    ensures forall r :: r in ReportsIn(fs, byID, roots, idsOf) ==> r.Floor?
    ensures forall root, u ::
      Floor(root, u) in ReportsIn(fs, byID, roots, idsOf) <==> root in roots && RootDeclares(fs, byID, idsOf, root, u)
  {
    if roots != [] {
      var n := |roots| - 1;
      ReportsMembers(fs, byID, roots[..n], idsOf);
      assert roots == roots[..n] + [roots[n]];
      if roots[n] in idsOf {
        RootMembers(fs, byID, roots[n], idsOf[roots[n]]);
      }
    }
  }

  lemma RootMembers(fs: FileSystem, byID: map<string, Rule>, root: Dir, ids: seq<string>)
    requires forall id :: id in byID ==> byID[id].id == id
    ensures forall r :: r in RootReports(fs, byID, root, ids) ==> r.Floor?
    ensures forall r, u :: Floor(r, u) in RootReports(fs, byID, root, ids) <==>
      r == root && u.ruleID in ids && DeclaredUnmet(byID, u.ruleID, fs.requiresOf(root), u)
  {
    RulesAtMembers(ids, byID);
    FloorsMapped(root, UnmetOf(AllFloors(RulesAt(ids, byID)), fs.requiresOf(root)));
    forall u
      ensures u in UnmetOf(AllFloors(RulesAt(ids, byID)), fs.requiresOf(root))
        <==> u.ruleID in ids && DeclaredUnmet(byID, u.ruleID, fs.requiresOf(root), u)
    {
      UnmetMembers(ids, byID, RulesAt(ids, byID), fs.requiresOf(root), u);
    }
  }

  lemma {:induction false} RulesAtMembers(ids: seq<string>, byID: map<string, Rule>)
    ensures forall r :: r in RulesAt(ids, byID) <==> exists i :: 0 <= i < |ids| && ids[i] in byID && byID[ids[i]] == r
  {
    if ids != [] {
      var n := |ids| - 1;
      RulesAtMembers(ids[..n], byID);
      forall r
        ensures r in RulesAt(ids, byID) <==> exists i :: 0 <= i < |ids| && ids[i] in byID && byID[ids[i]] == r
      {
        if i :| 0 <= i < |ids| && ids[i] in byID && byID[ids[i]] == r && i < n {
          assert ids[..n][i] == ids[i];
        }
      }
    }
  }

  lemma NewRoot(fs: FileSystem, byID: map<string, Rule>, roots: seq<Dir>, idsOf: map<Dir, seq<string>>, root: Dir,
                ids: seq<string>)
    requires root !in roots
    ensures ReportsIn(fs, byID, roots + [root], idsOf[root := ids])
      == ReportsIn(fs, byID, roots, idsOf) + RootReports(fs, byID, root, ids)
  {
    assert (roots + [root])[..|roots|] == roots;
    SameReports(fs, byID, roots, idsOf, idsOf[root := ids]);
  }

  lemma {:induction false} SameReports(fs: FileSystem, byID: map<string, Rule>, roots: seq<Dir>, a: map<Dir,
                                       seq<string>>, b: map<Dir, seq<string>>)
    requires forall r :: r in roots ==> (r in a <==> r in b) && (r in a ==> a[r] == b[r])
    ensures ReportsIn(fs, byID, roots, a) == ReportsIn(fs, byID, roots, b)
  {
    if roots != [] {
      var n := |roots| - 1;
      assert roots[n] in roots && forall r :: r in roots[..n] ==> r in roots;
      SameReports(fs, byID, roots[..n], a, b);
    }
  }

  // The reports of one root.
  method ReportRoot(cache: ModuleStateCache, firedIDs: set<string>, byID: map<string, Rule>, root: Dir)
    returns (out: seq<Report>, ghost ids: seq<string>)
    requires cache.Valid() && root in cache.byRoot
    ensures SortedListing(TextLess, ids, firedIDs) && out == RootReports(cache.fs, byID, root, ids)
  {
    TextOrders();
    var st := cache.byRoot[root];
    var sorted := Enumerate(firedIDs);
    sorted := SortDistinct(sorted, TextLess);
    var firedRules := RulesOf(sorted, byID);
    var unmet := UnmetFloors(firedRules, st.required);
    out, ids := MapSeq((u: UnmetFloor) => Floor(root, u), unmet), sorted;
  }

  lemma FloorsMapped(root: Dir, unmet: seq<UnmetFloor>)
    ensures forall r, u :: Floor(r, u) in MapSeq((x: UnmetFloor) => Floor(root, x), unmet) <==> r == root && u in unmet
  {
    var reports := MapSeq((x: UnmetFloor) => Floor(root, x), unmet);
    forall u | u in unmet
      ensures Floor(root, u) in reports
    {
      var i :| 0 <= i < |unmet| && unmet[i] == u;
      assert reports[i] == Floor(root, u);
    }
  }

  method RulesOf(ids: seq<string>, byID: map<string, Rule>) returns (rules: seq<Rule>)
    ensures rules == RulesAt(ids, byID)
  {
    rules := [];
    for i := 0 to |ids|
      invariant rules == RulesAt(ids[..i], byID)
    {
      assert ids[..i + 1][..i] == ids[..i];
      if ids[i] in byID {
        rules := rules + [byID[ids[i]]];
      }
    }
    assert ids[..|ids|] == ids;
  }

  lemma UnmetMembers(ids: seq<string>, byID: map<string, Rule>, rules: seq<Rule>, current: RequireMap, u: UnmetFloor)
    requires forall r :: r in rules <==> exists i :: 0 <= i < |ids| && ids[i] in byID && byID[ids[i]] == r
    requires forall id :: id in byID ==> byID[id].id == id
    ensures u in UnmetOf(AllFloors(rules), current) <==> u.ruleID in ids && DeclaredUnmet(byID, u.ruleID, current, u)
  {
    UnmetExact(rules, current);
    if u.ruleID in ids && DeclaredUnmet(byID, u.ruleID, current, u) {
      var i :| 0 <= i < |ids| && ids[i] == u.ruleID;
      assert byID[ids[i]] in rules;
    }
  }
}
