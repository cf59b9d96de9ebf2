// fixGoMod: swap, raise, drop, add on the requirements of one go.mod.
module GoMod {
  import opened Options
  import opened Sequences
  import opened Semver
  import opened Floors

  datatype Rewrite = Rewrite(ruleID: string, from: ModPath, to: ModPath)

  predicate IsRewriteRule(r: Rule) {
    r.kind == ImportChange && r.packageAll && r.mechanical && r.from != [] && r.to != [] && !IsStdlibPath(r.to)
  }

  function Rewrites(rules: seq<Rule>): seq<Rewrite> {
    if rules == [] then []
    else if IsRewriteRule(rules[0]) then
      [Rewrite(rules[0].id, rules[0].from, rules[0].to)] + Rewrites(rules[1..])
    else Rewrites(rules[1..])
  }

  // The rules that move a whole package mechanically from one named path to
  // another whose first element has a dot.
  function Moves(rules: seq<Rule>): set<nat> {
    set i: nat |
      && i < |rules| && rules[i].kind.ImportChange? && rules[i].packageAll && rules[i].mechanical
      && |rules[i].from| > 0 && |rules[i].to| > 0 && '.' in rules[i].to[0]
  }

  function AsRewrites(rules: seq<Rule>): seq<Rewrite> {
    MapSeq((r: Rule) => AsRewrite(r), rules)
  }

  function AsRewrite(r: Rule): Rewrite { Rewrite(r.id, r.from, r.to) }

  // What the first rule adds to the rewrites of the others.
  lemma RewritesCons(rules: seq<Rule>) returns (x: Rewrite, taken: bool)
    requires rules != []
    ensures AsRewrites(rules) == [x] + AsRewrites(rules[1..])
    ensures Rewrites(rules) == if taken then [x] + Rewrites(rules[1..]) else Rewrites(rules[1..])
    ensures forall i: nat :: i in Moves(rules) <==> if i == 0 then taken else i - 1 in Moves(rules[1..])
  {
    x, taken := AsRewrite(rules[0]), IsRewriteRule(rules[0]);
    MovesTail(rules);
    AsRewritesTail(rules);
  }

  lemma AsRewritesTail(rules: seq<Rule>)
    requires rules != []
    ensures AsRewrites(rules) == [AsRewrite(rules[0])] + AsRewrites(rules[1..])
  {
  }

  lemma MovesTail(rules: seq<Rule>)
    requires rules != []
    ensures forall i: nat ::
      i in Moves(rules) <==> if i == 0 then IsRewriteRule(rules[0]) else i - 1 in Moves(rules[1..])
  {
    forall i: nat | i > 0
      ensures i in Moves(rules) <==> i - 1 in Moves(rules[1..])
    {
      assert i < |rules| ==> rules[i] == rules[1..][i - 1];
    }
  }

  // Each of these becomes one rewrite, in rule-set order, and nothing else.
  lemma {:induction false} RewritesExact(rules: seq<Rule>)
    ensures Selects(AsRewrites(rules), Rewrites(rules), Moves(rules))
  {
    if rules == [] {
      NoRewrites();
    } else {
      RewritesExact(rules[1..]);
      var x, taken := RewritesCons(rules);
      OneSelected(AsRewrites(rules[1..]), Rewrites(rules[1..]), Moves(rules[1..]), x, taken, AsRewrites(rules),
                  Rewrites(rules), Moves(rules));
    }
  }

  lemma NoRewrites()
    ensures Selects(AsRewrites([]), Rewrites([]), Moves([]))
  {
    SelectsNone<Rewrite>();
    assert AsRewrites([]) == [] && Moves([]) == {};
  }

  lemma OneSelected(whole: seq<Rewrite>, part: seq<Rewrite>, keep: set<nat>, x: Rewrite, taken: bool,
                    whole': seq<Rewrite>, part': seq<Rewrite>, keep': set<nat>)
    requires Selects(whole, part, keep)
    requires whole' == [x] + whole && part' == if taken then [x] + part else part
    requires forall i: nat :: i in keep' <==> if i == 0 then taken else i - 1 in keep
    ensures Selects(whole', part', keep')
  {
    SelectsCons(whole, part, keep, x, taken, keep');
  }

  method ImportRewriteRules(rules: seq<Rule>) returns (out: seq<Rewrite>)
    ensures out == Rewrites(rules)
    ensures Selects(AsRewrites(rules), out, Moves(rules))
  {
    RewritesExact(rules);
    out := [];
    for i := 0 to |rules|
      invariant out + Rewrites(rules[i..]) == Rewrites(rules)
    {
      var r := rules[i];
      assert rules[i..][1..] == rules[i + 1..];
      if r.kind != ImportChange || !r.packageAll || !r.mechanical {
        continue;
      }
      if r.from == [] || r.to == [] {
        continue;
      }
      if IsStdlibPath(r.to) {
        continue;
      }
      out := out + [Rewrite(r.id, r.from, r.to)];
    }
  }

  // ---- Absorbed and companion modules ------------------------------------

  predicate Absorbs(r: Rule, path: ModPath) {
    r.kind == ExtensionAbsorbed && path != [] && OwningModule(r.extensionModule) == path
  }

  // Absorbed module to the last fired rule that says so.
  function Absorbed(fired: seq<Rule>): map<ModPath, string> {
    if fired == [] then map[]
    else
      var r := fired[|fired| - 1];
      var rest := Absorbed(fired[..|fired| - 1]);
      if r.kind == ExtensionAbsorbed && OwningModule(r.extensionModule) != []
      then rest[OwningModule(r.extensionModule) := r.id] else rest
  }

  method AbsorbedModules(fired: seq<Rule>) returns (out: map<ModPath, string>)
    ensures out == Absorbed(fired)
  {
    out := map[];
    for i := 0 to |fired|
      invariant out == Absorbed(fired[..i])
    {
      assert fired[..i + 1][..i] == fired[..i];
      if fired[i].kind != ExtensionAbsorbed || fired[i].extensionModule == [] {
        continue;
      }
      var path := ModulePathOf(fired[i].extensionModule);
      if path != [] {
        out := out[path := fired[i].id];
      }
    }
    assert fired[..|fired|] == fired;
  }

  // Fired rule i is the last that absorbs the module.
  predicate LastAbsorber(fired: seq<Rule>, i: nat, path: ModPath) {
    && i < |fired| && fired[i].kind.ExtensionAbsorbed? && path != [] && OwningModule(fired[i].extensionModule) == path
    && forall j :: i < j < |fired| ==> !Absorbs(fired[j], path)
  }

  // A module is absorbed exactly when some fired rule names it, and the last
  // one that does is the rule recorded.
  lemma AbsorbedExact(fired: seq<Rule>, path: ModPath)
    ensures path in Absorbed(fired) <==> exists i :: 0 <= i < |fired| && Absorbs(fired[i], path)
    ensures path in Absorbed(fired) <==> exists i: nat :: LastAbsorber(fired, i, path)
    ensures forall i: nat :: LastAbsorber(fired, i, path) ==>
      path in Absorbed(fired) && Absorbed(fired)[path] == fired[i].id
  {
    forall i: nat | LastAbsorber(fired, i, path)
      ensures path in Absorbed(fired) && Absorbed(fired)[path] == fired[i].id
    {
      AbsorbedByLast(fired, i, path);
    }
    if path in Absorbed(fired) {
      var i := AbsorberOf(fired, path);
      assert Absorbs(fired[i], path);
    }
    if i :| 0 <= i < |fired| && Absorbs(fired[i], path) {
      var k := LastFrom(fired, i, path);
      assert LastAbsorber(fired, k, path);
    }
  }

  lemma {:induction false} AbsorbedByLast(fired: seq<Rule>, i: nat, path: ModPath)
    requires LastAbsorber(fired, i, path)
    ensures path in Absorbed(fired) && Absorbed(fired)[path] == fired[i].id
  {
    var n := |fired| - 1;
    if i < n {
      var front := fired[..n];
      assert front[i] == fired[i] && !Absorbs(fired[n], path);
      AbsorbedByLast(front, i, path);
    }
  }

  lemma {:induction false} AbsorberOf(fired: seq<Rule>, path: ModPath) returns (i: nat)
    requires path in Absorbed(fired)
    ensures LastAbsorber(fired, i, path)
  {
    var n := |fired| - 1;
    if Absorbs(fired[n], path) {
      i := n;
    } else {
      i := AbsorberOf(fired[..n], path);
    }
  }

  lemma {:induction false} LastFrom(fired: seq<Rule>, i: nat, path: ModPath) returns (k: nat)
    requires i < |fired| && Absorbs(fired[i], path)
    ensures LastAbsorber(fired, k, path)
    decreases |fired| - i
  {
    if j :| i < j < |fired| && Absorbs(fired[j], path) {
      k := LastFrom(fired, j, path);
    } else {
      k := i;
    }
  }

  datatype Companion = Companion(ruleID: string, version: Version)

  function CompanionOf(t: Target, r: Rule): ModPath {
    if r.kind == MovedToExtension && r.needs.Some? && OwningModule(r.extensionModule) != t.path
    then OwningModule(r.extensionModule) else []
  }

  function AddCompanion(out: map<ModPath, Companion>, path: ModPath, id: string,
                        modules: seq<ModuleRequirement>): map<ModPath, Companion>
    decreases |modules|
  {
    if modules == [] then out
    else
      var m := modules[0];
      AddCompanion(if m.path == path && (path !in out || Compare(m.version, out[path].version) > 0)
                   then out[path := Companion(id, m.version)] else out, path, id, modules[1..])
  }

  function AddCompanions(out: map<ModPath, Companion>, t: Target, fired: seq<Rule>): map<ModPath, Companion>
    decreases |fired|
  {
    if fired == [] then out
    else AddCompanions(if CompanionOf(t, fired[0]) == [] then out
                       else AddCompanion(out, CompanionOf(t, fired[0]), fired[0].id, fired[0].Modules()), t, fired[1..])
  }

  function Companions(t: Target, fired: seq<Rule>): map<ModPath, Companion> {
    AddCompanions(map[], t, fired)
  }

  method CompanionRequirements(t: Target, fired: seq<Rule>) returns (out: map<ModPath, Companion>)
    ensures out == Companions(t, fired)
  {
    out := map[];
    for i := 0 to |fired|
      invariant AddCompanions(out, t, fired[i..]) == Companions(t, fired)
    {
      var r := fired[i];
      assert fired[i..][1..] == fired[i + 1..];
      if r.kind != MovedToExtension || r.needs.None? {
        continue;
      }
      var target := ModulePathOf(r.extensionModule);
      if target == [] || target == t.path {
        continue;
      }
      var modules := r.needs.value.modules;
      for j := 0 to |modules|
        invariant AddCompanions(AddCompanion(out, target, r.id, modules[j..]), t, fired[i + 1..])
          == Companions(t, fired)
      {
        assert modules[j..][1..] == modules[j + 1..];
        if modules[j].path != target {
          continue;
        }
        if target !in out || Compare(modules[j].version, out[target].version) > 0 {
          out := out[target := Companion(r.id, modules[j].version)];
        }
      }
    }
  }

  // ---- The parsed file ---------------------------------------------------

  // The require block: paths in file order, and the version of each.
  class ModFile {
    var paths: seq<ModPath>
    var require: RequireMap

    constructor (paths: seq<ModPath>, require: RequireMap)
      ensures this.paths == paths && this.require == require
    {
      this.paths, this.require := paths, require;
    }

    method DropRequire(path: ModPath)
      modifies this`require
      ensures require == old(require) - {path}
    {
      require := require - {path};
    }

    // Sets the version of a present requirement, or adds a new one.
    method AddRequire(path: ModPath, version: Version)
      modifies this`require
      ensures require == old(require)[path := version]
    {
      require := require[path := version];
    }
  }

  // ---- The four steps on the map -----------------------------------------

  // The rewrite step 1 performs on a requirement: the first that names it.
  function RewriteFor(rewrites: seq<Rewrite>, path: ModPath): Option<Rewrite> {
    if rewrites == [] then None
    else if rewrites[0].from == path then Some(rewrites[0])
    else RewriteFor(rewrites[1..], path)
  }

  lemma {:induction false} RewriteForFirst(rewrites: seq<Rewrite>, path: ModPath, i: nat)
    requires i < |rewrites| && rewrites[i].from == path && forall j :: 0 <= j < i ==> rewrites[j].from != path
    ensures RewriteFor(rewrites, path) == Some(rewrites[i])
  {
    if i > 0 {
      assert rewrites[1..][i - 1] == rewrites[i] && forall j :: 0 <= j < i - 1 ==> rewrites[1..][j] == rewrites[j + 1];
      assert rewrites[0].from != path;
      RewriteForFirst(rewrites[1..], path, i - 1);
    }
  }

  datatype Plan = Impossible(ruleID: string) | Plan(require: RequireMap, applied: set<string>)

  function SwapOne(plan: Plan, path: ModPath, rewrites: seq<Rewrite>, t: Target, fired: seq<Rule>): Plan {
    var rw := RewriteFor(rewrites, path);
    if plan.Impossible? || rw.None? then plan
    else
      var version := Required(t, rw.value.to, fired);
      if version.None? then Impossible(rw.value.ruleID)
      else Plan((plan.require - {path})[rw.value.to := version.value], plan.applied + {rw.value.ruleID})
  }

  function Swap(plan: Plan, paths: seq<ModPath>, rewrites: seq<Rewrite>, t: Target, fired: seq<Rule>): Plan
    decreases |paths|
  {
    if paths == [] then plan else Swap(SwapOne(plan, paths[0], rewrites, t, fired), paths[1..], rewrites, t, fired)
  }

  function RaiseEach(require: RequireMap, unmet: seq<UnmetFloor>): RequireMap
    decreases |unmet|
  {
    if unmet == [] then require else RaiseEach(require[unmet[0].path := unmet[0].need], unmet[1..])
  }

  function RuleIDs(unmet: seq<UnmetFloor>): set<string> {
    set i | 0 <= i < |unmet| :: unmet[i].ruleID
  }

  function MissingOf(require: RequireMap, companions: map<ModPath, Companion>, among: set<ModPath>): RequireMap {
    map p | p in among && p in companions && p !in require :: companions[p].version
  }

  function MissingIDs(require: RequireMap, companions: map<ModPath, Companion>, among: set<ModPath>): set<string> {
    set p | p in among && p in companions && p !in require :: companions[p].ruleID
  }

  function AddMissing(require: RequireMap, companions: map<ModPath, Companion>): RequireMap {
    require + MissingOf(require, companions, companions.Keys)
  }

  // Steps 2 to 4 after the swap.
  function Finish(plan: Plan, t: Target, fired: seq<Rule>): Plan {
    if plan.Impossible? then plan
    else
      var unmet := UnmetOf(AllFloors(fired), plan.require);
      var raised := RaiseEach(plan.require, unmet);
      var absorbed := Absorbed(fired);
      var dropped := raised - absorbed.Keys;
      var companions := Companions(t, fired);
      Plan(AddMissing(dropped, companions),
           plan.applied + RuleIDs(unmet)
           + (set p | p in absorbed && p in raised :: absorbed[p])
           + MissingIDs(dropped, companions, companions.Keys))
  }

  function Planned(paths: seq<ModPath>, require: RequireMap, rules: seq<Rule>, t: Target, fired: seq<Rule>): Plan {
    Finish(Swap(Plan(require, {}), paths, Rewrites(rules), t, fired), t, fired)
  }

  datatype FixResult = Failed(ruleID: string) | Unchanged | Written(applied: set<string>)

  // Map iteration has no fixed order in steps 3 and 4; the result has.
  method FixGoMod(mf: ModFile, rules: seq<Rule>, t: Target, fired: seq<Rule>) returns (result: FixResult)
    modifies mf
    ensures var plan := Planned(old(mf.paths), old(mf.require), rules, t, fired);
      match plan
      case Impossible(id) => result == Failed(id)
      case Plan(require, applied) => mf.require == require && result == if applied == {} then Unchanged
        else Written(applied)
  {
    ghost var plan := Planned(mf.paths, mf.require, rules, t, fired);
    var applied: set<string> := {};
    var order := mf.paths;
    var rewrites := ImportRewriteRules(rules);
    // 1. Swap the migration source for the target.
    for i := 0 to |order|
      invariant mf.paths == old(mf.paths)
      invariant Finish(Swap(Plan(mf.require, applied), order[i..], rewrites, t, fired), t, fired) == plan
    {
      assert order[i..][1..] == order[i + 1..];
      var failed;
      failed, applied := SwapRequire(mf, order[i], rewrites, t, fired, applied);
      if failed.Some? {
        SwapImpossible(failed.value, order[i + 1..], rewrites, t, fired);
        return Failed(failed.value);
      }
    }
    // 2. Raise what a fired rule needs higher; the list is computed once.
    var unmet := UnmetFloors(fired, mf.require);
    applied := RaiseRequires(mf, unmet, applied);
    // 3. Drop absorbed modules.
    var absorbed := AbsorbedModules(fired);
    applied := DropAbsorbed(mf, absorbed, applied);
    // 4. Add companions that are not there.
    var companions := CompanionRequirements(t, fired);
    applied := AddCompanionRequires(mf, companions, applied);
    result := if applied == {} then Unchanged else Written(applied);
  }

  lemma {:induction false} SwapImpossible(id: string, paths: seq<ModPath>, rewrites: seq<Rewrite>, t: Target,
                                          fired: seq<Rule>)
    ensures Swap(Impossible(id), paths, rewrites, t, fired) == Impossible(id)
  {
    if paths != [] {
      SwapImpossible(id, paths[1..], rewrites, t, fired);
    }
  }

  // One requirement against every rewrite. Dropping it blanks its path, so
  // later rewrites do not match.
  method SwapRequire(mf: ModFile, path: ModPath, rewrites: seq<Rewrite>, t: Target, fired: seq<Rule>,
                     before: set<string>)
    returns (failed: Option<string>, applied: set<string>)
    modifies mf`require
    ensures var next := SwapOne(Plan(old(mf.require), before), path, rewrites, t, fired);
      if failed.Some? then next == Impossible(failed.value) else next == Plan(mf.require, applied)
  {
    applied := before;
    for j := 0 to |rewrites|
      invariant mf.require == old(mf.require) && applied == before
      invariant RewriteFor(rewrites[j..], path) == RewriteFor(rewrites, path)
    {
      assert rewrites[j..][1..] == rewrites[j + 1..];
      if rewrites[j].from != path {
        continue;
      }
      mf.DropRequire(path);
      var version := RequiredVersionFor(t, rewrites[j].to, fired);
      if version.None? {
        return Some(rewrites[j].ruleID), applied;
      }
      mf.AddRequire(rewrites[j].to, version.value);
      return None, applied + {rewrites[j].ruleID};
    }
    failed := None;
  }

  method RaiseRequires(mf: ModFile, unmet: seq<UnmetFloor>, before: set<string>) returns (applied: set<string>)
    modifies mf`require
    ensures mf.require == RaiseEach(old(mf.require), unmet)
    ensures applied == before + RuleIDs(unmet)
  {
    applied := before;
    for i := 0 to |unmet|
      invariant RaiseEach(mf.require, unmet[i..]) == RaiseEach(old(mf.require), unmet)
      invariant applied == before + RuleIDs(unmet[..i])
    {
      assert unmet[i..][1..] == unmet[i + 1..];
      mf.AddRequire(unmet[i].path, unmet[i].need);
      applied := applied + {unmet[i].ruleID};
    }
    assert unmet[..|unmet|] == unmet;
  }

  method DropAbsorbed(mf: ModFile, absorbed: map<ModPath, string>, before: set<string>) returns (applied: set<string>)
    modifies mf`require
    ensures mf.require == old(mf.require) - absorbed.Keys
    ensures applied == before + set p | p in absorbed && p in old(mf.require) :: absorbed[p]
  {
    applied := before;
    var todo := absorbed.Keys;
    while todo != {}
      invariant todo <= absorbed.Keys
      invariant mf.require == old(mf.require) - (absorbed.Keys - todo)
      invariant applied == before + set p | p in absorbed.Keys - todo && p in old(mf.require) :: absorbed[p]
      decreases todo
    {
      var path :| path in todo;
      todo := todo - {path};
      if path !in mf.require {
        continue;
      }
      mf.DropRequire(path);
      applied := applied + {absorbed[path]};
    }
  }

  method AddCompanionRequires(mf: ModFile, companions: map<ModPath, Companion>,
                              before: set<string>) returns (applied: set<string>)
    modifies mf`require
    ensures mf.require == AddMissing(old(mf.require), companions)
    ensures applied == before + MissingIDs(old(mf.require), companions, companions.Keys)
  {
    applied := before;
    ghost var start := mf.require;
    var todo := companions.Keys;
    ghost var tried: set<ModPath> := {};
    while todo != {}
      invariant todo <= companions.Keys && tried == companions.Keys - todo
      invariant mf.require == start + MissingOf(start, companions, tried)
      invariant applied == before + MissingIDs(start, companions, tried)
      decreases todo
    {
      var path :| path in todo;
      MissingStep(start, companions, tried, path);
      todo, tried := todo - {path}, tried + {path};
      if path in mf.require {
        continue;
      }
      mf.AddRequire(path, companions[path].version);
      applied := applied + {companions[path].ruleID};
    }
    assert tried == companions.Keys;
  }

  lemma MissingStep(require: RequireMap, companions: map<ModPath, Companion>, tried: set<ModPath>, path: ModPath)
    requires path in companions && path !in tried
    ensures var so := require + MissingOf(require, companions, tried);
      && (path in so <==> path in require)
      && require + MissingOf(require, companions, tried + {path})
         == if path in require then so else so[path := companions[path].version]
    ensures MissingIDs(require, companions, tried + {path})
      == MissingIDs(require, companions, tried) + if path in require then {} else {companions[path].ruleID}
  {
  }
}
