// What a run on one go.mod reports: the rules it credits, and the one it fails
// on.
module GoModReport {
  import opened Options
  import opened Sequences
  import opened Semver
  import opened Floors
  import opened GoMod
  import opened GoModFixpoint

  // ---- Companions --------------------------------------------------------

  // The fired rule names p as the companion and declares version v of it.
  predicate Names(t: Target, r: Rule, p: ModPath, v: Version) {
    && r.kind.MovedToExtension? && OwningModule(r.extensionModule) == p && p != [] && p != t.path
    && Declares(r, p, v)
  }

  // Rule i declares v, which no rule exceeds and no rule before i reaches.
  ghost predicate FirstHighest(t: Target, fired: seq<Rule>, i: nat, p: ModPath, v: Version) {
    && i < |fired| && Names(t, fired[i], p, v)
    && (forall k: nat, w :: k < |fired| && Names(t, fired[k], p, w) ==> Compare(v, w) >= 0)
    && (forall k: nat, w :: k < i && Names(t, fired[k], p, w) ==> Compare(v, w) > 0)
  }

  // What is recorded for p after these rules.
  ghost predicate Credited(out: map<ModPath, Companion>, t: Target, done: seq<Rule>, p: ModPath) {
    && (p in out ==> exists i: nat :: FirstHighest(t, done, i, p, out[p].version) && done[i].id == out[p].ruleID)
    && (p !in out ==> forall k: nat, w :: k < |done| ==> !Names(t, done[k], p, w))
  }

  // One rule's requirements: the entry stays when none is higher, else it
  // becomes the highest of them.
  ghost predicate Topped(out: map<ModPath, Companion>, after: map<ModPath, Companion>, p: ModPath, id: string,
                         modules: seq<ModuleRequirement>) {
    && (forall m :: m in modules && m.path == p ==> p in after && Compare(after[p].version, m.version) >= 0)
    && (p in out ==> p in after)
    && (p in after ==>
          (p in out && after[p] == out[p])
          || (after[p].ruleID == id && ModuleRequirement(p, after[p].version) in modules
              && (p in out ==> Compare(after[p].version, out[p].version) > 0)))
  }

  lemma {:induction false} AddTops(out: map<ModPath, Companion>, p: ModPath, id: string,
                                   modules: seq<ModuleRequirement>)
    ensures Topped(out, AddCompanion(out, p, id, modules), p, id, modules)
    decreases |modules|
  {
    if modules != [] {
      var m := modules[0];
      var next := if m.path == p && (p !in out || Compare(m.version, out[p].version) > 0)
        then out[p := Companion(id, m.version)] else out;
      AddTops(next, p, id, modules[1..]);
      TopsStep(out, next, AddCompanion(out, p, id, modules), p, id, modules);
    }
  }

  lemma TopsStep(out: map<ModPath, Companion>, next: map<ModPath, Companion>, after: map<ModPath, Companion>,
                 p: ModPath, id: string, modules: seq<ModuleRequirement>)
    requires modules != [] && Topped(next, after, p, id, modules[1..])
    requires var m := modules[0];
      next == if m.path == p && (p !in out || Compare(m.version, out[p].version) > 0)
      then out[p := Companion(id, m.version)] else out
    ensures Topped(out, after, p, id, modules)
  {
    var m := modules[0];
    assert modules == [m] + modules[1..];
    if m.path == p {
      VersionOrder(after[p].version, after[p].version);
      VersionOrder(m.version, next[p].version);
      VersionTransitive(after[p].version, next[p].version, m.version);
      if p in out {
        VersionOrder(out[p].version, out[p].version);
        VersionTransitive(after[p].version, next[p].version, out[p].version);
      }
    }
  }

  lemma {:induction false} OtherPaths(out: map<ModPath, Companion>, path: ModPath, id: string,
                                      modules: seq<ModuleRequirement>, p: ModPath)
    requires p != path
    ensures var after := AddCompanion(out, path, id, modules);
      (p in after <==> p in out) && (p in out ==> after[p] == out[p])
    decreases |modules|
  {
    if modules != [] {
      var m := modules[0];
      OtherPaths(if m.path == path && (path !in out || Compare(m.version, out[path].version) > 0)
        then out[path := Companion(id, m.version)] else out, path, id, modules[1..], p);
    }
  }

  lemma CreditStep(out: map<ModPath, Companion>, t: Target, done: seq<Rule>, r: Rule, p: ModPath)
    requires Credited(out, t, done, p) && p != []
    ensures var target := CompanionOf(t, r);
      var after := if target == [] then out else AddCompanion(out, target, r.id, r.Modules());
      Credited(after, t, done + [r], p)
  {
    var more := done + [r];
    assert more[|done|] == r && forall k :: 0 <= k < |done| ==> more[k] == done[k];
    if CompanionOf(t, r) == p {
      AddTops(out, p, r.id, r.Modules());
      var after := AddCompanion(out, p, r.id, r.Modules());
      assert forall w :: Names(t, r, p, w) <==> ModuleRequirement(p, w) in r.Modules();
      if p in after {
        CreditNamed(out, after, t, done, r, p);
      } else {
        assert forall w :: Names(t, r, p, w) ==> ModuleRequirement(p, w).path == p;
      }
    } else {
      assert forall w :: !Names(t, r, p, w);
      if CompanionOf(t, r) != [] {
        OtherPaths(out, CompanionOf(t, r), r.id, r.Modules(), p);
      }
      if p in out {
        var i: nat :| FirstHighest(t, done, i, p, out[p].version) && done[i].id == out[p].ruleID;
        assert FirstHighest(t, more, i, p, out[p].version);
      }
    }
  }

  lemma CreditNamed(out: map<ModPath, Companion>, after: map<ModPath, Companion>, t: Target, done: seq<Rule>, r: Rule,
                    p: ModPath)
    requires Credited(out, t, done, p) && Topped(out, after, p, r.id, r.Modules()) && p in after
    requires forall w :: Names(t, r, p, w) <==> ModuleRequirement(p, w) in r.Modules()
    ensures Credited(after, t, done + [r], p)
  {
    var more, v := done + [r], after[p].version;
    assert more[|done|] == r && forall k :: 0 <= k < |done| ==> more[k] == done[k];
    forall w | Names(t, r, p, w)
      ensures Compare(v, w) >= 0
    {
      assert ModuleRequirement(p, w).path == p;
    }
    if p in out {
      var i: nat :| FirstHighest(t, done, i, p, out[p].version) && done[i].id == out[p].ruleID;
      if after[p] == out[p] {
        assert FirstHighest(t, more, i, p, v);
      } else {
        forall k: nat, w | k < |done| && Names(t, done[k], p, w)
          ensures Compare(v, w) > 0
        {
          VersionTransitive(v, out[p].version, w);
        }
        assert FirstHighest(t, more, |done|, p, v);
      }
    } else {
      assert FirstHighest(t, more, |done|, p, v);
    }
  }

  lemma {:induction false} AddCredits(out: map<ModPath, Companion>, t: Target, done: seq<Rule>, fired: seq<Rule>,
                                      p: ModPath)
    requires Credited(out, t, done, p) && p != []
    ensures Credited(AddCompanions(out, t, fired), t, done + fired, p)
    decreases |fired|
  {
    if fired == [] {
      assert done + fired == done;
    } else {
      CreditStep(out, t, done, fired[0], p);
      assert done + [fired[0]] + fired[1..] == done + fired;
      AddCredits(if CompanionOf(t, fired[0]) == [] then out
        else AddCompanion(out, CompanionOf(t, fired[0]), fired[0].id, fired[0].Modules()), t, done + [fired[0]],
        fired[1..], p);
    }
  }

  // A companion is listed exactly when a fired rule names it and declares a
  // version of it; it is the highest such version, and the credit goes to the
  // first rule that declares it.
  lemma CompanionCredits(t: Target, fired: seq<Rule>, p: ModPath)
    requires p != []
    ensures p in Companions(t, fired) <==> exists i: nat, v :: i < |fired| && Names(t, fired[i], p, v)
    ensures p in Companions(t, fired) ==>
      exists i: nat ::
        FirstHighest(t, fired, i, p, Companions(t, fired)[p].version)
        && fired[i].id == Companions(t, fired)[p].ruleID
  {
    AddCredits(map[], t, [], fired, p);
    assert [] + fired == fired;
  }

  // ---- The swap ----------------------------------------------------------

  // A requirement the swap finds no version for.
  predicate Stuck(rewrites: seq<Rewrite>, t: Target, fired: seq<Rule>, p: ModPath) {
    RewriteFor(rewrites, p).Some? && Required(t, RewriteFor(rewrites, p).value.to, fired).None?
  }

  // Path i is the first such requirement.
  predicate FirstStuck(paths: seq<ModPath>, rewrites: seq<Rewrite>, t: Target, fired: seq<Rule>, i: nat) {
    && i < |paths| && Stuck(rewrites, t, fired, paths[i])
    && forall j :: 0 <= j < i ==> !Stuck(rewrites, t, fired, paths[j])
  }

  // A failure names the rule of the first such requirement, and there is one
  // exactly when there is such a requirement.
  ghost predicate FailsAtFirst(plan: Plan, paths: seq<ModPath>, rewrites: seq<Rewrite>, t: Target, fired: seq<Rule>) {
    && (plan.Impossible? <==> exists i: nat :: FirstStuck(paths, rewrites, t, fired, i))
    && forall i: nat :: FirstStuck(paths, rewrites, t, fired, i) ==>
         plan == Impossible(RewriteFor(rewrites, paths[i]).value.ruleID)
  }

  // Some requirement is swapped in the name of the rule.
  predicate SwapCredits(paths: seq<ModPath>, rewrites: seq<Rewrite>, id: string) {
    exists p :: p in paths && RewriteFor(rewrites, p).Some? && RewriteFor(rewrites, p).value.ruleID == id
  }

  lemma {:induction false} SwapReports(plan: Plan, paths: seq<ModPath>, rewrites: seq<Rewrite>, t: Target,
                                       fired: seq<Rule>)
    requires plan.Plan?
    ensures var r := Swap(plan, paths, rewrites, t, fired);
      && FailsAtFirst(r, paths, rewrites, t, fired)
      && (r.Plan? ==> forall id :: id in r.applied <==> id in plan.applied || SwapCredits(paths, rewrites, id))
    decreases |paths|
  {
    if paths != [] {
      var p, rest := paths[0], paths[1..];
      var next := SwapOne(plan, p, rewrites, t, fired);
      if Stuck(rewrites, t, fired, p) {
        SwapImpossible(next.ruleID, rest, rewrites, t, fired);
        assert FirstStuck(paths, rewrites, t, fired, 0);
      } else {
        SwapReports(next, rest, rewrites, t, fired);
        FirstStuckTail(paths, rewrites, t, fired);
        assert paths == [p] + rest;
      }
    }
  }

  lemma FirstStuckTail(paths: seq<ModPath>, rewrites: seq<Rewrite>, t: Target, fired: seq<Rule>)
    requires paths != [] && !Stuck(rewrites, t, fired, paths[0])
    ensures !FirstStuck(paths, rewrites, t, fired, 0)
    ensures forall i: nat ::
      i > 0 ==> (FirstStuck(paths, rewrites, t, fired, i) <==> FirstStuck(paths[1..], rewrites, t, fired, i - 1))
    ensures forall i: nat ::
      FirstStuck(paths[1..], rewrites, t, fired, i) ==> FirstStuck(paths, rewrites, t, fired, i + 1)
  {
    var rest := paths[1..];
    forall i: nat
      ensures FirstStuck(rest, rewrites, t, fired, i) <==> FirstStuck(paths, rewrites, t, fired, i + 1)
    {
      if FirstStuck(rest, rewrites, t, fired, i) {
        forall j | 0 <= j < i + 1
          ensures !Stuck(rewrites, t, fired, paths[j])
        {
          assert j > 0 ==> paths[j] == rest[j - 1];
        }
      }
      if FirstStuck(paths, rewrites, t, fired, i + 1) {
        forall j | 0 <= j < i
          ensures !Stuck(rewrites, t, fired, rest[j])
        {
          assert rest[j] == paths[j + 1];
        }
      }
    }
    forall i: nat | i > 0
      ensures FirstStuck(paths, rewrites, t, fired, i) <==> FirstStuck(rest, rewrites, t, fired, i - 1)
    {
      assert FirstStuck(rest, rewrites, t, fired, i - 1) <==> FirstStuck(paths, rewrites, t, fired, i - 1 + 1);
    }
  }

  // ---- The report --------------------------------------------------------

  // Which rules a run credits, given the requirements after the swap: those
  // that swapped a requirement, needed one higher, absorbed one that was
  // there, or brought in a companion that was missing.
  ghost predicate Credits(paths: seq<ModPath>, rewrites: seq<Rewrite>, t: Target, fired: seq<Rule>,
                          swapped: RequireMap, id: string) {
    || SwapCredits(paths, rewrites, id)
    || (exists r, u :: r in fired && r.id == id && NeedsMore(r, swapped, u))
    || (exists p, i: nat :: p in swapped && LastAbsorber(fired, i, p) && fired[i].id == id)
    || (exists p :: p in Companions(t, fired) && Companions(t, fired)[p].ruleID == id
                    && !(p in swapped && p !in Absorbed(fired)))
  }

  ghost predicate CreditsExactly(applied: set<string>, paths: seq<ModPath>, rewrites: seq<Rewrite>, t: Target,
                                 fired: seq<Rule>, swapped: RequireMap) {
    forall id :: id in applied <==> Credits(paths, rewrites, t, fired, swapped, id)
  }

  // A run fails exactly when some requirement to swap has no version to swap
  // to, naming the rule of the first; else it reports exactly these rules.
  lemma ReportExact(paths: seq<ModPath>, require: RequireMap, rules: seq<Rule>, t: Target, fired: seq<Rule>)
    ensures FailsAtFirst(Planned(paths, require, rules, t, fired), paths, Rewrites(rules), t, fired)
    ensures var rewrites, plan := Rewrites(rules), Planned(paths, require, rules, t, fired);
      var swap := Swap(Plan(require, {}), paths, rewrites, t, fired);
      plan.Plan? ==> swap.Plan? && CreditsExactly(plan.applied, paths, rewrites, t, fired, swap.require)
  {
    var rewrites := Rewrites(rules);
    var swap := Swap(Plan(require, {}), paths, rewrites, t, fired);
    SwapReports(Plan(require, {}), paths, rewrites, t, fired);
    FinishFails(swap, paths, rewrites, t, fired);
    if swap.Plan? {
      FinishCredits(swap, paths, rewrites, t, fired);
    }
  }

  lemma FinishFails(swap: Plan, paths: seq<ModPath>, rewrites: seq<Rewrite>, t: Target, fired: seq<Rule>)
    requires FailsAtFirst(swap, paths, rewrites, t, fired)
    ensures FailsAtFirst(Finish(swap, t, fired), paths, rewrites, t, fired)
    ensures Finish(swap, t, fired).Impossible? <==> swap.Impossible?
  {
    SameFailure(swap, Finish(swap, t, fired), paths, rewrites, t, fired);
  }

  lemma SameFailure(a: Plan, b: Plan, paths: seq<ModPath>, rewrites: seq<Rewrite>, t: Target, fired: seq<Rule>)
    requires FailsAtFirst(a, paths, rewrites, t, fired) && (a == b || (a.Plan? && b.Plan?))
    ensures FailsAtFirst(b, paths, rewrites, t, fired)
  {
  }

  lemma FinishCredits(swap: Plan, paths: seq<ModPath>, rewrites: seq<Rewrite>, t: Target, fired: seq<Rule>)
    requires swap.Plan? && forall id :: id in swap.applied <==> SwapCredits(paths, rewrites, id)
    ensures Finish(swap, t, fired).Plan?
    ensures CreditsExactly(Finish(swap, t, fired).applied, paths, rewrites, t, fired, swap.require)
  {
    forall id
      ensures id in Finish(swap, t, fired).applied <==> Credits(paths, rewrites, t, fired, swap.require, id)
    {
      FinishReports(swap, t, fired, id);
    }
  }

  lemma FinishReports(swap: Plan, t: Target, fired: seq<Rule>, id: string)
    requires swap.Plan?
    ensures id in Finish(swap, t, fired).applied <==>
      || id in swap.applied
      || (exists r, u :: r in fired && r.id == id && NeedsMore(r, swap.require, u))
      || (exists p, i: nat :: p in swap.require && LastAbsorber(fired, i, p) && fired[i].id == id)
      || (exists p :: p in Companions(t, fired) && Companions(t, fired)[p].ruleID == id
                      && !(p in swap.require && p !in Absorbed(fired)))
  {
    var unmet := UnmetOf(AllFloors(fired), swap.require);
    var raised := RaiseEach(swap.require, unmet);
    var absorbed, companions := Absorbed(fired), Companions(t, fired);
    forall p
      ensures p in raised <==> p in swap.require
    {
      RaiseNeverLowers(fired, swap.require, p);
    }
    RaiseIDs(fired, swap.require, id);
    DropIDs(fired, raised, id);
    assert id in MissingIDs(raised - absorbed.Keys, companions, companions.Keys) <==>
      exists p :: p in companions && companions[p].ruleID == id && !(p in swap.require && p !in absorbed);
    assert Finish(swap, t, fired).applied == swap.applied + RuleIDs(unmet)
      + (set p | p in absorbed && p in raised :: absorbed[p])
      + MissingIDs(raised - absorbed.Keys, companions, companions.Keys);
  }

  lemma RaiseIDs(fired: seq<Rule>, require: RequireMap, id: string)
    ensures id in RuleIDs(UnmetOf(AllFloors(fired), require)) <==>
      exists r, u :: r in fired && r.id == id && NeedsMore(r, require, u)
  {
    var unmet := UnmetOf(AllFloors(fired), require);
    UnmetExact(fired, require);
    if id in RuleIDs(unmet) {
      var i :| 0 <= i < |unmet| && unmet[i].ruleID == id;
      assert unmet[i] in unmet;
    }
    if r, u :| r in fired && r.id == id && NeedsMore(r, require, u) {
      assert u in unmet;
      var i :| 0 <= i < |unmet| && unmet[i] == u;
      assert unmet[i].ruleID == id;
    }
  }

  lemma DropIDs(fired: seq<Rule>, require: RequireMap, id: string)
    ensures id in (set p | p in Absorbed(fired) && p in require :: Absorbed(fired)[p]) <==>
      exists p, i: nat :: p in require && LastAbsorber(fired, i, p) && fired[i].id == id
  {
    forall p
      ensures p in Absorbed(fired) <==> exists i: nat :: LastAbsorber(fired, i, p)
      ensures forall i: nat :: LastAbsorber(fired, i, p) ==> p in Absorbed(fired) && Absorbed(fired)[p] == fired[i].id
    {
      AbsorbedExact(fired, p);
    }
  }
}
