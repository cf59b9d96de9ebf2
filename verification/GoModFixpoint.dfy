// What fixGoMod leaves behind: when every fired floor is met, and when a
// second run has nothing to do.
module GoModFixpoint {
  import opened Options
  import opened Semver
  import opened Floors
  import opened GoMod

  // ---- Step 2 ------------------------------------------------------------

  // The last entry for a path: the one that wins.
  function LastNeed(unmet: seq<UnmetFloor>, p: ModPath): Option<Version> {
    if unmet == [] then None
    else if unmet[|unmet| - 1].path == p then Some(unmet[|unmet| - 1].need)
    else LastNeed(unmet[..|unmet| - 1], p)
  }

  lemma {:induction false} LastNeedCons(unmet: seq<UnmetFloor>, p: ModPath)
    requires unmet != []
    ensures LastNeed(unmet, p) == if LastNeed(unmet[1..], p).Some? then LastNeed(unmet[1..], p)
      else if unmet[0].path == p then Some(unmet[0].need) else None
  {
    if |unmet| > 1 {
      assert unmet[1..][|unmet| - 2] == unmet[|unmet| - 1];
      if unmet[|unmet| - 1].path != p {
        LastNeedCons(unmet[..|unmet| - 1], p);
        assert unmet[..|unmet| - 1][1..] == unmet[1..][..|unmet| - 2];
      }
    } else {
      assert LastNeed(unmet[..0], p) == None && LastNeed(unmet[1..], p) == None;
    }
  }

  lemma {:induction false} RaiseEachIs(require: RequireMap, unmet: seq<UnmetFloor>, p: ModPath)
    ensures p in RaiseEach(require, unmet) <==> p in require || LastNeed(unmet, p).Some?
    ensures LastNeed(unmet, p).Some? ==> RaiseEach(require, unmet)[p] == LastNeed(unmet, p).value
    ensures LastNeed(unmet, p).None? && p in require ==> RaiseEach(require, unmet)[p] == require[p]
    decreases |unmet|
  {
    if unmet != [] {
      LastNeedCons(unmet, p);
      RaiseEachIs(require[unmet[0].path := unmet[0].need], unmet[1..], p);
    }
  }

  // Entries of the list are floors above the current version, and a path
  // with such a floor has an entry.
  lemma {:induction false} LastNeedOfUnmet(floors: seq<(string, ModuleRequirement)>, current: RequireMap, p: ModPath)
    ensures var need := LastNeed(UnmetOf(floors, current), p);
      && (need.Some? <==> exists k :: 0 <= k < |floors| && floors[k].1.path == p && Unmet(floors[k].1, current))
      && (need.Some? ==> p in current && !AtLeast(current[p], need.value)
                         && exists k :: 0 <= k < |floors| && floors[k].1 == ModuleRequirement(p, need.value))
  {
    if floors != [] {
      var rest := floors[1..];
      LastNeedOfUnmet(rest, current, p);
      var list := UnmetOf(floors, current);
      if Unmet(floors[0].1, current) {
        LastNeedCons(list, p);
        assert list[1..] == UnmetOf(rest, current);
      }
      var need := LastNeed(list, p);
      if LastNeed(UnmetOf(rest, current), p).Some? {
        var k :| 0 <= k < |rest| && rest[k].1.path == p && Unmet(rest[k].1, current);
        assert floors[k + 1] == rest[k];
        var j :| 0 <= j < |rest| && rest[j].1 == ModuleRequirement(p, need.value);
        assert floors[j + 1] == rest[j];
      } else if exists k :: 0 <= k < |floors| && floors[k].1.path == p && Unmet(floors[k].1, current) {
        var k :| 0 <= k < |floors| && floors[k].1.path == p && Unmet(floors[k].1, current);
        if k > 0 {
          assert rest[k - 1] == floors[k];
        }
      }
    }
  }

  // The floor step 2 writes for p, if it writes one.
  function Raise2(fired: seq<Rule>, require: RequireMap, p: ModPath): Option<Version> {
    LastNeed(UnmetOf(AllFloors(fired), require), p)
  }

  function Raised(fired: seq<Rule>, require: RequireMap): RequireMap {
    RaiseEach(require, UnmetOf(AllFloors(fired), require))
  }

  // Raising touches only requirements below some floor, puts each strictly
  // above where it was, and on a fired floor: it never lowers one.
  lemma RaiseNeverLowers(fired: seq<Rule>, require: RequireMap, p: ModPath)
    ensures p in Raised(fired, require) <==> p in require
    ensures p in require && Raise2(fired, require, p).None? ==>
      Raised(fired, require)[p] == require[p] && MeetsFloors(fired, p, require[p])
    ensures p in require && Raise2(fired, require, p).Some? ==>
      && Raised(fired, require)[p] == Raise2(fired, require, p).value
      && Compare(Raised(fired, require)[p], require[p]) > 0
      && IsFloor(fired, p, Raised(fired, require)[p])
      && !MeetsFloors(fired, p, require[p])
  {
    var floors := AllFloors(fired);
    RaiseEachIs(require, UnmetOf(floors, require), p);
    LastNeedOfUnmet(floors, require, p);
    if p in require && Raise2(fired, require, p).Some? {
      var need := Raise2(fired, require, p).value;
      VersionOrder(require[p], need);
      var k :| 0 <= k < |floors| && floors[k].1 == ModuleRequirement(p, need);
      ListedIsFloor(fired, k);
    } else if p in require {
      forall f | IsFloor(fired, p, f)
        ensures AtLeast(require[p], f)
      {
        var k := FloorListed(fired, p, f);
        assert !Unmet(floors[k].1, require);
      }
    }
  }

  // The last floor declared for p, in rule order, that a version misses.
  function LastMissed(floors: seq<(string, ModuleRequirement)>, p: ModPath, current: Version): Option<Version> {
    if floors == [] then None
    else if LastMissed(floors[1..], p, current).Some? then LastMissed(floors[1..], p, current)
    else if floors[0].1.path == p && !AtLeast(current, floors[0].1.version) then Some(floors[0].1.version)
    else None
  }

  // The list of step 2 is computed once, so the last missed floor wins. It
  // settles the path exactly when it is as high as every floor of the path.
  predicate LastIsHighest(fired: seq<Rule>, p: ModPath, current: Version) {
    var last := LastMissed(AllFloors(fired), p, current);
    last.Some? ==> Tops(AllFloors(fired), p, last.value)
  }

  // At or above every floor listed for p.
  predicate Tops(floors: seq<(string, ModuleRequirement)>, p: ModPath, v: Version) {
    forall k :: 0 <= k < |floors| && floors[k].1.path == p ==> AtLeast(v, floors[k].1.version)
  }

  // What step 2 writes for p depends on p's own version and floors only.
  lemma {:induction false} LastNeedIsMissed(floors: seq<(string, ModuleRequirement)>, require: RequireMap, p: ModPath)
    requires p in require
    ensures LastNeed(UnmetOf(floors, require), p) == LastMissed(floors, p, require[p])
  {
    if floors != [] {
      LastNeedIsMissed(floors[1..], require, p);
      var list := UnmetOf(floors, require);
      if Unmet(floors[0].1, require) {
        LastNeedCons(list, p);
        assert list[1..] == UnmetOf(floors[1..], require);
      }
    }
  }

  lemma {:induction false} NothingMissed(floors: seq<(string, ModuleRequirement)>, p: ModPath, current: Version)
    requires Tops(floors, p, current)
    ensures LastMissed(floors, p, current) == None
  {
    if floors != [] {
      assert forall k :: 0 <= k < |floors[1..]| ==> floors[1..][k] == floors[k + 1];
      NothingMissed(floors[1..], p, current);
    }
  }

  lemma RaisedMeetsIff(fired: seq<Rule>, require: RequireMap, p: ModPath)
    requires p in require
    ensures p in Raised(fired, require)
    ensures MeetsFloors(fired, p, Raised(fired, require)[p]) <==> LastIsHighest(fired, p, require[p])
  {
    RaiseNeverLowers(fired, require, p);
    LastNeedIsMissed(AllFloors(fired), require, p);
    var last := LastMissed(AllFloors(fired), p, require[p]);
    assert Raise2(fired, require, p) == last;
    if last.Some? {
      assert Raised(fired, require)[p] == last.value;
      MeetsListed(fired, p, last.value);
    }
  }

  function TwoAsking(p: ModPath): seq<Rule> {
    [Asking("first", p, Release(2)), Asking("second", p, Release(1))]
  }

  lemma TwoFloors(p: ModPath)
    ensures var hi, lo := ModuleRequirement(p, Release(2)), ModuleRequirement(p, Release(1));
      AllFloors(TwoAsking(p)) == [("first", hi), ("second", lo)]
    ensures IsFloor(TwoAsking(p), p, Release(2))
  {
    var fired := TwoAsking(p);
    assert fired[1..] == [fired[1]] && fired[1..][1..] == [];
    assert AllFloors(fired[1..][1..]) == [];
    assert RuleFloors("second", fired[1].Modules()) == [("second", ModuleRequirement(p, Release(1)))];
    assert AllFloors(fired[1..]) == [("second", ModuleRequirement(p, Release(1)))];
    assert RuleFloors("first", fired[0].Modules()) == [("first", ModuleRequirement(p, Release(2)))];
    assert fired[0].Modules()[0] == ModuleRequirement(p, Release(2));
  }

  // Two rules that ask for 1.2 and then for 1.1 raise 1.0 to 1.1 only.
  lemma LastFloorWins(p: ModPath)
    ensures Raised(TwoAsking(p), map[p := Release(0)]) == map[p := Release(1)]
    ensures !LastIsHighest(TwoAsking(p), p, Release(0))
    ensures !MeetsFloors(TwoAsking(p), p, Release(1))
  {
    TwoFloors(p);
    var floors, current := AllFloors(TwoAsking(p)), map[p := Release(0)];
    assert floors[1..][1..] == [];
    assert LastMissed(floors[1..], p, Release(0)) == Some(Release(1));
    LastNeedIsMissed(floors, current, p);
    forall q
      ensures q in Raised(TwoAsking(p), current) <==> q == p
    {
      RaiseNeverLowers(TwoAsking(p), current, q);
    }
    RaiseNeverLowers(TwoAsking(p), current, p);
    assert !AtLeast(Release(1), floors[0].1.version);
  }

  // Version 1.n, and a rule that asks for a module at a version.
  function Release(n: nat): Version { Version(1, n, 0, []) }

  function Asking(id: string, p: ModPath, v: Version): Rule {
    Rule(id, OtherKind, false, false, [], [], [], Some(Requires([], [ModuleRequirement(p, v)])))
  }

  lemma MeetsListed(fired: seq<Rule>, p: ModPath, v: Version)
    ensures MeetsFloors(fired, p, v) <==> Tops(AllFloors(fired), p, v)
  {
    var floors := AllFloors(fired);
    if MeetsFloors(fired, p, v) {
      forall k | 0 <= k < |floors| && floors[k].1.path == p
        ensures AtLeast(v, floors[k].1.version)
      {
        ListedIsFloor(fired, k);
      }
    } else {
      var f :| IsFloor(fired, p, f) && !AtLeast(v, f);
      var k := FloorListed(fired, p, f);
    }
  }

  // Floors of one path never go down in rule order.
  predicate FloorsRise(floors: seq<(string, ModuleRequirement)>) {
    forall i, j :: 0 <= i < j < |floors| && floors[i].1.path == floors[j].1.path ==>
      AtLeast(floors[j].1.version, floors[i].1.version)
  }

  lemma {:induction false} LastNeedIsLast(floors: seq<(string, ModuleRequirement)>, current: RequireMap, p: ModPath)
    returns (k: nat)
    requires LastNeed(UnmetOf(floors, current), p).Some?
    ensures k < |floors| && floors[k].1 == ModuleRequirement(p, LastNeed(UnmetOf(floors, current), p).value)
    ensures p in current && forall j :: k < j < |floors| && floors[j].1.path == p ==>
      AtLeast(current[p], floors[j].1.version)
  {
    var rest := floors[1..];
    var list := UnmetOf(floors, current);
    if Unmet(floors[0].1, current) {
      LastNeedCons(list, p);
      assert list[1..] == UnmetOf(rest, current);
    }
    LastNeedOfUnmet(rest, current, p);
    if LastNeed(UnmetOf(rest, current), p).Some? {
      var m := LastNeedIsLast(rest, current, p);
      k := m + 1;
      forall j | k < j < |floors| && floors[j].1.path == p
        ensures AtLeast(current[p], floors[j].1.version)
      {
        assert rest[j - 1] == floors[j];
      }
    } else {
      k := 0;
      forall j | k < j < |floors| && floors[j].1.path == p
        ensures AtLeast(current[p], floors[j].1.version)
      {
        assert rest[j - 1] == floors[j];
      }
    }
  }

  lemma RisingFloorsSettle(fired: seq<Rule>, p: ModPath, current: Version)
    requires FloorsRise(AllFloors(fired))
    ensures LastIsHighest(fired, p, current)
  {
    var floors := AllFloors(fired);
    var require := map[p := current];
    LastNeedIsMissed(floors, require, p);
    if Raise2(fired, require, p).Some? {
      var need := Raise2(fired, require, p).value;
      var k := LastNeedIsLast(floors, require, p);
      LastNeedOfUnmet(floors, require, p);
      forall j | 0 <= j < |floors| && floors[j].1.path == p
        ensures AtLeast(need, floors[j].1.version)
      {
        VersionOrder(need, need);
        VersionOrder(require[p], need);
        if j > k {
          VersionTransitive(need, require[p], floors[j].1.version);
        }
      }
    }
  }

  // ---- Step 4 ------------------------------------------------------------

  // What a companion is added at: the highest floor its own rules declare.
  ghost predicate NamedFloor(t: Target, fired: seq<Rule>, p: ModPath, v: Version) {
    exists i, j :: 0 <= i < |fired| && CompanionOf(t, fired[i]) == p && 0 <= j < |fired[i].Modules()|
      && fired[i].Modules()[j] == ModuleRequirement(p, v)
  }

  predicate BestSoFar(out: map<ModPath, Companion>, p: ModPath, v: Version) {
    p in out && AtLeast(out[p].version, v)
  }

  lemma {:induction false} AddCompanionGrows(out: map<ModPath, Companion>, path: ModPath, id: string,
                                             modules: seq<ModuleRequirement>, p: ModPath)
    ensures var r := AddCompanion(out, path, id, modules);
      && (p in out ==> BestSoFar(r, p, out[p].version))
      && (p != path ==> (p in r <==> p in out) && (p in out ==> r[p] == out[p]))
      && (forall j :: 0 <= j < |modules| && modules[j].path == path ==> BestSoFar(r, path, modules[j].version))
      && (p in r ==> (p in out && r[p].version == out[p].version)
                     || (p == path && exists j ::
                       0 <= j < |modules| && modules[j] == ModuleRequirement(p, r[p].version)))
    decreases |modules|
  {
    if modules == [] {
      if p in out {
        VersionOrder(out[p].version, out[p].version);
      }
    } else {
      var m := modules[0];
      var next := if m.path == path && (path !in out || Compare(m.version, out[path].version) > 0)
        then out[path := Companion(id, m.version)] else out;
      AddCompanionGrows(next, path, id, modules[1..], p);
      AddCompanionGrows(next, path, id, modules[1..], path);
      var r := AddCompanion(out, path, id, modules);
      VersionOrder(m.version, m.version);
      if m.path == path {
        if path in out {
          VersionOrder(m.version, out[path].version);
          VersionOrder(out[path].version, out[path].version);
          VersionTransitive(r[path].version, next[path].version, out[path].version);
        }
        VersionTransitive(r[path].version, next[path].version, m.version);
      }
      forall j | 0 <= j < |modules| && modules[j].path == path
        ensures BestSoFar(r, path, modules[j].version)
      {
        if j > 0 {
          assert modules[1..][j - 1] == modules[j];
        }
      }
      if p in r && !(p in next && r[p].version == next[p].version) {
        var j :| 0 <= j < |modules[1..]| && modules[1..][j] == ModuleRequirement(p, r[p].version);
        assert modules[j + 1] == ModuleRequirement(p, r[p].version);
      } else if p in r && p == path && !(p in out && next[p] == out[p]) {
        assert modules[0] == ModuleRequirement(p, r[p].version);
      }
    }
  }

  lemma {:induction false} AddCompanionsGrow(out: map<ModPath, Companion>, t: Target, fired: seq<Rule>, p: ModPath)
    requires p != []
    ensures var r := AddCompanions(out, t, fired);
      && (p in out ==> BestSoFar(r, p, out[p].version))
      && (forall v :: NamedFloor(t, fired, p, v) ==> BestSoFar(r, p, v))
      && (p in r ==> (p in out && r[p].version == out[p].version) || NamedFloor(t, fired, p, r[p].version))
    decreases |fired|
  {
    if fired == [] {
      if p in out {
        VersionOrder(out[p].version, out[p].version);
      }
    } else {
      var target, modules := CompanionOf(t, fired[0]), fired[0].Modules();
      var next := if target == [] then out else AddCompanion(out, target, fired[0].id, modules);
      AddCompanionGrows(out, target, fired[0].id, modules, p);
      AddCompanionsGrow(next, t, fired[1..], p);
      var r := AddCompanions(out, t, fired);
      if p in out {
        VersionOrder(out[p].version, out[p].version);
        VersionTransitive(r[p].version, next[p].version, out[p].version);
      }
      forall v | NamedFloor(t, fired, p, v)
        ensures BestSoFar(r, p, v)
      {
        var i, j :| 0 <= i < |fired| && CompanionOf(t, fired[i]) == p && 0 <= j < |fired[i].Modules()|
          && fired[i].Modules()[j] == ModuleRequirement(p, v);
        if i == 0 {
          assert BestSoFar(next, p, v);
          VersionTransitive(r[p].version, next[p].version, v);
        } else {
          assert fired[1..][i - 1] == fired[i];
          assert NamedFloor(t, fired[1..], p, v);
        }
      }
      if p in r && NamedFloor(t, fired[1..], p, r[p].version) {
        var i, j :| 0 <= i < |fired[1..]| && CompanionOf(t, fired[1..][i]) == p && 0 <= j < |fired[1..][i].Modules()|
          && fired[1..][i].Modules()[j] == ModuleRequirement(p, r[p].version);
        assert fired[i + 1] == fired[1..][i];
      }
    }
  }

  lemma {:induction false} NoEmptyCompanion(out: map<ModPath, Companion>, t: Target, fired: seq<Rule>)
    requires [] !in out
    ensures [] !in AddCompanions(out, t, fired)
    decreases |fired|
  {
    if fired != [] {
      var target := CompanionOf(t, fired[0]);
      AddCompanionGrows(out, target, fired[0].id, fired[0].Modules(), []);
      NoEmptyCompanion(if target == [] then out
        else AddCompanion(out, target, fired[0].id, fired[0].Modules()), t, fired[1..]);
    }
  }

  // A module is a companion exactly when a rule naming it declares a floor
  // for it, and its version is the highest such floor.
  lemma CompanionExact(t: Target, fired: seq<Rule>, p: ModPath)
    requires p != []
    ensures p in Companions(t, fired) <==> exists v :: NamedFloor(t, fired, p, v)
    ensures p in Companions(t, fired) ==>
      && NamedFloor(t, fired, p, Companions(t, fired)[p].version)
      && forall v :: NamedFloor(t, fired, p, v) ==> AtLeast(Companions(t, fired)[p].version, v)
  {
    AddCompanionsGrow(map[], t, fired, p);
  }

  // ---- The final requirements --------------------------------------------

  function Final(t: Target, fired: seq<Rule>, swapped: RequireMap): RequireMap {
    AddMissing(Raised(fired, swapped) - Absorbed(fired).Keys, Companions(t, fired))
  }

  predicate Survives(fired: seq<Rule>, swapped: RequireMap, p: ModPath) {
    p in swapped && p !in Absorbed(fired)
  }

  lemma FinalIs(t: Target, fired: seq<Rule>, swapped: RequireMap, p: ModPath)
    ensures p in Final(t, fired, swapped) <==> Survives(fired, swapped, p) || p in Companions(t, fired)
    ensures Survives(fired, swapped, p) ==>
      p in Raised(fired, swapped) && Final(t, fired, swapped)[p] == Raised(fired, swapped)[p]
    ensures !Survives(fired, swapped, p) && p in Companions(t, fired) ==>
      Final(t, fired, swapped)[p] == Companions(t, fired)[p].version
  {
    RaiseNeverLowers(fired, swapped, p);
  }

  // Whether p meets its floors in the end, in terms of the map after step 1.
  lemma FinalMeets(t: Target, fired: seq<Rule>, swapped: RequireMap, p: ModPath)
    ensures p in Final(t, fired, swapped) ==> (MeetsFloors(fired, p, Final(t, fired, swapped)[p]) <==>
      if Survives(fired, swapped, p) then LastIsHighest(fired, p, swapped[p])
      else p in Companions(t, fired) && MeetsFloors(fired, p, Companions(t, fired)[p].version))
  {
    FinalIs(t, fired, swapped, p);
    if Survives(fired, swapped, p) {
      RaisedMeetsIff(fired, swapped, p);
    }
  }

  // ---- A second run ------------------------------------------------------

  predicate IsSource(rules: seq<Rule>, p: ModPath) {
    RewriteFor(Rewrites(rules), p).Some?
  }

  lemma {:induction false} SwapIdle(plan: Plan, paths: seq<ModPath>, rewrites: seq<Rewrite>, t: Target,
                                    fired: seq<Rule>)
    requires plan.Plan? && plan.applied == {}
    ensures Swap(plan, paths, rewrites, t, fired).Impossible?
         || Swap(plan, paths, rewrites, t, fired).applied != {}
         || Swap(plan, paths, rewrites, t, fired) == plan
    ensures Swap(plan, paths, rewrites, t, fired) == plan <==> forall p :: p in paths ==> RewriteFor(rewrites, p).None?
    decreases |paths|
  {
    if paths != [] {
      var next := SwapOne(plan, paths[0], rewrites, t, fired);
      if RewriteFor(rewrites, paths[0]).None? {
        SwapIdle(plan, paths[1..], rewrites, t, fired);
        assert forall p :: p in paths ==> p == paths[0] || p in paths[1..];
        assert forall p :: p in paths[1..] ==> p in paths;
      } else {
        SwapKeepsApplied(next, paths[1..], rewrites, t, fired);
        assert paths[0] in paths;
      }
    }
  }

  lemma {:induction false} SwapKeepsApplied(plan: Plan, paths: seq<ModPath>, rewrites: seq<Rewrite>, t: Target,
                                            fired: seq<Rule>)
    ensures var r := Swap(plan, paths, rewrites, t, fired);
      r.Impossible? || (plan.Plan? && plan.applied <= r.applied)
    decreases |paths|
  {
    if paths != [] {
      SwapKeepsApplied(SwapOne(plan, paths[0], rewrites, t, fired), paths[1..], rewrites, t, fired);
    }
  }

  ghost predicate ListsAll(paths: seq<ModPath>, require: RequireMap) {
    forall p :: p in paths <==> p in require
  }

  // A run has nothing to write exactly when no requirement is a rewrite
  // source, no fired floor is unmet, no absorbed module is required and every
  // companion is; it then leaves the requirements as they are.
  lemma UnchangedIff(paths: seq<ModPath>, require: RequireMap, rules: seq<Rule>, t: Target, fired: seq<Rule>)
    requires ListsAll(paths, require)
    ensures var plan := Planned(paths, require, rules, t, fired);
      && (plan.Plan? && plan.applied == {} ==> plan.require == require)
      && (plan.Plan? && plan.applied == {} <==>
           && (forall p :: p in require ==> !IsSource(rules, p))
           && UnmetOf(AllFloors(fired), require) == []
           && Absorbed(fired).Keys !! require.Keys
           && Companions(t, fired).Keys <= require.Keys)
  {
    var start := Plan(require, {});
    var swapped := Swap(start, paths, Rewrites(rules), t, fired);
    SwapIdle(start, paths, Rewrites(rules), t, fired);
    if swapped == start {
      var unmet := UnmetOf(AllFloors(fired), require);
      if unmet != [] {
        assert unmet[0].ruleID in RuleIDs(unmet);
      } else {
        FinishIdle(require, t, fired);
      }
    } else if swapped.Plan? {
      assert swapped.applied <= Planned(paths, require, rules, t, fired).applied;
    }
  }

  lemma FinishIdle(require: RequireMap, t: Target, fired: seq<Rule>)
    requires UnmetOf(AllFloors(fired), require) == []
    ensures var plan := Finish(Plan(require, {}), t, fired);
      && (plan.applied == {} <==> Absorbed(fired).Keys !! require.Keys && Companions(t, fired).Keys <= require.Keys)
      && (plan.applied == {} ==> plan.require == require)
  {
    var absorbed, companions := Absorbed(fired), Companions(t, fired);
    var drops := set p | p in absorbed && p in require :: absorbed[p];
    assert RaiseEach(require, []) == require && RuleIDs([]) == {};
    assert Finish(Plan(require, {}), t, fired).applied
      == {} + {} + drops + MissingIDs(require - absorbed.Keys, companions, companions.Keys);
    DropAddIdle(require, absorbed, companions);
  }

  lemma DropAddIdle(require: RequireMap, absorbed: map<ModPath, string>, companions: map<ModPath, Companion>)
    ensures var drops := set p | p in absorbed && p in require :: absorbed[p]; var dropped := require - absorbed.Keys;
      && (drops == {} && MissingIDs(dropped, companions, companions.Keys) == {}
          <==> absorbed.Keys !! require.Keys && companions.Keys <= require.Keys)
      && (drops == {} ==> dropped == require)
      && (companions.Keys <= dropped.Keys ==> AddMissing(dropped, companions) == dropped)
  {
    var drops := set p | p in absorbed && p in require :: absorbed[p];
    NothingMissing(require - absorbed.Keys, companions);
    if p :| p in absorbed && p in require {
      assert absorbed[p] in drops;
    } else {
      assert require - absorbed.Keys == require && drops == {};
    }
  }

  lemma NothingMissing(require: RequireMap, companions: map<ModPath, Companion>)
    ensures MissingIDs(require, companions, companions.Keys) == {} <==> companions.Keys <= require.Keys
    ensures companions.Keys <= require.Keys ==> AddMissing(require, companions) == require
  {
    if p :| p in companions && p !in require {
      assert companions[p].ruleID in MissingIDs(require, companions, companions.Keys);
    }
  }

  // ---- The fixpoint ------------------------------------------------------

  lemma {:induction false} SwapClears(plan: Plan, paths: seq<ModPath>, rewrites: seq<Rewrite>, t: Target,
                                      fired: seq<Rule>, p: ModPath)
    requires plan.Plan? && Swap(plan, paths, rewrites, t, fired).Plan?
    requires RewriteFor(rewrites, p).Some?
    requires forall i :: 0 <= i < |rewrites| ==> rewrites[i].to != p
    requires p in plan.require ==> p in paths
    ensures p !in Swap(plan, paths, rewrites, t, fired).require
    decreases |paths|
  {
    if paths != [] {
      var next := SwapOne(plan, paths[0], rewrites, t, fired);
      if next.Impossible? {
        SwapKeepsApplied(next, paths[1..], rewrites, t, fired);
      } else {
        if RewriteFor(rewrites, paths[0]).Some? {
          RewriteForIn(rewrites, paths[0]);
        }
        SwapClears(next, paths[1..], rewrites, t, fired, p);
      }
    }
  }

  lemma {:induction false} RewriteForIn(rewrites: seq<Rewrite>, p: ModPath)
    requires RewriteFor(rewrites, p).Some?
    ensures exists i :: 0 <= i < |rewrites| && rewrites[i] == RewriteFor(rewrites, p).value && rewrites[i].from == p
  {
    if rewrites[0].from != p {
      RewriteForIn(rewrites[1..], p);
      var i :| 0 <= i < |rewrites[1..]| && rewrites[1..][i] == RewriteFor(rewrites, p).value &&
        rewrites[1..][i].from == p;
      assert rewrites[i + 1] == rewrites[1..][i];
    }
  }

  // What a rule set has to promise: no target or companion is itself a
  // source, absorbed and companion modules differ, per-path floors do not go
  // down in rule order, and a companion's floors come from rules naming it.
  ghost predicate Sane(rules: seq<Rule>, t: Target, fired: seq<Rule>) {
    && TargetsStay(rules)
    && (forall p :: p in Companions(t, fired) ==> !IsSource(rules, p))
    && Absorbed(fired).Keys !! Companions(t, fired).Keys
    && FloorsRise(AllFloors(fired))
    && (forall p, v :: p in Companions(t, fired) && IsFloor(fired, p, v) ==> NamedFloor(t, fired, p, v))
  }

  // One run reaches a fixpoint that meets every fired floor.
  lemma FixpointReached(paths: seq<ModPath>, require: RequireMap, rules: seq<Rule>, t: Target, fired: seq<Rule>,
                        again: seq<ModPath>)
    requires ListsAll(paths, require) && Sane(rules, t, fired)
    requires Planned(paths, require, rules, t, fired).Plan?
    requires ListsAll(again, Planned(paths, require, rules, t, fired).require)
    ensures var final := Planned(paths, require, rules, t, fired).require;
      && (forall p :: p in final ==> MeetsFloors(fired, p, final[p]))
      && Planned(again, final, rules, t, fired) == Plan(final, {})
  {
    var swapped := Swap(Plan(require, {}), paths, Rewrites(rules), t, fired);
    var final := Planned(paths, require, rules, t, fired).require;
    assert final == Final(t, fired, swapped.require);
    NoEmptyCompanion(map[], t, fired);
    forall p | p in final
      ensures MeetsFloors(fired, p, final[p])
    {
      FinalIs(t, fired, swapped.require, p);
      FinalMeets(t, fired, swapped.require, p);
      if Survives(fired, swapped.require, p) {
        RisingFloorsSettle(fired, p, swapped.require[p]);
      } else {
        CompanionExact(t, fired, p);
      }
    }
    NoneUnmet(fired, final);
    forall p | p in final
      ensures !IsSource(rules, p)
    {
      FinalIs(t, fired, swapped.require, p);
      if IsSource(rules, p) {
        SwapClears(Plan(require, {}), paths, Rewrites(rules), t, fired, p);
      }
    }
    forall p | p in Absorbed(fired)
      ensures p !in final
    {
      FinalIs(t, fired, swapped.require, p);
    }
    forall p | p in Companions(t, fired)
      ensures p in final
    {
      FinalIs(t, fired, swapped.require, p);
    }
    UnchangedIff(again, final, rules, t, fired);
  }

  // ---- When the swap lowers a requirement --------------------------------

  predicate SwapsTo(paths: seq<ModPath>, rewrites: seq<Rewrite>, q: ModPath) {
    exists i :: 0 <= i < |paths| && LeadsTo(rewrites, paths[i], q)
  }

  lemma {:induction false} SwapIs(plan: Plan, paths: seq<ModPath>, rewrites: seq<Rewrite>, t: Target,
                                  fired: seq<Rule>, q: ModPath)
    requires plan.Plan? && Swap(plan, paths, rewrites, t, fired).Plan? && RewriteFor(rewrites, q).None?
    ensures var r := Swap(plan, paths, rewrites, t, fired).require;
      if SwapsTo(paths, rewrites, q) then q in r && Required(t, q, fired) == Some(r[q])
      else (q in r <==> q in plan.require) && (q in r ==> r[q] == plan.require[q])
    decreases |paths|
  {
    if paths != [] {
      var next := SwapOne(plan, paths[0], rewrites, t, fired);
      SwapKeepsApplied(next, paths[1..], rewrites, t, fired);
      SwapIs(next, paths[1..], rewrites, t, fired, q);
      SwapsToCons(paths, rewrites, q);
    }
  }

  predicate LeadsTo(rewrites: seq<Rewrite>, p: ModPath, q: ModPath) {
    RewriteFor(rewrites, p).Some? && RewriteFor(rewrites, p).value.to == q
  }

  lemma SwapsToCons(paths: seq<ModPath>, rewrites: seq<Rewrite>, q: ModPath)
    requires paths != []
    ensures SwapsTo(paths, rewrites, q) <==> LeadsTo(rewrites, paths[0], q) || SwapsTo(paths[1..], rewrites, q)
  {
    if SwapsTo(paths, rewrites, q) {
      var i :| 0 <= i < |paths| && LeadsTo(rewrites, paths[i], q);
      if i > 0 {
        assert LeadsTo(rewrites, paths[1..][i - 1], q);
      }
    }
    if SwapsTo(paths[1..], rewrites, q) {
      var i :| 0 <= i < |paths[1..]| && LeadsTo(rewrites, paths[1..][i], q);
      assert LeadsTo(rewrites, paths[i + 1], q);
    }
  }

  // Step 1 writes the required version over a target that is already there.
  // Requirements that are not sources come out no lower exactly when every
  // such target was not above its required version.
  lemma NeverLowersIff(paths: seq<ModPath>, require: RequireMap, rules: seq<Rule>, t: Target, fired: seq<Rule>)
    requires ListsAll(paths, require)
    requires Swap(Plan(require, {}), paths, Rewrites(rules), t, fired).Plan?
    ensures var raised := Raised(fired, Swap(Plan(require, {}), paths, Rewrites(rules), t, fired).require);
      (forall q :: q in require && !IsSource(rules, q) ==> q in raised && AtLeast(raised[q], require[q]))
      <==>
      (forall q :: q in require && !IsSource(rules, q) && SwapsTo(paths, Rewrites(rules), q) ==>
         Required(t, q, fired).Some? && AtLeast(Required(t, q, fired).value, require[q]))
  {
    var swapped := Swap(Plan(require, {}), paths, Rewrites(rules), t, fired).require;
    var raised := Raised(fired, swapped);
    forall q | q in require && !IsSource(rules, q)
      ensures q in raised
      ensures SwapsTo(paths, Rewrites(rules), q) ==> Required(t, q, fired) == Some(raised[q])
      ensures !SwapsTo(paths, Rewrites(rules), q) ==> AtLeast(raised[q], require[q])
    {
      SwapIs(Plan(require, {}), paths, Rewrites(rules), t, fired, q);
      RaiseNeverLowers(fired, swapped, q);
      RequiredIsLeast(t, q, fired, require[q]);
      VersionOrder(require[q], require[q]);
    }
  }

  // Two modules of which the first moves to the second, already required at
  // 1.3 when only 1.1 is asked for.
  lemma SwapCanLower()
    ensures var from: ModPath, to: ModPath := ["example.com", "old"], ["example.com", "new"];
      var rules := [Rule("move", ImportChange, true, true, from, to, [], None)];
      var require := map[from := Release(0), to := Release(3)];
      && ListsAll([from, to], require)
      && Swap(Plan(require, {}), [from, to], Rewrites(rules), Target(to, Release(1)), [])
        == Plan(map[to := Release(1)], {"move"})
      && Compare(Release(1), require[to]) < 0
  {
    var from: ModPath, to: ModPath := ["example.com", "old"], ["example.com", "new"];
    var rules := [Rule("move", ImportChange, true, true, from, to, [], None)];
    var require := map[from := Release(0), to := Release(3)];
    var rw := Rewrite("move", from, to);
    assert '.' in to[0] by { assert to[0][7] == '.'; }
    assert rules[1..] == [] && Rewrites(rules) == [rw];
    assert from != to by { assert from[1][0] == 'o' && to[1][0] == 'n'; }
    assert [rw][1..] == [];
    assert RewriteFor([rw], to) == None;
    assert [from, to][1..] == [to] && [to][1..] == [];
    var next := Plan(map[to := Release(1)], {"move"});
    assert Required(Target(to, Release(1)), to, []) == Some(Release(1));
    assert SwapOne(Plan(require, {}), from, [rw], Target(to, Release(1)), []) == next;
    assert SwapOne(next, to, [rw], Target(to, Release(1)), []) == next;
    assert Swap(next, [], [rw], Target(to, Release(1)), []) == next;
    assert Swap(next, [to], [rw], Target(to, Release(1)), []) == next;
  }

  // ---- When every floor is met, from the file as it was ------------------

  ghost predicate TargetsStay(rules: seq<Rule>) {
    forall i :: 0 <= i < |Rewrites(rules)| ==> !IsSource(rules, Rewrites(rules)[i].to)
  }

  // The file or the swap provides the module before step 3.
  predicate Provided(paths: seq<ModPath>, require: RequireMap, rules: seq<Rule>, p: ModPath) {
    (p in require && !IsSource(rules, p)) || SwapsTo(paths, Rewrites(rules), p)
  }

  lemma SwappedIs(paths: seq<ModPath>, require: RequireMap, rules: seq<Rule>, t: Target, fired: seq<Rule>, p: ModPath)
    requires ListsAll(paths, require) && TargetsStay(rules)
    requires Swap(Plan(require, {}), paths, Rewrites(rules), t, fired).Plan?
    ensures var swapped := Swap(Plan(require, {}), paths, Rewrites(rules), t, fired).require;
      && (p in swapped <==> Provided(paths, require, rules, p))
      && (p in swapped && SwapsTo(paths, Rewrites(rules), p) ==> LastIsHighest(fired, p, swapped[p]))
      && (p in swapped && !SwapsTo(paths, Rewrites(rules), p) ==> p in require && swapped[p] == require[p])
  {
    if IsSource(rules, p) {
      SwapClears(Plan(require, {}), paths, Rewrites(rules), t, fired, p);
      if SwapsTo(paths, Rewrites(rules), p) {
        var i :| 0 <= i < |paths| && LeadsTo(Rewrites(rules), paths[i], p);
        RewriteForIn(Rewrites(rules), paths[i]);
      }
    } else {
      SwapIs(Plan(require, {}), paths, Rewrites(rules), t, fired, p);
      if SwapsTo(paths, Rewrites(rules), p) {
        var v := Required(t, p, fired).value;
        RequiredIsLeast(t, p, fired, v);
        assert MeetsFloors(fired, p, v);
        MeetsListed(fired, p, v);
        NothingMissed(AllFloors(fired), p, v);
      }
    }
  }

  // A companion's own rules declare its highest floor.
  ghost predicate NamedHighest(t: Target, fired: seq<Rule>, p: ModPath) {
    forall v :: IsFloor(fired, p, v) ==> exists w :: NamedFloor(t, fired, p, w) && AtLeast(w, v)
  }

  lemma CompanionMeetsIff(t: Target, fired: seq<Rule>, p: ModPath)
    requires p in Companions(t, fired)
    ensures MeetsFloors(fired, p, Companions(t, fired)[p].version) <==> NamedHighest(t, fired, p)
  {
    NoEmptyCompanion(map[], t, fired);
    CompanionExact(t, fired, p);
    var best := Companions(t, fired)[p].version;
    if NamedHighest(t, fired, p) {
      forall v | IsFloor(fired, p, v)
        ensures AtLeast(best, v)
      {
        var w :| NamedFloor(t, fired, p, w) && AtLeast(w, v);
        VersionTransitive(best, w, v);
      }
    }
  }

  // p is written as the file had it and step 2 left it.
  ghost predicate KeptAsIs(paths: seq<ModPath>, require: RequireMap, rules: seq<Rule>, fired: seq<Rule>, p: ModPath) {
    p in require && !IsSource(rules, p) && !SwapsTo(paths, Rewrites(rules), p) && p !in Absorbed(fired)
  }

  // p is written by step 4.
  ghost predicate Added(paths: seq<ModPath>, require: RequireMap, rules: seq<Rule>, t: Target, fired: seq<Rule>,
                        p: ModPath) {
    p in Companions(t, fired) && (p in Absorbed(fired) || !Provided(paths, require, rules, p))
  }

  lemma PlannedMeets(paths: seq<ModPath>, require: RequireMap, rules: seq<Rule>, t: Target, fired: seq<Rule>,
                     p: ModPath)
    requires ListsAll(paths, require) && TargetsStay(rules)
    requires Planned(paths, require, rules, t, fired).Plan?
    ensures var final := Planned(paths, require, rules, t, fired).require;
      && (KeptAsIs(paths, require, rules, fired, p) ==>
            p in final && (MeetsFloors(fired, p, final[p]) <==> LastIsHighest(fired, p, require[p])))
      && (Added(paths, require, rules, t, fired, p) ==>
            p in final && (MeetsFloors(fired, p, final[p]) <==> NamedHighest(t, fired, p)))
      && (p in final && !KeptAsIs(paths, require, rules, fired, p) && !Added(paths, require, rules, t, fired, p) ==>
            MeetsFloors(fired, p, final[p]))
  {
    var swapped := Swap(Plan(require, {}), paths, Rewrites(rules), t, fired).require;
    assert Planned(paths, require, rules, t, fired).require == Final(t, fired, swapped);
    SwappedIs(paths, require, rules, t, fired, p);
    FinalIs(t, fired, swapped, p);
    FinalMeets(t, fired, swapped, p);
    if Added(paths, require, rules, t, fired, p) {
      CompanionMeetsIff(t, fired, p);
    }
  }

  // Exactly when the written go.mod leaves no fired floor unmet: for every
  // requirement kept as it was, the last floor it misses is its highest, and
  // for every companion that is added, its own rules declare its highest
  // floor. A swapped-to target always meets its floors.
  lemma FloorsMetIff(paths: seq<ModPath>, require: RequireMap, rules: seq<Rule>, t: Target, fired: seq<Rule>)
    requires ListsAll(paths, require) && TargetsStay(rules)
    requires Planned(paths, require, rules, t, fired).Plan?
    ensures UnmetOf(AllFloors(fired), Planned(paths, require, rules, t, fired).require) == [] <==>
      && (forall p :: KeptAsIs(paths, require, rules, fired, p) ==> LastIsHighest(fired, p, require[p]))
      && (forall p :: Added(paths, require, rules, t, fired, p) ==> NamedHighest(t, fired, p))
  {
    var final := Planned(paths, require, rules, t, fired).require;
    NoneUnmet(fired, final);
    forall p
      ensures KeptAsIs(paths, require, rules, fired, p) ==>
        p in final && (MeetsFloors(fired, p, final[p]) <==> LastIsHighest(fired, p, require[p]))
      ensures Added(paths, require, rules, t, fired, p) ==>
        p in final && (MeetsFloors(fired, p, final[p]) <==> NamedHighest(t, fired, p))
      ensures p in final && !KeptAsIs(paths, require, rules, fired, p) && !Added(paths, require, rules, t, fired, p) ==>
        MeetsFloors(fired, p, final[p])
    {
      PlannedMeets(paths, require, rules, t, fired, p);
    }
  }

  // What a second run would find left to do besides floors: nothing absorbed
  // is added back and nothing added is moved away.
  ghost predicate Settles(rules: seq<Rule>, t: Target, fired: seq<Rule>) {
    && Absorbed(fired).Keys !! Companions(t, fired).Keys
    && forall p :: p in Companions(t, fired) ==> !IsSource(rules, p)
  }

  lemma FinalSettles(paths: seq<ModPath>, require: RequireMap, rules: seq<Rule>, t: Target, fired: seq<Rule>)
    requires ListsAll(paths, require) && TargetsStay(rules)
    requires Planned(paths, require, rules, t, fired).Plan?
    ensures var final := Planned(paths, require, rules, t, fired).require;
      && Companions(t, fired).Keys <= final.Keys
      && (Absorbed(fired).Keys !! final.Keys && (forall p :: p in final ==> !IsSource(rules, p))
          <==> Settles(rules, t, fired))
  {
    var swapped := Swap(Plan(require, {}), paths, Rewrites(rules), t, fired).require;
    var final := Planned(paths, require, rules, t, fired).require;
    assert final == Final(t, fired, swapped);
    forall p
      ensures p in Companions(t, fired) ==> p in final
      ensures p in final && p !in Companions(t, fired) ==> p !in Absorbed(fired) && !IsSource(rules, p)
    {
      FinalIs(t, fired, swapped, p);
      SwappedIs(paths, require, rules, t, fired, p);
      if IsSource(rules, p) {
        SwapClears(Plan(require, {}), paths, Rewrites(rules), t, fired, p);
      }
    }
  }

  // Exactly when a second run with the same fired rules changes nothing.
  lemma FixpointIff(paths: seq<ModPath>, require: RequireMap, rules: seq<Rule>, t: Target, fired: seq<Rule>,
                    again: seq<ModPath>)
    requires ListsAll(paths, require) && TargetsStay(rules)
    requires Planned(paths, require, rules, t, fired).Plan?
    requires ListsAll(again, Planned(paths, require, rules, t, fired).require)
    ensures var final := Planned(paths, require, rules, t, fired).require;
      Planned(again, final, rules, t, fired) == Plan(final, {}) <==>
      && (forall p :: KeptAsIs(paths, require, rules, fired, p) ==> LastIsHighest(fired, p, require[p]))
      && (forall p :: Added(paths, require, rules, t, fired, p) ==> NamedHighest(t, fired, p))
      && Settles(rules, t, fired)
  {
    FloorsMetIff(paths, require, rules, t, fired);
    FinalSettles(paths, require, rules, t, fired);
    UnchangedIff(again, Planned(paths, require, rules, t, fired).require, rules, t, fired);
  }
}
