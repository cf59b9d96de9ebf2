// Rules, the module versions they need, and which version a go.mod must have.
module Floors {
  import opened Options
  import opened Sequences
  import opened Semver

  // A module or import path as its slash-separated elements; prose and bare
  // symbol names count as a path of one element.
  type ModPath = seq<string>

  datatype ModuleRequirement = ModuleRequirement(path: ModPath, version: Version)

  datatype Requires = Requires(go: Directive, modules: seq<ModuleRequirement>)

  datatype Kind = ImportChange | MovedToExtension | ExtensionAbsorbed | OtherKind

  datatype Rule = Rule(id: string, kind: Kind, packageAll: bool, mechanical: bool,
                       from: ModPath, to: ModPath, extensionModule: ModPath, needs: Option<Requires>) {
    // The floors this rule declares; none without a requires block.
    function Modules(): seq<ModuleRequirement> {
      if needs.None? then [] else needs.value.modules
    }
  }

  // The migration target and the rule set's minimum version of it.
  datatype Target = Target(path: ModPath, minimum: Version)

  // ---- Paths -------------------------------------------------------------

  predicate IsDigit(c: char) { '0' <= c <= '9' }

  // v1, v2, ..., without a leading zero.
  predicate IsMajorSuffix(e: string) {
    |e| >= 2 && e[0] == 'v' && IsDigit(e[1]) && e[1] != '0' && forall i :: 2 <= i < |e| ==> IsDigit(e[i])
  }

  predicate ProseChar(c: char) { c in " \t(),\"`" }

  predicate IsProse(p: ModPath) {
    exists i, j :: 0 <= i < |p| && 0 <= j < |p[i]| && ProseChar(p[i][j])
  }

  // The path cut at its last major-version element; empty when there is none.
  method ModulePathOf(p: ModPath) returns (r: ModPath)
    ensures r == OwningModule(p)
  {
    if p == [] || IsProse(p) {
      return [];
    }
    if |p| < 2 || '.' !in p[0] {
      return [];
    }
    var i := |p| - 1;
    assert p[..i + 1] == p;
    while i >= 1
      invariant 0 <= i < |p|
      invariant CutAtMajor(p) == CutAtMajor(p[..i + 1])
    {
      if IsMajorSuffix(p[i]) {
        assert p[..i + 1][..i + 1] == p[..i + 1];
        return p[..i + 1];
      }
      assert p[..i + 1][..i] == p[..i];
      i := i - 1;
    }
    r := [];
  }

  function CutAtMajor(p: ModPath): ModPath {
    if |p| <= 1 then []
    else if IsMajorSuffix(p[|p| - 1]) then p
    else CutAtMajor(p[..|p| - 1])
  }

  function OwningModule(p: ModPath): ModPath {
    if IsProse(p) || |p| < 2 || '.' !in p[0] then [] else CutAtMajor(p)
  }

  lemma {:induction false} CutAtMajorPrefix(p: ModPath)
    ensures var r := CutAtMajor(p);
      && |r| <= |p| && r == p[..|r|]
      && (r != [] ==> |r| > 1 && IsMajorSuffix(r[|r| - 1]))
      && forall i :: 1 <= i < |p| && |r| <= i ==> !IsMajorSuffix(p[i])
  {
    if |p| > 1 && !IsMajorSuffix(p[|p| - 1]) {
      CutAtMajorPrefix(p[..|p| - 1]);
    }
  }

  // What is found is a prefix ending in the last major element, and finding
  // the module of a module path changes nothing.
  lemma OwningModuleStable(p: ModPath)
    ensures var r := OwningModule(p);
      && |r| <= |p| && r == p[..|r|]
      && (r != [] ==> IsMajorSuffix(r[|r| - 1]) && forall i :: |r| <= i < |p| ==> !IsMajorSuffix(p[i]))
      && OwningModule(r) == r
  {
    CutAtMajorPrefix(p);
    var r := OwningModule(p);
    ProsePrefix(p, |r|);
    if r != [] {
      assert CutAtMajor(r) == r;
    }
  }

  // A module is found exactly in a path of two or more elements without prose
  // whose first element has a dot and in which a later element is a version.
  lemma OwningModuleExact(p: ModPath)
    ensures OwningModule(p) != [] <==>
      && (forall i, j :: 0 <= i < |p| && 0 <= j < |p[i]| ==> p[i][j] !in [' ', '\t', '(', ')', ',', '\"', '`'])
      && |p| >= 2 && '.' in p[0]
      && exists i :: 1 <= i < |p| && IsMajorSuffix(p[i])
  {
    CutAtMajorPrefix(p);
    CutAtMajorFinds(p);
    if IsProse(p) {
      var i, j :| 0 <= i < |p| && 0 <= j < |p[i]| && ProseChar(p[i][j]);
      assert p[i][j] in [' ', '\t', '(', ')', ',', '\"', '`'];
    }
  }

  lemma {:induction false} CutAtMajorFinds(p: ModPath)
    ensures CutAtMajor(p) != [] <==> exists i :: 1 <= i < |p| && IsMajorSuffix(p[i])
  {
    if |p| > 1 && !IsMajorSuffix(p[|p| - 1]) {
      CutAtMajorFinds(p[..|p| - 1]);
      if i :| 1 <= i < |p| && IsMajorSuffix(p[i]) {
        assert p[..|p| - 1][i] == p[i];
      }
    }
  }

  // A version element is v and a number written without a leading zero.
  lemma MajorSuffixes(digits: string)
    ensures IsMajorSuffix("v" + digits) <==>
      digits != "" && digits[0] != '0' && forall c :: c in digits ==> c in "0123456789"
    ensures forall e: string :: IsMajorSuffix(e) ==> e != "" && e[0] == 'v'
  {
    var e := "v" + digits;
    assert e[1..] == digits;
    assert forall k :: 0 <= k < |digits| ==> e[k + 1] == digits[k] && digits[k] in digits;
    forall c: char
      ensures IsDigit(c) <==> c in "0123456789"
    {
      DigitIs(c);
    }
  }

  lemma DigitIs(c: char)
    ensures IsDigit(c) <==> c in "0123456789"
  {
    var ds := "0123456789";
    assert forall k :: 0 <= k < 10 ==> ds[k] as int == '0' as int + k;
    if IsDigit(c) {
      assert ds[c as int - '0' as int] == c;
    }
  }

  lemma ProsePrefix(p: ModPath, k: nat)
    requires k <= |p|
    ensures IsProse(p[..k]) ==> IsProse(p)
  {
    if IsProse(p[..k]) {
      var i, j :| 0 <= i < k && 0 <= j < |p[..k][i]| && ProseChar(p[..k][i][j]);
      assert p[i] == p[..k][i];
    }
  }

  // A standard library path has no dot in its first element.
  predicate IsStdlibPath(p: ModPath) { p == [] || '.' !in p[0] }

  // ---- Floors ------------------------------------------------------------

  // Every floor the fired rules declare, in rule order.
  function AllFloors(fired: seq<Rule>): seq<(string, ModuleRequirement)> {
    if fired == [] then [] else RuleFloors(fired[0].id, fired[0].Modules()) + AllFloors(fired[1..])
  }

  function RuleFloors(id: string, modules: seq<ModuleRequirement>): seq<(string, ModuleRequirement)> {
    seq(|modules|, i requires 0 <= i < |modules| => (id, modules[i]))
  }

  // v is a floor some fired rule declares for path.
  ghost predicate IsFloor(fired: seq<Rule>, path: ModPath, v: Version) {
    exists i, j :: 0 <= i < |fired| && 0 <= j < |fired[i].Modules()| &&
      fired[i].Modules()[j] == ModuleRequirement(path, v)
  }

  ghost predicate MeetsFloors(fired: seq<Rule>, path: ModPath, v: Version) {
    forall f :: IsFloor(fired, path, f) ==> AtLeast(v, f)
  }

  function Higher(best: Option<Version>, v: Version): Option<Version> {
    if best.None? || Compare(v, best.value) > 0 then Some(v) else best
  }

  function Raise(best: Option<Version>, path: ModPath, modules: seq<ModuleRequirement>): Option<Version>
    decreases |modules|
  {
    if modules == [] then best
    else Raise(if modules[0].path == path then Higher(best, modules[0].version) else best, path, modules[1..])
  }

  function RaiseAll(best: Option<Version>, path: ModPath, fired: seq<Rule>): Option<Version>
    decreases |fired|
  {
    if fired == [] then best else RaiseAll(Raise(best, path, fired[0].Modules()), path, fired[1..])
  }

  function Baseline(t: Target, path: ModPath): Option<Version> {
    if path == t.path then Some(t.minimum) else None
  }

  function Required(t: Target, path: ModPath, fired: seq<Rule>): Option<Version> {
    RaiseAll(Baseline(t, path), path, fired)
  }

  // The rule's requires block asks for this version of the module.
  predicate Declares(r: Rule, path: ModPath, v: Version) {
    r.needs.Some? && ModuleRequirement(path, v) in r.needs.value.modules
  }

  // v is the minimum of the target or declared by a fired rule, and none of
  // these is higher.
  ghost predicate HighestDeclared(t: Target, path: ModPath, fired: seq<Rule>, v: Version) {
    && ((path == t.path && v == t.minimum) || exists r :: r in fired && Declares(r, path, v))
    && (path == t.path ==> Compare(v, t.minimum) >= 0)
    && (forall r, f :: r in fired && Declares(r, path, f) ==> Compare(v, f) >= 0)
  }

  method RequiredVersionFor(t: Target, path: ModPath, fired: seq<Rule>) returns (best: Option<Version>)
    ensures best == Required(t, path, fired)
    ensures best.None? <==> path != t.path && forall r, v :: r in fired ==> !Declares(r, path, v)
    ensures best.Some? ==> HighestDeclared(t, path, fired, best.value)
  {
    RequiredHighest(t, path, fired);
    best := None;
    if path == t.path {
      best := Some(t.minimum);
    }
    for i := 0 to |fired|
      invariant RaiseAll(best, path, fired[i..]) == Required(t, path, fired)
    {
      assert fired[i..][1..] == fired[i + 1..];
      if fired[i].needs.None? {
        continue;
      }
      var modules := fired[i].needs.value.modules;
      for j := 0 to |modules|
        invariant RaiseAll(Raise(best, path, modules[j..]), path, fired[i + 1..]) == Required(t, path, fired)
      {
        assert modules[j..][1..] == modules[j + 1..];
        if modules[j].path != path {
          continue;
        }
        if best.None? || Compare(modules[j].version, best.value) > 0 {
          best := Some(modules[j].version);
        }
      }
    }
  }

  // ---- It is the least version that meets them ---------------------------

  // r is the greatest of `best` and the floors of path among `modules`.
  ghost predicate GreatestOf(r: Option<Version>, best: Option<Version>, path: ModPath,
                             modules: seq<ModuleRequirement>) {
    && (r.None? <==> best.None? && forall j :: 0 <= j < |modules| ==> modules[j].path != path)
    && (r.Some? ==>
        && (best.Some? ==> AtLeast(r.value, best.value))
        && (forall j :: 0 <= j < |modules| && modules[j].path == path ==> AtLeast(r.value, modules[j].version))
        && (r == best || exists j :: 0 <= j < |modules| && modules[j] == ModuleRequirement(path, r.value)))
  }

  lemma {:induction false} RaiseIsGreatest(best: Option<Version>, path: ModPath, modules: seq<ModuleRequirement>)
    ensures GreatestOf(Raise(best, path, modules), best, path, modules)
    decreases |modules|
  {
    if modules == [] {
      if best.Some? {
        VersionOrder(best.value, best.value);
      }
    } else {
      var m := modules[0];
      var next := if m.path == path then Higher(best, m.version) else best;
      RaiseIsGreatest(next, path, modules[1..]);
      var r := Raise(best, path, modules);
      if m.path == path {
        VersionOrder(m.version, m.version);
        if best.Some? {
          VersionOrder(m.version, best.value);
          VersionOrder(best.value, best.value);
          VersionTransitive(r.value, next.value, m.version);
          VersionTransitive(r.value, next.value, best.value);
        }
      }
      if r.Some? {
        forall j | 0 <= j < |modules| && modules[j].path == path
          ensures AtLeast(r.value, modules[j].version)
        {
          if j > 0 {
            assert modules[1..][j - 1] == modules[j];
          }
        }
        if r != next {
          var j :| 0 <= j < |modules[1..]| && modules[1..][j] == ModuleRequirement(path, r.value);
          assert modules[j + 1] == ModuleRequirement(path, r.value);
        } else if next != best {
          assert modules[0] == ModuleRequirement(path, r.value);
        }
      } else {
        forall j | 0 <= j < |modules|
          ensures modules[j].path != path
        {
          if j > 0 {
            assert modules[1..][j - 1] == modules[j];
          }
        }
      }
    }
  }

  // v meets the baseline and every floor; r is the least such version.
  ghost predicate LeastMeeting(r: Option<Version>, best: Option<Version>, path: ModPath, fired: seq<Rule>) {
    && (r.None? <==> best.None? && forall v :: !IsFloor(fired, path, v))
    && (r.Some? ==>
        && (best.Some? ==> AtLeast(r.value, best.value))
        && MeetsFloors(fired, path, r.value)
        && (r == best || IsFloor(fired, path, r.value)))
  }

  lemma FloorCons(fired: seq<Rule>, path: ModPath, v: Version)
    requires fired != []
    ensures IsFloor(fired, path, v)
      <==> (IsFloor(fired[1..], path, v)
            || exists j :: 0 <= j < |fired[0].Modules()| && fired[0].Modules()[j] == ModuleRequirement(path, v))
  {
    if IsFloor(fired[1..], path, v) {
      var i, j :| 0 <= i < |fired[1..]| && 0 <= j < |fired[1..][i].Modules()| &&
        fired[1..][i].Modules()[j] == ModuleRequirement(path, v);
      assert fired[i + 1] == fired[1..][i];
    }
    if IsFloor(fired, path, v) {
      var i, j :| 0 <= i < |fired| && 0 <= j < |fired[i].Modules()| &&
        fired[i].Modules()[j] == ModuleRequirement(path, v);
      if i > 0 {
        assert fired[i] == fired[1..][i - 1];
      }
    }
  }

  lemma {:induction false} RaiseAllIsLeast(best: Option<Version>, path: ModPath, fired: seq<Rule>)
    ensures LeastMeeting(RaiseAll(best, path, fired), best, path, fired)
    decreases |fired|
  {
    if fired == [] {
      if best.Some? {
        VersionOrder(best.value, best.value);
      }
    } else {
      var modules := fired[0].Modules();
      var next := Raise(best, path, modules);
      RaiseIsGreatest(best, path, modules);
      RaiseAllIsLeast(next, path, fired[1..]);
      var r := RaiseAll(best, path, fired);
      RaiseStep(r, next, best, path, fired);
    }
  }

  lemma RaiseStep(r: Option<Version>, next: Option<Version>, best: Option<Version>, path: ModPath, fired: seq<Rule>)
    requires fired != [] && GreatestOf(next, best, path, fired[0].Modules())
    requires LeastMeeting(r, next, path, fired[1..])
    ensures LeastMeeting(r, best, path, fired)
  {
    var modules := fired[0].Modules();
    forall v
      ensures IsFloor(fired, path, v)
        <==> (IsFloor(fired[1..], path, v) || exists j ::
          0 <= j < |modules| && modules[j] == ModuleRequirement(path, v))
    {
      FloorCons(fired, path, v);
    }
    if r.Some? {
      if next.Some? && best.Some? {
        VersionTransitive(r.value, next.value, best.value);
      }
      forall v | IsFloor(fired, path, v)
        ensures AtLeast(r.value, v)
      {
        if !IsFloor(fired[1..], path, v) {
          var j :| 0 <= j < |modules| && modules[j] == ModuleRequirement(path, v);
          VersionTransitive(r.value, next.value, v);
        }
      }
      if next.Some? && r.value == next.value && next != best {
        var j :| 0 <= j < |modules| && modules[j] == ModuleRequirement(path, next.value);
        assert IsFloor(fired, path, r.value);
      }
    } else if best.None? {
      forall v
        ensures !IsFloor(fired, path, v)
      {
        assert forall j :: 0 <= j < |modules| ==> modules[j].path != path;
      }
    }
  }

  // The required version is the least one meeting the baseline and every
  // fired floor, and there is none exactly when nothing declares one.
  lemma RequiredIsLeast(t: Target, path: ModPath, fired: seq<Rule>, v: Version)
    ensures LeastMeeting(Required(t, path, fired), Baseline(t, path), path, fired)
    ensures MeetsFloors(fired, path, v) && (path == t.path ==> AtLeast(v, t.minimum)) && Required(t, path, fired).Some?
      ==> AtLeast(v, Required(t, path, fired).value)
  {
    RaiseAllIsLeast(Baseline(t, path), path, fired);
  }

  lemma DeclaredFloor(fired: seq<Rule>, path: ModPath, v: Version)
    ensures IsFloor(fired, path, v) <==> exists r :: r in fired && Declares(r, path, v)
  {
    if r :| r in fired && Declares(r, path, v) {
      var i :| 0 <= i < |fired| && fired[i] == r;
      var j :| 0 <= j < |r.Modules()| && r.Modules()[j] == ModuleRequirement(path, v);
      assert fired[i].Modules()[j] == ModuleRequirement(path, v);
    }
    if IsFloor(fired, path, v) {
      var i, j :| 0 <= i < |fired| && 0 <= j < |fired[i].Modules()| &&
        fired[i].Modules()[j] == ModuleRequirement(path, v);
      assert fired[i] in fired && Declares(fired[i], path, v);
    }
  }

  // In the words of the rules: the highest of what is declared.
  lemma RequiredHighest(t: Target, path: ModPath, fired: seq<Rule>)
    ensures var best := Required(t, path, fired);
      && (best.None? <==> path != t.path && forall r, v :: r in fired ==> !Declares(r, path, v))
      && (best.Some? ==> HighestDeclared(t, path, fired, best.value))
  {
    RaiseAllIsLeast(Baseline(t, path), path, fired);
    forall v
      ensures IsFloor(fired, path, v) <==> exists r :: r in fired && Declares(r, path, v)
    {
      DeclaredFloor(fired, path, v);
    }
    forall r, v | r in fired && Declares(r, path, v)
      ensures IsFloor(fired, path, v)
    {
      DeclaredFloor(fired, path, v);
    }
  }

  // So neither the order of the rules nor repeated ones matter, and more
  // fired rules never lower it.
  lemma RequiredMonotone(t: Target, path: ModPath, fired: seq<Rule>, more: seq<Rule>)
    requires forall r :: r in fired ==> r in more
    ensures Required(t, path, fired).Some? ==>
      Required(t, path, more).Some? && AtLeast(Required(t, path, more).value, Required(t, path, fired).value)
    ensures (forall r :: r in more ==> r in fired) ==> Required(t, path, more) == Required(t, path, fired)
  {
    RaiseAllIsLeast(Baseline(t, path), path, fired);
    RaiseAllIsLeast(Baseline(t, path), path, more);
    FloorsOfMembers(path, fired, more);
    if forall r :: r in more ==> r in fired {
      FloorsOfMembers(path, more, fired);
      if Required(t, path, fired).Some? && Required(t, path, more).Some? {
        VersionOrder(Required(t, path, fired).value, Required(t, path, more).value);
      }
    }
  }

  lemma FloorsOfMembers(path: ModPath, fired: seq<Rule>, more: seq<Rule>)
    requires forall r :: r in fired ==> r in more
    ensures forall v :: IsFloor(fired, path, v) ==> IsFloor(more, path, v)
  {
    forall v | IsFloor(fired, path, v)
      ensures IsFloor(more, path, v)
    {
      var i, j :| 0 <= i < |fired| && 0 <= j < |fired[i].Modules()| &&
        fired[i].Modules()[j] == ModuleRequirement(path, v);
      assert fired[i] in more;
      var k :| 0 <= k < |more| && more[k] == fired[i];
    }
  }

  // ---- Unmet floors ------------------------------------------------------

  datatype UnmetFloor = UnmetFloor(ruleID: string, path: ModPath, need: Version, current: Version)

  type RequireMap = map<ModPath, Version>

  predicate Unmet(m: ModuleRequirement, current: RequireMap) {
    m.path in current && !AtLeast(current[m.path], m.version)
  }

  function UnmetOf(floors: seq<(string, ModuleRequirement)>, current: RequireMap): seq<UnmetFloor> {
    if floors == [] then []
    else if Unmet(floors[0].1, current) then
      [UnmetFloor(floors[0].0, floors[0].1.path, floors[0].1.version, current[floors[0].1.path])]
        + UnmetOf(floors[1..], current)
    else UnmetOf(floors[1..], current)
  }

  lemma {:induction false} UnmetOfAppend(a: seq<(string, ModuleRequirement)>, b: seq<(string, ModuleRequirement)>,
                                         current: RequireMap)
    ensures UnmetOf(a + b, current) == UnmetOf(a, current) + UnmetOf(b, current)
  {
    if a == [] {
      assert a + b == b;
    } else {
      assert (a + b)[1..] == a[1..] + b;
      UnmetOfAppend(a[1..], b, current);
    }
  }

  // The rule declares the floor u speaks of, and the go.mod requires the
  // module at a lower version.
  predicate NeedsMore(r: Rule, current: RequireMap, u: UnmetFloor) {
    && u.ruleID == r.id && Declares(r, u.path, u.need)
    && u.path in current && u.current == current[u.path] && Compare(u.current, u.need) < 0
  }

  method UnmetFloors(fired: seq<Rule>, current: RequireMap) returns (out: seq<UnmetFloor>)
    ensures out == UnmetOf(AllFloors(fired), current)
    ensures forall u :: u in out <==> exists r :: r in fired && NeedsMore(r, current, u)
  {
    UnmetExact(fired, current);
    out := [];
    for i := 0 to |fired|
      invariant out + UnmetOf(AllFloors(fired[i..]), current) == UnmetOf(AllFloors(fired), current)
    {
      var r := fired[i];
      assert fired[i..][1..] == fired[i + 1..];
      UnmetOfAppend(RuleFloors(r.id, r.Modules()), AllFloors(fired[i + 1..]), current);
      Associate(out, UnmetOf(RuleFloors(r.id, r.Modules()), current), UnmetOf(AllFloors(fired[i + 1..]), current));
      if r.needs.None? {
        assert RuleFloors(r.id, r.Modules()) == [] && out + [] == out;
        continue;
      }
      out := AppendUnmet(out, r.id, r.needs.value.modules, current);
    }
  }

  // The inner loop: one rule's requirements in declaration order.
  method AppendUnmet(before: seq<UnmetFloor>, id: string, modules: seq<ModuleRequirement>, current: RequireMap)
    returns (out: seq<UnmetFloor>)
    ensures out == before + UnmetOf(RuleFloors(id, modules), current)
  {
    out := before;
    for j := 0 to |modules|
      invariant out + UnmetOf(RuleFloors(id, modules[j..]), current)
        == before + UnmetOf(RuleFloors(id, modules), current)
    {
      var m := modules[j];
      assert RuleFloors(id, modules[j..])[1..] == RuleFloors(id, modules[j + 1..]);
      if m.path !in current {
        continue;
      }
      if AtLeast(current[m.path], m.version) {
        continue;
      }
      out := out + [UnmetFloor(id, m.path, m.version, current[m.path])];
    }
  }

  // Entry k of the floors is the unmet floor u.
  predicate ReportedAt(floors: seq<(string, ModuleRequirement)>, current: RequireMap, u: UnmetFloor, k: int) {
    && 0 <= k < |floors| && Unmet(floors[k].1, current)
    && u == UnmetFloor(floors[k].0, floors[k].1.path, floors[k].1.version, current[floors[k].1.path])
  }

  lemma {:induction false} UnmetOfMembers(floors: seq<(string, ModuleRequirement)>, current: RequireMap, u: UnmetFloor)
    ensures u in UnmetOf(floors, current) <==> exists k :: ReportedAt(floors, current, u, k)
  {
    if floors != [] {
      UnmetOfMembers(floors[1..], current, u);
      if k :| ReportedAt(floors[1..], current, u, k) {
        assert ReportedAt(floors, current, u, k + 1);
      }
      if k :| ReportedAt(floors, current, u, k) && k > 0 {
        assert ReportedAt(floors[1..], current, u, k - 1);
      }
      assert Unmet(floors[0].1, current) ==> UnmetOf(floors, current)[1..] == UnmetOf(floors[1..], current);
      assert UnmetOf(floors, current) != [] && ReportedAt(floors, current, u, 0) ==> u == UnmetOf(floors, current)[0];
    }
  }

  lemma {:induction false} FloorOfRule(rules: seq<Rule>, r: Rule, m: ModuleRequirement) returns (k: nat)
    requires r in rules && m in r.Modules()
    ensures k < |AllFloors(rules)| && AllFloors(rules)[k] == (r.id, m)
  {
    var head := RuleFloors(rules[0].id, rules[0].Modules());
    if r == rules[0] {
      k :| 0 <= k < |r.Modules()| && r.Modules()[k] == m;
    } else {
      var n := FloorOfRule(rules[1..], r, m);
      k := |head| + n;
      assert AllFloors(rules)[k] == AllFloors(rules[1..])[n];
    }
  }

  lemma UnmetExact(fired: seq<Rule>, current: RequireMap)
    ensures forall u ::
      u in UnmetOf(AllFloors(fired), current) <==> exists r :: r in fired && NeedsMore(r, current, u)
  {
    forall u
      ensures u in UnmetOf(AllFloors(fired), current) <==> exists r :: r in fired && NeedsMore(r, current, u)
    {
      UnmetOfMembers(AllFloors(fired), current, u);
      if u in UnmetOf(AllFloors(fired), current) {
        var k :| ReportedAt(AllFloors(fired), current, u, k);
        ListedIsFloor(fired, k);
        var i :| 0 <= i < |fired| && fired[i].id == AllFloors(fired)[k].0
          && AllFloors(fired)[k].1 in fired[i].Modules();
        assert fired[i] in fired && NeedsMore(fired[i], current, u);
      }
      if r :| r in fired && NeedsMore(r, current, u) {
        var k := FloorOfRule(fired, r, ModuleRequirement(u.path, u.need));
        assert ReportedAt(AllFloors(fired), current, u, k);
      }
    }
  }

  // A declared floor is reported exactly when the go.mod requires a release
  // with a lower major, or an equal one and a lower minor, or both equal and
  // a lower patch; a pre-release of an equal triple is too low as well.
  lemma UnmetInNumbers(fired: seq<Rule>, current: RequireMap, r: Rule, path: ModPath, need: Version)
    requires r in fired && Declares(r, path, need) && path in current && need.pre == []
    ensures var have := current[path];
      UnmetFloor(r.id, path, need, have) in UnmetOf(AllFloors(fired), current) <==>
        || have.major < need.major
        || (have.major == need.major && have.minor < need.minor)
        || (have.major == need.major && have.minor == need.minor && have.patch < need.patch)
        || (SameTriple(have, need) && have.pre != [])
  {
    UnmetExact(fired, current);
    var u := UnmetFloor(r.id, path, need, current[path]);
    VersionOrder(need, current[path]);
    assert NeedsMore(r, current, u) <==> Compare(u.current, u.need) < 0;
    assert forall q :: NeedsMore(q, current, u) ==> NeedsMore(r, current, u);
  }

  // Nothing is reported exactly when every required module meets its floors.
  lemma NoneUnmet(fired: seq<Rule>, current: RequireMap)
    ensures UnmetOf(AllFloors(fired), current) == [] <==> forall p :: p in current ==> MeetsFloors(fired, p, current[p])
  {
    UnmetEmpty(AllFloors(fired), current);
    if UnmetOf(AllFloors(fired), current) == [] {
      forall p, f | p in current && IsFloor(fired, p, f)
        ensures AtLeast(current[p], f)
      {
        var k := FloorListed(fired, p, f);
        assert !Unmet(AllFloors(fired)[k].1, current);
      }
    } else {
      var k :| 0 <= k < |AllFloors(fired)| && Unmet(AllFloors(fired)[k].1, current);
      ListedIsFloor(fired, k);
    }
  }

  lemma {:induction false} UnmetEmpty(floors: seq<(string, ModuleRequirement)>, current: RequireMap)
    ensures UnmetOf(floors, current) == [] <==> forall k :: 0 <= k < |floors| ==> !Unmet(floors[k].1, current)
  {
    if floors != [] {
      UnmetEmpty(floors[1..], current);
      if forall k :: 0 <= k < |floors[1..]| ==> !Unmet(floors[1..][k].1, current) {
        forall k | 0 < k < |floors|
          ensures !Unmet(floors[k].1, current)
        {
          assert floors[k] == floors[1..][k - 1];
        }
      }
    }
  }

  lemma {:induction false} FloorListed(fired: seq<Rule>, path: ModPath, f: Version) returns (k: nat)
    requires IsFloor(fired, path, f)
    ensures k < |AllFloors(fired)| && AllFloors(fired)[k].1 == ModuleRequirement(path, f)
  {
    FloorCons(fired, path, f);
    var head := RuleFloors(fired[0].id, fired[0].Modules());
    if IsFloor(fired[1..], path, f) {
      var m := FloorListed(fired[1..], path, f);
      k := |head| + m;
      Behind(head, AllFloors(fired[1..]), m);
    } else {
      k :| 0 <= k < |fired[0].Modules()| && fired[0].Modules()[k] == ModuleRequirement(path, f);
      InFront(head, AllFloors(fired[1..]), k);
    }
  }

  lemma Behind<T>(head: seq<T>, tail: seq<T>, m: nat)
    requires m < |tail|
    ensures (head + tail)[|head| + m] == tail[m]
  {
  }

  lemma InFront<T>(head: seq<T>, tail: seq<T>, k: nat)
    requires k < |head|
    ensures (head + tail)[k] == head[k]
  {
  }

  lemma {:induction false} ListedIsFloor(fired: seq<Rule>, k: nat)
    requires k < |AllFloors(fired)|
    ensures IsFloor(fired, AllFloors(fired)[k].1.path, AllFloors(fired)[k].1.version)
    ensures exists i ::
      0 <= i < |fired| && fired[i].id == AllFloors(fired)[k].0 && AllFloors(fired)[k].1 in fired[i].Modules()
  {
    var head := RuleFloors(fired[0].id, fired[0].Modules());
    var m := AllFloors(fired)[k].1;
    if k < |head| {
      assert fired[0].Modules()[k] == ModuleRequirement(m.path, m.version);
    } else {
      ListedIsFloor(fired[1..], k - |head|);
      assert AllFloors(fired)[k] == AllFloors(fired[1..])[k - |head|];
      FloorCons(fired, m.path, m.version);
      var i :| 0 <= i < |fired[1..]| && fired[1..][i].id == AllFloors(fired)[k].0 && m in fired[1..][i].Modules();
      assert fired[i + 1] == fired[1..][i];
    }
  }
}
