// The batch driver: every source file first, then each go.mod with the rules
// that fired in its module.
module Batch {
  import opened Options
  import opened Sequences
  import opened Semver
  import opened Floors
  import opened Paths
  import GoMod
  import Fixpoint = GoModFixpoint

  type File = seq<string>

  // What fixing one file comes to: an error, nothing to do, or the IDs of the
  // rules applied and of the findings left.
  datatype Outcome = Error | Nothing | Fixed(applied: set<string>, remaining: seq<string>)

  predicate IsGoMod(f: File) { f != [] && f[|f| - 1] == "go.mod" }

  function SourcesOf(files: seq<File>): seq<File> {
    if files == [] then [] else (if IsGoMod(files[0]) then [] else [files[0]]) + SourcesOf(files[1..])
  }

  function GoModsOf(files: seq<File>): seq<File> {
    if files == [] then [] else (if IsGoMod(files[0]) then [files[0]] else []) + GoModsOf(files[1..])
  }

  method PartitionGoMods(files: seq<File>) returns (sources: seq<File>, goMods: seq<File>)
    ensures sources == SourcesOf(files) && goMods == GoModsOf(files)
  {
    sources, goMods := [], [];
    for i := 0 to |files|
      invariant sources + SourcesOf(files[i..]) == SourcesOf(files)
      invariant goMods + GoModsOf(files[i..]) == GoModsOf(files)
    {
      PartitionStep(files, i);
      Associate(sources, SourcesOf(files[i..i + 1]), SourcesOf(files[i + 1..]));
      Associate(goMods, GoModsOf(files[i..i + 1]), GoModsOf(files[i + 1..]));
      assert sources + [] == sources && goMods + [] == goMods;
      if IsGoMod(files[i]) {
        goMods := goMods + [files[i]];
        continue;
      }
      sources := sources + [files[i]];
    }
  }

  lemma PartitionStep(files: seq<File>, i: nat)
    requires i < |files|
    ensures SourcesOf(files[i..]) == SourcesOf(files[i..i + 1]) + SourcesOf(files[i + 1..])
    ensures GoModsOf(files[i..]) == GoModsOf(files[i..i + 1]) + GoModsOf(files[i + 1..])
    ensures SourcesOf(files[i..i + 1]) == if IsGoMod(files[i]) then [] else [files[i]]
    ensures GoModsOf(files[i..i + 1]) == if IsGoMod(files[i]) then [files[i]] else []
  {
    assert files[i..][1..] == files[i + 1..] && files[i..i + 1][1..] == [];
  }

  function IndicesOf(files: seq<File>, goMods: bool): set<nat> {
    set i: nat | i < |files| && IsGoMod(files[i]) == goMods
  }

  // Each file goes to one side, and each side keeps the order of the batch.
  lemma {:induction false} PartitionExact(files: seq<File>)
    ensures multiset(SourcesOf(files)) + multiset(GoModsOf(files)) == multiset(files)
    ensures forall f :: f in SourcesOf(files) <==> f in files && !IsGoMod(f)
    ensures forall f :: f in GoModsOf(files) <==> f in files && IsGoMod(f)
    ensures Selects(files, SourcesOf(files), IndicesOf(files, false))
    ensures Selects(files, GoModsOf(files), IndicesOf(files, true))
  {
    if files == [] {
      SelectsNone<File>();
      assert IndicesOf(files, false) == {} == IndicesOf(files, true);
    } else {
      var f, rest := files[0], files[1..];
      PartitionExact(rest);
      assert files == [f] + rest;
      SelectsSide(files, SourcesOf(rest), false);
      SelectsSide(files, GoModsOf(rest), true);
    }
  }

  lemma SelectsSide(files: seq<File>, side: seq<File>, goMods: bool)
    requires files != [] && Selects(files[1..], side, IndicesOf(files[1..], goMods))
    ensures Selects(files, (if IsGoMod(files[0]) == goMods then [files[0]] else []) + side, IndicesOf(files, goMods))
  {
    var f, rest := files[0], files[1..];
    assert files == [f] + rest && [] + side == side;
    SelectsCons(rest, side, IndicesOf(rest, goMods), f, IsGoMod(f) == goMods, IndicesOf(files, goMods));
  }

  // ---- The driver --------------------------------------------------------

  // The go.mod files that can be read, with their requirements.
  type GoMods = map<File, RequireMap>

  // `listing` is the order in which a go.mod lists its requirements; `writes`
  // says whether writing it would succeed.
  datatype Planner = Planner(rules: seq<Rule>, target: Target, listing: (File, RequireMap) -> seq<ModPath>,
                             writes: File -> bool)

  // Fixing one go.mod with the fired rules: what it comes to, and the files
  // afterwards.
  type Builder = (GoMods, File, seq<Rule>) -> (Outcome, GoMods)

  // `fix` is a function of the file alone: the batch type-checks against a
  // snapshot of all files taken before the first rewrite.
  datatype Context = Context(fs: FileSystem, fix: File -> Outcome, plan: Planner)

  function IDsOf(o: Outcome): set<string> {
    if o.Fixed? then o.applied + set i | 0 <= i < |o.remaining| :: o.remaining[i] else {}
  }

  predicate InModule(fs: FileSystem, f: File, root: Dir) {
    OwnerOf(fs.hasGoMod, Parent(f)) == Some(root)
  }

  class Summary {
    const fs: FileSystem
    var failures: seq<File>
    var totalFixed: nat
    var firedByRoot: map<Dir, set<string>>
    ghost var handled: seq<File>

    constructor (fs: FileSystem)
      ensures this.fs == fs && failures == [] && totalFixed == 0 && firedByRoot == map[] && handled == []
    {
      this.fs := fs;
      failures, totalFixed, firedByRoot, handled := [], 0, map[], [];
    }

    // The rules recorded for a module.
    function Fired(root: Dir): set<string>
      reads this
    {
      if root in firedByRoot then firedByRoot[root] else {}
    }

    // Applied and remaining rules both count as fired in the owning module.
    method RecordFired(file: File, o: Outcome)
      modifies this`firedByRoot
      ensures forall root :: Fired(root) == old(Fired(root)) + if InModule(fs, file, root) then IDsOf(o) else {}
    {
      var st := ModuleStateFor(fs, file);
      if st.None? {
        return;
      }
      var ids := if st.value.root in firedByRoot then firedByRoot[st.value.root] else {};
      firedByRoot := firedByRoot[st.value.root := ids + IDsOf(o)];
    }

    method Handle(file: File, o: Outcome)
      modifies this
      ensures handled == old(handled) + [file]
      ensures failures == old(failures) + if o.Error? then [file] else []
      ensures totalFixed == old(totalFixed) + if o.Fixed? then |o.applied| else 0
      ensures forall root :: Fired(root) == old(Fired(root)) + if InModule(fs, file, root) then IDsOf(o) else {}
    {
      handled := handled + [file];
      if o.Error? {
        failures := failures + [file];
        return;
      }
      if o.Nothing? {
        return;
      }
      totalFixed := totalFixed + |o.applied|;
      RecordFired(file, o);
    }

    method FiredRulesFor(rules: seq<Rule>, goMod: File) returns (out: seq<Rule>)
      ensures var owner := OwnerOf(fs.hasGoMod, Parent(goMod));
        out == if owner.None? then [] else Selected(rules, Fired(owner.value))
    {
      var st := ModuleStateFor(fs, goMod);
      if st.None? {
        return [];
      }
      var ids := if st.value.root in firedByRoot then firedByRoot[st.value.root] else {};
      out := Select(rules, ids);
    }
  }

  method Select(rules: seq<Rule>, ids: set<string>) returns (out: seq<Rule>)
    ensures out == Selected(rules, ids)
  {
    out := [];
    for i := 0 to |rules|
      invariant out + Selected(rules[i..], ids) == Selected(rules, ids)
    {
      assert rules[i..][1..] == rules[i + 1..];
      if rules[i].id in ids {
        out := out + [rules[i]];
      }
    }
  }

  // The rules with one of these IDs, in rule-set order.
  function Selected(rules: seq<Rule>, ids: set<string>): seq<Rule> {
    if rules == [] then []
    else (if rules[0].id in ids then [rules[0]] else []) + Selected(rules[1..], ids)
  }

  function Hits(rules: seq<Rule>, ids: set<string>): set<nat> {
    set i: nat | i < |rules| && rules[i].id in ids
  }

  // Every rule whose ID is listed, in rule-set order.
  lemma {:induction false} SelectedExact(rules: seq<Rule>, ids: set<string>)
    ensures forall r :: r in Selected(rules, ids) <==> r in rules && r.id in ids
    ensures Selects(rules, Selected(rules, ids), Hits(rules, ids))
  {
    if rules == [] {
      SelectsNone<Rule>();
      assert Hits(rules, ids) == {};
    } else {
      var rest := rules[1..];
      SelectedExact(rest, ids);
      assert rules == [rules[0]] + rest && [] + Selected(rest, ids) == Selected(rest, ids);
      SelectsCons(rest, Selected(rest, ids), Hits(rest, ids), rules[0], rules[0].id in ids, Hits(rules, ids));
    }
  }

  // ---- What each go.mod is handed ----------------------------------------

  // The IDs source files of one module applied or left.
  function ModuleIDs(c: Context, sources: seq<File>, root: Dir): set<string> {
    if sources == [] then {}
    else (if Owned(c, sources[0], root) then IDsOf(c.fix(sources[0])) else {}) + ModuleIDs(c, sources[1..], root)
  }

  predicate Owned(c: Context, f: File, root: Dir) {
    InModule(c.fs, f, root)
  }

  // A source of the module applied the rule or left a finding of it.
  predicate Reports(c: Context, f: File, root: Dir, id: string) {
    FiredAt(c.fs, f, c.fix(f), root, id)
  }

  // The file is in the module, and the rule was applied to it or left.
  predicate FiredAt(fs: FileSystem, f: File, o: Outcome, root: Dir, id: string) {
    OwnerOf(fs.hasGoMod, Parent(f)) == Some(root) && o.Fixed? && (id in o.applied || id in o.remaining)
  }

  lemma {:induction false} ModuleIDsExact(c: Context, sources: seq<File>, root: Dir)
    ensures forall id :: id in ModuleIDs(c, sources, root) <==> exists f :: f in sources && Reports(c, f, root, id)
  {
    if sources != [] {
      var rest := sources[1..];
      ModuleIDsExact(c, rest, root);
      forall id
        ensures id in ModuleIDs(c, sources, root) <==> exists f :: f in sources && Reports(c, f, root, id)
      {
        assert Reports(c, sources[0], root, id) ==> sources[0] in sources;
        if f :| f in rest && Reports(c, f, root, id) {
          assert f in sources;
        }
      }
    }
  }

  lemma {:induction false} ModuleIDsAppend(c: Context, a: seq<File>, b: seq<File>, root: Dir)
    ensures ModuleIDs(c, a + b, root) == ModuleIDs(c, a, root) + ModuleIDs(c, b, root)
  {
    if a == [] {
      assert a + b == b;
    } else {
      assert (a + b)[1..] == a[1..] + b;
      ModuleIDsAppend(c, a[1..], b, root);
    }
  }

  // ---- The go.mod pass ---------------------------------------------------

  function FixOne(pl: Planner, mods: GoMods, g: File, fired: seq<Rule>): (Outcome, GoMods) {
    if g !in mods then (Error, mods)
    else
      var plan := GoMod.Planned(pl.listing(g, mods[g]), mods[g], pl.rules, pl.target, fired);
      if plan.Impossible? then (Error, mods)
      else if plan.applied == {} then (Nothing, mods)
      else if !pl.writes(g) then (Error, mods)
      else (Fixed(plan.applied, []), mods[g := plan.require])
  }

  function BuilderOf(pl: Planner): Builder {
    (mods, g, fired) => FixOne(pl, mods, g, fired)
  }

  method FixBuildFile(pl: Planner, mods: GoMods, g: File, fired: seq<Rule>) returns (o: Outcome, after: GoMods)
    ensures (o, after) == BuilderOf(pl)(mods, g, fired)
    ensures g !in mods ==> o == Error
    ensures g in mods ==>
      var plan := GoMod.Planned(pl.listing(g, mods[g]), mods[g], pl.rules, pl.target, fired);
      && (o.Error? <==> plan.Impossible? || (plan.applied != {} && !pl.writes(g)))
      && (o.Nothing? <==> plan.Plan? && plan.applied == {})
      && (o.Fixed? ==> o.applied == plan.applied && o.remaining == [] && after == mods[g := plan.require])
    ensures !o.Fixed? ==> after == mods
  {
    if g !in mods {
      return Error, mods;
    }
    var mf := new GoMod.ModFile(pl.listing(g, mods[g]), mods[g]);
    var result := GoMod.FixGoMod(mf, pl.rules, pl.target, fired);
    match result
    case Failed(_) => return Error, mods;
    case Unchanged => return Nothing, mods;
    case Written(applied) =>
      if !pl.writes(g) {
        return Error, mods;
      }
      return Fixed(applied, []), mods[g := mf.require];
  }

  // What the pass has done: the files, the rules handed to each go.mod and
  // what each came to.
  datatype Pass = Pass(mods: GoMods, handed: seq<seq<Rule>>, outcomes: seq<Outcome>)

  // The go.mod files in turn. A rule that an earlier go.mod of the module
  // applied counts as fired too.
  function GoModPass(c: Context, sources: seq<File>, mods: GoMods, goMods: seq<File>): (p: Pass)
    ensures |p.handed| == |p.outcomes| == |goMods|
  {
    if goMods == [] then Pass(mods, [], [])
    else
      var front := goMods[..|goMods| - 1];
      Turn(c, sources, front, GoModPass(c, sources, mods, front), goMods[|goMods| - 1])
  }

  function Turn(c: Context, sources: seq<File>, earlier: seq<File>, p: Pass, g: File): (q: Pass)
    requires |earlier| == |p.outcomes|
    ensures |q.outcomes| == |p.outcomes| + 1 && |q.handed| == |p.handed| + 1
  {
    var fired := HandedNow(c, sources, earlier, p.outcomes, g);
    var r := BuilderOf(c.plan)(p.mods, g, fired);
    Pass(r.1, p.handed + [fired], p.outcomes + [r.0])
  }

  lemma PassNext(c: Context, sources: seq<File>, mods: GoMods, goMods: seq<File>, i: nat)
    requires i < |goMods|
    ensures GoModPass(c, sources, mods, goMods[..i + 1])
      == Turn(c, sources, goMods[..i], GoModPass(c, sources, mods, goMods[..i]), goMods[i])
  {
    assert goMods[..i + 1][..i] == goMods[..i];
  }

  lemma FailuresNext(files: seq<File>, outcomes: seq<Outcome>, f: File, o: Outcome)
    requires |files| == |outcomes|
    ensures FailuresOf(files + [f], outcomes + [o]) == FailuresOf(files, outcomes) + if o.Error? then [f] else []
  {
    assert (files + [f])[..|files|] == files && (outcomes + [o])[..|files|] == outcomes;
  }

  function HandedNow(c: Context, sources: seq<File>, earlier: seq<File>, outcomes: seq<Outcome>, g: File): seq<Rule>
    requires |earlier| == |outcomes|
  {
    var owner := OwnerOf(c.fs.hasGoMod, Parent(g));
    if owner.None? then []
    else Selected(c.plan.rules, ModuleIDs(c, sources, owner.value) + EarlierIDs(c, earlier, outcomes, owner.value))
  }

  function EarlierIDs(c: Context, files: seq<File>, outcomes: seq<Outcome>, root: Dir): set<string>
    requires |files| == |outcomes|
  {
    if files == [] then {}
    else
      var n := |files| - 1;
      EarlierIDs(c, files[..n], outcomes[..n], root) + if Owned(c, files[n], root) then IDsOf(outcomes[n]) else {}
  }

  // The files whose outcome is an error, in order.
  function FailuresOf(files: seq<File>, outcomes: seq<Outcome>): seq<File>
    requires |files| == |outcomes|
  {
    if files == [] then []
    else
      var n := |files| - 1;
      FailuresOf(files[..n], outcomes[..n]) + if outcomes[n].Error? then [files[n]] else []
  }

  // Among the first n files some file of the module came to an outcome that
  // lists the rule, applied or with a finding left.
  ghost predicate FiredAmong(fs: FileSystem, handled: seq<File>, outcomes: seq<Outcome>, n: nat, root: Dir, id: string)
    requires n <= |handled| == |outcomes|
  {
    exists i :: 0 <= i < n && FiredAt(fs, handled[i], outcomes[i], root, id)
  }

  // The rules handed to the n-th file are those fired in its module before.
  ghost predicate HandsOut(c: Context, handled: seq<File>, outcomes: seq<Outcome>, n: nat, handed: seq<Rule>)
    requires n < |handled| == |outcomes|
  {
    var owner := OwnerOf(c.fs.hasGoMod, Parent(handled[n]));
    && (forall r :: r in handed <==>
          r in c.plan.rules && owner.Some? && FiredAmong(c.fs, handled, outcomes, n, owner.value, r.id))
    && exists keep :: Selects(c.plan.rules, handed, keep)
  }

  // So it is for all files from the first go.mod on.
  ghost predicate HandsOutAll(c: Context, handled: seq<File>, outcomes: seq<Outcome>, first: nat,
                              handed: seq<seq<Rule>>) {
    && |outcomes| == |handled| == first + |handed|
    && forall k :: 0 <= k < |handed| ==> HandsOut(c, handled, outcomes, first + k, handed[k])
  }

  // Every file is handled once whatever fails, sources first; each go.mod is
  // handed the rules fired in its module so far, and rewritten in its turn.
  // `outcomes` is what each file came to, in the order of handling.
  method FixFiles(c: Context, files: seq<File>, before: GoMods)
    returns (failures: seq<File>, handed: seq<seq<Rule>>, mods: GoMods, ghost handled: seq<File>,
             ghost outcomes: seq<Outcome>)
    ensures handled == SourcesOf(files) + GoModsOf(files)
    ensures var sources, goMods := SourcesOf(files), GoModsOf(files); var p := GoModPass(c, sources, before, goMods);
      && handed == p.handed && mods == p.mods
      && outcomes == MapSeq(c.fix, sources) + p.outcomes
    ensures Selects(handled, failures, Failing(outcomes))
    ensures HandsOutAll(c, handled, outcomes, |SourcesOf(files)|, handed)
  {
    failures, handed, mods, handled := HandleAll(c, files, before);
    ghost var sources, goMods := SourcesOf(files), GoModsOf(files);
    ghost var p := GoModPass(c, sources, before, goMods);
    outcomes := MapSeq(c.fix, sources) + p.outcomes;
    PassSpelled(c, sources, before, goMods, p);
  }

  // The two loops.
  method HandleAll(c: Context, files: seq<File>, before: GoMods)
    returns (failures: seq<File>, handed: seq<seq<Rule>>, mods: GoMods, ghost handled: seq<File>)
    ensures handled == SourcesOf(files) + GoModsOf(files)
    ensures var sources, goMods := SourcesOf(files), GoModsOf(files); var p := GoModPass(c, sources, before, goMods);
      && handed == p.handed && mods == p.mods
      && failures == FailuresOf(sources, MapSeq(c.fix, sources)) + FailuresOf(goMods, p.outcomes)
  {
    var summary := new Summary(c.fs);
    var sources, goMods := PartitionGoMods(files);
    HandleSources(summary, c, sources);
    handed, mods := HandleGoMods(summary, c, sources, before, goMods);
    failures, handled := summary.failures, summary.handled;
  }

  lemma PassSpelled(c: Context, sources: seq<File>, before: GoMods, goMods: seq<File>, p: Pass)
    requires p == GoModPass(c, sources, before, goMods)
    ensures var handled, outcomes := sources + goMods, MapSeq(c.fix, sources) + p.outcomes;
      && Selects(handled, FailuresOf(sources, MapSeq(c.fix, sources)) + FailuresOf(goMods, p.outcomes),
                 Failing(outcomes))
      && HandsOutAll(c, handled, outcomes, |sources|, p.handed)
  {
    FailuresSelect(sources, MapSeq(c.fix, sources), goMods, p.outcomes);
    forall k | 0 <= k < |p.handed|
      ensures HandsOut(c, sources + goMods, MapSeq(c.fix, sources) + p.outcomes, |sources| + k, p.handed[k])
    {
      HandedSpelled(c, sources, before, goMods, k);
    }
  }

  function Failing(outcomes: seq<Outcome>): set<nat> {
    set i: nat | i < |outcomes| && outcomes[i].Error?
  }

  lemma {:induction false} FailuresSelect(files: seq<File>, outcomes: seq<Outcome>, more: seq<File>,
                                          next: seq<Outcome>)
    requires |files| == |outcomes| && |more| == |next|
    ensures Selects(files + more, FailuresOf(files, outcomes) + FailuresOf(more, next), Failing(outcomes + next))
    decreases |files| + |more|
  {
    var first, last := FailuresOf(files, outcomes), FailuresOf(more, next);
    if more != [] {
      var n := |more| - 1;
      FailuresSelect(files, outcomes, more[..n], next[..n]);
      FailuresStep(files + more[..n], outcomes + next[..n], first + FailuresOf(more[..n], next[..n]), more[n], next[n]);
      assert files + more == files + more[..n] + [more[n]] && outcomes + next == outcomes + next[..n] + [next[n]];
      Associate(first, FailuresOf(more[..n], next[..n]), if next[n].Error? then [more[n]] else []);
    } else if files != [] {
      var n := |files| - 1;
      FailuresSelect(files[..n], outcomes[..n], [], []);
      var before := FailuresOf(files[..n], outcomes[..n]);
      assert files[..n] + [] == files[..n] && outcomes[..n] + [] == outcomes[..n] && before + [] == before;
      FailuresStep(files[..n], outcomes[..n], before, files[n], outcomes[n]);
      assert files + more == files[..n] + [files[n]] && outcomes + next == outcomes[..n] + [outcomes[n]];
      assert first + last == first;
    } else {
      SelectsNone<File>();
      assert Failing(outcomes + next) == {};
    }
  }

  lemma FailuresStep(files: seq<File>, outcomes: seq<Outcome>, failures: seq<File>, f: File, o: Outcome)
    requires |files| == |outcomes| && Selects(files, failures, Failing(outcomes))
    ensures Selects(files + [f], failures + if o.Error? then [f] else [], Failing(outcomes + [o]))
  {
    assert failures + [] == failures;
    assert forall i: nat :: i < |outcomes| ==> (outcomes + [o])[i] == outcomes[i];
    SelectsAppend(files, failures, Failing(outcomes), f, o.Error?, Failing(outcomes + [o]));
  }

  lemma {:induction false} EarlierIDsExact(c: Context, files: seq<File>, outcomes: seq<Outcome>, root: Dir, id: string)
    requires |files| == |outcomes|
    ensures id in EarlierIDs(c, files, outcomes, root) <==> FiredAmong(c.fs, files, outcomes, |files|, root, id)
  {
    if files != [] {
      var n := |files| - 1;
      EarlierIDsExact(c, files[..n], outcomes[..n], root, id);
      FiredAmongPart(c.fs, files, outcomes, n, root, id);
      if FiredAmong(c.fs, files, outcomes, n, root, id) {
        assert FiredAmong(c.fs, files, outcomes, |files|, root, id);
      }
    }
  }

  lemma FiredAmongPart(fs: FileSystem, files: seq<File>, outcomes: seq<Outcome>, n: nat, root: Dir, id: string)
    requires n <= |files| == |outcomes|
    ensures FiredAmong(fs, files[..n], outcomes[..n], n, root, id) <==> FiredAmong(fs, files, outcomes, n, root, id)
  {
    assert forall i :: 0 <= i < n ==> files[..n][i] == files[i] && outcomes[..n][i] == outcomes[i];
  }

  lemma FiredAmongBoth(fs: FileSystem, a: seq<File>, x: seq<Outcome>, b: seq<File>, y: seq<Outcome>, n: nat, root: Dir,
                       id: string)
    requires |a| == |x| && n <= |b| == |y|
    ensures FiredAmong(fs, a + b, x + y, |a| + n, root, id)
      <==> FiredAmong(fs, a, x, |a|, root, id) || FiredAmong(fs, b, y, n, root, id)
  {
    var ab, xy := a + b, x + y;
    assert forall i :: 0 <= i < |a| ==> ab[i] == a[i] && xy[i] == x[i];
    if i :| 0 <= i < n && FiredAt(fs, b[i], y[i], root, id) {
      assert ab[|a| + i] == b[i] && xy[|a| + i] == y[i];
    }
    if i :| 0 <= i < |a| && FiredAt(fs, a[i], x[i], root, id) {
      assert ab[i] == a[i] && xy[i] == x[i];
    }
    if i :| |a| <= i < |a| + n && FiredAt(fs, ab[i], xy[i], root, id) {
      assert ab[i] == b[i - |a|] && xy[i] == y[i - |a|];
    }
  }

  lemma ModuleIDsFired(c: Context, sources: seq<File>, root: Dir, id: string)
    ensures id in ModuleIDs(c, sources, root) <==>
      FiredAmong(c.fs, sources, MapSeq(c.fix, sources), |sources|, root, id)
  {
    ModuleIDsExact(c, sources, root);
    if f :| f in sources && Reports(c, f, root, id) {
      var i :| 0 <= i < |sources| && sources[i] == f;
      assert MapSeq(c.fix, sources)[i] == c.fix(f);
    }
    if FiredAmong(c.fs, sources, MapSeq(c.fix, sources), |sources|, root, id) {
      var i :| 0 <= i < |sources| && FiredAt(c.fs, sources[i], MapSeq(c.fix, sources)[i], root, id);
      assert sources[i] in sources && Reports(c, sources[i], root, id);
    }
  }

  lemma PassOutcomes(c: Context, sources: seq<File>, mods: GoMods, goMods: seq<File>, k: nat)
    requires k <= |goMods|
    ensures GoModPass(c, sources, mods, goMods[..k]).outcomes == GoModPass(c, sources, mods, goMods).outcomes[..k]
  {
    forall j: nat | j < k
      ensures GoModPass(c, sources, mods, goMods[..k]).outcomes[j] == GoModPass(c, sources, mods, goMods).outcomes[j]
    {
      OutcomeStays(c, sources, mods, goMods, k, j);
    }
  }

  lemma OutcomeStays(c: Context, sources: seq<File>, mods: GoMods, goMods: seq<File>, k: nat, j: nat)
    requires j < k <= |goMods|
    ensures GoModPass(c, sources, mods, goMods[..k]).outcomes[j] == GoModPass(c, sources, mods, goMods).outcomes[j]
  {
    var part := goMods[..k];
    assert part[..j + 1] == goMods[..j + 1];
    PassPrefix(c, sources, mods, goMods, j);
    PassPrefix(c, sources, mods, part, j);
  }

  lemma HandedSpelled(c: Context, sources: seq<File>, mods: GoMods, goMods: seq<File>, k: nat)
    requires k < |goMods|
    ensures var p := GoModPass(c, sources, mods, goMods);
      HandsOut(c, sources + goMods, MapSeq(c.fix, sources) + p.outcomes, |sources| + k, p.handed[k])
  {
    var p, q := GoModPass(c, sources, mods, goMods), GoModPass(c, sources, mods, goMods[..k]);
    PassPrefix(c, sources, mods, goMods, k);
    PassNext(c, sources, mods, goMods, k);
    LastHanded(c, sources, goMods[..k], q, goMods[k]);
    PassOutcomes(c, sources, mods, goMods, k);
    assert (sources + goMods)[|sources| + k] == goMods[k];
    var owner := OwnerOf(c.fs.hasGoMod, Parent(goMods[k]));
    if owner.Some? {
      HandedMembers(c, sources, goMods, p.outcomes, k, owner.value);
    } else {
      NothingSelected(c.plan.rules);
    }
  }

  lemma NothingSelected(rules: seq<Rule>)
    ensures exists keep :: Selects(rules, [], keep)
  {
    var keep: set<nat> := {};
    assert PicksAt(rules, [], keep, []);
    assert Selects(rules, [], keep);
  }

  lemma HandedMembers(c: Context, sources: seq<File>, goMods: seq<File>, outcomes: seq<Outcome>, k: nat, root: Dir)
    requires k < |goMods| == |outcomes|
    ensures var ids := ModuleIDs(c, sources, root) + EarlierIDs(c, goMods[..k], outcomes[..k], root);
      && (forall r :: r in Selected(c.plan.rules, ids) <==>
            r in c.plan.rules
            && FiredAmong(c.fs, sources + goMods, MapSeq(c.fix, sources) + outcomes, |sources| + k, root, r.id))
      && exists keep :: Selects(c.plan.rules, Selected(c.plan.rules, ids), keep)
  {
    var ids := ModuleIDs(c, sources, root) + EarlierIDs(c, goMods[..k], outcomes[..k], root);
    SelectedExact(c.plan.rules, ids);
    forall id
      ensures id in ids <==>
        FiredAmong(c.fs, sources + goMods, MapSeq(c.fix, sources) + outcomes, |sources| + k, root, id)
    {
      ModuleIDsFired(c, sources, root, id);
      EarlierIDsExact(c, goMods[..k], outcomes[..k], root, id);
      FiredAmongPart(c.fs, goMods, outcomes, k, root, id);
      FiredAmongBoth(c.fs, sources, MapSeq(c.fix, sources), goMods, outcomes, k, root, id);
    }
  }

  method HandleSources(summary: Summary, c: Context, sources: seq<File>)
    requires summary.fs == c.fs && summary.handled == [] && summary.failures == [] && summary.firedByRoot == map[]
    modifies summary
    ensures summary.handled == sources
    ensures summary.failures == FailuresOf(sources, MapSeq(c.fix, sources))
    ensures forall root :: summary.Fired(root) == ModuleIDs(c, sources, root)
  {
    for i := 0 to |sources|
      invariant summary.handled == sources[..i]
      invariant summary.failures == FailuresOf(sources[..i], MapSeq(c.fix, sources[..i]))
      invariant forall root :: summary.Fired(root) == ModuleIDs(c, sources[..i], root)
    {
      NextIDs(c, sources, i);
      NextFailure(c, sources, i);
      summary.Handle(sources[i], c.fix(sources[i]));
    }
    assert sources[..|sources|] == sources;
  }

  // The IDs fired up to source i, and its failure if it has one.
  lemma NextIDs(c: Context, sources: seq<File>, i: nat)
    requires i < |sources|
    ensures forall root ::
      ModuleIDs(c, sources[..i + 1], root) ==
        ModuleIDs(c, sources[..i], root) + if InModule(c.fs, sources[i], root) then IDsOf(c.fix(sources[i])) else {}
  {
    var one := [sources[i]];
    assert sources[..i + 1] == sources[..i] + one && one[1..] == [];
    forall root
      ensures ModuleIDs(c, sources[..i + 1], root) ==
        ModuleIDs(c, sources[..i], root) + if InModule(c.fs, sources[i], root) then IDsOf(c.fix(sources[i])) else {}
    {
      ModuleIDsAppend(c, sources[..i], one, root);
      assert ModuleIDs(c, one[1..], root) == {};
    }
  }

  lemma NextFailure(c: Context, sources: seq<File>, i: nat)
    requires i < |sources|
    ensures sources[..i + 1] == sources[..i] + [sources[i]]
    ensures FailuresOf(sources[..i + 1], MapSeq(c.fix, sources[..i + 1]))
      == FailuresOf(sources[..i], MapSeq(c.fix, sources[..i])) + FailedOnly(sources[i], c.fix(sources[i]))
  {
    assert sources[..i + 1] == sources[..i] + [sources[i]];
    assert MapSeq(c.fix, sources[..i + 1]) == MapSeq(c.fix, sources[..i]) + [c.fix(sources[i])];
    FailuresNext(sources[..i], MapSeq(c.fix, sources[..i]), sources[i], c.fix(sources[i]));
  }

  ghost predicate FiredSoFar(summary: Summary, c: Context, sources: seq<File>, goMods: seq<File>,
                             outcomes: seq<Outcome>)
    requires |goMods| == |outcomes|
    reads summary
  {
    summary.fs == c.fs &&
    forall root :: summary.Fired(root) == ModuleIDs(c, sources, root) + EarlierIDs(c, goMods, outcomes, root)
  }

  method HandleGoMods(summary: Summary, c: Context, sources: seq<File>, before: GoMods, goMods: seq<File>)
    returns (handed: seq<seq<Rule>>, mods: GoMods)
    requires summary.fs == c.fs && forall root :: summary.Fired(root) == ModuleIDs(c, sources, root)
    modifies summary
    ensures var p := GoModPass(c, sources, before, goMods);
      && handed == p.handed && mods == p.mods
      && summary.failures == old(summary.failures) + FailuresOf(goMods, p.outcomes)
    ensures summary.handled == old(summary.handled) + goMods
  {
    ghost var log := Log(summary.handled, summary.failures);
    Start(summary, c, sources, before);
    ghost var p;
    handed, mods, p := GoModLoop(summary, c, sources, before, log, goMods);
    Reached(summary, c, sources, before, log, goMods, p);
  }

  method GoModLoop(summary: Summary, c: Context, ghost sources: seq<File>, before: GoMods,
                   ghost log: Log, goMods: seq<File>)
    returns (handed: seq<seq<Rule>>, mods: GoMods, ghost p: Pass)
    requires Progress(summary, c, sources, before, log, [], Pass(before, [], []))
    modifies summary
    ensures Progress(summary, c, sources, before, log, goMods, p) && p.mods == mods && p.handed == handed
  {
    handed, mods, p := [], before, Pass(before, [], []);
    ghost var done: seq<File> := [];
    for i := 0 to |goMods|
      invariant done == goMods[..i] && p.mods == mods && p.handed == handed
      invariant Progress(summary, c, sources, before, log, done, p)
    {
      var fired;
      fired, p, mods := HandleGoMod(summary, c, sources, before, log, done, p, goMods[i], mods);
      handed := handed + [fired];
      done := done + [goMods[i]];
      NextPrefix(goMods, i);
    }
    assert done == goMods;
  }

  lemma NextPrefix(files: seq<File>, i: nat)
    requires i < |files|
    ensures files[..i + 1] == files[..i] + [files[i]]
  {
  }

  lemma Reached(summary: Summary, c: Context, sources: seq<File>, before: GoMods, log: Log, done: seq<File>, p: Pass)
    requires Progress(summary, c, sources, before, log, done, p)
    ensures p == GoModPass(c, sources, before, done) && summary.handled == log.handled + done
    ensures summary.failures == log.failures + FailuresOf(done, p.outcomes)
  {
  }

  // What the summary held when the go.mod files began.
  datatype Log = Log(handled: seq<File>, failures: seq<File>)

  // The pass has come this far.
  ghost predicate Progress(summary: Summary, c: Context, sources: seq<File>, before: GoMods, log: Log,
                           done: seq<File>, p: Pass)
    reads summary
  {
    && p == GoModPass(c, sources, before, done)
    && FiredSoFar(summary, c, sources, done, p.outcomes)
    && summary.handled == log.handled + done
    && summary.failures == log.failures + FailuresOf(done, p.outcomes)
  }

  lemma Start(summary: Summary, c: Context, sources: seq<File>, before: GoMods)
    requires summary.fs == c.fs && forall root :: summary.Fired(root) == ModuleIDs(c, sources, root)
    ensures Progress(summary, c, sources, before, Log(summary.handled, summary.failures), [], Pass(before, [], []))
  {
    forall root
      ensures ModuleIDs(c, sources, root) + EarlierIDs(c, [], [], root) == ModuleIDs(c, sources, root)
    {
    }
  }

  function FailedOnly(f: File, o: Outcome): seq<File> { if o.Error? then [f] else [] }

  method HandleGoMod(summary: Summary, c: Context, ghost sources: seq<File>, ghost before: GoMods,
                     ghost log: Log,
                     ghost done: seq<File>, ghost p: Pass, g: File, now: GoMods)
    returns (fired: seq<Rule>, ghost q: Pass, mods: GoMods)
    requires Progress(summary, c, sources, before, log, done, p) && p.mods == now
    modifies summary
    ensures q.mods == mods && q.handed == p.handed + [fired]
    ensures Progress(summary, c, sources, before, log, done + [g], q)
  {
    fired := HandOut(summary, c, sources, done, p.outcomes, g);
    var o;
    o, mods := FixBuildFile(c.plan, now, g, fired);
    q := Pass(mods, p.handed + [fired], p.outcomes + [o]);
    assert q == Turn(c, sources, done, p, g);
    NextTurn(c, sources, before, done, g);
    FailuresNext(done, p.outcomes, g, o);
    Associate(log.handled, done, [g]);
    Associate(log.failures, FailuresOf(done, p.outcomes), FailedOnly(g, o));
    Note(summary, c, sources, done, p.outcomes, g, o);
  }

  lemma NextTurn(c: Context, sources: seq<File>, mods: GoMods, done: seq<File>, g: File)
    ensures GoModPass(c, sources, mods, done + [g]) == Turn(c, sources, done, GoModPass(c, sources, mods, done), g)
  {
    assert (done + [g])[..|done|] == done;
  }

  method HandOut(summary: Summary, c: Context, ghost sources: seq<File>, ghost earlier: seq<File>,
                 ghost outcomes: seq<Outcome>, g: File)
    returns (fired: seq<Rule>)
    requires |earlier| == |outcomes| && FiredSoFar(summary, c, sources, earlier, outcomes)
    ensures fired == HandedNow(c, sources, earlier, outcomes, g)
  {
    ghost var owner := OwnerOf(c.fs.hasGoMod, Parent(g));
    if owner.Some? {
      RecordedFor(summary, c, sources, earlier, outcomes, owner.value);
    }
    fired := summary.FiredRulesFor(c.plan.rules, g);
  }

  lemma RecordedFor(summary: Summary, c: Context, sources: seq<File>, goMods: seq<File>, outcomes: seq<Outcome>,
                    root: Dir)
    requires |goMods| == |outcomes| && FiredSoFar(summary, c, sources, goMods, outcomes)
    ensures summary.Fired(root) == ModuleIDs(c, sources, root) + EarlierIDs(c, goMods, outcomes, root)
  {
  }

  method Note(summary: Summary, c: Context, ghost sources: seq<File>, ghost earlier: seq<File>,
              ghost outcomes: seq<Outcome>, g: File, o: Outcome)
    requires |earlier| == |outcomes| && FiredSoFar(summary, c, sources, earlier, outcomes)
    modifies summary
    ensures summary.handled == old(summary.handled) + [g]
    ensures summary.failures == old(summary.failures) + FailedOnly(g, o)
    ensures FiredSoFar(summary, c, sources, earlier + [g], outcomes + [o])
  {
    summary.Handle(g, o);
    EarlierNext(c, earlier, outcomes, g, o);
  }

  lemma EarlierNext(c: Context, files: seq<File>, outcomes: seq<Outcome>, f: File, o: Outcome)
    requires |files| == |outcomes|
    ensures forall root ::
      EarlierIDs(c, files + [f], outcomes + [o], root)
        == EarlierIDs(c, files, outcomes, root) + if Owned(c, f, root) then IDsOf(o) else {}
  {
    assert (files + [f])[..|files|] == files && (outcomes + [o])[..|files|] == outcomes;
  }

  // ---- A batch that names each file once ---------------------------------

  function HandedTo(c: Context, files: seq<File>, goMod: File): seq<Rule> {
    var owner := OwnerOf(c.fs.hasGoMod, Parent(goMod));
    if owner.None? then [] else Selected(c.plan.rules, ModuleIDs(c, SourcesOf(files), owner.value))
  }

  // Every go.mod of the batch is there, so it roots its own module.
  predicate GoModsExist(fs: FileSystem, files: seq<File>) {
    forall f :: f in files && IsGoMod(f) ==> fs.hasGoMod(Parent(f))
  }

  lemma {:induction false} NoEarlierIDs(c: Context, files: seq<File>, outcomes: seq<Outcome>, root: Dir)
    requires |files| == |outcomes|
    requires forall f :: f in files ==> !Owned(c, f, root)
    ensures EarlierIDs(c, files, outcomes, root) == {}
  {
    if files != [] {
      var n := |files| - 1;
      assert files[n] in files && forall f :: f in files[..n] ==> f in files;
      NoEarlierIDs(c, files[..n], outcomes[..n], root);
    }
  }

  // The pass after its first k files.
  lemma {:induction false} PassPrefix(c: Context, sources: seq<File>, mods: GoMods, goMods: seq<File>, k: nat)
    requires k < |goMods|
    ensures var p, q := GoModPass(c, sources, mods, goMods), GoModPass(c, sources, mods, goMods[..k + 1]);
      p.handed[k] == q.handed[k] && p.outcomes[k] == q.outcomes[k]
  {
    var n := |goMods| - 1;
    if k < n {
      PassPrefix(c, sources, mods, goMods[..n], k);
      assert goMods[..n][..k + 1] == goMods[..k + 1];
      LaterTurn(c, sources, goMods[..n], GoModPass(c, sources, mods, goMods[..n]), goMods[n], k);
    } else {
      assert goMods[..k + 1] == goMods;
    }
  }

  lemma LaterTurn(c: Context, sources: seq<File>, earlier: seq<File>, p: Pass, g: File, k: nat)
    requires |earlier| == |p.outcomes| == |p.handed| && k < |earlier|
    ensures var q := Turn(c, sources, earlier, p, g); q.handed[k] == p.handed[k] && q.outcomes[k] == p.outcomes[k]
  {
  }

  // Then each go.mod is handed what its module's sources fired.
  lemma HandedOnce(c: Context, files: seq<File>, mods: GoMods, k: nat)
    requires Distinct(files) && GoModsExist(c.fs, files) && k < |GoModsOf(files)|
    ensures GoModPass(c, SourcesOf(files), mods, GoModsOf(files)).handed[k] == HandedTo(c, files, GoModsOf(files)[k])
  {
    var goMods := GoModsOf(files);
    PassPrefix(c, SourcesOf(files), mods, goMods, k);
    PassNext(c, SourcesOf(files), mods, goMods, k);
    var p := GoModPass(c, SourcesOf(files), mods, goMods[..k]);
    NoneEarlier(c, files, k);
    var root := Parent(goMods[k]);
    NoEarlierIDs(c, goMods[..k], p.outcomes, root);
    OwnRoot(c, files, k);
    assert ModuleIDs(c, SourcesOf(files), root) + {} == ModuleIDs(c, SourcesOf(files), root);
    LastHanded(c, SourcesOf(files), goMods[..k], p, goMods[k]);
  }

  lemma LastHanded(c: Context, sources: seq<File>, earlier: seq<File>, p: Pass, g: File)
    requires |earlier| == |p.outcomes| == |p.handed|
    ensures Turn(c, sources, earlier, p, g).handed[|earlier|] == HandedNow(c, sources, earlier, p.outcomes, g)
  {
  }

  lemma OwnRoot(c: Context, files: seq<File>, k: nat)
    requires GoModsExist(c.fs, files) && k < |GoModsOf(files)|
    ensures Owned(c, GoModsOf(files)[k], Parent(GoModsOf(files)[k]))
  {
    PartitionExact(files);
    assert GoModsOf(files)[k] in GoModsOf(files);
  }

  lemma NoneEarlier(c: Context, files: seq<File>, k: nat)
    requires Distinct(files) && GoModsExist(c.fs, files) && k < |GoModsOf(files)|
    ensures forall f :: f in GoModsOf(files)[..k] ==> !Owned(c, f, Parent(GoModsOf(files)[k]))
  {
    var goMods := GoModsOf(files);
    DistinctGoMods(files);
    forall f | f in goMods[..k]
      ensures !Owned(c, f, Parent(goMods[k]))
    {
      var j :| 0 <= j < k && goMods[j] == f;
      OwnRoot(c, files, j);
    }
  }

  // Fixing one go.mod looks at no other and changes no other.
  ghost predicate Local(build: Builder) {
    forall mods, other, g, fired :: SameAt(mods, other, g) ==> LocalAt(build, mods, other, g, fired)
  }

  ghost predicate LocalAt(build: Builder, mods: GoMods, other: GoMods, g: File, fired: seq<Rule>) {
    && build(mods, g, fired).0 == build(other, g, fired).0
    && SameAt(build(mods, g, fired).1, build(other, g, fired).1, g)
    && forall h :: h != g ==> SameAt(build(mods, g, fired).1, mods, h)
  }

  lemma LocalTurn(c: Context, mods: GoMods, other: GoMods, g: File, fired: seq<Rule>)
    requires Local(BuilderOf(c.plan)) && SameAt(mods, other, g)
    ensures LocalAt(BuilderOf(c.plan), mods, other, g, fired)
  {
  }

  lemma BuilderIsLocal(pl: Planner)
    ensures Local(BuilderOf(pl))
  {
    forall mods, other, g, fired | SameAt(mods, other, g)
      ensures LocalAt(BuilderOf(pl), mods, other, g, fired)
    {
      FixOneLocal(pl, mods, other, g, fired);
    }
  }

  lemma FixOneLocal(pl: Planner, mods: GoMods, other: GoMods, g: File, fired: seq<Rule>)
    requires SameAt(mods, other, g)
    ensures FixOne(pl, mods, g, fired).0 == FixOne(pl, other, g, fired).0
    ensures SameAt(FixOne(pl, mods, g, fired).1, FixOne(pl, other, g, fired).1, g)
    ensures forall h :: h != g ==> SameAt(FixOne(pl, mods, g, fired).1, mods, h)
  {
  }

  predicate SameAt(mods: GoMods, other: GoMods, g: File) {
    (g in mods <==> g in other) && (g in mods ==> mods[g] == other[g])
  }

  // So its own turn is all that happens to it.
  lemma {:induction false} OwnTurn(c: Context, sources: seq<File>, mods: GoMods, goMods: seq<File>, g: File)
    requires Local(BuilderOf(c.plan)) && g !in goMods
    ensures SameAt(GoModPass(c, sources, mods, goMods).mods, mods, g)
  {
    if goMods != [] {
      var n := |goMods| - 1;
      assert goMods[n] in goMods && forall f :: f in goMods[..n] ==> f in goMods;
      OwnTurn(c, sources, mods, goMods[..n], g);
      var p := GoModPass(c, sources, mods, goMods[..n]);
      var fired := HandedNow(c, sources, goMods[..n], p.outcomes, goMods[n]);
      LocalTurn(c, p.mods, p.mods, goMods[n], fired);
      assert SameAt(BuilderOf(c.plan)(p.mods, goMods[n], fired).1, p.mods, g);
    }
  }

  lemma {:induction false} AfterTurn(c: Context, sources: seq<File>, mods: GoMods, goMods: seq<File>, k: nat)
    requires Local(BuilderOf(c.plan))
    requires k < |goMods| && forall j :: 0 <= j < |goMods| && j != k ==> goMods[j] != goMods[k]
    ensures var p := GoModPass(c, sources, mods, goMods); var r := BuilderOf(c.plan)(mods, goMods[k], p.handed[k]);
      SameAt(p.mods, r.1, goMods[k]) && p.outcomes[k] == r.0
  {
    var n, g := |goMods| - 1, goMods[k];
    var front := goMods[..n];
    var p := GoModPass(c, sources, mods, front);
    assert goMods[..n + 1] == goMods;
    PassNext(c, sources, mods, goMods, n);
    if k < n {
      assert front[k] == g;
      AfterTurn(c, sources, mods, front, k);
      LaterTurn(c, sources, front, p, goMods[n], k);
      OtherTurn(c, sources, front, p, goMods[n], g);
    } else {
      OwnTurn(c, sources, mods, front, g);
      LocalTurn(c, p.mods, mods, g, HandedNow(c, sources, front, p.outcomes, g));
    }
  }

  lemma OtherTurn(c: Context, sources: seq<File>, earlier: seq<File>, p: Pass, h: File, g: File)
    requires Local(BuilderOf(c.plan)) && |earlier| == |p.outcomes| && h != g
    ensures SameAt(Turn(c, sources, earlier, p, h).mods, p.mods, g)
  {
    LocalTurn(c, p.mods, p.mods, h, HandedNow(c, sources, earlier, p.outcomes, h));
  }

  lemma DistinctGoMods(files: seq<File>)
    requires Distinct(files)
    ensures var g := GoModsOf(files); forall i, j :: 0 <= i < j < |g| ==> Parent(g[i]) != Parent(g[j])
  {
    GoModsDistinct(files);
    PartitionExact(files);
    var g := GoModsOf(files);
    forall i, j | 0 <= i < j < |g|
      ensures Parent(g[i]) != Parent(g[j])
    {
      assert g[i] in g && g[j] in g;
      GoModOfParent(g[i]);
      GoModOfParent(g[j]);
    }
  }

  lemma GoModOfParent(g: File)
    requires IsGoMod(g)
    ensures g == Parent(g) + ["go.mod"]
  {
  }

  lemma {:induction false} GoModsDistinct(files: seq<File>)
    requires Distinct(files)
    ensures Distinct(GoModsOf(files))
  {
    if files != [] {
      DistinctTail(files);
      GoModsDistinct(files[1..]);
      PartitionExact(files[1..]);
      DistinctCons(files[0], GoModsOf(files[1..]));
    }
  }

  lemma DistinctTail(files: seq<File>)
    requires Distinct(files) && files != []
    ensures Distinct(files[1..]) && files[0] !in files[1..]
  {
    var rest := files[1..];
    forall i, j | 0 <= i < j < |rest|
      ensures rest[i] != rest[j]
    {
      assert rest[i] == files[i + 1] && rest[j] == files[j + 1];
    }
  }

  lemma DistinctCons(f: File, rest: seq<File>)
    requires Distinct(rest)
    ensures f !in rest ==> Distinct([f] + rest)
  {
  }

  // ---- Order does not matter ---------------------------------------------

  // For every permutation of the files, each go.mod is handed the same rules.
  lemma HandedIndependentOfOrder(c: Context, files: seq<File>, other: seq<File>, goMod: File)
    requires multiset(files) == multiset(other)
    ensures HandedTo(c, files, goMod) == HandedTo(c, other, goMod)
    ensures goMod in GoModsOf(files) <==> goMod in GoModsOf(other)
  {
    SameMembers(files, other);
    PartitionExact(files);
    PartitionExact(other);
    var owner := OwnerOf(c.fs.hasGoMod, Parent(goMod));
    if owner.Some? {
      ModuleIDsExact(c, SourcesOf(files), owner.value);
      ModuleIDsExact(c, SourcesOf(other), owner.value);
      assert ModuleIDs(c, SourcesOf(files), owner.value) == ModuleIDs(c, SourcesOf(other), owner.value);
    }
  }

  // Exactly the rules some successfully processed source of the module
  // applied or left remaining.
  lemma HandedExact(c: Context, files: seq<File>, goMod: File, r: Rule)
    requires OwnerOf(c.fs.hasGoMod, Parent(goMod)).Some?
    ensures r in HandedTo(c, files, goMod) <==>
      r in c.plan.rules && exists f ::
        && f in files && !IsGoMod(f)
        && OwnerOf(c.fs.hasGoMod, Parent(f)) == OwnerOf(c.fs.hasGoMod, Parent(goMod))
        && c.fix(f).Fixed? && (r.id in c.fix(f).applied || r.id in c.fix(f).remaining)
  {
    HandedReports(c, files, goMod, r);
    var root := OwnerOf(c.fs.hasGoMod, Parent(goMod)).value;
    if f :| f in files && !IsGoMod(f) && Reports(c, f, root, r.id) {
      assert OwnerOf(c.fs.hasGoMod, Parent(f)) == Some(root);
    }
  }

  lemma HandedReports(c: Context, files: seq<File>, goMod: File, r: Rule)
    requires OwnerOf(c.fs.hasGoMod, Parent(goMod)).Some?
    ensures r in HandedTo(c, files, goMod) <==>
      r in c.plan.rules && exists f ::
        f in files && !IsGoMod(f) && Reports(c, f, OwnerOf(c.fs.hasGoMod, Parent(goMod)).value, r.id)
  {
    var root := OwnerOf(c.fs.hasGoMod, Parent(goMod)).value;
    PartitionExact(files);
    ModuleIDsExact(c, SourcesOf(files), root);
    SelectedExact(c.plan.rules, ModuleIDs(c, SourcesOf(files), root));
  }

  // ---- End to end --------------------------------------------------------

  // What the batch leaves in a go.mod of its own.
  function FinalMods(c: Context, files: seq<File>, before: GoMods): GoMods {
    GoModPass(c, SourcesOf(files), before, GoModsOf(files)).mods
  }

  // Each go.mod of the batch is named once, and its requirements are listed as
  // they are.
  ghost predicate Plain(c: Context, files: seq<File>) {
    && Distinct(files) && GoModsExist(c.fs, files)
    && forall g, require :: Fixpoint.ListsAll(c.plan.listing(g, require), require)
  }

  // A source file of the go.mod's module applied or left the rule.
  predicate FiredFor(c: Context, files: seq<File>, k: nat, f: File, r: Rule)
    requires k < |GoModsOf(files)|
  {
    && f in files && !IsGoMod(f) && r in c.plan.rules
    && Reports(c, f, Parent(GoModsOf(files)[k]), r.id)
  }

  predicate Succeeded(c: Context, files: seq<File>, before: GoMods, k: nat)
    requires k < |GoModsOf(files)|
  {
    !GoModPass(c, SourcesOf(files), before, GoModsOf(files)).outcomes[k].Error?
  }

  ghost predicate FiredFloorsMet(c: Context, files: seq<File>, k: nat, final: GoMods)
    requires k < |GoModsOf(files)|
  {
    var g := GoModsOf(files)[k];
    g in final && forall f, r, m :: FiredFor(c, files, k, f, r) && m in r.Modules() && m.path in final[g] ==>
      AtLeast(final[g][m.path], m.version)
  }

  // After the batch, a go.mod it did not fail on requires every module at no
  // less than what any rule asked for that fired in a source file of its
  // module.
  lemma ModuleFloorsMet(c: Context, files: seq<File>, before: GoMods, k: nat)
    requires k < |GoModsOf(files)|
    ensures Plain(c, files) ==>
      Fixpoint.Sane(c.plan.rules, c.plan.target, HandedTo(c, files, GoModsOf(files)[k])) ==>
        Succeeded(c, files, before, k) ==> FiredFloorsMet(c, files, k, FinalMods(c, files, before))
  {
    var goMods := GoModsOf(files);
    var g, fired := goMods[k], HandedTo(c, files, goMods[k]);
    if Plain(c, files) && Fixpoint.Sane(c.plan.rules, c.plan.target, fired) && Succeeded(c, files, before, k) {
      HandedOnce(c, files, before, k);
      DistinctGoMods(files);
      BuilderIsLocal(c.plan);
      AfterTurn(c, SourcesOf(files), before, goMods, k);
      FixedMeets(c.plan, before, g, fired);
      var final := FinalMods(c, files, before);
      forall f, r, m | FiredFor(c, files, k, f, r) && m in r.Modules() && m.path in final[g]
        ensures AtLeast(final[g][m.path], m.version)
      {
        HandedFloor(c, files, k, f, r, m);
      }
    }
  }

  // A go.mod that is fixed, or needs no fixing, meets every fired floor.
  lemma FixedMeets(pl: Planner, mods: GoMods, g: File, fired: seq<Rule>)
    requires !FixOne(pl, mods, g, fired).0.Error?
    requires forall h, require :: Fixpoint.ListsAll(pl.listing(h, require), require)
    requires Fixpoint.Sane(pl.rules, pl.target, fired)
    ensures var after := FixOne(pl, mods, g, fired).1;
      g in mods && g in after && forall p :: p in after[g] ==> MeetsFloors(fired, p, after[g][p])
  {
    var paths := pl.listing(g, mods[g]);
    var plan := GoMod.Planned(paths, mods[g], pl.rules, pl.target, fired);
    Fixpoint.UnchangedIff(paths, mods[g], pl.rules, pl.target, fired);
    Fixpoint.FixpointReached(paths, mods[g], pl.rules, pl.target, fired, pl.listing(g, plan.require));
  }

  lemma HandedFloor(c: Context, files: seq<File>, k: nat, f: File, r: Rule, m: ModuleRequirement)
    requires GoModsExist(c.fs, files) && k < |GoModsOf(files)|
    requires FiredFor(c, files, k, f, r) && m in r.Modules()
    ensures IsFloor(HandedTo(c, files, GoModsOf(files)[k]), m.path, m.version)
  {
    var g := GoModsOf(files)[k];
    OwnRoot(c, files, k);
    HandedReports(c, files, g, r);
    assert Reports(c, f, Parent(g), r.id);
    var fired := HandedTo(c, files, g);
    var i :| 0 <= i < |fired| && fired[i] == r;
    var j :| 0 <= j < |r.Modules()| && r.Modules()[j] == m;
    assert fired[i].Modules()[j] == ModuleRequirement(m.path, m.version);
  }
}
