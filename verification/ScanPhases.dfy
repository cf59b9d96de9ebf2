// The typed pass and the two untyped phases of checkGoFiles over one tree:
// which of them scans a file, and how often.
module ScanPhases {
  import opened Options
  import opened Sequences
  import opened Sorting
  import opened SourceTree
  import P = Paths

  function DirOf(q: Path): Path {
    if q == [] then [] else q[..|q| - 1]
  }

  function BaseOf(q: Path): string {
    if q == [] then "" else q[|q| - 1]
  }

  // os.Stat of go.mod succeeds: a file or a directory of that name.
  predicate HasGoModEntry(n: Node) {
    n.Dir? && Find(n.kids, GO_MOD).Some?
  }

  // ---- findModuleRoots ---------------------------------------------------

  function SkipListed(): (Path, Node) -> bool {
    (p: Path, n: Node) => SkipName(n.name)
  }

  function RootsAmong(files: seq<Path>): seq<Path> {
    if files == [] then [] else RootOf(files[0]) + RootsAmong(files[1..])
  }

  function RootOf(f: Path): seq<Path> {
    if BaseOf(f) == GO_MOD then [DirOf(f)] else []
  }

  lemma RootsStep(files: seq<Path>, i: nat)
    requires i < |files|
    ensures RootsAmong(files[i..]) == RootOf(files[i]) + RootsAmong(files[i + 1..])
  {
    assert files[i..][1..] == files[i + 1..];
  }

  method FindModuleRoots(tree: Node) returns (roots: seq<Path>)
    ensures roots == Roots(tree)
  {
    roots := [];
    var visited := Walk(tree, [], SkipListed());
    for i := 0 to |visited|
      invariant roots + RootsAmong(visited[i..]) == RootsAmong(visited)
    {
      RootsStep(visited, i);
      Associate(roots, RootOf(visited[i]), RootsAmong(visited[i + 1..]));
      assert roots + [] == roots;
      if BaseOf(visited[i]) == GO_MOD {
        roots := roots + [DirOf(visited[i])];
      }
    }
  }

  function Roots(tree: Node): seq<Path> {
    RootsAmong(Walk(tree, [], SkipListed()))
  }

  // ---- prescanModule -----------------------------------------------------

  // Nested modules and skip-listed directories, but never the root itself.
  function PrunedIn(root: Path): (Path, Node) -> bool {
    (p: Path, n: Node) => p != root && (SkipName(n.name) || HasGoModEntry(n))
  }

  predicate ImportsJwx(tree: Node, q: Path) {
    FileAt(tree, q) && IsGoFile(BaseOf(q)) && At(tree, q).value.info.importsParse && At(tree, q).value.info.jwx
  }

  // The callback's appends: the visited files that satisfy `wanted`.
  function Filter(wanted: Path -> bool, files: seq<Path>): seq<Path> {
    if files == [] then [] else (if wanted(files[0]) then [files[0]] else []) + Filter(wanted, files[1..])
  }

  lemma FilterStep(wanted: Path -> bool, files: seq<Path>, i: nat)
    requires i < |files|
    ensures Filter(wanted, files[i..])
      == if wanted(files[i]) then [files[i]] + Filter(wanted, files[i + 1..]) else Filter(wanted, files[i + 1..])
  {
    assert files[i..][1..] == files[i + 1..];
  }

  method KeepIf(wanted: Path -> bool, files: seq<Path>) returns (kept: seq<Path>)
    ensures kept == Filter(wanted, files)
  {
    kept := [];
    for i := 0 to |files|
      invariant kept + Filter(wanted, files[i..]) == Filter(wanted, files)
    {
      FilterStep(wanted, files, i);
      if wanted(files[i]) {
        Associate(kept, [files[i]], Filter(wanted, files[i + 1..]));
        kept := kept + [files[i]];
      }
    }
  }

  function Visited(tree: Node, root: Path): seq<Path> {
    if At(tree, root).Some? then Walk(At(tree, root).value, root, PrunedIn(root)) else []
  }

  // The jwx-importing files of the module rooted at root.
  function Prescan(tree: Node, root: Path): seq<Path> {
    Filter(q => ImportsJwx(tree, q), Visited(tree, root))
  }

  function DirsOf(files: seq<Path>): set<Path> {
    set i | 0 <= i < |files| :: DirOf(files[i])
  }

  // The package pattern of a directory, relative to the module root.
  function Pattern(root: Path, d: Path): string {
    if |d| <= |root| then "." else "." + P.PathText(d[|root|..])
  }

  // The scanned directory itself is a dot, anything below it is written from
  // there with slashes.
  lemma PatternText(root: Path, front: Path, name: string)
    ensures Pattern(root, root) == "." && Pattern(root, root + [name]) == "./" + name
    ensures front != [] ==> Pattern(root, root + (front + [name])) == Pattern(root, root + front) + "/" + name
  {
    assert (root + [name])[|root|..] == [name] && [name][1..] == [];
    assert P.PathText([name]) == "/" + name;
    if front != [] {
      assert (root + (front + [name]))[|root|..] == front + [name] && (root + front)[|root|..] == front;
      PathTextAppend(front, name);
      Associate(".", P.PathText(front), "/" + name);
      Associate("." + P.PathText(front), "/", name);
    }
  }

  lemma {:induction false} PathTextAppend(d: Path, name: string)
    ensures P.PathText(d + [name]) == P.PathText(d) + ("/" + name)
  {
    if d == [] {
      assert [name][1..] == [] && d + [name] == [name];
    } else {
      assert (d + [name])[1..] == d[1..] + [name];
      PathTextAppend(d[1..], name);
      Associate("/" + d[0], P.PathText(d[1..]), "/" + name);
    }
  }

  // A Go file whose import clause can be read and names a jwx package.
  ghost predicate JwxFile(tree: Node, q: Path) {
    && At(tree, q).Some? && At(tree, q).value.File? && q != [] && IsGoFile(q[|q| - 1])
    && At(tree, q).value.info.importsParse && At(tree, q).value.info.jwx
  }

  // Such a file with nothing skipped and no go.mod entry between the root and
  // it.
  ghost predicate Listed(tree: Node, root: Path, q: Path) {
    && JwxFile(tree, q)
    && |root| <= |q| && q[..|root|] == root
    && forall k :: |root| < k < |q| ==>
         && At(tree, q[..k]).Some? && !SkipName(At(tree, q[..k]).value.name)
         && At(tree, q[..k] + ["go.mod"]).None?
  }

  // The jwx-importing files, and a sorted pattern for every directory that
  // holds one.
  method PrescanModule(tree: Node, root: Path) returns (patterns: seq<string>, v3Files: seq<Path>)
    ensures v3Files == Prescan(tree, root)
    ensures Sorted(P.TextLess, patterns) && |patterns| == |DirsOf(v3Files)|
    ensures forall t :: t in patterns <==> exists d :: d in DirsOf(v3Files) && t == Pattern(root, d)
    ensures forall t :: t in patterns <==> exists q :: q in v3Files && q != [] && t == Pattern(root, q[..|q| - 1])
    ensures WellFormed(tree) && At(tree, root).Some? && At(tree, root).value.Dir? ==>
      forall q :: multiset(v3Files)[q] == if Listed(tree, root, q) then 1 else 0
  {
    PrescanSpelled(tree, root);
    v3Files := KeepIf(q => ImportsJwx(tree, q), Visited(tree, root));
    DirsOfFiles(tree, root);
    patterns := SortedPatterns(root, DirsOf(v3Files));
  }

  method SortedPatterns(root: Path, dirs: set<Path>) returns (patterns: seq<string>)
    ensures Sorted(P.TextLess, patterns) && |patterns| == |dirs|
    ensures forall t :: t in patterns <==> exists d :: d in dirs && t == Pattern(root, d)
  {
    P.TextOrders();
    var list := Enumerate(dirs);
    ListingSize(list, dirs);
    var a := new string[|list|](i requires 0 <= i < |list| => Pattern(root, list[i]));
    ghost var texts := a[..];
    SortSlice(a, P.TextLess);
    patterns := a[..];
    SameMembers(texts, patterns);
    forall t
      ensures t in texts <==> exists d :: d in dirs && t == Pattern(root, d)
    {
      if t in texts {
        var i :| 0 <= i < |texts| && texts[i] == t;
        assert list[i] in list;
      }
      if d :| d in dirs && t == Pattern(root, d) {
        var i :| 0 <= i < |list| && list[i] == d;
        assert texts[i] == t;
      }
    }
  }

  lemma {:induction false} ListingSize(list: seq<Path>, dirs: set<Path>)
    requires Distinct(list) && forall d :: d in list <==> d in dirs
    ensures |list| == |dirs|
  {
    if list != [] {
      var rest := list[1..];
      assert list == [list[0]] + rest;
      assert forall d :: d in rest <==> d in dirs - {list[0]};
      ListingSize(rest, dirs - {list[0]});
    } else {
      assert dirs == {};
    }
  }

  // ---- checkGoFiles ------------------------------------------------------

  // What the typed loader covers in each module: any of the files the
  // prescan listed there.
  type Coverage = map<Path, set<Path>>

  predicate Covers(cover: Coverage, root: Path, q: Path) {
    root in cover && q in cover[root]
  }

  ghost predicate LoaderStaysHome(tree: Node, cover: Coverage) {
    forall root, q :: Covers(cover, root, q) ==> root in Roots(tree) && q in Prescan(tree, root)
  }

  predicate Parses(tree: Node, q: Path) {
    FileAt(tree, q) && At(tree, q).value.info.parses
  }

  predicate Scannable(tree: Node, q: Path) {
    ImportsJwx(tree, q) && Parses(tree, q)
  }

  function CoveredAmong(cover: Coverage, root: Path, files: seq<Path>): seq<Path> {
    Filter(q => Covers(cover, root, q), files)
  }

  // Phase 1 scans what the loader covered, module by module.
  function TypedScans(tree: Node, cover: Coverage, roots: seq<Path>): seq<Path> {
    if roots == [] then []
    else CoveredAmong(cover, roots[0], Prescan(tree, roots[0])) + TypedScans(tree, cover, roots[1..])
  }

  predicate CoveredAnywhere(cover: Coverage, q: Path) {
    exists root :: root in cover && q in cover[root]
  }

  function UncoveredAmong(tree: Node, cover: Coverage, files: seq<Path>): seq<Path> {
    Filter(q => !CoveredAnywhere(cover, q) && Parses(tree, q), files)
  }

  function Phase2a(tree: Node, cover: Coverage, roots: seq<Path>): seq<Path> {
    if roots == [] then [] else UncoveredAmong(tree, cover, Prescan(tree, roots[0])) + Phase2a(tree, cover, roots[1..])
  }

  // The orphan walk skips module roots below the scanned directory.
  function PrunedOrphan(roots: seq<Path>): (Path, Node) -> bool {
    (p: Path, n: Node) => SkipName(n.name) || (p != [] && p in roots)
  }

  function Phase2b(tree: Node, roots: seq<Path>): seq<Path> {
    if [] in roots then [] else Filter(q => Scannable(tree, q), Walk(tree, [], PrunedOrphan(roots)))
  }

  function AllScans(tree: Node, cover: Coverage): seq<Path> {
    TypedScans(tree, cover, Roots(tree)) + Phase2a(tree, cover, Roots(tree)) + Phase2b(tree, Roots(tree))
  }

  // A file outside every module: no directory from the scanned one down to it
  // is skipped or a module root.
  ghost predicate Loose(tree: Node, q: Path) {
    Reachable(tree, q) && forall k :: 0 <= k < |q| ==> !RootAt(tree, q, k)
  }

  // What each phase scans, each file once: the typed pass what the loader
  // covered, the next phase what a module lists besides and parses, the last
  // one what lies outside every module.
  ghost predicate PhasesAre(tree: Node, cover: Coverage, typed: seq<Path>, listed: seq<Path>, loose: seq<Path>) {
    forall q ::
      && multiset(typed)[q] == (if CoveredAnywhere(cover, q) then 1 else 0)
      && multiset(listed)[q] == (if !CoveredAnywhere(cover, q) && ParsedWhole(tree, q) && ListedAnywhere(tree, q)
                                 then 1 else 0)
      && multiset(loose)[q] == (if JwxFile(tree, q) && ParsedWhole(tree, q) && Loose(tree, q) then 1 else 0)
  }

  ghost predicate ParsedWhole(tree: Node, q: Path) {
    At(tree, q).Some? && At(tree, q).value.File? && At(tree, q).value.info.parses
  }

  ghost predicate ListedAnywhere(tree: Node, q: Path) {
    exists r :: IsRoot(tree, r) && Listed(tree, r, q)
  }

  // The files scanned, in scanning order: the typed pass, then the two untyped
  // phases.
  method CheckGoFiles(tree: Node, cover: Coverage)
    returns (scanned: seq<Path>, ghost typed: seq<Path>, ghost listed: seq<Path>, ghost loose: seq<Path>)
    ensures scanned == AllScans(tree, cover) == typed + listed + loose
    ensures WellFormed(tree) && tree.Dir? && LoaderStaysHome(tree, cover) ==>
      PhasesAre(tree, cover, typed, listed, loose)
  {
    var roots := FindModuleRoots(tree);
    scanned := ScanTyped(tree, cover, roots);
    var covered := set root, q | root in cover && q in cover[root] :: q;
    var untyped := ScanUncovered(tree, cover, covered, roots);
    typed, listed, loose := scanned, untyped, Phase2b(tree, roots);
    if WellFormed(tree) && tree.Dir? && LoaderStaysHome(tree, cover) {
      PhasesExact(tree, cover);
    }
    scanned := scanned + untyped;
    if [] in roots {
      assert scanned + [] == scanned;
      return;
    }
    var orphans := ScanOrphans(tree, roots);
    scanned := scanned + orphans;
  }

  lemma TypedStep(tree: Node, cover: Coverage, roots: seq<Path>, i: nat)
    requires i < |roots|
    ensures TypedScans(tree, cover, roots[i..])
      == CoveredAmong(cover, roots[i], Prescan(tree, roots[i])) + TypedScans(tree, cover, roots[i + 1..])
  {
    assert roots[i..][1..] == roots[i + 1..];
  }

  // Phase 1.
  method ScanTyped(tree: Node, cover: Coverage, roots: seq<Path>) returns (typed: seq<Path>)
    ensures typed == TypedScans(tree, cover, roots)
  {
    typed := [];
    for i := 0 to |roots|
      invariant typed + TypedScans(tree, cover, roots[i..]) == TypedScans(tree, cover, roots)
    {
      TypedStep(tree, cover, roots, i);
      var root := roots[i];
      var _, files := PrescanModule(tree, root);
      var found := KeepIf(q => Covers(cover, root, q), files);
      Associate(typed, found, TypedScans(tree, cover, roots[i + 1..]));
      typed := typed + found;
    }
  }

  lemma Phase2aStep(tree: Node, cover: Coverage, roots: seq<Path>, i: nat)
    requires i < |roots|
    ensures Phase2a(tree, cover, roots[i..]) == UncoveredAmong(tree, cover, Prescan(tree, roots[i]))
      + Phase2a(tree, cover, roots[i + 1..])
  {
    assert roots[i..][1..] == roots[i + 1..];
  }

  // Phase 2a: what the prescans listed and the loader did not cover.
  method ScanUncovered(tree: Node, cover: Coverage, covered: set<Path>, roots: seq<Path>) returns (untyped: seq<Path>)
    requires forall q :: q in covered <==> CoveredAnywhere(cover, q)
    ensures untyped == Phase2a(tree, cover, roots)
  {
    untyped := [];
    for i := 0 to |roots|
      invariant untyped + Phase2a(tree, cover, roots[i..]) == Phase2a(tree, cover, roots)
    {
      Phase2aStep(tree, cover, roots, i);
      var _, files := PrescanModule(tree, roots[i]);
      var more := KeepIf(q => q !in covered && Parses(tree, q), files);
      FilterSame(q => q !in covered && Parses(tree, q), q => !CoveredAnywhere(cover, q) && Parses(tree, q), files);
      Associate(untyped, more, Phase2a(tree, cover, roots[i + 1..]));
      untyped := untyped + more;
    }
  }

  lemma {:induction false} FilterSame(a: Path -> bool, b: Path -> bool, files: seq<Path>)
    requires forall q :: a(q) == b(q)
    ensures Filter(a, files) == Filter(b, files)
  {
    if files != [] {
      FilterSame(a, b, files[1..]);
    }
  }

  // Phase 2b: files outside every module root.
  method ScanOrphans(tree: Node, roots: seq<Path>) returns (untyped: seq<Path>)
    requires [] !in roots
    ensures untyped == Phase2b(tree, roots)
  {
    untyped := KeepIf(q => Scannable(tree, q), Walk(tree, [], PrunedOrphan(roots)));
  }

  // ---- Counting ----------------------------------------------------------

  function Count(s: seq<Path>, q: Path): nat {
    multiset(s)[q]
  }

  lemma {:induction false} RootsCount(files: seq<Path>, r: Path)
    requires forall f :: f in files ==> f != []
    ensures Count(RootsAmong(files), r) == Count(files, r + [GO_MOD])
  {
    if files != [] {
      var f, rest := files[0], files[1..];
      assert f in files && forall x :: x in rest ==> x in files;
      RootsCount(rest, r);
      CountFirst(files, r + [GO_MOD]);
      RootEntry(f, r);
      assert multiset(RootOf(f) + RootsAmong(rest)) == multiset(RootOf(f)) + multiset(RootsAmong(rest));
    }
  }

  lemma CountFirst(files: seq<Path>, q: Path)
    requires files != []
    ensures Count(files, q) == (if files[0] == q then 1 else 0) + Count(files[1..], q)
  {
    assert files == [files[0]] + files[1..];
  }

  lemma RootEntry(f: Path, r: Path)
    requires f != []
    ensures multiset(RootOf(f))[r] == if f == r + [GO_MOD] then 1 else 0
  {
    assert f == DirOf(f) + [BaseOf(f)];
    assert DirOf(r + [GO_MOD]) == r && BaseOf(r + [GO_MOD]) == GO_MOD;
  }

  lemma {:induction false} FilterCount(wanted: Path -> bool, files: seq<Path>, q: Path)
    ensures Count(Filter(wanted, files), q) == if wanted(q) then Count(files, q) else 0
  {
    if files != [] {
      FilterCount(wanted, files[1..], q);
      CountFirst(files, q);
    }
  }

  // ---- Reachability and ownership ----------------------------------------

  // No directory from the scanned one down to q is skip-listed.
  predicate Reachable(tree: Node, q: Path) {
    FileAt(tree, q) && Open(tree, [], q, SkipListed())
  }

  predicate IsRoot(tree: Node, r: Path) {
    FileAt(tree, r + [GO_MOD]) && Open(tree, [], r + [GO_MOD], SkipListed())
  }

  // A directory is reported as a module root exactly when it holds a go.mod
  // file and is reachable, and then once.
  lemma RootsExact(tree: Node, r: Path)
    requires WellFormed(tree) && tree.Dir?
    ensures Count(Roots(tree), r) == if IsRoot(tree, r) then 1 else 0
    ensures r in Roots(tree) <==> IsRoot(tree, r)
  {
    var files := Walk(tree, [], SkipListed());
    if !SkipName(tree.name) {
      WalkKidsBelow(tree.kids, [], SkipListed());
    }
    RootsCount(files, r);
    WalkExact(tree, [], r + [GO_MOD], SkipListed());
    assert [] + (r + [GO_MOD]) == r + [GO_MOD];
  }

  // Some directory on the way from below root to q is pruned in root's scan.
  predicate OwnedFrom(tree: Node, root: Path, q: Path) {
    && At(tree, root).Some? && Below(root, q)
    && forall k :: |root| < k < |q| ==>
         At(tree, q[..k]).Some? && !SkipName(At(tree, q[..k]).value.name) && !HasGoModEntry(At(tree, q[..k]).value)
  }

  lemma PrescanExact(tree: Node, root: Path, q: Path)
    requires WellFormed(tree) && At(tree, root).Some? && At(tree, root).value.Dir?
    ensures Count(Prescan(tree, root), q) == if ImportsJwx(tree, q) && OwnedFrom(tree, root, q) then 1 else 0
  {
    var n := At(tree, root).value;
    AtWellFormed(tree, root);
    FilterCount(x => ImportsJwx(tree, x), Visited(tree, root), q);
    WalkBelow(n, root, PrunedIn(root));
    if ImportsJwx(tree, q) {
      if Below(root, q) {
        var rest := q[|root|..];
        assert root + rest == q;
        WalkExact(n, root, rest, PrunedIn(root));
        AtAppend(tree, root, rest);
        OpenIff(n, root, rest, PrunedIn(root));
        assert rest != [];
        PrefixesBelow(tree, root, q);
      } else {
        assert q !in Visited(tree, root);
      }
    }
  }

  lemma DirsOfFiles(tree: Node, root: Path)
    ensures var files := Prescan(tree, root);
      forall d :: d in DirsOf(files) <==> exists q :: q in files && q != [] && d == q[..|q| - 1]
  {
    var files := Prescan(tree, root);
    FilterWanted(q => ImportsJwx(tree, q), Visited(tree, root));
    forall d
      ensures d in DirsOf(files) <==> exists q :: q in files && q != [] && d == q[..|q| - 1]
    {
      if d in DirsOf(files) {
        var i :| 0 <= i < |files| && DirOf(files[i]) == d;
        assert files[i] in files && files[i] != [];
      }
      if q :| q in files && q != [] && d == q[..|q| - 1] {
        var i :| 0 <= i < |files| && files[i] == q;
        assert DirOf(files[i]) == d;
      }
    }
  }

  lemma {:induction false} FilterWanted(wanted: Path -> bool, files: seq<Path>)
    ensures forall q :: q in Filter(wanted, files) ==> wanted(q)
  {
    if files != [] {
      FilterWanted(wanted, files[1..]);
    }
  }

  lemma PrescanSpelled(tree: Node, root: Path)
    ensures WellFormed(tree) && At(tree, root).Some? && At(tree, root).value.Dir? ==>
      forall q :: multiset(Prescan(tree, root))[q] == if Listed(tree, root, q) then 1 else 0
  {
    if WellFormed(tree) && At(tree, root).Some? && At(tree, root).value.Dir? {
      forall q
        ensures Count(Prescan(tree, root), q) == if Listed(tree, root, q) then 1 else 0
      {
        PrescanExact(tree, root, q);
        ListedIs(tree, root, q);
      }
    }
  }

  lemma ListedIs(tree: Node, root: Path, q: Path)
    requires At(tree, root).Some?
    ensures Listed(tree, root, q) <==> ImportsJwx(tree, q) && OwnedFrom(tree, root, q)
  {
    if At(tree, q).Some? {
      forall k | |root| < k < |q|
        ensures At(tree, q[..k]).Some? && (HasGoModEntry(At(tree, q[..k]).value) <==>
          At(tree, q[..k] + ["go.mod"]).Some?)
      {
        PrefixIsDir(tree, q, k);
        EntryNamed(tree, q[..k]);
      }
    }
  }

  lemma EntryNamed(tree: Node, d: Path)
    requires At(tree, d).Some?
    ensures HasGoModEntry(At(tree, d).value) <==> At(tree, d + ["go.mod"]).Some?
  {
    AtAppend(tree, d, ["go.mod"]);
    assert ["go.mod"][1..] == [];
    var n := At(tree, d).value;
    assert n.Dir? && Find(n.kids, "go.mod").Some? ==> At(Find(n.kids, "go.mod").value, []).Some?;
  }

  // The prefixes the walk from root looks at are those of q below root.
  lemma PrefixesBelow(tree: Node, root: Path, q: Path)
    requires FileAt(tree, q) && Below(root, q) && |root| < |q| && At(tree, root).Some?
    ensures var n := At(tree, root).value; var rest := q[|root|..];
      (forall k :: 0 <= k < |rest| ==>
        At(n, rest[..k]).Some? && !PrunedIn(root)(root + rest[..k], At(n, rest[..k]).value))
      <==> OwnedFrom(tree, root, q)
  {
    var n, rest := At(tree, root).value, q[|root|..];
    forall k | 0 <= k < |rest|
      ensures root + rest[..k] == q[..|root| + k] && At(n, rest[..k]) == At(tree, q[..|root| + k])
    {
      AtAppend(tree, root, rest[..k]);
      assert root + rest[..k] == q[..|root| + k];
    }
    if OwnedFrom(tree, root, q) {
      forall k | 0 <= k < |rest|
        ensures At(n, rest[..k]).Some? && !PrunedIn(root)(root + rest[..k], At(n, rest[..k]).value)
      {
        assert k == 0 ==> root + rest[..k] == root;
        assert k > 0 ==> !HasGoModEntry(At(tree, q[..|root| + k]).value);
      }
    }
    if forall k :: 0 <= k < |rest| ==>
      At(n, rest[..k]).Some? && !PrunedIn(root)(root + rest[..k], At(n, rest[..k]).value) {
      forall k | |root| < k < |q|
        ensures At(tree, q[..k]).Some? && !SkipName(At(tree, q[..k]).value.name) &&
          !HasGoModEntry(At(tree, q[..k]).value)
      {
        var j := k - |root|;
        assert At(n, rest[..j]).Some? && !PrunedIn(root)(root + rest[..j], At(n, rest[..j]).value);
        assert |root + rest[..j]| > |root|;
      }
    }
  }

  // The scanned directory and everything down to q, by depth.
  predicate EntryAt(tree: Node, q: Path, k: int) {
    0 <= k < |q| && At(tree, q[..k]).Some? && HasGoModEntry(At(tree, q[..k]).value)
  }

  predicate RootAt(tree: Node, q: Path, k: int) {
    0 <= k < |q| && IsRoot(tree, q[..k])
  }

  lemma RootHasEntry(tree: Node, r: Path)
    requires IsRoot(tree, r)
    ensures At(tree, r).Some? && HasGoModEntry(At(tree, r).value)
  {
    AtAppend(tree, r, [GO_MOD]);
    assert At(At(tree, r).value, [GO_MOD]).Some?;
  }

  // A skip-listed directory above q, or none.
  lemma ReachableNames(tree: Node, q: Path)
    requires FileAt(tree, q)
    ensures Reachable(tree, q) <==> forall k :: 0 <= k < |q| ==>
      At(tree, q[..k]).Some? && !SkipName(At(tree, q[..k]).value.name)
  {
    OpenIff(tree, [], q, SkipListed());
    forall k | 0 <= k < |q|
      ensures [] + q[..k] == q[..k]
    {
    }
  }

  // Below a directory with a go.mod entry and no root from there on, inside a
  // module.
  ghost predicate Orphaned(tree: Node, q: Path) {
    exists j, k :: RootAt(tree, q, j) && EntryAt(tree, q, k) && j < k && forall i :: k <= i < |q| ==>
      !RootAt(tree, q, i)
  }

  // The directory at depth k holds a directory named go.mod.
  predicate GoModDirAt(tree: Node, q: Path, k: int) {
    0 <= k < |q| && At(tree, q[..k] + [GO_MOD]).Some? && At(tree, q[..k] + [GO_MOD]).value.Dir?
  }

  ghost predicate BelowGoModDir(tree: Node, q: Path) {
    exists j, k :: RootAt(tree, q, j) && GoModDirAt(tree, q, k) && j < k && forall i :: k < i < |q| ==>
      !RootAt(tree, q, i)
  }

  // So the go.mod entry is no file: it is a directory of that name, beside
  // the file or beside a directory on the way down to it.
  lemma OrphanedIff(tree: Node, q: Path)
    requires Reachable(tree, q)
    ensures Orphaned(tree, q) <==> BelowGoModDir(tree, q)
  {
    ReachableNames(tree, q);
    forall k | 0 <= k < |q|
      ensures EntryAt(tree, q, k) && !RootAt(tree, q, k) <==> GoModDirAt(tree, q, k)
    {
      AtAppend(tree, q[..k], [GO_MOD]);
      PrefixIsDir(tree, q, k);
      assert EntryAt(tree, q, k) <==> At(tree, q[..k] + [GO_MOD]).Some?;
      EntryIsRoot(tree, q, k);
    }
    if BelowGoModDir(tree, q) {
      var j, k :| RootAt(tree, q, j) && GoModDirAt(tree, q, k) && j < k && forall i :: k < i < |q| ==>
        !RootAt(tree, q, i);
      assert EntryAt(tree, q, k) && !RootAt(tree, q, k);
    }
    if Orphaned(tree, q) {
      var j, k :| RootAt(tree, q, j) && EntryAt(tree, q, k) && j < k && forall i :: k <= i < |q| ==>
        !RootAt(tree, q, i);
      assert GoModDirAt(tree, q, k);
    }
  }

  lemma EntryIsRoot(tree: Node, q: Path, k: nat)
    requires Reachable(tree, q) && k < |q|
    ensures IsRoot(tree, q[..k]) <==> FileAt(tree, q[..k] + [GO_MOD])
  {
    ReachableNames(tree, q);
    var g := q[..k] + [GO_MOD];
    if FileAt(tree, g) {
      ReachableNames(tree, g);
      forall j | 0 <= j < |g|
        ensures At(tree, g[..j]).Some? && !SkipName(At(tree, g[..j]).value.name)
      {
        assert g[..j] == q[..j];
      }
    }
  }

  // w/m/sub/x.go, where m holds a go.mod file and sub a directory go.mod.
  function OrphanTree(): Node {
    var any := Info(true, true, true);
    Dir("w", [Dir("m", [File(GO_MOD, any), Dir("sub", [Dir(GO_MOD, []), File("x.go", any)])])])
  }

  lemma OrphanExists(cover: Coverage)
    requires LoaderStaysHome(OrphanTree(), cover)
    ensures var q := ["m", "sub", "x.go"]; var tree := OrphanTree();
      && WellFormed(tree) && Scannable(tree, q) && Reachable(tree, q) && Orphaned(tree, q)
      && Count(AllScans(tree, cover), q) == 0
  {
    var tree, q := OrphanTree(), ["m", "sub", "x.go"];
    OrphanTreeWellFormed();
    OrphanReached(tree, q);
    OrphanRoots(tree, q);
    OrphanedIff(tree, q);
    ScannedExactlyOnceIff(tree, cover, q);
  }

  lemma OrphanReached(tree: Node, q: Path)
    requires tree == OrphanTree() && q == ["m", "sub", "x.go"]
    ensures At(tree, q).Some? && Scannable(tree, q) && Reachable(tree, q)
  {
    OrphanPaths(tree, tree.kids[0], tree.kids[0].kids[1]);
    assert q[..0] == [] && q[..1] == ["m"] && q[..2] == ["m", "sub"];
    assert At(tree, []) == Some(tree);
    ReachableNames(tree, q);
    assert ("x.go")[1..] == ".go";
  }

  lemma OrphanRoots(tree: Node, q: Path)
    requires tree == OrphanTree() && q == ["m", "sub", "x.go"] && Reachable(tree, q)
    ensures RootAt(tree, q, 1) && GoModDirAt(tree, q, 2) && BelowGoModDir(tree, q)
  {
    OrphanPaths(tree, tree.kids[0], tree.kids[0].kids[1]);
    assert q[..1] + [GO_MOD] == ["m", GO_MOD] && q[..2] + [GO_MOD] == ["m", "sub", GO_MOD];
    EntryIsRoot(tree, q, 1);
    assert RootAt(tree, q, 1) && GoModDirAt(tree, q, 2);
  }

  lemma OrphanTreeWellFormed()
    ensures WellFormed(OrphanTree())
  {
    var tree := OrphanTree();
    var m := tree.kids[0];
    var sub := m.kids[1];
    assert |GO_MOD| == 6;
    assert tree.kids[1..] == [] && m.kids[1..] == [sub] && m.kids[1..][1..] == [];
    assert sub.kids[1..] == [sub.kids[1]] && sub.kids[1..][1..] == [];
    assert KidsWellFormed([]);
    assert Find(sub.kids[1..], GO_MOD) == None && WellFormed(sub.kids[0]) && WellFormed(sub.kids[1]);
    assert KidsWellFormed(sub.kids[1..]);
    assert KidsWellFormed(sub.kids);
    assert Find(m.kids[1..], GO_MOD) == None && WellFormed(sub);
    assert KidsWellFormed(m.kids[1..]);
    assert KidsWellFormed(m.kids) && WellFormed(m);
    assert KidsWellFormed(tree.kids);
  }

  lemma OrphanPaths(tree: Node, m: Node, sub: Node)
    requires tree == OrphanTree() && m == tree.kids[0] && sub == m.kids[1]
    ensures At(tree, ["m"]) == Some(m) && At(tree, ["m", "sub"]) == Some(sub)
    ensures At(tree, ["m", GO_MOD]) == Some(m.kids[0])
    ensures At(tree, ["m", "sub", GO_MOD]) == Some(sub.kids[0])
    ensures At(tree, ["m", "sub", "x.go"]) == Some(sub.kids[1])
  {
    assert |GO_MOD| == 6;
    assert m.kids[1..] == [sub] && sub.kids[1..] == [sub.kids[1]];
    assert Find(m.kids[1..], "sub") == Some(sub) && Find(sub.kids[1..], "x.go") == Some(sub.kids[1]);
    assert Find(tree.kids, "m") == Some(m);
    assert Find(m.kids, "sub") == Some(sub) && Find(m.kids, GO_MOD) == Some(m.kids[0]);
    assert Find(sub.kids, GO_MOD) == Some(sub.kids[0]) && Find(sub.kids, "x.go") == Some(sub.kids[1]);
    AtOne(tree, "m", m);
    AtOne(m, "sub", sub);
    AtOne(m, GO_MOD, m.kids[0]);
    AtOne(sub, GO_MOD, sub.kids[0]);
    AtOne(sub, "x.go", sub.kids[1]);
    assert ["m", "sub"] == ["m"] + ["sub"] && ["m", GO_MOD] == ["m"] + [GO_MOD];
    assert ["m", "sub", GO_MOD] == ["m", "sub"] + [GO_MOD] && ["m", "sub", "x.go"] == ["m", "sub"] + ["x.go"];
    AtAppend(tree, ["m"], ["sub"]);
    AtAppend(tree, ["m"], [GO_MOD]);
    AtAppend(tree, ["m", "sub"], [GO_MOD]);
    AtAppend(tree, ["m", "sub"], ["x.go"]);
  }

  lemma AtOne(n: Node, name: string, kid: Node)
    requires n.Dir? && Find(n.kids, name) == Some(kid)
    ensures At(n, [name]) == Some(kid)
  {
    assert [name][1..] == [];
    assert At(kid, []) == Some(kid);
  }

  // ---- Exactly once ------------------------------------------------------

  // The modules whose prescan lists q, as depths of q.
  lemma OwnedIffLastEntry(tree: Node, q: Path, r: Path)
    requires WellFormed(tree) && Reachable(tree, q) && IsRoot(tree, r)
    ensures OwnedFrom(tree, r, q) <==>
      Below(r, q) && |r| < |q| && forall k :: |r| < k < |q| ==> !EntryAt(tree, q, k)
  {
    ReachableNames(tree, q);
    RootHasEntry(tree, r);
    if OwnedFrom(tree, r, q) {
      RootIsShorter(tree, r, q);
      forall k | |r| < k < |q|
        ensures !EntryAt(tree, q, k)
      {
        assert !HasGoModEntry(At(tree, q[..k]).value);
      }
    } else if Below(r, q) && |r| < |q| {
      var k :| |r| < k < |q| && !(At(tree, q[..k]).Some? && !SkipName(At(tree, q[..k]).value.name) &&
        !HasGoModEntry(At(tree, q[..k]).value));
      assert EntryAt(tree, q, k);
    }
  }

  lemma RootIsShorter(tree: Node, r: Path, q: Path)
    requires IsRoot(tree, r) && FileAt(tree, q) && Below(r, q)
    ensures |r| < |q|
  {
    RootHasEntry(tree, r);
    assert q[..|q|] == q;
  }

  // At most one module lists a file.
  lemma OneOwner(tree: Node, q: Path, r: Path, r': Path)
    requires IsRoot(tree, r) && IsRoot(tree, r') && OwnedFrom(tree, r, q) && OwnedFrom(tree, r', q)
    requires FileAt(tree, q)
    ensures r == r'
  {
    RootHasEntry(tree, r);
    RootHasEntry(tree, r');
    assert q[..|r|] == r && q[..|r'|] == r';
    RootIsShorter(tree, r, q);
    RootIsShorter(tree, r', q);
  }

  // In one module's share of phases 1 and 2a.
  lemma ModuleShare(tree: Node, cover: Coverage, r: Path, q: Path)
    requires WellFormed(tree) && tree.Dir? && LoaderStaysHome(tree, cover)
    requires IsRoot(tree, r) && Scannable(tree, q)
    ensures Count(CoveredAmong(cover, r, Prescan(tree, r)), q) + Count(UncoveredAmong(tree, cover, Prescan(tree, r)), q)
      == if OwnedFrom(tree, r, q) then 1 else 0
  {
    RootHasEntry(tree, r);
    PrescanExact(tree, r, q);
    FilterCount(x => Covers(cover, r, x), Prescan(tree, r), q);
    FilterCount(x => !CoveredAnywhere(cover, x) && Parses(tree, x), Prescan(tree, r), q);
    if OwnedFrom(tree, r, q) && CoveredAnywhere(cover, q) {
      var other :| other in cover && q in cover[other];
      assert Covers(cover, other, q);
      RootsExact(tree, other);
      RootHasEntry(tree, other);
      PrescanExact(tree, other, q);
      assert q in Prescan(tree, other) ==> Count(Prescan(tree, other), q) > 0;
      OneOwner(tree, q, r, other);
    }
  }

  lemma {:induction false} ModuleShares(tree: Node, cover: Coverage, roots: seq<Path>, q: Path)
    requires WellFormed(tree) && tree.Dir? && LoaderStaysHome(tree, cover) && Scannable(tree, q)
    requires forall r :: r in roots ==> IsRoot(tree, r)
    requires forall r :: multiset(roots)[r] <= 1
    ensures Count(TypedScans(tree, cover, roots), q) + Count(Phase2a(tree, cover, roots), q)
      == if exists r :: r in roots && OwnedFrom(tree, r, q) then 1 else 0
  {
    if roots != [] {
      var r, rest := roots[0], roots[1..];
      assert roots == [r] + rest;
      assert r in roots;
      assert forall x :: multiset(rest)[x] <= multiset(roots)[x];
      assert forall x :: x in rest ==> x in roots;
      ModuleShare(tree, cover, r, q);
      ModuleShares(tree, cover, rest, q);
      if OwnedFrom(tree, r, q) {
        assert multiset(roots)[r] == 1 + multiset(rest)[r];
        assert r !in rest;
        forall x | x in rest
          ensures !OwnedFrom(tree, x, q)
        {
          if OwnedFrom(tree, x, q) {
            OneOwner(tree, q, r, x);
          }
        }
      }
    }
  }

  lemma OrphanPhase(tree: Node, q: Path)
    requires WellFormed(tree) && tree.Dir? && Scannable(tree, q)
    ensures Count(Phase2b(tree, Roots(tree)), q)
      == if Reachable(tree, q) && forall k :: 0 <= k < |q| ==> !RootAt(tree, q, k) then 1 else 0
  {
    var roots := Roots(tree);
    assert q != [];
    RootsExact(tree, []);
    assert q[..0] == [];
    if [] in roots {
      assert RootAt(tree, q, 0);
    } else {
      var prune := PrunedOrphan(roots);
      FilterCount(x => Scannable(tree, x), Walk(tree, [], prune), q);
      WalkExact(tree, [], q, prune);
      assert [] + q == q;
      OpenIff(tree, [], q, prune);
      ReachableNames(tree, q);
      forall k | 0 <= k < |q|
        ensures [] + q[..k] == q[..k] && At(tree, q[..k]).Some? && (q[..k] in roots <==> RootAt(tree, q, k))
      {
        RootsExact(tree, q[..k]);
        PrefixIsDir(tree, q, k);
      }
      forall k | 0 <= k < |q|
        ensures !prune([] + q[..k], At(tree, q[..k]).value) <==>
          !SkipName(At(tree, q[..k]).value.name) && !RootAt(tree, q, k)
      {
        assert [] + q[..k] == q[..k];
        assert k > 0 ==> q[..k] != [];
      }
    }
  }

  lemma {:induction false} TypedCount(tree: Node, cover: Coverage, roots: seq<Path>, q: Path)
    requires WellFormed(tree) && tree.Dir? && LoaderStaysHome(tree, cover)
    requires forall r :: r in roots ==> IsRoot(tree, r)
    requires forall r :: multiset(roots)[r] <= 1
    ensures Count(TypedScans(tree, cover, roots), q) == if exists r :: r in roots && Covers(cover, r, q) then 1 else 0
  {
    if roots != [] {
      var r, rest := roots[0], roots[1..];
      assert roots == [r] + rest;
      assert r in roots;
      RestUnique(roots);
      RootHasEntry(tree, r);
      PrescanExact(tree, r, q);
      FilterCount(x => Covers(cover, r, x), Prescan(tree, r), q);
      TypedCount(tree, cover, rest, q);
      if Covers(cover, r, q) {
        assert q in Prescan(tree, r) && Count(Prescan(tree, r), q) > 0;
        forall x | x in rest
          ensures !Covers(cover, x, q)
        {
          if Covers(cover, x, q) {
            CoveredOnce(tree, cover, r, x, q);
          }
        }
      }
    }
  }

  lemma RestUnique(roots: seq<Path>)
    requires roots != [] && forall r :: multiset(roots)[r] <= 1
    ensures forall r :: multiset(roots[1..])[r] <= 1
    ensures roots[0] !in roots[1..] && forall r :: r in roots[1..] ==> r in roots
  {
    assert roots == [roots[0]] + roots[1..];
    assert multiset(roots) == multiset{roots[0]} + multiset(roots[1..]);
    forall r
      ensures multiset(roots[1..])[r] <= multiset(roots)[r]
    {
    }
    assert multiset(roots)[roots[0]] == 1 + multiset(roots[1..])[roots[0]];
  }

  lemma CoveredOnce(tree: Node, cover: Coverage, r: Path, x: Path, q: Path)
    requires WellFormed(tree) && tree.Dir? && LoaderStaysHome(tree, cover)
    requires Covers(cover, r, q) && Covers(cover, x, q)
    ensures r == x
  {
    forall y | y in {r, x}
      ensures IsRoot(tree, y) && OwnedFrom(tree, y, q) && ImportsJwx(tree, q)
    {
      RootsExact(tree, y);
      RootHasEntry(tree, y);
      PrescanExact(tree, y, q);
      assert q in Prescan(tree, y) && Count(Prescan(tree, y), q) > 0;
    }
    OneOwner(tree, q, r, x);
  }

  lemma {:induction false} ListedCount(tree: Node, cover: Coverage, roots: seq<Path>, q: Path)
    requires WellFormed(tree) && tree.Dir?
    requires forall r :: r in roots ==> IsRoot(tree, r)
    requires forall r :: multiset(roots)[r] <= 1
    ensures Count(Phase2a(tree, cover, roots), q) ==
      if !CoveredAnywhere(cover, q) && Parses(tree, q) && exists r :: r in roots && Listed(tree, r, q) then 1 else 0
  {
    if roots != [] {
      var r, rest := roots[0], roots[1..];
      assert roots == [r] + rest;
      assert r in roots;
      RestUnique(roots);
      RootHasEntry(tree, r);
      PrescanExact(tree, r, q);
      ListedIs(tree, r, q);
      FilterCount(x => !CoveredAnywhere(cover, x) && Parses(tree, x), Prescan(tree, r), q);
      ListedCount(tree, cover, rest, q);
      if Listed(tree, r, q) {
        forall x | x in rest
          ensures !Listed(tree, x, q)
        {
          RootHasEntry(tree, x);
          ListedIs(tree, x, q);
          if Listed(tree, x, q) {
            OneOwner(tree, q, r, x);
          }
        }
      }
    }
  }

  lemma LooseCount(tree: Node, q: Path)
    requires WellFormed(tree) && tree.Dir?
    ensures Count(Phase2b(tree, Roots(tree)), q) == if Scannable(tree, q) && Loose(tree, q) then 1 else 0
  {
    if Scannable(tree, q) {
      OrphanPhase(tree, q);
    } else if [] !in Roots(tree) {
      FilterCount(x => Scannable(tree, x), Walk(tree, [], PrunedOrphan(Roots(tree))), q);
    }
  }

  // Each phase on its own: nothing is left to how they add up.
  lemma PhasesExact(tree: Node, cover: Coverage)
    requires WellFormed(tree) && tree.Dir? && LoaderStaysHome(tree, cover)
    ensures var roots := Roots(tree);
      PhasesAre(tree, cover, TypedScans(tree, cover, roots), Phase2a(tree, cover, roots), Phase2b(tree, roots))
  {
    var roots := Roots(tree);
    forall r
      ensures r in roots <==> IsRoot(tree, r)
      ensures multiset(roots)[r] <= 1
    {
      RootsExact(tree, r);
    }
    forall q
      ensures Count(TypedScans(tree, cover, roots), q) == if CoveredAnywhere(cover, q) then 1 else 0
      ensures Count(Phase2a(tree, cover, roots), q) ==
        if !CoveredAnywhere(cover, q) && Parses(tree, q) && ListedAnywhere(tree, q) then 1 else 0
      ensures Count(Phase2b(tree, roots), q) == if Scannable(tree, q) && Loose(tree, q) then 1 else 0
    {
      TypedCount(tree, cover, roots, q);
      ListedCount(tree, cover, roots, q);
      LooseCount(tree, q);
      assert CoveredAnywhere(cover, q) <==> exists r :: r in roots && Covers(cover, r, q) by {
        if CoveredAnywhere(cover, q) {
          var r :| r in cover && q in cover[r];
          assert Covers(cover, r, q);
        }
      }
    }
  }

  // Exactly once, except below a directory named go.mod inside a module:
  // there, never. Nothing under a skip-listed directory is scanned.
  lemma ScannedExactlyOnceIff(tree: Node, cover: Coverage, q: Path)
    requires WellFormed(tree) && tree.Dir? && LoaderStaysHome(tree, cover) && Scannable(tree, q)
    ensures Count(AllScans(tree, cover), q) == if Reachable(tree, q) && !Orphaned(tree, q) then 1 else 0
  {
    var roots := Roots(tree);
    forall r
      ensures r in roots <==> IsRoot(tree, r)
      ensures multiset(roots)[r] <= 1
    {
      RootsExact(tree, r);
    }
    ModuleShares(tree, cover, roots, q);
    OrphanPhase(tree, q);
    assert q != [];
    if Reachable(tree, q) {
      LastRootDecides(tree, q);
    } else {
      forall r | r in roots
        ensures !OwnedFrom(tree, r, q)
      {
        if OwnedFrom(tree, r, q) {
          OwnedIsReachable(tree, r, q);
        }
      }
    }
  }

  lemma OwnedIsReachable(tree: Node, r: Path, q: Path)
    requires IsRoot(tree, r) && OwnedFrom(tree, r, q) && FileAt(tree, q)
    ensures Reachable(tree, q)
  {
    var g := r + [GO_MOD];
    ReachableNames(tree, g);
    assert Reachable(tree, g);
    ReachableNames(tree, q);
    forall k | 0 <= k < |q|
      ensures At(tree, q[..k]).Some? && !SkipName(At(tree, q[..k]).value.name)
    {
      if k <= |r| {
        assert q[..k] == q[..|r|][..k] == r[..k] == g[..k];
        assert At(tree, g[..k]).Some? && !SkipName(At(tree, g[..k]).value.name);
      }
    }
  }

  // The deepest root on a path, if there is one.
  lemma {:induction false} DeepestRoot(tree: Node, q: Path, below: nat) returns (d: int)
    requires below <= |q|
    ensures d < below && (d >= 0 ==> RootAt(tree, q, d))
    ensures d >= -1 && forall k :: d < k < below ==> !RootAt(tree, q, k)
  {
    if below == 0 {
      d := -1;
    } else if RootAt(tree, q, below - 1) {
      d := below - 1;
    } else {
      d := DeepestRoot(tree, q, below - 1);
    }
  }

  lemma LastRootDecides(tree: Node, q: Path)
    requires WellFormed(tree) && Reachable(tree, q) && q != []
    ensures (exists r :: IsRoot(tree, r) && OwnedFrom(tree, r, q))
      <==> (exists j :: RootAt(tree, q, j)) && !Orphaned(tree, q)
    ensures Orphaned(tree, q) ==> exists j :: RootAt(tree, q, j)
  {
    var d := DeepestRoot(tree, q, |q|);
    if d >= 0 {
      var r := q[..d];
      OwnedIffLastEntry(tree, q, r);
      if OwnedFrom(tree, r, q) {
        forall j, k | RootAt(tree, q, j) && EntryAt(tree, q, k) && j < k
          ensures exists i :: k <= i < |q| && RootAt(tree, q, i)
        {
          assert k <= d && RootAt(tree, q, d);
        }
      } else {
        var k :| |r| < k < |q| && EntryAt(tree, q, k);
        assert RootAt(tree, q, d) && d < k;
        assert Orphaned(tree, q);
        forall r' | IsRoot(tree, r')
          ensures !OwnedFrom(tree, r', q)
        {
          OwnedIffLastEntry(tree, q, r');
          if OwnedFrom(tree, r', q) {
            assert q[..|r'|] == r' && RootAt(tree, q, |r'|);
            assert false;
          }
        }
      }
    } else {
      forall r | IsRoot(tree, r)
        ensures !OwnedFrom(tree, r, q)
      {
        OwnedIffLastEntry(tree, q, r);
        if OwnedFrom(tree, r, q) {
          assert q[..|r|] == r && RootAt(tree, q, |r|);
        }
      }
    }
  }

  // ---- Upward search agrees ----------------------------------------------

  function GoModDirs(tree: Node): P.Dir -> bool {
    d => At(tree, d).Some? && HasGoModEntry(At(tree, d).value)
  }

  // A reachable jwx file is listed by a module's prescan exactly when walking
  // up from it stops at that module.
  lemma DownwardMeetsUpward(tree: Node, root: Path, q: Path)
    requires WellFormed(tree) && Reachable(tree, q) && ImportsJwx(tree, q) && IsRoot(tree, root)
    ensures q in Prescan(tree, root) <==> P.OwnerOf(GoModDirs(tree), P.Parent(q)) == Some(root)
  {
    RootHasEntry(tree, root);
    PrescanExact(tree, root, q);
    OwnedIffLastEntry(tree, q, root);
    var d := P.Parent(q);
    assert q in Prescan(tree, root) <==> OwnedFrom(tree, root, q);
    P.OwnerIsPrefix(GoModDirs(tree), d);
    assert forall k :: 0 <= k <= |d| ==> d[..k] == q[..k];
    if |root| <= |d| {
      P.OwnerIsNearest(GoModDirs(tree), d, |root|);
      if Below(root, q) {
        assert d[..|root|] == root;
        assert forall j :: |root| < j <= |d| ==> (GoModDirs(tree)(d[..j]) <==> EntryAt(tree, q, j));
      }
    }
  }
}
