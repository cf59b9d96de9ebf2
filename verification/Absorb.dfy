// A feature that moved from an extension module into the core module: its
// uses are re-qualified, the extension's import goes, the core import comes.
module Absorb {
  import opened Options
  import opened Sequences
  import opened Edits
  import opened Splicing
  import opened Overlap
  import opened Landing
  import F = Floors

  // `pos` is where the spec starts: at the alias, or at the path without one.
  datatype ImportSpec = ImportSpec(path: F.ModPath, alias: Option<string>, pos: nat, pathPos: nat, end: nat, line: nat)

  // A selector x.sel whose left side is the identifier x.
  datatype Selector = Selector(x: string, xPos: nat, xEnd: nat, sel: string, line: nat)

  // `bare` are the unqualified identifiers that dot imports resolve, each with
  // the path of the package it comes from.
  datatype GoFile = GoFile(src: Text, imports: seq<ImportSpec>, selectors: seq<Selector>,
                           bare: seq<(string, F.ModPath)>)

  datatype AbsorbRule = AbsorbRule(id: string, extension: F.ModPath, into: F.ModPath, names: set<string>)

  // The last element, or the one before a version suffix; "." where that does
  // not exist.
  function GoPkgName(p: F.ModPath): string {
    if p == [] then "."
    else if !IsVersion(p[|p| - 1]) then p[|p| - 1]
    else if |p| == 1 then "."
    else p[|p| - 2]
  }

  predicate IsVersion(e: string) {
    |e| >= 2 && e[0] == 'v' && forall i :: 1 <= i < |e| ==> F.IsDigit(e[i])
  }

  // A version suffix is v and a number.
  lemma VersionSuffixes(digits: string)
    ensures IsVersion("v" + digits) <==> digits != "" && forall c :: c in digits ==> c in "0123456789"
    ensures forall e: string :: IsVersion(e) ==> e != "" && e[0] == 'v'
  {
    var e := "v" + digits;
    assert e[1..] == digits;
    assert forall k :: 0 <= k < |digits| ==> e[k + 1] == digits[k] && digits[k] in digits;
    forall c: char
      ensures F.IsDigit(c) <==> c in "0123456789"
    {
      F.DigitIs(c);
    }
  }

  // The name by which a file that imports this path without an alias uses it:
  // the last element, or the one before it when that is a version.
  predicate CalledAs(path: F.ModPath, name: string) {
    || (|path| >= 1 && !IsVersion(path[|path| - 1]) && name == path[|path| - 1])
    || (|path| >= 2 && IsVersion(path[|path| - 1]) && name == path[|path| - 2])
  }

  function ImportLocalName(spec: ImportSpec): string {
    if spec.alias.Some? then spec.alias.value else GoPkgName(spec.path)
  }

  // ---- Which uses the rule rewrites --------------------------------------

  // The name a path is bound to by its first import; a blank one binds none.
  function LocalNameFor(imports: seq<ImportSpec>, path: F.ModPath): Option<string> {
    if imports == [] then None
    else if imports[0].path != path then LocalNameFor(imports[1..], path)
    else if imports[0].alias == Some("_") then None
    else Some(ImportLocalName(imports[0]))
  }

  predicate Rewritten(file: GoFile, r: AbsorbRule, s: Selector) {
    && r.into != []
    && LocalNameFor(file.imports, r.extension) == Some(s.x)
    && s.sel in r.names && s.sel != ""
  }

  predicate FirstImport(imports: seq<ImportSpec>, path: F.ModPath, i: nat) {
    i < |imports| && imports[i].path == path && forall j :: 0 <= j < i ==> imports[j].path != path
  }

  // A selector on this identifier uses the import: on its alias, or without
  // one on the last element of its path or the one before a version.
  predicate OnImport(spec: ImportSpec, x: string) {
    if spec.alias.Some? then spec.alias.value == x else CalledAs(spec.path, x)
  }

  // x is the name the first import of the path goes by.
  ghost predicate NamesImport(imports: seq<ImportSpec>, path: F.ModPath, x: string) {
    exists i: nat :: FirstImport(imports, path, i) && OnImport(imports[i], x)
  }

  lemma {:induction false} LocalNameExact(imports: seq<ImportSpec>, path: F.ModPath, x: string)
    requires x != "." && x != "_"
    ensures LocalNameFor(imports, path) == Some(x) <==> NamesImport(imports, path, x)
  {
    if imports != [] {
      var rest := imports[1..];
      if imports[0].path == path {
        assert FirstImport(imports, path, 0);
      } else {
        LocalNameExact(rest, path, x);
        if i: nat :| FirstImport(rest, path, i) && OnImport(rest[i], x) {
          assert FirstImport(imports, path, i + 1);
        }
        if i: nat :| FirstImport(imports, path, i) && OnImport(imports[i], x) {
          assert i > 0 && forall j :: 0 <= j < i - 1 ==> rest[j] == imports[j + 1];
          assert FirstImport(rest, path, i - 1);
        }
      }
    }
  }

  // The selectors this rule will re-qualify, as indices: those with a wanted
  // symbol on the first import of the extension.
  method AbsorbedReferences(file: GoFile, r: AbsorbRule) returns (refs: set<nat>)
    ensures refs == RefsOf(file, r)
    ensures Identifiers(file) ==>
      forall k: nat ::
        k in refs <==>
          && k < |file.selectors| && r.into != []
          && file.selectors[k].sel in r.names && file.selectors[k].sel != ""
          && NamesImport(file.imports, r.extension, file.selectors[k].x)
  {
    RefsSpelled(file, r);
    refs := {};
    if r.into == [] {
      return;
    }
    var local := LocalNameFor(file.imports, r.extension);
    if local.None? {
      return;
    }
    for i := 0 to |file.selectors|
      invariant refs == set k: nat | k < i && Rewritten(file, r, file.selectors[k])
    {
      var s := file.selectors[i];
      if s.x != local.value {
        continue;
      }
      if s.sel in r.names && s.sel != "" {
        refs := refs + {i};
      }
    }
  }

  function RefsOf(file: GoFile, r: AbsorbRule): set<nat> {
    set k: nat | k < |file.selectors| && Rewritten(file, r, file.selectors[k])
  }

  lemma RefsSpelled(file: GoFile, r: AbsorbRule)
    ensures Identifiers(file) ==>
      forall k: nat :: k < |file.selectors| ==>
        (LocalNameFor(file.imports, r.extension) == Some(file.selectors[k].x) <==>
          NamesImport(file.imports, r.extension, file.selectors[k].x))
  {
    if Identifiers(file) {
      forall k: nat | k < |file.selectors|
        ensures LocalNameFor(file.imports, r.extension) == Some(file.selectors[k].x) <==>
          NamesImport(file.imports, r.extension, file.selectors[k].x)
      {
        assert file.selectors[k] in file.selectors;
        LocalNameExact(file.imports, r.extension, file.selectors[k].x);
      }
    }
  }

  // Some use of the name is not among the rewritten ones.
  method PackageIsReferenced(file: GoFile, local: string, rewritten: set<nat>) returns (found: bool)
    ensures found <==> Referenced(file, local, rewritten)
  {
    found := false;
    for i := 0 to |file.selectors|
      invariant found <==> exists k: nat :: k < i && file.selectors[k].x == local && k !in rewritten
    {
      if found {
        break;
      }
      if file.selectors[i].x == local {
        if i !in rewritten {
          found := true;
        }
      }
    }
  }

  predicate Referenced(file: GoFile, local: string, rewritten: set<nat>) {
    exists k: nat :: k < |file.selectors| && file.selectors[k].x == local && k !in rewritten
  }

  function FixSelector(r: AbsorbRule, s: Selector): Option<Edit> {
    var pkg := GoPkgName(r.into);
    if r.into == [] || pkg == "" || pkg == s.x then None
    else Some(Edit(s.xPos, s.xEnd, pkg, Tag(r.id, s.line)))
  }

  // ---- Removing the import -----------------------------------------------

  // The start of the line position k is on.
  function LineStart(src: Text, k: nat): (s: nat)
    requires k <= |src|
    ensures s <= k && (s > 0 ==> src[s - 1] == '\n') && forall i :: s <= i < k ==> src[i] != '\n'
  {
    if k == 0 || src[k - 1] == '\n' then k else LineStart(src, k - 1)
  }

  // Just past the end of the line position k is on.
  function LineEnd(src: Text, k: nat): (e: nat)
    requires k <= |src|
    ensures k <= e <= |src| && (e < |src| ==> e > k && src[e - 1] == '\n') && forall i :: k <= i < e - 1 ==>
      src[i] != '\n'
    decreases |src| - k
  {
    if k == |src| then k else if src[k] == '\n' then k + 1 else LineEnd(src, k + 1)
  }

  predicate HasLowerCase(t: Text) {
    exists i :: 0 <= i < |t| && 'a' <= t[i] <= 'z'
  }

  function RemovalEdit(file: GoFile, r: AbsorbRule, spec: ImportSpec): Option<Edit> {
    if spec.pos > spec.end || spec.end > |file.src| then None
    else
      var from := LineStart(file.src, spec.pos);
      if HasLowerCase(file.src[from..spec.pos]) then Some(Edit(spec.pos, spec.end, "", Tag(r.id, spec.line)))
      else Some(Edit(from, LineEnd(file.src, spec.end), "", Tag(r.id, spec.line)))
  }

  // Refuses when the file still refers to the package through a selector
  // this pass does not rewrite; a blank import binds nothing.
  method FixImportRemoval(file: GoFile, r: AbsorbRule, spec: ImportSpec, rewritten: set<nat>) returns (e: Option<Edit>)
    ensures e == Removal(file, r, spec, rewritten)
    ensures Identifiers(file) && spec.pos <= spec.end <= |file.src| ==>
      (e.None? <==> exists k: nat :: k < |file.selectors| && k !in rewritten && OnImport(spec, file.selectors[k].x))
  {
    RemovalHeldIff(file, r, spec, rewritten);
    if spec.alias != Some("_") {
      var local := ImportLocalName(spec);
      var used := PackageIsReferenced(file, local, rewritten);
      if local != "" && used {
        return None;
      }
    }
    e := RemovalEdit(file, r, spec);
  }

  predicate Guarded(file: GoFile, spec: ImportSpec, rewritten: set<nat>) {
    spec.alias != Some("_") && ImportLocalName(spec) != "" && Referenced(file, ImportLocalName(spec), rewritten)
  }

  function Removal(file: GoFile, r: AbsorbRule, spec: ImportSpec, rewritten: set<nat>): Option<Edit> {
    if Guarded(file, spec, rewritten) then None else RemovalEdit(file, r, spec)
  }

  lemma RemovalHeldIff(file: GoFile, r: AbsorbRule, spec: ImportSpec, rewritten: set<nat>)
    ensures Identifiers(file) && spec.pos <= spec.end <= |file.src| ==>
      (Removal(file, r, spec, rewritten).None? <==>
        exists k: nat :: k < |file.selectors| && k !in rewritten && OnImport(spec, file.selectors[k].x))
  {
    if Identifiers(file) && spec.pos <= spec.end <= |file.src| {
      forall k: nat | k < |file.selectors|
        ensures OnImport(spec, file.selectors[k].x) <==> file.selectors[k].x == ImportLocalName(spec)
        ensures spec.alias == Some("_") ==> !OnImport(spec, file.selectors[k].x)
        ensures file.selectors[k].x != ""
      {
        assert file.selectors[k] in file.selectors;
      }
    }
  }

  // An unaliased import whose path ends in a name, or in a name and a version,
  // stays as long as a selector on that name is not rewritten.
  lemma NamedImportStays(file: GoFile, r: AbsorbRule, spec: ImportSpec, rewritten: set<nat>, front: F.ModPath,
                         name: string, digits: string, k: nat)
    requires spec.alias.None? && name != ""
    requires k < |file.selectors| && k !in rewritten && file.selectors[k].x == name
    requires digits != "" && forall c :: c in digits ==> c in "0123456789"
    requires spec.path == front + [name, "v" + digits] || (spec.path == front + [name] && name[0] != 'v')
    ensures Removal(file, r, spec, rewritten) == None
  {
    VersionSuffixes(digits);
    assert spec.path == front + [name, "v" + digits] ==>
      spec.path[|spec.path| - 1] == "v" + digits && spec.path[|spec.path| - 2] == name;
  }

  // A re-qualified selector gets the name before the version, or the last
  // element of the path, unless it reads so already.
  lemma RequalifiedText(r: AbsorbRule, s: Selector, front: F.ModPath, name: string, digits: string)
    requires name != "" && digits != "" && forall c :: c in digits ==> c in "0123456789"
    requires r.into == front + [name, "v" + digits] || (r.into == front + [name] && name[0] != 'v')
    ensures FixSelector(r, s) == if s.x == name then None else Some(Edit(s.xPos, s.xEnd, name, Tag(r.id, s.line)))
  {
    VersionSuffixes(digits);
    assert r.into == front + [name, "v" + digits] ==>
      r.into[|r.into| - 1] == "v" + digits && r.into[|r.into| - 2] == name;
  }

  predicate SameLine(src: Text, from: nat, to: nat) {
    to <= |src| && forall i :: from <= i < to ==> src[i] != '\n'
  }

  // What goes besides the spec: the rest of its line, on both sides, unless
  // a lower-case letter stands in front. Another spec that follows on the
  // same line goes too.
  lemma RemovalTakesIff(file: GoFile, r: AbsorbRule, spec: ImportSpec, p: nat)
    requires spec.pos <= spec.end <= |file.src| && p < |file.src| && !(spec.pos <= p < spec.end)
    ensures RemovalEdit(file, r, spec).Some?
    ensures var e := RemovalEdit(file, r, spec).value;
      && e.start <= spec.pos && spec.end <= e.end && e.InBounds(|file.src|) && e.text == ""
      && (e.start <= p < e.end <==>
            && (forall i :: 0 <= i < spec.pos && SameLine(file.src, i, spec.pos) ==> !('a' <= file.src[i] <= 'z'))
            && if p < spec.pos then SameLine(file.src, p, spec.pos) else SameLine(file.src, spec.end, p))
  {
    var from := LineStart(file.src, spec.pos);
    var front := file.src[from..spec.pos];
    assert forall i :: from <= i < spec.pos ==> front[i - from] == file.src[i] && SameLine(file.src, i, spec.pos);
    forall i | 0 <= i < spec.pos && SameLine(file.src, i, spec.pos)
      ensures from <= i
    {
      assert from > 0 ==> file.src[from - 1] == '\n';
    }
  }

  // ---- Safety ------------------------------------------------------------

  // A use of an imported package: a qualifier, or an identifier of the package
  // that stands by itself.
  datatype Use = Qualified(pkg: string) | Bare(name: string, from: F.ModPath)

  // What the import declaration makes available to the file.
  predicate Binds(spec: ImportSpec, u: Use) {
    match u
    case Qualified(x) => spec.alias != Some("_") && spec.alias != Some(".") && x == ImportLocalName(spec)
    case Bare(_, from) => spec.alias == Some(".") && spec.path == from
  }

  // Blank and dot imports bind no qualifier; an alias binds itself, and a path
  // the name it is called by.
  lemma BindsExact(spec: ImportSpec, x: string)
    requires x !in {"", ".", "_"}
    ensures Binds(spec, Qualified(x)) <==> if spec.alias.Some? then x == spec.alias.value else CalledAs(spec.path, x)
    ensures forall from :: Binds(spec, Bare(x, from)) <==> spec.alias == Some(".") && from == spec.path
  {
  }

  // The left side of selector k once the rule has run.
  function QualifierAfter(file: GoFile, r: AbsorbRule, k: nat): string
    requires k < |file.selectors|
  {
    var s := file.selectors[k];
    if k in RefsOf(file, r) && FixSelector(r, s).Some? then FixSelector(r, s).value.text else s.x
  }

  // Everything collected for a file before the absorbed imports are added.
  // `renamed` is what the path of an import is rewritten to, if it is; `given`
  // are the names bound by imports that other fixes inject.
  datatype Pass = Pass(edits: seq<Edit>, rules: map<string, AbsorbRule>, renamed: F.ModPath -> F.ModPath,
                       given: set<string>)

  // Import i stays, perhaps under another path, and makes u available.
  predicate KeptBinds(imports: seq<ImportSpec>, p: Pass, i: int, u: Use) {
    0 <= i < |imports| && !DeletedBy(p.edits, imports[i].pos)
    && Binds(if u.Bare? then imports[i] else imports[i].(path := p.renamed(imports[i].path)), u)
  }

  // The import of an absorbed package is added for the path.
  predicate Added(imports: seq<ImportSpec>, p: Pass, path: F.ModPath) {
    Wanted(imports, p.rules, p.edits, path) && !AllDeleted(imports, p.edits)
  }

  ghost predicate AddedBinds(imports: seq<ImportSpec>, p: Pass, name: string) {
    exists path :: Added(imports, p, path) && GoPkgName(path) == name
  }

  // Some import of the rewritten file makes u available.
  ghost predicate Provided(imports: seq<ImportSpec>, p: Pass, u: Use) {
    || (exists i :: KeptBinds(imports, p, i, u))
    || (u.Qualified? && (u.pkg in p.given || AddedBinds(imports, p, u.pkg)))
  }

  // What the rewritten file uses where it used the extension before: by a
  // selector that is re-qualified or was on the deleted import's name, or by a
  // bare identifier of it.
  predicate UsedInstead(file: GoFile, r: AbsorbRule, spec: ImportSpec, u: Use) {
    match u
    case Qualified(x) => exists k: nat ::
      k < |file.selectors| && InsteadAt(file, r, spec, k) && QualifierAfter(file, r, k) == x
    case Bare(name, from) => (name, from) in file.bare && Binds(spec, u)
  }

  predicate InsteadAt(file: GoFile, r: AbsorbRule, spec: ImportSpec, k: nat)
    requires k < |file.selectors|
  {
    k in RefsOf(file, r) || Binds(spec, Qualified(file.selectors[k].x))
  }

  // Such a use that no import of the rewritten file provides.
  ghost predicate LeavesUse(file: GoFile, r: AbsorbRule, spec: ImportSpec, p: Pass) {
    exists u :: UsedInstead(file, r, spec, u) && !Provided(file.imports, p, u)
  }

  // The rule deletes the import in this pass.
  predicate Deleting(file: GoFile, r: AbsorbRule, spec: ImportSpec, p: Pass) {
    && Removal(file, r, spec, RefsOf(file, r)).Some? && Removal(file, r, spec, RefsOf(file, r)).value in p.edits
    && spec in file.imports && spec.pos < spec.end
    && r.id in p.rules && p.rules[r.id] == r
  }

  // The left sides of selectors are identifiers.
  predicate Identifiers(file: GoFile) {
    forall s :: s in file.selectors ==> s.x !in {"", ".", "_"}
  }

  // The absorbed package is called what the extension was called.
  predicate KeepsName(r: AbsorbRule, spec: ImportSpec) {
    GoPkgName(r.into) == ImportLocalName(spec)
  }

  // When the guard lets the import go, every selector on its name is one the
  // rule re-qualifies.
  lemma AllRequalified(file: GoFile, r: AbsorbRule, spec: ImportSpec, k: nat)
    requires Removal(file, r, spec, RefsOf(file, r)).Some? && spec.alias != Some("_")
    requires Identifiers(file) && k < |file.selectors| && file.selectors[k].x == ImportLocalName(spec)
    ensures k in RefsOf(file, r)
  {
    assert file.selectors[k] in file.selectors;
  }

  // A deleted import leaves an unbound use behind exactly when some selector
  // is re-qualified and nothing binds the absorbed package's name, or it was a
  // dot import and a bare identifier of it is in use that no other import
  // provides: the guard looks at neither.
  lemma RemovalSafeIff(file: GoFile, r: AbsorbRule, spec: ImportSpec, p: Pass)
    requires Deleting(file, r, spec, p)
    requires Identifiers(file) && (r.into != [] ==> GoPkgName(r.into) != "")
    ensures LeavesUse(file, r, spec, p) <==>
      || (RefsOf(file, r) != {} && !Provided(file.imports, p, Qualified(GoPkgName(r.into))))
      || BareLost(file, spec, p)
  {
    forall k: nat | k < |file.selectors| && InsteadAt(file, r, spec, k)
      ensures k in RefsOf(file, r) && QualifierAfter(file, r, k) == GoPkgName(r.into)
    {
      if k !in RefsOf(file, r) {
        AllRequalified(file, r, spec, k);
      }
    }
    if RefsOf(file, r) != {} {
      var k :| k in RefsOf(file, r);
      assert UsedInstead(file, r, spec, Qualified(QualifierAfter(file, r, k)));
    }
    if BareLost(file, spec, p) {
      var b :| b in file.bare && Binds(spec, Bare(b.0, b.1)) && !Provided(file.imports, p, Bare(b.0, b.1));
      assert UsedInstead(file, r, spec, Bare(b.0, b.1));
    }
    if u :| UsedInstead(file, r, spec, u) && !Provided(file.imports, p, u) && u.Bare? {
      assert (u.name, u.from) in file.bare;
    }
  }

  ghost predicate BareLost(file: GoFile, spec: ImportSpec, p: Pass) {
    exists b :: b in file.bare && Binds(spec, Bare(b.0, b.1)) && !Provided(file.imports, p, Bare(b.0, b.1))
  }

  // When the absorbed package's name is bound: always when its path is not
  // imported yet and there is an import to insert in front of. When the path
  // is imported, under whatever alias, nothing is added for it, and with every
  // import deleted nothing is added at all.
  lemma NewNameIff(file: GoFile, r: AbsorbRule, spec: ImportSpec, p: Pass)
    requires Deleting(file, r, spec, p) && r.into != []
    ensures var imports, name := file.imports, GoPkgName(r.into);
      && (Added(imports, p, r.into) <==> !Imported(imports, r.into) && !AllDeleted(imports, p.edits))
      && (Added(imports, p, r.into) ==> Provided(imports, p, Qualified(name)))
      && (AllDeleted(imports, p.edits) ==> (Provided(imports, p, Qualified(name)) <==> name in p.given))
      && (!Added(imports, p, r.into) ==>
            (Provided(imports, p, Qualified(name)) <==>
              || (exists i :: KeptBinds(imports, p, i, Qualified(name))) || name in p.given
              || (exists path :: path != r.into && Added(imports, p, path) && GoPkgName(path) == name)))
  {
    var e := Removal(file, r, spec, RefsOf(file, r)).value;
    var i :| 0 <= i < |p.edits| && p.edits[i] == e;
    assert Wants(file.imports, p.rules, p.edits[i], r.into) <==> !Imported(file.imports, r.into);
  }

  // Dot imports are deleted: no selector is on a dot, so the guard never holds
  // one back, whatever the file uses of it.
  lemma DotImportGoes(file: GoFile, r: AbsorbRule, spec: ImportSpec)
    requires spec.alias == Some(".") && spec.pos <= spec.end <= |file.src|
    requires Identifiers(file)
    ensures Removal(file, r, spec, RefsOf(file, r)).Some?
  {
    forall k: nat | k < |file.selectors|
      ensures file.selectors[k].x != "."
    {
      assert file.selectors[k] in file.selectors;
    }
  }

  // And where the package is dot-imported once, the deletion leaves a use
  // unbound exactly when the file has a bare identifier of it, or is left with
  // an unbound re-qualified selector.
  lemma DotImportLosesIff(file: GoFile, r: AbsorbRule, spec: ImportSpec, p: Pass)
    requires Deleting(file, r, spec, p) && spec.alias == Some(".")
    requires Identifiers(file) && (r.into != [] ==> GoPkgName(r.into) != "")
    requires forall other :: other in file.imports && other.alias == Some(".") && other.path == spec.path ==>
      other == spec
    ensures LeavesUse(file, r, spec, p) <==>
      || (exists b :: b in file.bare && b.1 == spec.path)
      || (RefsOf(file, r) != {} && !Provided(file.imports, p, Qualified(GoPkgName(r.into))))
  {
    RemovalCovers(file, r, spec, p);
    RemovalSafeIff(file, r, spec, p);
    forall b | b in file.bare
      ensures Binds(spec, Bare(b.0, b.1)) <==> b.1 == spec.path
      ensures b.1 == spec.path ==> !Provided(file.imports, p, Bare(b.0, b.1))
    {
    }
  }

  lemma RemovalCovers(file: GoFile, r: AbsorbRule, spec: ImportSpec, p: Pass)
    requires Deleting(file, r, spec, p)
    ensures DeletedBy(p.edits, spec.pos)
  {
    var e := Removal(file, r, spec, RefsOf(file, r)).value;
    var i :| 0 <= i < |p.edits| && p.edits[i] == e;
    assert Deletes(p.edits[i], spec.pos);
  }

  // ---- An aliased import of the absorbed package -------------------------

  const EXTENSION: F.ModPath := ["e.com", "mldsa"]
  const CORE: F.ModPath := ["e.com", "jwa"]

  function AliasRule(): AbsorbRule { AbsorbRule("absorb", EXTENSION, CORE, {"Sign"}) }

  function AliasFile(): GoFile {
    GoFile("\"e.com/mldsa\"\nx \"e.com/jwa\"\nmldsa.Sign",
           [ImportSpec(EXTENSION, None, 0, 0, 13, 1), ImportSpec(CORE, Some("x"), 14, 16, 27, 2)],
           [Selector("mldsa", 28, 33, "Sign", 3)], [])
  }

  function AliasPass(): Pass {
    Pass([Edit(28, 33, "jwa", Tag("absorb", 3)), Edit(0, 14, "", Tag("absorb", 1))],
         map["absorb" := AliasRule()], q => q, {})
  }

  lemma AliasDeletes()
    ensures Deleting(AliasFile(), AliasRule(), AliasFile().imports[0], AliasPass())
    ensures 0 in RefsOf(AliasFile(), AliasRule())
  {
    var file, r, p := AliasFile(), AliasRule(), AliasPass();
    assert LocalNameFor(file.imports, EXTENSION) == Some("mldsa");
    assert |file.src| == 38 && file.src[13] == '\n';
    assert LineStart(file.src, 0) == 0 && LineEnd(file.src, 13) == 14;
    assert RemovalEdit(file, r, file.imports[0]) == Some(p.edits[1]);
  }

  // The import of mldsa goes, mldsa.Sign becomes jwa.Sign, and jwa is bound by
  // nothing: the file imports that package as x.
  lemma AliasLeavesUse()
    ensures var file, r, p := AliasFile(), AliasRule(), AliasPass();
      && Deleting(file, r, file.imports[0], p)
      && 0 in RefsOf(file, r) && FixSelector(r, file.selectors[0]) == Some(p.edits[0])
      && LeavesUse(file, r, file.imports[0], p)
  {
    var file, r, p := AliasFile(), AliasRule(), AliasPass();
    AliasDeletes();
    assert file.imports[1].path == CORE && Imported(file.imports, CORE);
    RemovalCovers(file, r, file.imports[0], p);
    forall i
      ensures !KeptBinds(file.imports, p, i, Qualified("jwa"))
    {
    }
    forall path
      ensures !Added(file.imports, p, path)
    {
    }
    RemovalSafeIff(file, r, file.imports[0], p);
  }

  // Down to bytes: in the output of the engine, every selector that used the
  // deleted import's name now reads the absorbed package's name, unless they
  // are the same name; given that no other survivor covers that selector's
  // start and no insertion is tied with it. Ties and overlaps elsewhere in
  // the file do not matter.
  lemma UsesReadNewName(file: GoFile, r: AbsorbRule, spec: ImportSpec, edits: seq<Edit>, sorted: seq<Edit>,
                        order: seq<Edit>, k: nat)
    requires Removal(file, r, spec, RefsOf(file, r)).Some? && spec.alias != Some("_")
    requires Identifiers(file) && (r.into != [] ==> GoPkgName(r.into) != "")
    requires k < |file.selectors| && file.selectors[k].x == ImportLocalName(spec)
    requires forall e :: e in edits ==> e.InBounds(|file.src|)
    requires SortOutcome(edits, sorted) && SpliceOrder(Kept(sorted), order)
    requires FixSelector(r, file.selectors[k]).Some? ==>
      Clear(edits, Kept(sorted), FixSelector(r, file.selectors[k]).value)
    ensures KeepsName(r, spec) || Lands(file.src, order, RequalifyEdit(r, file.selectors[k]))
  {
    AllRequalified(file, r, spec, k);
    if !KeepsName(r, spec) {
      var e := FixSelector(r, file.selectors[k]).value;
      SameMembers(edits, sorted);
      SurvivesIff(edits, sorted, e, |file.src|);
      KeptPlaced(sorted, |file.src|);
      UntiedLands(file.src, Kept(sorted), order, e);
    }
  }

  // The edit was collected, no other survivor covers its start, and no
  // surviving insertion is tied with it.
  ghost predicate Clear(edits: seq<Edit>, kept: seq<Edit>, e: Edit) {
    && e in edits && e.start < e.end && !TiedWith(kept, e)
    && forall x :: x in kept && x != e ==> !StartsInside(e, x)
  }

  // The selector's left side replaced by the absorbed package's name.
  function RequalifyEdit(r: AbsorbRule, s: Selector): Edit {
    Edit(s.xPos, s.xEnd, GoPkgName(r.into), Tag(r.id, s.line))
  }

  // ---- Adding the core import --------------------------------------------

  predicate Deletes(e: Edit, pos: nat) {
    e.text == "" && e.start <= pos < e.end
  }

  predicate DeletedBy(edits: seq<Edit>, pos: nat) {
    exists i :: 0 <= i < |edits| && Deletes(edits[i], pos)
  }

  // Some edit takes the byte away and puts nothing in its place.
  lemma DeletedExact(edits: seq<Edit>)
    ensures forall pos: nat ::
      DeletedBy(edits, pos) <==> exists e :: e in edits && e.text == "" && e.start <= pos < e.end
  {
    forall pos: nat
      ensures DeletedBy(edits, pos) <==> exists e :: e in edits && e.text == "" && e.start <= pos < e.end
    {
      if i :| 0 <= i < |edits| && Deletes(edits[i], pos) {
        assert edits[i] in edits;
      }
    }
  }

  predicate FirstKept(imports: seq<ImportSpec>, edits: seq<Edit>, i: int) {
    0 <= i < |imports| && !DeletedBy(edits, imports[i].pos) && forall j :: 0 <= j < i ==>
      DeletedBy(edits, imports[j].pos)
  }

  // The first import spec that no pending edit deletes; none when all go.
  method InsertAnchor(imports: seq<ImportSpec>, edits: seq<Edit>) returns (at: Option<nat>)
    ensures at.None? <==> forall i :: 0 <= i < |imports| ==> DeletedBy(edits, imports[i].pos)
    ensures at.Some? ==> exists i :: FirstKept(imports, edits, i) && imports[i].pos == at.value
    ensures forall i :: 0 <= i < |imports| ==>
      (DeletedBy(edits, imports[i].pos) <==>
        exists e :: e in edits && e.text == "" && e.start <= imports[i].pos < e.end)
  {
    DeletedExact(edits);
    for i := 0 to |imports|
      invariant forall j :: 0 <= j < i ==> DeletedBy(edits, imports[j].pos)
    {
      var pos := imports[i].pos;
      var deleted := false;
      for k := 0 to |edits|
        invariant deleted <==> exists m :: 0 <= m < k && Deletes(edits[m], pos)
      {
        if Deletes(edits[k], pos) {
          deleted := true;
        }
      }
      if !deleted {
        assert FirstKept(imports, edits, i);
        return Some(pos);
      }
    }
    return None;
  }

  predicate Imported(imports: seq<ImportSpec>, path: F.ModPath) {
    exists i :: 0 <= i < |imports| && imports[i].path == path
  }

  // Edit e comes from a rule that absorbs into a path not yet imported.
  predicate Wants(imports: seq<ImportSpec>, rules: map<string, AbsorbRule>, e: Edit, path: F.ModPath) {
    e.tag.ruleID in rules && rules[e.tag.ruleID].into == path != [] && !Imported(imports, path)
  }

  predicate Wanted(imports: seq<ImportSpec>, rules: map<string, AbsorbRule>, edits: seq<Edit>, path: F.ModPath) {
    exists i :: 0 <= i < |edits| && Wants(imports, rules, edits[i], path)
  }

  // No import is left to insert in front of.
  predicate AllDeleted(imports: seq<ImportSpec>, edits: seq<Edit>) {
    forall i :: 0 <= i < |imports| ==> DeletedBy(edits, imports[i].pos)
  }

  ghost predicate Inserts(imports: seq<ImportSpec>, edits: seq<Edit>, e: Edit, path: Text) {
    exists i :: FirstKept(imports, edits, i) && e == AnchorEdit(imports[i].pos, path, e.tag.ruleID)
  }

  // A line with the quoted path and an indented next one, for no finding of
  // its own but in the name of a rule that absorbs into the path.
  predicate Imports(rules: map<string, AbsorbRule>, e: Edit, path: F.ModPath, text: Text) {
    && e.start == e.end && e.text == "\"" + text + "\"\n\t" && e.tag.line == 0
    && e.tag.ruleID in rules && rules[e.tag.ruleID].into == path
  }

  // Adds the import of every absorbed package some edit now refers to, once
  // each and only where it is missing. `added` are the paths, in order; all
  // of them go in front of the same import, the first one no edit deletes.
  method EnsureAbsorbedImports(imports: seq<ImportSpec>, edits: seq<Edit>, rules: map<string, AbsorbRule>,
                               render: F.ModPath -> Text)
    returns (out: seq<Edit>, added: seq<F.ModPath>)
    ensures Distinct(added)
    ensures forall p :: p in added <==> Wanted(imports, rules, edits, p) && !AllDeleted(imports, edits)
    ensures Emitted(imports, edits, out, added, render)
    ensures forall k :: 0 <= k < |added| ==> Imports(rules, out[|edits| + k], added[k], render(added[k]))
  {
    out, added := edits, [];
    var seen: set<F.ModPath> := {};
    for i := 0 to |edits|
      invariant edits <= out && |out| == |edits| + |added|
      invariant Distinct(added) && forall p :: p in added ==> p in seen
      invariant forall p :: p in seen ==> Wanted(imports, rules, edits[..i], p) || Imported(imports, p)
      invariant forall p :: Wanted(imports, rules, edits[..i], p) ==> p in seen
      invariant forall p :: p in added <==> Wanted(imports, rules, edits[..i], p) && !AllDeleted(imports, edits)
      invariant forall k :: 0 <= k < |added| ==> Inserts(imports, edits, out[|edits| + k], render(added[k]))
      invariant forall k :: 0 <= k < |added| ==> Imports(rules, out[|edits| + k], added[k], render(added[k]))
    {
      var e := edits[i];
      assert edits[..i + 1] == edits[..i] + [e];
      WantedAppend(imports, rules, edits[..i], e);
      if e.tag.ruleID !in rules || rules[e.tag.ruleID].into == [] {
        continue;
      }
      var into := rules[e.tag.ruleID].into;
      if into in seen {
        continue;
      }
      seen := seen + {into};
      if Imported(imports, into) {
        continue;
      }
      SameDeletions(imports, edits, out, added, render);
      var at := InsertAnchor(imports, out);
      if at.None? {
        continue;
      }
      out := out + [AnchorEdit(at.value, render(into), e.tag.ruleID)];
      added := added + [into];
    }
    assert edits[..|edits|] == edits;
  }

  // The removal alone has the import added: it is used exactly when some
  // selector is re-qualified, or one was on that name already.
  lemma AddedUsedIff(file: GoFile, r: AbsorbRule, spec: ImportSpec, p: Pass)
    requires Deleting(file, r, spec, p) && r.into != [] && GoPkgName(r.into) != ""
    requires !Imported(file.imports, r.into) && !AllDeleted(file.imports, p.edits)
    ensures Added(file.imports, p, r.into)
    ensures (exists k: nat :: k < |file.selectors| && QualifierAfter(file, r, k) == GoPkgName(r.into)) <==>
      RefsOf(file, r) != {} || exists k: nat :: k < |file.selectors| && file.selectors[k].x == GoPkgName(r.into)
  {
    NewNameIff(file, r, spec, p);
    forall k: nat | k < |file.selectors|
      ensures QualifierAfter(file, r, k) == if k in RefsOf(file, r) then GoPkgName(r.into) else file.selectors[k].x
    {
    }
    if RefsOf(file, r) != {} {
      var k :| k in RefsOf(file, r);
      assert QualifierAfter(file, r, k) == GoPkgName(r.into);
    }
    if k: nat :| k < |file.selectors| && file.selectors[k].x == GoPkgName(r.into) {
      assert QualifierAfter(file, r, k) == GoPkgName(r.into);
    }
  }

  // The paths imported afterwards by the imports that stay.
  function KeptPaths(imports: seq<ImportSpec>, p: Pass): seq<F.ModPath> {
    if imports == [] then []
    else (if DeletedBy(p.edits, imports[0].pos) then [] else [p.renamed(imports[0].path)]) + KeptPaths(imports[1..], p)
  }

  // Import i stays, and imports this path afterwards.
  predicate KeptAs(imports: seq<ImportSpec>, p: Pass, i: int, path: F.ModPath) {
    0 <= i < |imports| && !DeletedBy(p.edits, imports[i].pos) && p.renamed(imports[i].path) == path
  }

  lemma {:induction false} KeptPathsExact(imports: seq<ImportSpec>, p: Pass, path: F.ModPath)
    ensures path in KeptPaths(imports, p) <==> exists i :: KeptAs(imports, p, i, path)
  {
    if imports != [] {
      var rest := imports[1..];
      KeptPathsExact(rest, p, path);
      assert KeptAs(imports, p, 0, path) <==> !DeletedBy(p.edits, imports[0].pos) && p.renamed(imports[0].path) == path;
      if i :| KeptAs(rest, p, i, path) {
        assert KeptAs(imports, p, i + 1, path);
      }
      if i :| KeptAs(imports, p, i, path) && i > 0 {
        assert KeptAs(rest, p, i - 1, path);
      }
    }
  }

  // The output imports an added path twice exactly when an import that stays
  // is rewritten to that very path: the check looks at the paths before.
  lemma ImportedTwiceIff(imports: seq<ImportSpec>, p: Pass, added: seq<F.ModPath>, path: F.ModPath)
    requires Distinct(added) && path in added && Added(imports, p, path)
    ensures multiset(KeptPaths(imports, p) + added)[path] > 1 <==>
      exists i :: KeptAs(imports, p, i, path) && imports[i].path != path
  {
    KeptPathsExact(imports, p, path);
    DistinctOnce(added, path);
    assert multiset(KeptPaths(imports, p) + added)[path] == multiset(KeptPaths(imports, p))[path] + 1;
    assert path in KeptPaths(imports, p) <==> path in multiset(KeptPaths(imports, p));
  }

  lemma {:induction false} DistinctOnce(s: seq<F.ModPath>, x: F.ModPath)
    requires Distinct(s)
    ensures multiset(s)[x] == if x in s then 1 else 0
  {
    if s != [] {
      var rest := s[1..];
      assert s == [s[0]] + rest;
      forall i, j | 0 <= i < j < |rest|
        ensures rest[i] != rest[j]
      {
        assert s[i + 1] != s[j + 1];
      }
      DistinctOnce(rest, x);
    }
  }

  lemma WantedAppend(imports: seq<ImportSpec>, rules: map<string, AbsorbRule>, edits: seq<Edit>, e: Edit)
    ensures forall p :: Wanted(imports, rules, edits + [e], p) <==>
      Wanted(imports, rules, edits, p) || Wants(imports, rules, e, p)
  {
    forall p
      ensures Wanted(imports, rules, edits + [e], p) <==>
        Wanted(imports, rules, edits, p) || Wants(imports, rules, e, p)
    {
      if Wanted(imports, rules, edits, p) {
        var i :| 0 <= i < |edits| && Wants(imports, rules, edits[i], p);
        assert (edits + [e])[i] == edits[i];
      }
      if Wants(imports, rules, e, p) {
        assert (edits + [e])[|edits|] == e;
      }
    }
  }

  // Insertions delete nothing, so they do not move the anchor.
  lemma SameDeletions(imports: seq<ImportSpec>, edits: seq<Edit>, out: seq<Edit>, added: seq<F.ModPath>,
                      render: F.ModPath -> Text)
    requires edits <= out && |out| == |edits| + |added|
    requires forall k :: 0 <= k < |added| ==> Inserts(imports, edits, out[|edits| + k], render(added[k]))
    ensures forall pos :: DeletedBy(out, pos) <==> DeletedBy(edits, pos)
  {
    forall i | |edits| <= i < |out|
      ensures out[i].IsInsertion()
    {
      assert Inserts(imports, edits, out[|edits| + (i - |edits|)], render(added[i - |edits|]));
    }
    forall pos
      ensures DeletedBy(out, pos) <==> DeletedBy(edits, pos)
    {
      if DeletedBy(out, pos) {
        var i :| 0 <= i < |out| && Deletes(out[i], pos);
        assert Deletes(edits[i], pos);
      }
      if DeletedBy(edits, pos) {
        var i :| 0 <= i < |edits| && Deletes(edits[i], pos);
        assert Deletes(out[i], pos);
      }
    }
  }

  function AnchorEdit(at: nat, path: Text, ruleID: string): Edit {
    Edit(at, at, "\"" + path + "\"\n\t", Tag(ruleID, 0))
  }

  // fixImportChange replaces the path literal of a spec.
  function PathEdit(spec: ImportSpec, newPath: Text, tag: Tag): Edit {
    Edit(spec.pathPos, spec.end, "\"" + newPath + "\"", tag)
  }

  // What the pass hands on: the collected edits, then the insertions.
  ghost predicate Emitted(imports: seq<ImportSpec>, edits: seq<Edit>, out: seq<Edit>, added: seq<F.ModPath>,
                          render: F.ModPath -> Text) {
    && edits <= out && |out| == |edits| + |added|
    && forall k :: 0 <= k < |added| ==> Inserts(imports, edits, out[|edits| + k], render(added[k]))
  }

  // Where the insertions stand: at import i, whose path edit is the only
  // non-empty edit that may start there, with nothing across that point.
  ghost predicate AnchorIsFree(imports: seq<ImportSpec>, edits: seq<Edit>, i: int, path: Edit) {
    && FirstKept(imports, edits, i)
    && imports[i].pos <= imports[i].pathPos < imports[i].end
    && (imports[i].alias.None? <==> imports[i].pos == imports[i].pathPos)
    && forall x :: x in edits ==>
         (x.IsInsertion() || x == path || x.start != imports[i].pos) && !(x.start < imports[i].pos < x.end)
  }

  // What starts at an insertion among everything handed on.
  lemma AnchorIs(imports: seq<ImportSpec>, edits: seq<Edit>, out: seq<Edit>, added: seq<F.ModPath>,
                 render: F.ModPath -> Text, i: nat, path: Edit, k: nat)
    requires Emitted(imports, edits, out, added, render) && AnchorIsFree(imports, edits, i, path) && k < |added|
    ensures var a := out[|edits| + k];
      && a == AnchorEdit(imports[i].pos, render(added[k]), a.tag.ruleID) && a in out
      && (forall x :: x in out ==> !Encloses(x, a))
      && (StartsNonEmpty(out, a.start) <==> path in edits && path.start == imports[i].pos < path.end)
  {
    var a := out[|edits| + k];
    assert Inserts(imports, edits, a, render(added[k]));
    FirstKeptUnique(imports, edits, i, a, render(added[k]));
    forall x | x in out
      ensures !Encloses(x, a) && (x.start == a.start < x.end ==> x == path && x in edits)
    {
      FromEmitted(imports, edits, out, added, render, x);
    }
    if path in edits && path.start == imports[i].pos < path.end {
      var m :| 0 <= m < |edits| && edits[m] == path;
      assert out[m] == path;
    }
  }

  lemma FromEmitted(imports: seq<ImportSpec>, edits: seq<Edit>, out: seq<Edit>, added: seq<F.ModPath>,
                    render: F.ModPath -> Text, x: Edit)
    requires Emitted(imports, edits, out, added, render) && x in out
    ensures x in edits || (x.IsInsertion() && exists i :: FirstKept(imports, edits, i) && x.start == imports[i].pos)
  {
    var m :| 0 <= m < |out| && out[m] == x;
    if m >= |edits| {
      assert Inserts(imports, edits, out[|edits| + (m - |edits|)], render(added[m - |edits|]));
    }
  }

  lemma FirstKeptUnique(imports: seq<ImportSpec>, edits: seq<Edit>, i: nat, a: Edit, path: Text)
    requires FirstKept(imports, edits, i) && Inserts(imports, edits, a, path)
    ensures a == AnchorEdit(imports[i].pos, path, a.tag.ruleID)
  {
    var j :| FirstKept(imports, edits, j) && a == AnchorEdit(imports[j].pos, path, a.tag.ruleID);
    assert i == j;
  }

  // When the import it stands in front of has no alias and its path is being
  // rewritten, the two edits start at one byte, and some outcome of the sort
  // splices the insertion first, so that the path rewrite eats into it.
  lemma AnchorTieCorrupts(imports: seq<ImportSpec>, edits: seq<Edit>, out: seq<Edit>, added: seq<F.ModPath>,
                          render: F.ModPath -> Text,
                          i: nat, newPath: Text, tag: Tag, sorted: seq<Edit>, n: nat)
    requires Emitted(imports, edits, out, added, render) && added != []
    requires i < |imports| && AnchorIsFree(imports, edits, i, PathEdit(imports[i], newPath, tag))
    requires PathEdit(imports[i], newPath, tag) in edits && imports[i].alias.None?
    requires SortOutcome(out, sorted) && AllProper(out) && forall x :: x in out ==> x.InBounds(n)
    ensures !EveryOutcomeFaithful(Kept(sorted), n)
  {
    AnchorIs(imports, edits, out, added, render, i, PathEdit(imports[i], newPath, tag), 0);
    InsertionTieIff(out, sorted, out[|edits|], n);
  }

  // Otherwise every inserted import lands in front of it, whatever the sorts
  // do and whatever is tied elsewhere.
  lemma AnchorLands(imports: seq<ImportSpec>, edits: seq<Edit>, out: seq<Edit>, added: seq<F.ModPath>,
                    render: F.ModPath -> Text,
                    i: nat, newPath: Text, tag: Tag, sorted: seq<Edit>, src: Text, order: seq<Edit>, k: nat)
    requires Emitted(imports, edits, out, added, render) && k < |added|
    requires i < |imports| && AnchorIsFree(imports, edits, i, PathEdit(imports[i], newPath, tag))
    requires PathEdit(imports[i], newPath, tag) !in edits || imports[i].alias.Some?
    requires SortOutcome(out, sorted) && forall x :: x in out ==> x.InBounds(|src|)
    requires SpliceOrder(Kept(sorted), order)
    ensures Lands(src, order, out[|edits| + k])
  {
    AnchorIs(imports, edits, out, added, render, i, PathEdit(imports[i], newPath, tag), k);
    InsertionTieIff(out, sorted, out[|edits| + k], |src|);
  }

  // So the rewritten path of an unaliased import is the one thing the
  // insertions must not stand in front of.
  lemma AnchorTieIff(imports: seq<ImportSpec>, edits: seq<Edit>, out: seq<Edit>, added: seq<F.ModPath>,
                     render: F.ModPath -> Text,
                     i: nat, newPath: Text, tag: Tag, sorted: seq<Edit>, n: nat)
    requires Emitted(imports, edits, out, added, render) && added != []
    requires i < |imports| && AnchorIsFree(imports, edits, i, PathEdit(imports[i], newPath, tag))
    requires SortOutcome(out, sorted) && AllProper(out) && forall x :: x in out ==> x.InBounds(n)
    ensures var tied := PathEdit(imports[i], newPath, tag) in edits && imports[i].alias.None?;
      && (TiedWith(Kept(sorted), out[|edits|]) <==> tied)
      && (tied ==> !EveryOutcomeFaithful(Kept(sorted), n))
      && (!tied ==> InsertionsLand(Kept(sorted), out[|edits|..], n))
  {
    AnchorIs(imports, edits, out, added, render, i, PathEdit(imports[i], newPath, tag), 0);
    InsertionTieIff(out, sorted, out[|edits|], n);
    if !(PathEdit(imports[i], newPath, tag) in edits && imports[i].alias.None?) {
      AllAnchorsLand(imports, edits, out, added, render, i, newPath, tag, sorted, n);
    }
  }

  lemma AllAnchorsLand(imports: seq<ImportSpec>, edits: seq<Edit>, out: seq<Edit>, added: seq<F.ModPath>,
                       render: F.ModPath -> Text,
                       i: nat, newPath: Text, tag: Tag, sorted: seq<Edit>, n: nat)
    requires Emitted(imports, edits, out, added, render)
    requires i < |imports| && AnchorIsFree(imports, edits, i, PathEdit(imports[i], newPath, tag))
    requires PathEdit(imports[i], newPath, tag) !in edits || imports[i].alias.Some?
    requires SortOutcome(out, sorted) && forall x :: x in out ==> x.InBounds(n)
    ensures InsertionsLand(Kept(sorted), out[|edits|..], n)
  {
    forall src: Text, order, k | |src| == n && SpliceOrder(Kept(sorted), order) && 0 <= k < |added|
      ensures Lands(src, order, out[|edits|..][k])
    {
      AnchorLands(imports, edits, out, added, render, i, newPath, tag, sorted, src, order, k);
    }
  }

  ghost predicate InsertionsLand(kept: seq<Edit>, inserted: seq<Edit>, n: nat) {
    forall src: Text, order, k :: |src| == n && SpliceOrder(kept, order) && 0 <= k < |inserted| ==>
      Lands(src, order, inserted[k])
  }

  // ---- The other injected imports ----------------------------------------

  // They all go to the start of the line of the first import.
  function LineEdit(file: GoFile, text: Text, ruleID: string): Edit
    requires file.imports != [] && file.imports[0].pos <= |file.src|
  {
    var at := LineStart(file.src, file.imports[0].pos);
    Edit(at, at, text, Tag(ruleID, 0))
  }

  // What starts at that byte can only be the removal of that import or the
  // rewrite of its path; nothing runs across.
  ghost predicate LineIsFree(file: GoFile, edits: seq<Edit>, at: int, removal: Edit, path: Edit) {
    forall x :: x in edits ==>
      (x.IsInsertion() || x.start != at || x == removal || x == path) && !(x.start < at < x.end)
  }

  // The injected import is in a mixed tie exactly when its line goes with the
  // first import, or the path of that import stands unindented and is
  // rewritten; then some outcome of the sort is no substitution of the
  // survivors. Otherwise it lands in all of them.
  lemma FirstImportTieIff(file: GoFile, r: AbsorbRule, edits: seq<Edit>, sorted: seq<Edit>, text: Text, ruleID: string,
                          newPath: Text, tag: Tag)
    requires file.imports != [] && file.imports[0].pos <= file.imports[0].pathPos < file.imports[0].end <= |file.src|
    requires LineEdit(file, text, ruleID) in edits
    requires LineIsFree(file, edits, LineEdit(file, text, ruleID).start, RemovalEdit(file, r, file.imports[0]).value,
                        PathEdit(file.imports[0], newPath, tag))
    requires SortOutcome(edits, sorted) && forall x :: x in edits ==> x.InBounds(|file.src|)
    ensures var a, spec, kept := LineEdit(file, text, ruleID), file.imports[0], Kept(sorted);
      var tied := (RemovalEdit(file, r, spec).value in edits && !HasLowerCase(file.src[a.start..spec.pos]))
                  || (PathEdit(spec, newPath, tag) in edits && spec.pathPos == a.start);
      && a in kept && (TiedWith(kept, a) <==> tied)
      && (tied && AllProper(edits) ==> !EveryOutcomeFaithful(kept, |file.src|))
      && (!tied ==> AlwaysLands(kept, a, |file.src|))
  {
    var a, spec := LineEdit(file, text, ruleID), file.imports[0];
    var removal, path := RemovalEdit(file, r, spec).value, PathEdit(spec, newPath, tag);
    InsertionTieIff(edits, sorted, a, |file.src|);
    assert removal.start == a.start < removal.end <==> !HasLowerCase(file.src[a.start..spec.pos]);
    if removal in edits && removal.start == a.start {
      var i :| 0 <= i < |edits| && edits[i] == removal;
      assert edits[i].start == a.start < edits[i].end;
    }
    if path in edits && path.start == a.start {
      var i :| 0 <= i < |edits| && edits[i] == path;
      assert edits[i].start == a.start < edits[i].end;
    }
    if i :| 0 <= i < |edits| && edits[i].start == a.start < edits[i].end {
      assert edits[i] in edits;
    }
  }

  // So injecting any import while the first one is removed with its line is
  // not safe.
  lemma FirstImportTieCorrupts(file: GoFile, r: AbsorbRule, edits: seq<Edit>, sorted: seq<Edit>, text: Text,
                               ruleID: string)
    requires file.imports != [] && file.imports[0].pos < file.imports[0].end <= |file.src|
    requires var a, removal := LineEdit(file, text, ruleID), Removal(file, r, file.imports[0], RefsOf(file, r));
      && a in edits && removal.Some? && removal.value in edits
      && !HasLowerCase(file.src[a.start..file.imports[0].pos])
      && forall x :: x in edits ==> !Encloses(x, a)
    requires SortOutcome(edits, sorted) && AllProper(edits) && forall x :: x in edits ==> x.InBounds(|file.src|)
    ensures !EveryOutcomeFaithful(Kept(sorted), |file.src|)
  {
    var a, removal := LineEdit(file, text, ruleID), Removal(file, r, file.imports[0], RefsOf(file, r)).value;
    var i :| 0 <= i < |edits| && edits[i] == removal;
    assert edits[i].start == a.start < edits[i].end;
    InsertionTieIff(edits, sorted, a, |file.src|);
  }
}
