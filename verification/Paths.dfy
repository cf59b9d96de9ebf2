// Directories and files as sequences of names below the file system root, and
// the upward search for the enclosing go.mod.
module Paths {
  import opened Options
  import opened Semver
  import opened Floors
  import opened Sorting

  type Dir = seq<string>

  // What a go.mod says; an unreadable one says nothing.
  datatype ModuleState = ModuleState(root: Dir, go: Directive, required: RequireMap)

  // An unchanging file system: which directories hold a go.mod, and what
  // reading it gives.
  datatype FileSystem = FileSystem(hasGoMod: Dir -> bool, goOf: Dir -> Directive, requiresOf: Dir -> RequireMap) {
    function ReadModuleState(root: Dir): ModuleState {
      ModuleState(root, goOf(root), requiresOf(root))
    }
  }

  function Parent(p: seq<string>): Dir {
    if p == [] then [] else p[..|p| - 1]
  }

  // The nearest directory at or above d with a go.mod.
  function OwnerOf(hasGoMod: Dir -> bool, d: Dir): Option<Dir> {
    if hasGoMod(d) then Some(d)
    else if d == [] then None
    else OwnerOf(hasGoMod, Parent(d))
  }

  function StateOf(fs: FileSystem, d: Dir): Option<ModuleState> {
    var owner := OwnerOf(fs.hasGoMod, d);
    if owner.None? then None else Some(fs.ReadModuleState(owner.value))
  }

  method ModuleStateFor(fs: FileSystem, file: seq<string>) returns (st: Option<ModuleState>)
    ensures st == StateOf(fs, Parent(file))
  {
    var d := Parent(file);
    while true
      invariant OwnerOf(fs.hasGoMod, d) == OwnerOf(fs.hasGoMod, Parent(file))
      decreases |d|
    {
      if fs.hasGoMod(d) {
        return Some(fs.ReadModuleState(d));
      }
      var parent := Parent(d);
      if parent == d {
        return None;
      }
      d := parent;
    }
  }

  // The search stops at r exactly when r is the deepest prefix with a go.mod,
  // and finds nothing exactly when no prefix has one.
  lemma {:induction false} OwnerIsNearest(hasGoMod: Dir -> bool, d: Dir, k: nat)
    requires k <= |d|
    ensures OwnerOf(hasGoMod, d) == Some(d[..k]) <==>
      hasGoMod(d[..k]) && forall j :: k < j <= |d| ==> !hasGoMod(d[..j])
    ensures OwnerOf(hasGoMod, d) == None <==> forall j :: 0 <= j <= |d| ==> !hasGoMod(d[..j])
  {
    assert d[..|d|] == d;
    if d == [] {
      assert d[..k] == d;
    } else if !hasGoMod(d) {
      var up := Parent(d);
      forall j | 0 <= j < |d|
        ensures up[..j] == d[..j]
      {
      }
      if k < |d| {
        OwnerIsNearest(hasGoMod, up, k);
      } else {
        OwnerIsNearest(hasGoMod, up, 0);
        OwnerIsPrefix(hasGoMod, up);
      }
    } else if k < |d| {
      assert |d[..k]| < |d|;
    }
  }

  lemma {:induction false} OwnerIsPrefix(hasGoMod: Dir -> bool, d: Dir)
    ensures var o := OwnerOf(hasGoMod, d);
      o.Some? ==> |o.value| <= |d| && o.value == d[..|o.value|] && hasGoMod(o.value)
  {
    if !hasGoMod(d) && d != [] {
      OwnerIsPrefix(hasGoMod, Parent(d));
    }
  }

  // ---- Text order --------------------------------------------------------

  predicate TextLess(a: string, b: string) { CompareString(a, b) < 0 }

  function PathText(d: Dir): string {
    if d == [] then "" else "/" + d[0] + PathText(d[1..])
  }

  predicate PathLess(a: Dir, b: Dir) { TextLess(PathText(a), PathText(b)) }

  lemma TextOrders()
    ensures StrictWeakOrder(TextLess) && StrictWeakOrder(PathLess)
  {
    forall x: string, y: string
      ensures CompareString(x, y) == -CompareString(y, x)
    {
      StringOrder(x, y);
    }
    forall x: string, y: string, z: string | !TextLess(y, x) && !TextLess(z, y)
      ensures !TextLess(z, x)
    {
      StringTransitive(z, y, x);
    }
  }

  // The roots owning the given files, each once, sorted by their text.
  method DiscoverModuleRootsForFiles(fs: FileSystem, files: seq<seq<string>>) returns (roots: seq<Dir>)
    ensures Sorted(PathLess, roots)
    ensures forall i, j :: 0 <= i < j < |roots| ==> roots[i] != roots[j]
    ensures forall r :: r in roots <==> exists i ::
      0 <= i < |files| && OwnerOf(fs.hasGoMod, Parent(files[i])) == Some(r)
  {
    roots := RootsInTurn(fs, files);
    TextOrders();
    roots := SortDistinct(roots, PathLess);
  }

  method RootsInTurn(fs: FileSystem, files: seq<seq<string>>) returns (roots: seq<Dir>)
    ensures forall i, j :: 0 <= i < j < |roots| ==> roots[i] != roots[j]
    ensures forall r :: r in roots <==> exists i ::
      0 <= i < |files| && OwnerOf(fs.hasGoMod, Parent(files[i])) == Some(r)
  {
    roots := [];
    var seen: set<Dir> := {};
    for i := 0 to |files|
      invariant forall r :: r in seen <==> r in roots
      invariant forall a, b :: 0 <= a < b < |roots| ==> roots[a] != roots[b]
      invariant forall r :: r in roots <==> exists k :: 0 <= k < i && OwnerOf(fs.hasGoMod, Parent(files[k])) == Some(r)
    {
      ghost var before := roots;
      var d := Parent(files[i]);
      var searching := true;
      while searching
        invariant searching ==> roots == before && seen == set r | r in before
        invariant searching ==> OwnerOf(fs.hasGoMod, d) == OwnerOf(fs.hasGoMod, Parent(files[i]))
        invariant !searching ==> OwnedAdded(roots, before, OwnerOf(fs.hasGoMod, Parent(files[i])))
        invariant forall r :: r in seen <==> r in roots
        decreases searching, |d|
      {
        if fs.hasGoMod(d) {
          if d !in seen {
            seen := seen + {d};
            roots := roots + [d];
          }
          searching := false;
        } else {
          var parent := Parent(d);
          if parent == d {
            searching := false;
          } else {
            d := parent;
          }
        }
      }
    }
  }

  predicate OwnedAdded(roots: seq<Dir>, before: seq<Dir>, owner: Option<Dir>) {
    if owner.Some? && owner.value !in before then roots == before + [owner.value] else roots == before
  }
}
