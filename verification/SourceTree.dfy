// A directory tree, the library walk over it, and where its paths lead.
module SourceTree {
  import opened Options

  type Path = seq<string>

  // `importsParse`: the import clause parses; `parses`: the whole file does;
  // `jwx`: some import is a source or target package.
  datatype Info = Info(importsParse: bool, parses: bool, jwx: bool)

  datatype Node = File(name: string, info: Info) | Dir(name: string, kids: seq<Node>)

  const GO_MOD := "go.mod"

  predicate SkipName(name: string) {
    name == "vendor" || name == "node_modules" || (|name| > 0 && name[0] == '.')
  }

  predicate IsGoFile(name: string) {
    |name| >= 3 && name[|name| - 3..] == ".go"
  }

  // Skipped are two names, and every name that starts with a dot.
  lemma SkipNames(rest: string)
    ensures SkipName("vendor") && SkipName("node_modules") && SkipName("." + rest)
    ensures forall name: string :: SkipName(name) && (name == "" || name[0] != '.') ==>
      name in {"vendor", "node_modules"}
  {
  }

  lemma GoFileNames(stem: string)
    ensures IsGoFile(stem + ".go")
    ensures forall name: string :: IsGoFile(name) ==> name == name[..|name| - 3] + ".go"
  {
    assert (stem + ".go")[|stem|..] == ".go";
  }

  function Find(kids: seq<Node>, name: string): Option<Node> {
    if kids == [] then None else if kids[0].name == name then Some(kids[0]) else Find(kids[1..], name)
  }

  ghost predicate WellFormed(n: Node) {
    n.Dir? ==> KidsWellFormed(n.kids)
  }

  // Names in a directory are distinct.
  ghost predicate KidsWellFormed(kids: seq<Node>) {
    kids == [] || (Find(kids[1..], kids[0].name) == None && WellFormed(kids[0]) && KidsWellFormed(kids[1..]))
  }

  // The node a path below n names.
  function At(n: Node, q: Path): Option<Node>
    decreases |q|
  {
    if q == [] then Some(n)
    else if n.File? then None
    else
      var kid := Find(n.kids, q[0]);
      if kid.None? then None else At(kid.value, q[1..])
  }

  // ---- filepath.WalkDir --------------------------------------------------

  // The files visited below n, in order, where `prune` answers SkipDir.
  function Walk(n: Node, at: Path, prune: (Path, Node) -> bool): seq<Path>
    decreases n, 1
  {
    match n
    case File(_, _) => [at]
    case Dir(_, kids) => if prune(at, n) then [] else WalkKids(kids, at, prune)
  }

  function WalkKids(kids: seq<Node>, at: Path, prune: (Path, Node) -> bool): seq<Path>
    decreases kids, 0
  {
    if kids == [] then [] else Walk(kids[0], at + [kids[0].name], prune) + WalkKids(kids[1..], at, prune)
  }

  // The entries of a directory are walked in their order.
  lemma {:induction false} WalkInOrder(a: seq<Node>, b: seq<Node>, n: Node, at: Path, prune: (Path, Node) -> bool)
    ensures WalkKids(a + b, at, prune) == WalkKids(a, at, prune) + WalkKids(b, at, prune)
    ensures WalkKids([n], at, prune) == Walk(n, at + [n.name], prune)
  {
    assert [n][1..] == [];
    if a == [] {
      assert a + b == b;
    } else {
      assert (a + b)[1..] == a[1..] + b;
      WalkInOrder(a[1..], b, n, at, prune);
    }
  }

  // No directory on the way from n down to q is pruned.
  predicate Open(n: Node, at: Path, q: Path, prune: (Path, Node) -> bool)
    decreases |q|
  {
    q == [] ||
    (n.Dir? && !prune(at, n) &&
     var kid := Find(n.kids, q[0]);
     kid.Some? && Open(kid.value, at + [q[0]], q[1..], prune))
  }

  predicate FileAt(n: Node, q: Path) {
    At(n, q).Some? && At(n, q).value.File?
  }

  predicate Below(at: Path, x: Path) {
    |at| <= |x| && x[..|at|] == at
  }

  lemma {:induction false} WalkBelow(n: Node, at: Path, prune: (Path, Node) -> bool)
    ensures forall x :: x in Walk(n, at, prune) ==> Below(at, x)
    decreases n, 1
  {
    if n.Dir? && !prune(at, n) {
      WalkKidsBelow(n.kids, at, prune);
    }
  }

  lemma {:induction false} WalkKidsBelow(kids: seq<Node>, at: Path, prune: (Path, Node) -> bool)
    ensures forall x :: x in WalkKids(kids, at, prune) ==>
      |at| < |x| && Below(at, x) && Find(kids, x[|at|]).Some?
    decreases kids, 0
  {
    if kids != [] {
      var first := at + [kids[0].name];
      WalkBelow(kids[0], first, prune);
      WalkKidsBelow(kids[1..], at, prune);
      forall x | x in Walk(kids[0], first, prune)
        ensures |at| < |x| && Below(at, x) && x[|at|] == kids[0].name
      {
        assert x[..|first|] == first && x[..|first|][|at|] == x[|at|];
        assert x[..|first|][..|at|] == x[..|at|];
      }
    }
  }

  // A walk visits exactly the files it can reach without entering a pruned
  // directory, each once.
  lemma {:induction false} WalkExact(n: Node, at: Path, q: Path, prune: (Path, Node) -> bool)
    requires WellFormed(n)
    ensures multiset(Walk(n, at, prune))[at + q] == if FileAt(n, q) && Open(n, at, q, prune) then 1 else 0
    decreases n, 1
  {
    if n.File? {
      if q == [] {
        assert at + q == at;
      } else {
        assert |at + q| > |at|;
      }
    } else if !prune(at, n) {
      if q == [] {
        WalkKidsBelow(n.kids, at, prune);
        assert at + q == at;
      } else {
        WalkKidsExact(n.kids, at, q, prune);
      }
    }
  }

  lemma {:induction false} WalkKidsExact(kids: seq<Node>, at: Path, q: Path, prune: (Path, Node) -> bool)
    requires KidsWellFormed(kids) && q != []
    ensures var kid := Find(kids, q[0]);
      multiset(WalkKids(kids, at, prune))[at + q] ==
        if kid.Some? && FileAt(kid.value, q[1..]) && Open(kid.value, at + [q[0]], q[1..], prune) then 1 else 0
    decreases kids, 0
  {
    if kids != [] {
      var first := at + [kids[0].name];
      var here, rest := Walk(kids[0], first, prune), WalkKids(kids[1..], at, prune);
      assert multiset(WalkKids(kids, at, prune)) == multiset(here) + multiset(rest);
      WalkKidsExact(kids[1..], at, q, prune);
      if kids[0].name == q[0] {
        assert at + q == first + q[1..];
        WalkExact(kids[0], first, q[1..], prune);
      } else {
        WalkBelow(kids[0], first, prune);
        assert (at + q)[..|first|][|at|] == q[0];
        assert at + q !in here;
      }
    }
  }

  // ---- Paths through the tree --------------------------------------------

  lemma {:induction false} AtAppend(n: Node, a: Path, b: Path)
    ensures At(n, a + b) == if At(n, a).Some? then At(At(n, a).value, b) else None
    decreases |a|
  {
    if a == [] {
      assert a + b == b;
    } else if n.Dir? && Find(n.kids, a[0]).Some? {
      assert (a + b)[1..] == a[1..] + b;
      AtAppend(Find(n.kids, a[0]).value, a[1..], b);
    }
  }

  lemma {:induction false} FindNamed(kids: seq<Node>, name: string)
    ensures Find(kids, name).Some? ==> Find(kids, name).value.name == name
    ensures KidsWellFormed(kids) && Find(kids, name).Some? ==> WellFormed(Find(kids, name).value)
  {
    if kids != [] && kids[0].name != name {
      FindNamed(kids[1..], name);
    }
  }

  lemma {:induction false} AtWellFormed(n: Node, q: Path)
    requires WellFormed(n)
    ensures At(n, q).Some? ==> WellFormed(At(n, q).value)
    ensures At(n, q).Some? && q != [] ==> At(n, q).value.name == q[|q| - 1]
    decreases |q|
  {
    if q != [] && n.Dir? && Find(n.kids, q[0]).Some? {
      FindNamed(n.kids, q[0]);
      AtWellFormed(Find(n.kids, q[0]).value, q[1..]);
    }
  }

  // Every proper prefix of a path that leads somewhere is a directory.
  lemma PrefixIsDir(n: Node, q: Path, k: nat)
    requires At(n, q).Some? && k < |q|
    ensures At(n, q[..k]).Some? && At(n, q[..k]).value.Dir?
  {
    assert q[..k] + q[k..] == q;
    AtAppend(n, q[..k], q[k..]);
  }

  // Open, spelled out on the prefixes.
  lemma {:induction false} OpenIff(n: Node, at: Path, q: Path, prune: (Path, Node) -> bool)
    requires At(n, q).Some?
    ensures Open(n, at, q, prune) <==>
      forall k :: 0 <= k < |q| ==> At(n, q[..k]).Some? && !prune(at + q[..k], At(n, q[..k]).value)
    decreases |q|
  {
    if q != [] {
      var kid, rest := Find(n.kids, q[0]).value, q[1..];
      OpenIff(kid, at + [q[0]], rest, prune);
      assert q[..0] == [] && at + q[..0] == at;
      forall k | 0 <= k < |rest|
        ensures At(n, q[..k + 1]) == At(kid, rest[..k]) && at + q[..k + 1] == at + [q[0]] + rest[..k]
      {
        assert q[..k + 1][1..] == rest[..k];
      }
      if forall k :: 0 <= k < |q| ==> At(n, q[..k]).Some? && !prune(at + q[..k], At(n, q[..k]).value) {
        forall k | 0 <= k < |rest|
          ensures At(kid, rest[..k]).Some? && !prune(at + [q[0]] + rest[..k], At(kid, rest[..k]).value)
        {
          assert At(n, q[..k + 1]).Some? && !prune(at + q[..k + 1], At(n, q[..k + 1]).value);
        }
      }
      if Open(n, at, q, prune) {
        forall k | 0 <= k < |q|
          ensures At(n, q[..k]).Some? && !prune(at + q[..k], At(n, q[..k]).value)
        {
          if k > 0 {
            assert At(kid, rest[..k - 1]).Some? && !prune(at + [q[0]] + rest[..k - 1], At(kid, rest[..k - 1]).value);
          }
        }
      }
    }
  }
}
