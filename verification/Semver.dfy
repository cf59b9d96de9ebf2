// Version precedence, section 11 of Semantic Versioning 2.0.0. Build metadata
// takes no part in it and is left out of versions.
module Semver {

  // A pre-release identifier: all digits, or not.
  datatype Ident = Num(n: nat) | Alnum(s: string)

  datatype Version = Version(major: nat, minor: nat, patch: nat, pre: seq<Ident>)

  function CompareNat(a: nat, b: nat): int {
    if a < b then -1 else if a > b then 1 else 0
  }

  function CompareString(a: string, b: string): int {
    if a == [] && b == [] then 0
    else if a == [] then -1
    else if b == [] then 1
    else if a[0] != b[0] then (if a[0] < b[0] then -1 else 1)
    else CompareString(a[1..], b[1..])
  }

  // Numeric identifiers are lower than alphanumeric ones.
  function CompareIdent(a: Ident, b: Ident): int {
    match (a, b)
    case (Num(m), Num(n)) => CompareNat(m, n)
    case (Num(_), Alnum(_)) => -1
    case (Alnum(_), Num(_)) => 1
    case (Alnum(s), Alnum(t)) => CompareString(s, t)
  }

  // A larger set of identifiers is higher when all preceding ones are equal.
  function CompareIdents(a: seq<Ident>, b: seq<Ident>): int {
    if a == [] && b == [] then 0
    else if a == [] then -1
    else if b == [] then 1
    else if CompareIdent(a[0], b[0]) != 0 then CompareIdent(a[0], b[0])
    else CompareIdents(a[1..], b[1..])
  }

  // No pre-release is higher than any pre-release of the same triple.
  function ComparePre(a: seq<Ident>, b: seq<Ident>): int {
    if a == [] && b == [] then 0
    else if a == [] then 1
    else if b == [] then -1
    else CompareIdents(a, b)
  }

  function Compare(a: Version, b: Version): int {
    if a.major != b.major then CompareNat(a.major, b.major)
    else if a.minor != b.minor then CompareNat(a.minor, b.minor)
    else if a.patch != b.patch then CompareNat(a.patch, b.patch)
    else ComparePre(a.pre, b.pre)
  }

  predicate AtLeast(a: Version, b: Version) { Compare(a, b) >= 0 }

  // ---- Precedence is a total order ---------------------------------------

  lemma {:induction false} StringOrder(a: string, b: string)
    ensures CompareString(a, b) == -CompareString(b, a)
    ensures CompareString(a, b) == 0 <==> a == b
  {
    if a != [] && b != [] && a[0] == b[0] {
      StringOrder(a[1..], b[1..]);
      assert a == [a[0]] + a[1..] && b == [b[0]] + b[1..];
    }
  }

  lemma {:induction false} StringTransitive(a: string, b: string, c: string)
    requires CompareString(a, b) >= 0 && CompareString(b, c) >= 0
    ensures CompareString(a, c) >= 0
  {
    if a != [] && b != [] && c != [] && a[0] == b[0] == c[0] {
      StringTransitive(a[1..], b[1..], c[1..]);
    }
  }

  lemma IdentOrder(a: Ident, b: Ident)
    ensures CompareIdent(a, b) == -CompareIdent(b, a)
    ensures CompareIdent(a, b) == 0 <==> a == b
  {
    if a.Alnum? && b.Alnum? {
      StringOrder(a.s, b.s);
    }
  }

  lemma IdentTransitive(a: Ident, b: Ident, c: Ident)
    requires CompareIdent(a, b) >= 0 && CompareIdent(b, c) >= 0
    ensures CompareIdent(a, c) >= 0
  {
    if a.Alnum? && b.Alnum? && c.Alnum? {
      StringTransitive(a.s, b.s, c.s);
    }
  }

  lemma {:induction false} IdentsOrder(a: seq<Ident>, b: seq<Ident>)
    ensures CompareIdents(a, b) == -CompareIdents(b, a)
    ensures CompareIdents(a, b) == 0 <==> a == b
  {
    if a != [] && b != [] {
      IdentOrder(a[0], b[0]);
      if a[0] == b[0] {
        IdentsOrder(a[1..], b[1..]);
        assert a == [a[0]] + a[1..] && b == [b[0]] + b[1..];
      }
    }
  }

  lemma {:induction false} IdentsTransitive(a: seq<Ident>, b: seq<Ident>, c: seq<Ident>)
    requires CompareIdents(a, b) >= 0 && CompareIdents(b, c) >= 0
    ensures CompareIdents(a, c) >= 0
  {
    if a != [] && b != [] && c != [] {
      IdentOrder(a[0], b[0]);
      IdentOrder(b[0], c[0]);
      IdentOrder(a[0], c[0]);
      IdentTransitive(a[0], b[0], c[0]);
      if a[0] == b[0] == c[0] {
        IdentsTransitive(a[1..], b[1..], c[1..]);
      }
    }
  }

  lemma VersionOrder(a: Version, b: Version)
    ensures Compare(a, b) == -Compare(b, a)
    ensures Compare(a, b) == 0 <==> a == b
  {
    IdentsOrder(a.pre, b.pre);
  }

  lemma VersionTransitive(a: Version, b: Version, c: Version)
    requires AtLeast(a, b) && AtLeast(b, c)
    ensures AtLeast(a, c)
    ensures Compare(a, b) > 0 || Compare(b, c) > 0 ==> Compare(a, c) > 0
  {
    if a.major == b.major == c.major && a.minor == b.minor == c.minor && a.patch == b.patch == c.patch {
      if a.pre != [] && b.pre != [] && c.pre != [] {
        IdentsTransitive(a.pre, b.pre, c.pre);
      }
    }
    VersionOrder(a, c);
    if Compare(a, c) == 0 {
      VersionOrder(a, b);
      VersionOrder(b, c);
    }
  }

  // ---- What section 11 demands -------------------------------------------

  predicate SameTriple(a: Version, b: Version) {
    a.major == b.major && a.minor == b.minor && a.patch == b.patch
  }

  predicate DifferFirst<T(==)>(a: seq<T>, b: seq<T>, k: nat) {
    k < |a| && k < |b| && a[..k] == b[..k] && a[k] != b[k]
  }

  // Numbers by value, below anything else, which goes in ASCII order.
  ghost predicate IdentBelow(x: Ident, y: Ident) {
    || (x.Num? && y.Num? && x.n < y.n)
    || (x.Num? && y.Alnum?)
    || (x.Alnum? && y.Alnum? && (x.s < y.s || exists k: nat :: DifferFirst(x.s, y.s, k) && x.s[k] < y.s[k]))
  }

  // The rules of section 11.2 to 11.4, each about an order `below`.
  ghost predicate FollowsSection11(below: (Version, Version) -> bool) {
    && (forall a: Version, b: Version :: a.major < b.major ==> below(a, b))
    && (forall a: Version, b: Version :: a.major == b.major && a.minor < b.minor ==> below(a, b))
    && (forall a: Version, b: Version :: a.major == b.major && a.minor == b.minor && a.patch < b.patch ==> below(a, b))
    && (forall a: Version, b: Version :: SameTriple(a, b) && a.pre != [] && b.pre == [] ==> below(a, b))
    && (forall a: Version, b: Version :: SameTriple(a, b) && a.pre != [] && a.pre < b.pre ==> below(a, b))
    && (forall a: Version, b: Version, k: nat ::
          SameTriple(a, b) && DifferFirst(a.pre, b.pre, k) && IdentBelow(a.pre[k], b.pre[k]) ==> below(a, b))
  }

  lemma {:induction false} StringAt(a: string, b: string, k: nat)
    requires DifferFirst(a, b, k)
    ensures CompareString(a, b) == if a[k] < b[k] then -1 else 1
  {
    if k > 0 {
      assert a[0] == a[..k][0] == b[..k][0] == b[0];
      assert a[1..][..k - 1] == a[..k][1..] == b[..k][1..] == b[1..][..k - 1];
      StringAt(a[1..], b[1..], k - 1);
    }
  }

  lemma {:induction false} StringPrefix(a: string, b: string)
    requires a < b
    ensures CompareString(a, b) < 0
  {
    if a != [] {
      StringPrefix(a[1..], b[1..]);
    }
  }

  lemma {:induction false} IdentsAt(a: seq<Ident>, b: seq<Ident>, k: nat)
    requires DifferFirst(a, b, k)
    ensures CompareIdents(a, b) == CompareIdent(a[k], b[k])
  {
    IdentOrder(a[0], b[0]);
    if k > 0 {
      assert a[0] == a[..k][0] == b[..k][0] == b[0];
      assert a[1..][..k - 1] == a[..k][1..] == b[..k][1..] == b[1..][..k - 1];
      IdentsAt(a[1..], b[1..], k - 1);
    }
  }

  lemma {:induction false} IdentsPrefix(a: seq<Ident>, b: seq<Ident>)
    requires a < b
    ensures CompareIdents(a, b) < 0
  {
    if a != [] {
      IdentOrder(a[0], b[0]);
      IdentsPrefix(a[1..], b[1..]);
    }
  }

  lemma IdentExact(x: Ident, y: Ident)
    ensures IdentBelow(x, y) <==> CompareIdent(x, y) < 0
  {
    if x.Alnum? && y.Alnum? {
      StringOrder(x.s, y.s);
      if x.s < y.s {
        StringPrefix(x.s, y.s);
      } else if y.s < x.s {
        StringPrefix(y.s, x.s);
        forall k: nat
          ensures !DifferFirst(x.s, y.s, k)
        {
          assert k < |y.s| ==> y.s[k] == x.s[k];
        }
      } else if x.s != y.s {
        var k := FirstDifference(x.s, y.s);
        StringAt(x.s, y.s, k);
        forall j | DifferFirst(x.s, y.s, j)
          ensures j == k
        {
          DifferOnce(x.s, y.s, j, k);
        }
      }
    }
  }

  lemma DifferOnce<T>(a: seq<T>, b: seq<T>, j: nat, k: nat)
    requires DifferFirst(a, b, j) && DifferFirst(a, b, k)
    ensures j == k
  {
    if j < k {
      SameBefore(a, b, k, j);
    }
    if k < j {
      SameBefore(a, b, j, k);
    }
  }

  lemma SameBefore<T>(a: seq<T>, b: seq<T>, k: nat, j: nat)
    requires DifferFirst(a, b, k) && j < k
    ensures a[j] == b[j]
  {
    assert a[j] == a[..k][j] && b[j] == b[..k][j];
  }

  lemma {:induction false} FirstDifference<T>(a: seq<T>, b: seq<T>) returns (k: nat)
    requires !(a <= b) && !(b <= a)
    ensures DifferFirst(a, b, k)
  {
    if a[0] != b[0] {
      k := 0;
    } else {
      assert a == [a[0]] + a[1..] && b == [b[0]] + b[1..];
      var n := FirstDifference(a[1..], b[1..]);
      k := n + 1;
      assert a[..k] == [a[0]] + a[1..][..n] && b[..k] == [b[0]] + b[1..][..n];
    }
  }

  // Precedence as compared here follows every rule of section 11.
  lemma CompareFollows()
    ensures FollowsSection11((a: Version, b: Version) => Compare(a, b) < 0)
  {
    forall a: Version, b: Version | SameTriple(a, b) && a.pre != [] && a.pre < b.pre
      ensures Compare(a, b) < 0
    {
      IdentsPrefix(a.pre, b.pre);
    }
    forall a: Version, b: Version, k: nat |
      SameTriple(a, b) && DifferFirst(a.pre, b.pre, k) && IdentBelow(a.pre[k], b.pre[k])
      ensures Compare(a, b) < 0
    {
      IdentsAt(a.pre, b.pre, k);
      IdentExact(a.pre[k], b.pre[k]);
    }
  }

  // And no other order does: these rules leave nothing open.
  lemma OnlyPrecedence(below: (Version, Version) -> bool, a: Version, b: Version)
    requires FollowsSection11(below) && forall x, y :: below(x, y) ==> !below(y, x)
    ensures below(a, b) <==> Compare(a, b) < 0
  {
    VersionOrder(a, b);
    if Compare(a, b) < 0 {
      Forced(below, a, b);
    } else if Compare(b, a) < 0 {
      Forced(below, b, a);
    }
  }

  lemma Forced(below: (Version, Version) -> bool, a: Version, b: Version)
    requires FollowsSection11(below) && Compare(a, b) < 0
    ensures below(a, b)
  {
    if SameTriple(a, b) && b.pre != [] {
      IdentsOrder(a.pre, b.pre);
      if b.pre <= a.pre {
        assert a.pre != b.pre;
        IdentsPrefix(b.pre, a.pre);
        assert false;
      }
      if !(a.pre <= b.pre) {
        var k := FirstDifference(a.pre, b.pre);
        IdentsAt(a.pre, b.pre, k);
        IdentExact(a.pre[k], b.pre[k]);
      }
    }
  }

  // ---- Go directives -----------------------------------------------------

  // The dotted components of a `go` directive; empty when it is absent.
  type Directive = seq<nat>

  // Pads to three components; more than three is no version.
  function GoSemver(d: Directive): (v: seq<Version>)
    ensures |v| <= 1
  {
    if |d| == 0 || |d| > 3 then []
    else [Version(d[0], if |d| > 1 then d[1] else 0, if |d| > 2 then d[2] else 0, [])]
  }

  // An absent directive on either side is not satisfied; an invalid version
  // is lower than every valid one.
  predicate GoDirectiveAtLeast(project: Directive, floor: Directive) {
    if project == [] || floor == [] then false
    else if GoSemver(floor) == [] then true
    else GoSemver(project) != [] && AtLeast(GoSemver(project)[0], GoSemver(floor)[0])
  }

  // Component k; a missing one counts as zero.
  function Component(d: Directive, k: nat): nat {
    if k < |d| then d[k] else 0
  }

  // project is floor or a later release, in numbers.
  predicate NotOlder(project: Directive, floor: Directive) {
    || Component(project, 0) > Component(floor, 0)
    || (Component(project, 0) == Component(floor, 0) && Component(project, 1) > Component(floor, 1))
    || (Component(project, 0) == Component(floor, 0) && Component(project, 1) == Component(floor, 1)
        && Component(project, 2) >= Component(floor, 2))
  }

  // Both must be there. A floor with more than three components is met by
  // every directive, and meets no other.
  lemma DirectiveInNumbers(project: Directive, floor: Directive)
    ensures GoDirectiveAtLeast(project, floor) <==>
      project != [] && floor != [] && (|floor| > 3 || (|project| <= 3 && NotOlder(project, floor)))
  {
  }
}
