// Choosing the temporary of the if-init rewrite: base, base2, ..., base99.
module TempNames {

  const FIRST_SUFFIX := 2
  const END_SUFFIX := 100

  function Digit(d: nat): char
    requires d < 10
  {
    ("0123456789")[d]
  }

  // "%d" for the suffixes the loop can reach.
  function Decimal(i: nat): string
    requires i < END_SUFFIX
  {
    if i < 10 then [Digit(i)] else [Digit(i / 10), Digit(i % 10)]
  }

  // Read back as a number it is i.
  lemma DecimalReads(i: nat)
    requires i < END_SUFFIX
    ensures var d := Decimal(i);
      if i < 10 then |d| == 1 && d[0] as int - '0' as int == i
      else |d| == 2 && 10 * (d[0] as int - '0' as int) + (d[1] as int - '0' as int) == i
  {
    assert forall k :: 0 <= k < 10 ==> "0123456789"[k] as int - '0' as int == k;
  }

  function Candidate(base: string, i: nat): string
    requires i < END_SUFFIX
  {
    base + Decimal(i)
  }

  lemma CandidatesDiffer(base: string, i: nat, j: nat)
    requires i < j < END_SUFFIX
    ensures Candidate(base, i) != Candidate(base, j)
    ensures Candidate(base, i) != base
  {
    var a, b := Candidate(base, i), Candidate(base, j);
    assert |a| == |base| + |Decimal(i)| && |b| == |base| + |Decimal(j)|;
    if i >= 10 || j < 10 {
      assert a[|base|] == Decimal(i)[0] && b[|base|] == Decimal(j)[0];
    }
    if i >= 10 {
      assert a[|base| + 1] == Digit(i % 10) && b[|base| + 1] == Digit(j % 10);
    }
  }

  // The candidates tried before suffix i.
  function Tried(base: string, i: nat): set<string>
    requires FIRST_SUFFIX <= i <= END_SUFFIX
  {
    if i == FIRST_SUFFIX then {base} else Tried(base, i - 1) + {Candidate(base, i - 1)}
  }

  lemma {:induction false} TriedSize(base: string, i: nat)
    requires FIRST_SUFFIX <= i <= END_SUFFIX
    ensures |Tried(base, i)| == i - 1
    ensures forall j :: i <= j < END_SUFFIX ==> Candidate(base, j) !in Tried(base, i)
  {
    if i == FIRST_SUFFIX {
      forall j | i <= j < END_SUFFIX
        ensures Candidate(base, j) != base
      {
        assert |Candidate(base, j)| > |base|;
      }
    } else {
      TriedSize(base, i - 1);
      forall j | i <= j < END_SUFFIX
        ensures Candidate(base, j) !in Tried(base, i)
      {
        CandidatesDiffer(base, i - 1, j);
      }
    }
  }

  // The base name and the candidates 2, 3, ... below i are taken.
  predicate AllTaken(base: string, i: nat, inScope: set<string>)
    requires i <= END_SUFFIX
  {
    base in inScope && forall j :: 2 <= j < i ==> Candidate(base, j) in inScope
  }

  // Candidate i is the first that is free.
  predicate FirstFree(base: string, i: int, inScope: set<string>) {
    2 <= i < 100 && AllTaken(base, i, inScope) && Candidate(base, i) !in inScope
  }

  // getFieldTempName with suffix "V4", exportTempName with "V4Exported".
  // The name is free unless every one of the 99 candidates is taken.
  method TempName(dst: string, suffix: string, inScope: set<string>) returns (name: string)
    ensures name in Tried(dst + suffix, END_SUFFIX)
    ensures |dst + suffix| <= |name|
    ensures name in inScope <==> Tried(dst + suffix, END_SUFFIX) <= inScope
    ensures dst + suffix !in inScope ==> name == dst + suffix
    ensures forall i :: FirstFree(dst + suffix, i, inScope) ==> name == Candidate(dst + suffix, i)
    ensures AllTaken(dst + suffix, 100, inScope) ==> name == dst + suffix
  {
    var base := dst + suffix;
    TriedGrows(base, FIRST_SUFFIX, END_SUFFIX);
    if base !in inScope {
      return base;
    }
    for i := FIRST_SUFFIX to END_SUFFIX
      invariant Tried(base, i) <= inScope && AllTaken(base, i, inScope)
    {
      var candidate := Candidate(base, i);
      if candidate !in inScope {
        TriedGrows(base, i + 1, END_SUFFIX);
        return candidate;
      }
    }
    return base;
  }

  lemma {:induction false} TriedGrows(base: string, i: nat, j: nat)
    requires FIRST_SUFFIX <= i <= j <= END_SUFFIX
    ensures Tried(base, i) <= Tried(base, j)
  {
    if i < j {
      TriedGrows(base, i, j - 1);
    }
  }

  lemma {:induction false} SubsetSize<T>(a: set<T>, b: set<T>)
    requires a <= b
    ensures |a| <= |b|
  {
    if a != {} {
      var x :| x in a;
      SubsetSize(a - {x}, b - {x});
    }
  }

  // Pigeonhole: with fewer than 99 names in scope some candidate is free.
  lemma SomeCandidateFree(base: string, inScope: set<string>)
    requires |inScope| < END_SUFFIX - 1
    ensures !(Tried(base, END_SUFFIX) <= inScope)
  {
    TriedSize(base, END_SUFFIX);
    if Tried(base, END_SUFFIX) <= inScope {
      SubsetSize(Tried(base, END_SUFFIX), inScope);
    }
  }
}
