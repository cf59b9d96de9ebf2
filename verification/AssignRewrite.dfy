// The statement rewrites outside an if: a bare call, `_ =`, `err =`, `err :=`.
// They set dst even when the call fails, and `:=` may declare a new dst.
module AssignRewrite {
  import opened Options
  import opened Lang
  import opened GetRewrite

  predicate IsCallStatement(s: Stmt) {
    || (s.Do? && s.call.Into?)
    || (s.Assign? && |s.lhs| == 1 && s.rhs.Into?)
  }

  function CallOf(s: Stmt): Rhs
    requires IsCallStatement(s)
  {
    if s.Do? then s.call else s.rhs
  }

  // The name the error goes to, blank for a bare call.
  function ErrorName(s: Stmt): Name
    requires IsCallStatement(s)
  {
    if s.Do? then BLANK else s.lhs[0]
  }

  predicate Defines(s: Stmt)
    requires IsCallStatement(s)
  {
    s.Assign? && s.define
  }

  // `dst, <err> <tok> pkg.Get[T](..)`, keeping the assignment token.
  function RewriteStatement(s: Stmt, typ: string, zero: Value): Option<Stmt> {
    if IsCallStatement(s) && CallOf(s).Into? then
      Some(Assign([CallOf(s).dst, ErrorName(s)], Defines(s), Typed(CallOf(s).f, typ, zero)))
    else None
  }

  lemma DeclareKnown(s: Scopes, x: Name, v: Value)
    requires InInnermost(s, x)
    ensures Declare(s, x, v) == Update(s, x, v) && Lookup(s, x).Some?
  {
  }

  // What storing one name, or dst and one name, comes to.
  function StoreOne(x: Name, define: bool, v: Value, s: Scopes): Option<Scopes> {
    if x == BLANK then (if define then None else Some(s))
    else if define then (if s == [] || InInnermost(s, x) then None else Some(Declare(s, x, v)))
    else if Lookup(s, x).None? then None
    else Some(Update(s, x, v))
  }

  lemma StoreOneIs(x: Name, define: bool, v: Value, s: Scopes)
    requires s != []
    ensures Store([x], define, [v], s) == StoreOne(x, define, v, s)
  {
    var lhs, vals := [x], [v];
    assert lhs[0] == x && vals[0] == v && lhs[1..] == [] && vals[1..] == [];
    assert forall t :: AssignAll(lhs[1..], vals[1..], t) == Some(t) && DefineAll(lhs[1..], vals[1..], t) == Some(t);
  }

  lemma StorePairPlain(dst: Name, v: Value, x: Name, u: Value, s: Scopes)
    requires dst != BLANK && Lookup(s, dst).Some?
    ensures Store([dst, x], false, [v, u], s) == StoreOne(x, false, u, Update(s, dst, v))
  {
    var lhs, vals := [dst, x], [v, u];
    assert lhs[0] == dst && vals[0] == v && lhs[1..] == [x] && vals[1..] == [u];
    var lhs', vals' := [x], [u];
    assert lhs'[0] == x && vals'[0] == u && lhs'[1..] == [] && vals'[1..] == [];
    assert AssignAll(lhs', vals', Update(s, dst, v)) == StoreOne(x, false, u, Update(s, dst, v));
  }

  lemma StorePairDefine(dst: Name, v: Value, x: Name, u: Value, s: Scopes)
    requires dst != BLANK && x != BLANK && dst != x && s != [] && !InInnermost(s, x)
    ensures Store([dst, x], true, [v, u], s) == Some(Declare(Declare(s, dst, v), x, u))
  {
    var lhs, vals := [dst, x], [v, u];
    assert lhs[0] == dst && lhs[1] == x && vals[0] == v && lhs[1..] == [x] && vals[1..] == [u];
    var lhs', vals' := [x], [u];
    assert lhs'[0] == x && vals'[0] == u && lhs'[1..] == [] && vals'[1..] == [];
    assert DefineAll(lhs', vals', Declare(s, dst, v)) == Some(Declare(Declare(s, dst, v), x, u));
  }

  // What the original statement does.
  lemma CallStatementRuns(s: Stmt, st: State, fuel: nat, w: World)
    requires IsCallStatement(s) && st.scopes != []
    ensures var f, dst := CallOf(s).f, CallOf(s).dst;
      if Operands(f, st.scopes).None? || Lookup(st.scopes, dst).None? then Exec(s, st, fuel, w).signal == Stuck
      else
        var trace := st.trace + [Fetched(Operands(f, st.scopes).value)];
        var after := StoreOne(ErrorName(s), Defines(s), ErrorOf(w(trace)), StoreOf(w(trace), st.scopes, dst));
        Exec(s, st, fuel, w) == if after.None? then Result(Stuck, st) else Result(Next, State(after.value, trace))
  {
    if s.Assign? {
      assert s.lhs == [s.lhs[0]];
      var f, dst := CallOf(s).f, CallOf(s).dst;
      if Operands(f, st.scopes).Some? {
        var a := w(st.trace + [Fetched(Operands(f, st.scopes).value)]);
        StoreOneIs(s.lhs[0], s.define, ErrorOf(a), StoreOf(a, st.scopes, dst));
      }
    }
  }

  predicate Keeps(a: Answer, s: Scopes, dst: Name, zero: Value) {
    a.Found? || Lookup(s, dst) == Some(zero)
  }

  // Exactly when the rewritten statement ends in the original's state: a `:=`
  // must find dst in its own block, and the call succeeds or dst already
  // holds the zero value the rewritten form stores on failure.
  lemma StatementPreservedIff(s: Stmt, typ: string, zero: Value, st: State, fuel: nat, w: World)
    requires IsCallStatement(s) && st.scopes != []
    requires Exec(s, st, fuel, w).signal != Stuck
    requires CallOf(s).dst != BLANK && CallOf(s).dst != ErrorName(s)
    ensures var f, dst := CallOf(s).f, CallOf(s).dst;
      && Operands(f, st.scopes).Some?
      && (Exec(RewriteStatement(s, typ, zero).value, st, fuel, w) == Exec(s, st, fuel, w)
          <==> && (Defines(s) ==> InInnermost(st.scopes, dst))
               && Keeps(w(st.trace + [Fetched(Operands(f, st.scopes).value)]), st.scopes, dst, zero))
  {
    CallStatementRuns(s, st, fuel, w);
    if Defines(s) {
      DefinePreservedIff(s, typ, zero, st, fuel, w);
    } else {
      PlainPreservedIff(s, typ, zero, st, fuel, w);
    }
  }

  lemma PlainPreservedIff(s: Stmt, typ: string, zero: Value, st: State, fuel: nat, w: World)
    requires IsCallStatement(s) && st.scopes != [] && !Defines(s)
    requires Exec(s, st, fuel, w).signal != Stuck
    requires CallOf(s).dst != BLANK && CallOf(s).dst != ErrorName(s)
    requires Operands(CallOf(s).f, st.scopes).Some? && Lookup(st.scopes, CallOf(s).dst).Some?
    ensures Exec(RewriteStatement(s, typ, zero).value, st, fuel, w) == Exec(s, st, fuel, w)
      <==> Keeps(w(st.trace + [Fetched(Operands(CallOf(s).f, st.scopes).value)]), st.scopes, CallOf(s).dst, zero)
  {
    CallStatementRuns(s, st, fuel, w);
    var f, dst, err := CallOf(s).f, CallOf(s).dst, ErrorName(s);
    var trace := st.trace + [Fetched(Operands(f, st.scopes).value)];
    var a := w(trace);
    StorePairPlain(dst, ValueOf(a, zero), err, ErrorOf(a), st.scopes);
    var stored := Update(st.scopes, dst, ValueOf(a, zero));
    LookupUpdate(st.scopes, dst, ValueOf(a, zero), err);
    if a.Refused? {
      if Lookup(st.scopes, dst) == Some(zero) {
        UpdateSame(st.scopes, dst, zero);
      } else {
        LookupUpdate(st.scopes, dst, zero, dst);
        LookupUpdate(stored, err, ErrorOf(a), dst);
        LookupUpdate(st.scopes, err, ErrorOf(a), dst);
      }
    }
  }

  lemma DefinePreservedIff(s: Stmt, typ: string, zero: Value, st: State, fuel: nat, w: World)
    requires IsCallStatement(s) && st.scopes != [] && Defines(s)
    requires Exec(s, st, fuel, w).signal != Stuck
    requires CallOf(s).dst != BLANK && CallOf(s).dst != ErrorName(s)
    requires Operands(CallOf(s).f, st.scopes).Some? && Lookup(st.scopes, CallOf(s).dst).Some?
    ensures Exec(RewriteStatement(s, typ, zero).value, st, fuel, w) == Exec(s, st, fuel, w)
      <==> && InInnermost(st.scopes, CallOf(s).dst)
           && Keeps(w(st.trace + [Fetched(Operands(CallOf(s).f, st.scopes).value)]), st.scopes, CallOf(s).dst, zero)
  {
    CallStatementRuns(s, st, fuel, w);
    var f, dst, err := CallOf(s).f, CallOf(s).dst, ErrorName(s);
    var a := w(st.trace + [Fetched(Operands(f, st.scopes).value)]);
    var was, n := st.scopes, |st.scopes| - 1;
    var stored := StoreOf(a, was, dst);
    assert err in stored[n] <==> err in was[n];
    StorePairDefine(dst, ValueOf(a, zero), err, ErrorOf(a), was);
    var before := Declare(stored, err, ErrorOf(a));
    var after := Declare(Declare(was, dst, ValueOf(a, zero)), err, ErrorOf(a));
    assert dst in after[n];
    if !InInnermost(was, dst) {
      assert dst !in before[n];
    } else {
      assert after[n][dst] == ValueOf(a, zero);
      DeclareKnown(was, dst, ValueOf(a, zero));
      if a.Refused? {
        assert before[n][dst] == was[n][dst] && Lookup(was, dst) == Some(was[n][dst]);
        if was[n][dst] == zero {
          UpdateSame(was, dst, zero);
        }
      }
    }
  }
}
