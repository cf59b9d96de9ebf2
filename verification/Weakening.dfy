// Running code in a scope that holds one more, unknown, name changes nothing.
module Weakening {
  import opened Options
  import opened Lang

  // `b` is `a` with the name x added to scope k; x is bound at or below
  // scope k of `a` nowhere.
  ghost predicate Extended(a: Scopes, b: Scopes, k: nat, x: Name, v: Value) {
    && |a| == |b| && k < |a|
    && (forall i :: 0 <= i < |a| && i != k ==> a[i] == b[i])
    && b[k] == a[k][x := v]
    && (forall i :: 0 <= i <= k ==> x !in a[i])
  }

  ghost predicate ExtendedState(a: State, b: State, k: nat, x: Name, v: Value) {
    Extended(a.scopes, b.scopes, k, x, v) && a.trace == b.trace
  }

  lemma {:induction false} LookupExtended(a: Scopes, b: Scopes, k: nat, x: Name, v: Value, y: Name)
    requires Extended(a, b, k, x, v)
    requires y != x || Lookup(a, y).Some?
    ensures Lookup(b, y) == Lookup(a, y)
    decreases |a|
  {
    var a', b' := a[..|a| - 1], b[..|b| - 1];
    if |a| - 1 == k {
      assert a' == b';
      if y == x {
        NotBound(a', x);
      }
    } else if y !in a[|a| - 1] {
      LookupExtended(a', b', k, x, v, y);
    }
  }

  lemma {:induction false} NotBound(s: Scopes, x: Name)
    requires forall i :: 0 <= i < |s| ==> x !in s[i]
    ensures Lookup(s, x) == None
  {
    if s != [] {
      NotBound(s[..|s| - 1], x);
    }
  }

  lemma {:induction false} UpdateExtended(a: Scopes, b: Scopes, k: nat, x: Name, v: Value, y: Name, u: Value)
    requires Extended(a, b, k, x, v)
    requires Lookup(a, y).Some?
    ensures Extended(Update(a, y, u), Update(b, y, u), k, x, v)
    decreases |a|
  {
    var a', b' := a[..|a| - 1], b[..|b| - 1];
    if |a| - 1 == k {
      assert a' == b';
      if y == x {
        NotBound(a', x);
      } else if y in a[k] {
        assert b[k][y := u] == a[k][y := u][x := v];
      } else {
        UpdateKeeps(a', x, y, u);
      }
    } else if y !in a[|a| - 1] {
      UpdateExtended(a', b', k, x, v, y, u);
    }
  }

  // Updating one name binds no other.
  lemma {:induction false} UpdateKeeps(s: Scopes, x: Name, y: Name, u: Value)
    requires forall i :: 0 <= i < |s| ==> x !in s[i]
    ensures forall i :: 0 <= i < |s| ==> x !in Update(s, y, u)[i]
  {
    if s != [] && y !in s[|s| - 1] {
      UpdateKeeps(s[..|s| - 1], x, y, u);
    }
  }

  lemma {:induction false} EvalExtended(e: Expr, a: Scopes, b: Scopes, k: nat, x: Name, v: Value)
    requires Extended(a, b, k, x, v) && Eval(e, a).Some?
    ensures Eval(e, b) == Eval(e, a)
  {
    match e
    case Lit(_, _) =>
    case Var(y) => LookupExtended(a, b, k, x, v, y);
    case NotNil(e1) => EvalExtended(e1, a, b, k, x, v);
    case IsNil(e1) => EvalExtended(e1, a, b, k, x, v);
    case Not(e1) => EvalExtended(e1, a, b, k, x, v);
    case And(l, r) => EvalExtended(l, a, b, k, x, v); EvalExtended(r, a, b, k, x, v);
    case Or(l, r) => EvalExtended(l, a, b, k, x, v); EvalExtended(r, a, b, k, x, v);
  }

  lemma OperandsExtended(f: Fetch, a: Scopes, b: Scopes, k: nat, x: Name, v: Value)
    requires Extended(a, b, k, x, v) && Operands(f, a).Some?
    ensures Operands(f, b) == Operands(f, a)
  {
    match f
    case Get(_, obj, field) => EvalExtended(obj, a, b, k, x, v); EvalExtended(field, a, b, k, x, v);
    case Export(_, key) => EvalExtended(key, a, b, k, x, v);
  }

  lemma RhsExtended(r: Rhs, a: State, b: State, k: nat, x: Name, v: Value, w: World)
    requires ExtendedState(a, b, k, x, v) && EvalRhs(r, a, w).Some?
    ensures EvalRhs(r, b, w).Some?
    ensures EvalRhs(r, b, w).value.0 == EvalRhs(r, a, w).value.0
    ensures ExtendedState(EvalRhs(r, a, w).value.1, EvalRhs(r, b, w).value.1, k, x, v)
  {
    match r
    case Pure(e) => EvalExtended(e, a.scopes, b.scopes, k, x, v);
    case Into(f, dst) =>
      OperandsExtended(f, a.scopes, b.scopes, k, x, v);
      LookupExtended(a.scopes, b.scopes, k, x, v, dst);
      var trace := a.trace + [Fetched(Operands(f, a.scopes).value)];
      if w(trace).Found? {
        UpdateExtended(a.scopes, b.scopes, k, x, v, dst, w(trace).v);
      }
    case Typed(f, _, _) => OperandsExtended(f, a.scopes, b.scopes, k, x, v);
  }

  lemma {:induction false} AssignExtended(lhs: seq<Name>, vals: seq<Value>, a: Scopes, b: Scopes, k: nat, x: Name,
                                          v: Value)
    requires |lhs| == |vals| && Extended(a, b, k, x, v)
    requires AssignAll(lhs, vals, a).Some?
    ensures AssignAll(lhs, vals, b).Some?
    ensures Extended(AssignAll(lhs, vals, a).value, AssignAll(lhs, vals, b).value, k, x, v)
  {
    if lhs != [] {
      if lhs[0] == BLANK {
        AssignExtended(lhs[1..], vals[1..], a, b, k, x, v);
      } else {
        LookupExtended(a, b, k, x, v, lhs[0]);
        UpdateExtended(a, b, k, x, v, lhs[0], vals[0]);
        AssignExtended(lhs[1..], vals[1..], Update(a, lhs[0], vals[0]), Update(b, lhs[0], vals[0]), k, x, v);
      }
    }
  }

  lemma {:induction false} DefineExtended(lhs: seq<Name>, vals: seq<Value>, a: Scopes, b: Scopes, k: nat, x: Name,
                                          v: Value)
    requires |lhs| == |vals| && Extended(a, b, k, x, v) && k < |a| - 1
    ensures DefineAll(lhs, vals, a).Some? && DefineAll(lhs, vals, b).Some?
    ensures Extended(DefineAll(lhs, vals, a).value, DefineAll(lhs, vals, b).value, k, x, v)
  {
    if lhs != [] {
      if lhs[0] == BLANK {
        DefineExtended(lhs[1..], vals[1..], a, b, k, x, v);
      } else {
        DefineExtended(lhs[1..], vals[1..], Declare(a, lhs[0], vals[0]), Declare(b, lhs[0], vals[0]), k, x, v);
      }
    }
  }

  lemma StoreExtended(lhs: seq<Name>, define: bool, vals: seq<Value>, a: Scopes, b: Scopes, k: nat, x: Name, v: Value)
    requires Extended(a, b, k, x, v) && k < |a| - 1
    requires Store(lhs, define, vals, a).Some?
    ensures Store(lhs, define, vals, b).Some?
    ensures Extended(Store(lhs, define, vals, a).value, Store(lhs, define, vals, b).value, k, x, v)
  {
    if !define {
      AssignExtended(lhs, vals, a, b, k, x, v);
    } else {
      DefineExtended(lhs, vals, a, b, k, x, v);
      assert a[|a| - 1] == b[|b| - 1];
      var i :| 0 <= i < |lhs| && lhs[i] != BLANK && !InInnermost(a, lhs[i]);
      assert !InInnermost(b, lhs[i]);
    }
  }

  lemma PushExtended(a: State, b: State, k: nat, x: Name, v: Value)
    requires ExtendedState(a, b, k, x, v)
    ensures ExtendedState(a.(scopes := Push(a.scopes)), b.(scopes := Push(b.scopes)), k, x, v)
  {
  }

  lemma PopExtended(a: State, b: State, k: nat, x: Name, v: Value)
    requires ExtendedState(a, b, k, x, v) && k < |a.scopes| - 1
    ensures ExtendedState(Pop(a), Pop(b), k, x, v)
  {
  }

  // Any statement that can run without the name runs the same with it: same
  // signal, same events, same scopes but for the extra name.
  lemma {:induction false} ExecExtended(s: Stmt, a: State, b: State, k: nat, x: Name, v: Value, fuel: nat, w: World)
    requires ExtendedState(a, b, k, x, v) && k < |a.scopes| - 1
    requires Exec(s, a, fuel, w).signal != Stuck
    ensures Exec(s, b, fuel, w).signal == Exec(s, a, fuel, w).signal
    ensures ExtendedState(Exec(s, a, fuel, w).state, Exec(s, b, fuel, w).state, k, x, v)
    ensures |Exec(s, a, fuel, w).state.scopes| == |a.scopes|
    decreases fuel, s, 1
  {
    match s
    case Skip =>
    case Seq(p, q) =>
      ExecExtended(p, a, b, k, x, v, fuel, w);
      var ra, rb := Exec(p, a, fuel, w), Exec(p, b, fuel, w);
      if ra.signal == Next {
        ExecExtended(q, ra.state, rb.state, k, x, v, fuel, w);
      }
    case Assign(lhs, define, rhs) =>
      RhsExtended(rhs, a, b, k, x, v, w);
      StoreExtended(lhs, define, EvalRhs(rhs, a, w).value.0,
        EvalRhs(rhs, a, w).value.1.scopes, EvalRhs(rhs, b, w).value.1.scopes, k, x, v);
      StoreLength(lhs, define, EvalRhs(rhs, a, w).value.0, EvalRhs(rhs, a, w).value.1.scopes);
    case Do(call) =>
      RhsExtended(call, a, b, k, x, v, w);
    case Emit(e) =>
      EvalExtended(e, a.scopes, b.scopes, k, x, v);
    case Return(e) =>
      EvalExtended(e, a.scopes, b.scopes, k, x, v);
    case Break =>
    case Continue =>
    case Block(body) =>
      BlockExtended(body, a, b, k, x, v, fuel, w);
    case If(init, cond, thn, els) =>
      IfExtended(init, cond, thn, els, a, b, k, x, v, fuel, w);
    case For(cond, body) =>
      EvalExtended(cond, a.scopes, b.scopes, k, x, v);
      if BoolOf(Eval(cond, a.scopes)).value && fuel > 0 {
        BlockExtended(body, a, b, k, x, v, fuel, w);
        var ra, rb := InBlock(body, a, fuel, w), InBlock(body, b, fuel, w);
        if ra.signal == Next || ra.signal == Continued {
          ExecExtended(s, ra.state, rb.state, k, x, v, fuel - 1, w);
        }
      }
  }

  lemma {:induction false} IfExtended(init: Stmt, cond: Expr, thn: Stmt, els: Stmt, a: State, b: State, k: nat,
                                      x: Name, v: Value, fuel: nat, w: World)
    requires ExtendedState(a, b, k, x, v) && k < |a.scopes| - 1
    requires Exec(If(init, cond, thn, els), a, fuel, w).signal != Stuck
    ensures Exec(If(init, cond, thn, els), b, fuel, w).signal == Exec(If(init, cond, thn, els), a, fuel, w).signal
    ensures ExtendedState(Exec(If(init, cond, thn, els), a, fuel, w).state,
      Exec(If(init, cond, thn, els), b, fuel, w).state, k, x, v)
    ensures |Exec(If(init, cond, thn, els), a, fuel, w).state.scopes| == |a.scopes|
    decreases fuel, If(init, cond, thn, els), 0
  {
    PushExtended(a, b, k, x, v);
    var a', b' := a.(scopes := Push(a.scopes)), b.(scopes := Push(b.scopes));
    ExecExtended(init, a', b', k, x, v, fuel, w);
    var ra, rb := Exec(init, a', fuel, w), Exec(init, b', fuel, w);
    if ra.signal == Next {
      EvalExtended(cond, ra.state.scopes, rb.state.scopes, k, x, v);
      var arm := if BoolOf(Eval(cond, ra.state.scopes)).value then thn else els;
      BlockExtended(arm, ra.state, rb.state, k, x, v, fuel, w);
      PopExtended(InBlock(arm, ra.state, fuel, w).state, InBlock(arm, rb.state, fuel, w).state, k, x, v);
    } else {
      PopExtended(ra.state, rb.state, k, x, v);
    }
  }

  lemma {:induction false} BlockExtended(body: Stmt, a: State, b: State, k: nat, x: Name, v: Value, fuel: nat, w: World)
    requires ExtendedState(a, b, k, x, v)
    requires InBlock(body, a, fuel, w).signal != Stuck
    ensures InBlock(body, b, fuel, w).signal == InBlock(body, a, fuel, w).signal
    ensures ExtendedState(InBlock(body, a, fuel, w).state, InBlock(body, b, fuel, w).state, k, x, v)
    ensures |InBlock(body, a, fuel, w).state.scopes| == |a.scopes|
    decreases fuel, body, 2
  {
    PushExtended(a, b, k, x, v);
    ExecExtended(body, a.(scopes := Push(a.scopes)), b.(scopes := Push(b.scopes)), k, x, v, fuel, w);
    PopExtended(Exec(body, a.(scopes := Push(a.scopes)), fuel, w).state,
      Exec(body, b.(scopes := Push(b.scopes)), fuel, w).state, k, x, v);
  }

  lemma {:induction false} StoreLength(lhs: seq<Name>, define: bool, vals: seq<Value>, s: Scopes)
    requires Store(lhs, define, vals, s).Some?
    ensures |Store(lhs, define, vals, s).value| == |s|
  {
    if define {
      DefineLength(lhs, vals, s);
    } else {
      AssignLength(lhs, vals, s);
    }
  }

  lemma {:induction false} AssignLength(lhs: seq<Name>, vals: seq<Value>, s: Scopes)
    requires |lhs| == |vals| && AssignAll(lhs, vals, s).Some?
    ensures |AssignAll(lhs, vals, s).value| == |s|
  {
    if lhs != [] {
      AssignLength(lhs[1..], vals[1..], if lhs[0] == BLANK then s else Update(s, lhs[0], vals[0]));
    }
  }

  lemma {:induction false} DefineLength(lhs: seq<Name>, vals: seq<Value>, s: Scopes)
    requires |lhs| == |vals| && DefineAll(lhs, vals, s).Some?
    ensures |DefineAll(lhs, vals, s).value| == |s|
  {
    if lhs != [] {
      DefineLength(lhs[1..], vals[1..], if lhs[0] == BLANK then s else Declare(s, lhs[0], vals[0]));
    }
  }
}
