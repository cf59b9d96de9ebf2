// The statement rewrites of fixGetToField and fixJWKExportGeneric, and when
// the rewritten statement means what the original did.
module GetRewrite {
  import opened Options
  import opened Lang
  import opened Weakening

  // A statement that cannot be run (it would not compile) promises nothing;
  // any other must keep its signal, its events and every scope.
  predicate Preserved(before: Result, after: Result) {
    before.signal != Stuck ==> after == before
  }

  // ---- if-init: introduce a temporary and copy it back in an else --------

  // None where the fixer declines: an else is already there, or the init is
  // not one name set from the call.
  function RewriteIfInit(s: Stmt, tmp: Name, typ: string, zero: Value): Option<Stmt> {
    if s.If? && s.els == Skip && s.init.Assign? && |s.init.lhs| == 1 && s.init.rhs.Into? then
      var call := s.init.rhs;
      Some(If(Assign([tmp, s.init.lhs[0]], s.init.define, Typed(call.f, typ, zero)),
              s.cond, s.thn,
              Assign([call.dst], false, Pure(Var(tmp)))))
    else None
  }

  function IfInit(f: Fetch, define: bool, err: Name, dst: Name, cond: Expr, body: Stmt): Stmt {
    If(Assign([err], define, Into(f, dst)), cond, body, Skip)
  }

  function Mentions(e: Expr): set<Name> {
    match e
    case Lit(_, _) => {}
    case Var(x) => {x}
    case NotNil(e1) => Mentions(e1)
    case IsNil(e1) => Mentions(e1)
    case Not(e1) => Mentions(e1)
    case And(l, r) => Mentions(l) + Mentions(r)
    case Or(l, r) => Mentions(l) + Mentions(r)
  }

  function TestAt(cond: Expr, err: Name, v: Value): Option<bool> {
    BoolOf(Eval(cond, [map[err := v]]))
  }

  // The condition is a boolean test of err and nothing else.
  predicate IsTestOf(cond: Expr, err: Name) {
    Mentions(cond) <= {err} && TestAt(cond, err, Nil).Some? && TestAt(cond, err, Error(0)).Some?
  }

  // It is true of an error and false of nil, as `err != nil` is.
  predicate TestsError(cond: Expr, err: Name) {
    IsTestOf(cond, err) && TestAt(cond, err, Nil) == Some(false) && TestAt(cond, err, Error(0)) == Some(true)
  }

  predicate BoundNowhere(s: Scopes, x: Name) {
    forall i :: 0 <= i < |s| ==> x !in s[i]
  }

  lemma {:induction false} LookupUpdate(s: Scopes, x: Name, v: Value, y: Name)
    ensures Lookup(Update(s, x, v), y) == if y == x && Lookup(s, x).Some? then Some(v) else Lookup(s, y)
  {
    if s != [] && x !in s[|s| - 1] {
      LookupUpdate(s[..|s| - 1], x, v, y);
      assert Update(s, x, v)[..|s| - 1] == Update(s[..|s| - 1], x, v);
    } else if s != [] {
      assert Update(s, x, v)[..|s| - 1] == s[..|s| - 1];
    }
  }

  lemma {:induction false} UpdateSame(s: Scopes, x: Name, v: Value)
    requires Lookup(s, x) == Some(v)
    ensures Update(s, x, v) == s
  {
    if x in s[|s| - 1] {
      assert s[|s| - 1][x := v] == s[|s| - 1];
    } else {
      UpdateSame(s[..|s| - 1], x, v);
      assert s == s[..|s| - 1] + [s[|s| - 1]];
    }
  }

  // An expression depends on the names it mentions only ...
  lemma {:induction false} EvalAgree(e: Expr, s: Scopes, t: Scopes)
    requires forall x :: x in Mentions(e) ==> Lookup(s, x) == Lookup(t, x)
    ensures Eval(e, s) == Eval(e, t)
  {
    match e
    case Lit(_, _) =>
    case Var(x) => assert x in Mentions(e);
    case NotNil(e1) => EvalAgree(e1, s, t);
    case IsNil(e1) => EvalAgree(e1, s, t);
    case Not(e1) => EvalAgree(e1, s, t);
    case And(l, r) => EvalAgree(l, s, t); EvalAgree(r, s, t);
    case Or(l, r) => EvalAgree(l, s, t); EvalAgree(r, s, t);
  }

  // ... and has a value only where all of them are bound.
  lemma {:induction false} MentionsBound(e: Expr, s: Scopes)
    requires Eval(e, s).Some?
    ensures forall x :: x in Mentions(e) ==> Lookup(s, x).Some?
  {
    match e
    case Lit(_, _) =>
    case Var(x) =>
    case NotNil(e1) => MentionsBound(e1, s);
    case IsNil(e1) => MentionsBound(e1, s);
    case Not(e1) => MentionsBound(e1, s);
    case And(l, r) => MentionsBound(l, s); MentionsBound(r, s);
    case Or(l, r) => MentionsBound(l, s); MentionsBound(r, s);
  }

  lemma EvalLocal(e: Expr, err: Name, v: Value, s: Scopes)
    requires Mentions(e) <= {err} && Lookup(s, err) == Some(v)
    ensures Eval(e, s) == Eval(e, [map[err := v]])
  {
    EvalAgree(e, s, [map[err := v]]);
  }

  // A store the condition may be evaluated in: err holds nil or an error, dst
  // is bound and the temporary is not.
  ghost predicate Meets(s: Scopes, tmp: Name, err: Name, dst: Name) {
    && BoundNowhere(s, tmp) && Lookup(s, dst).Some?
    && Lookup(s, err).Some? && (Lookup(s, err).value.Nil? || Lookup(s, err).value.Error?)
  }

  // Where the condition is a boolean it says what `err != nil` says, and with
  // a nil error it is one whatever value dst has.
  ghost predicate TellsErrors(cond: Expr, tmp: Name, err: Name, dst: Name) {
    forall s :: Meets(s, tmp, err, dst) && BoolOf(Eval(cond, s)).Some? ==> TellsErrorIn(cond, s, err, dst)
  }

  ghost predicate TellsErrorIn(cond: Expr, s: Scopes, err: Name, dst: Name) {
    && BoolOf(Eval(cond, s)) == Some(Lookup(s, err) != Some(Nil))
    && (Lookup(s, err) == Some(Nil) ==> forall u :: BoolOf(Eval(cond, Update(s, dst, u))).Some?)
  }

  // The condition is a boolean in some such store.
  ghost predicate CanRun(cond: Expr, tmp: Name, err: Name, dst: Name) {
    exists s :: Meets(s, tmp, err, dst) && BoolOf(Eval(cond, s)).Some?
  }

  // One error is as good as another to a condition.
  lemma {:induction false} ErrorCodeIrrelevant(e: Expr, err: Name, c: nat, d: nat)
    ensures var x, y := Eval(e, [map[err := Error(c)]]), Eval(e, [map[err := Error(d)]]);
      && x.Some? == y.Some? && BoolOf(x) == BoolOf(y)
      && (x.Some? ==> (x.value == Nil) == (y.value == Nil))
  {
    match e
    case Lit(_, _) =>
    case Var(x) =>
      assert Lookup([map[err := Error(c)]][..0], x) == None;
    case NotNil(e1) => ErrorCodeIrrelevant(e1, err, c, d);
    case IsNil(e1) => ErrorCodeIrrelevant(e1, err, c, d);
    case Not(e1) => ErrorCodeIrrelevant(e1, err, c, d);
    case And(l, r) => ErrorCodeIrrelevant(l, err, c, d); ErrorCodeIrrelevant(r, err, c, d);
    case Or(l, r) => ErrorCodeIrrelevant(l, err, c, d); ErrorCodeIrrelevant(r, err, c, d);
  }

  // The connectives, on expressions that are boolean in a store, and the two
  // comparisons with nil.
  lemma ConnectivesMean(a: Expr, b: Expr, s: Scopes, p: bool, q: bool)
    requires Eval(a, s) == Some(Bool(p)) && Eval(b, s) == Some(Bool(q))
    ensures Eval(Not(a), s) == Some(Bool(if p then false else true))
    ensures Eval(And(a, b), s) == Some(Bool(if p then q else false))
    ensures Eval(Or(a, b), s) == Some(Bool(if p then true else q))
  {
  }

  lemma ComparisonsMean(e: Expr, s: Scopes)
    requires Eval(e, s).Some?
    ensures Eval(e, s) == Some(Nil) ==>
      Eval(IsNil(e), s) == Some(Bool(true)) && Eval(NotNil(e), s) == Some(Bool(false))
    ensures Eval(e, s) != Some(Nil) ==>
      Eval(IsNil(e), s) == Some(Bool(false)) && Eval(NotNil(e), s) == Some(Bool(true))
  {
  }

  // An empty innermost scope hides nothing.
  lemma {:induction false} EvalPushed(e: Expr, s: Scopes)
    ensures Eval(e, Push(s)) == Eval(e, s)
  {
    assert Push(s)[..|s|] == s;
    match e
    case Lit(_, _) =>
    case Var(x) =>
    case NotNil(e1) => EvalPushed(e1, s);
    case IsNil(e1) => EvalPushed(e1, s);
    case Not(e1) => EvalPushed(e1, s);
    case And(l, r) => EvalPushed(l, s); EvalPushed(r, s);
    case Or(l, r) => EvalPushed(l, s); EvalPushed(r, s);
  }

  lemma OperandsPushed(f: Fetch, s: Scopes)
    ensures Operands(f, Push(s)) == Operands(f, s)
  {
    match f
    case Get(_, obj, field) => EvalPushed(obj, s); EvalPushed(field, s);
    case Export(_, key) => EvalPushed(key, s);
  }

  // The error, the value and the outer store an answer leads to.
  function ErrorOf(a: Answer): Value {
    if a.Found? then Nil else Error(a.code)
  }

  function ValueOf(a: Answer, zero: Value): Value {
    if a.Found? then a.v else zero
  }

  function StoreOf(a: Answer, s: Scopes, dst: Name): Scopes {
    if a.Found? then Update(s, dst, a.v) else s
  }

  // The two inits, run in the scope of the if.
  lemma InitsRun(f: Fetch, typ: string, zero: Value, tmp: Name, err: Name, dst: Name, st: State, fuel: nat, w: World)
    requires err != BLANK && tmp != BLANK && tmp != err
    requires Operands(f, st.scopes).Some? && Lookup(st.scopes, dst).Some?
    ensures var trace := st.trace + [Fetched(Operands(f, st.scopes).value)]; var a := w(trace);
      && Exec(Assign([err], true, Into(f, dst)), st.(scopes := Push(st.scopes)), fuel, w)
         == Result(Next, State(StoreOf(a, st.scopes, dst) + [map[err := ErrorOf(a)]], trace))
      && Exec(Assign([tmp, err], true, Typed(f, typ, zero)), st.(scopes := Push(st.scopes)), fuel, w)
         == Result(Next, State(st.scopes + [map[tmp := ValueOf(a, zero), err := ErrorOf(a)]], trace))
  {
    var s := st.scopes;
    OperandsPushed(f, s);
    var a := w(st.trace + [Fetched(Operands(f, s).value)]);
    UpdateUnder(s, map[], dst, ValueOf(a, zero));
    DefineOne(err, ErrorOf(a), StoreOf(a, s, dst));
    DefineTwo(tmp, ValueOf(a, zero), err, ErrorOf(a), s);
  }

  lemma AssignOne(x: Name, v: Value, s: Scopes)
    requires x != BLANK
    ensures Store([x], false, [v], s) == if Lookup(s, x).None? then None else Some(Update(s, x, v))
  {
    var lhs, vals := [x], [v];
    assert lhs[0] == x && vals[0] == v && lhs[1..] == [] && vals[1..] == [];
    assert AssignAll(lhs[1..], vals[1..], Update(s, x, v)) == Some(Update(s, x, v));
  }

  lemma DefineOne(x: Name, v: Value, s: Scopes)
    requires x != BLANK
    ensures Store([x], true, [v], Push(s)) == Some(s + [map[x := v]])
  {
    var lhs, vals := [x], [v];
    assert lhs[0] == x && vals[0] == v && lhs[1..] == [] && vals[1..] == [];
    assert !InInnermost(Push(s), lhs[0]);
    assert Declare(Push(s), x, v) == s + [map[x := v]];
    assert DefineAll(lhs[1..], vals[1..], Declare(Push(s), x, v)) == Some(Declare(Push(s), x, v));
  }

  lemma DefineTwo(x: Name, v: Value, y: Name, u: Value, s: Scopes)
    requires x != BLANK && y != BLANK && x != y
    ensures Store([x, y], true, [v, u], Push(s)) == Some(s + [map[x := v, y := u]])
  {
    var lhs, vals := [x, y], [v, u];
    assert lhs[0] == x && vals[0] == v && lhs[1..] == [y] && vals[1..] == [u];
    assert !InInnermost(Push(s), lhs[0]);
    var t := s + [map[x := v]];
    assert Declare(Push(s), x, v) == t;
    assert Declare(t, y, u) == s + [map[x := v, y := u]];
    var lhs', vals' := [y], [u];
    assert lhs'[0] == y && vals'[0] == u && lhs'[1..] == [] && vals'[1..] == [];
    assert DefineAll(lhs'[1..], vals'[1..], Declare(t, y, u)) == Some(Declare(t, y, u));
    assert DefineAll(lhs', vals', t) == Some(Declare(t, y, u));
  }

  // One unfolding of an if whose init ran and whose condition is a boolean.
  lemma ExecIf(init: Stmt, cond: Expr, thn: Stmt, els: Stmt, st: State, mid: State, b: bool, fuel: nat, w: World)
    requires Exec(init, st.(scopes := Push(st.scopes)), fuel, w) == Result(Next, mid)
    requires BoolOf(Eval(cond, mid.scopes)) == Some(b)
    ensures var t := InBlock(if b then thn else els, mid, fuel, w);
      Exec(If(init, cond, thn, els), st, fuel, w) == Result(t.signal, Pop(t.state))
  {
  }

  lemma ExecIfStuck(init: Stmt, cond: Expr, thn: Stmt, els: Stmt, st: State, mid: State, fuel: nat, w: World)
    requires Exec(init, st.(scopes := Push(st.scopes)), fuel, w) == Result(Next, mid)
    requires BoolOf(Eval(cond, mid.scopes)).None?
    ensures Exec(If(init, cond, thn, els), st, fuel, w) == Result(Stuck, st)
  {
  }

  lemma {:induction false} UpdateUnder(s: Scopes, top: Scope, x: Name, v: Value)
    requires x !in top
    ensures Update(s + [top], x, v) == Update(s, x, v) + [top]
    ensures Lookup(s + [top], x) == Lookup(s, x)
  {
    assert (s + [top])[..|s|] == s;
  }

  // The generated else block copies the temporary to dst outside the if.
  lemma CopyBack(s: Scopes, trace: seq<Event>, tmp: Name, v: Value, err: Name, e: Value, dst: Name, fuel: nat, w: World)
    requires tmp != err && tmp != dst && err != dst && dst != BLANK && Lookup(s, dst).Some?
    ensures InBlock(Assign([dst], false, Pure(Var(tmp))), State(s + [map[tmp := v, err := e]], trace), fuel, w)
      == Result(Next, State(Update(s, dst, v) + [map[tmp := v, err := e]], trace))
  {
    var top: Scope := map[tmp := v, err := e];
    var inner := Push(s + [top]);
    UpdateUnder(s + [top], map[], tmp, v);
    assert Lookup(inner, tmp) == Some(v);
    UpdateUnder(s, top, dst, v);
    UpdateUnder(s + [top], map[], dst, v);
    AssignOne(dst, v, inner);
    var u := Update(s, dst, v) + [top];
    assert Exec(Assign([dst], false, Pure(Var(tmp))), State(inner, trace), fuel, w)
      == Result(Next, State(Push(u), trace));
    PopAppended(u, map[], trace);
  }

  lemma AddTemporary(s: Scopes, trace: seq<Event>, tmp: Name, zero: Value, err: Name, e: Value)
    requires BoundNowhere(s, tmp) && tmp != err
    ensures ExtendedState(State(s + [map[err := e]], trace), State(s + [map[tmp := zero, err := e]], trace), |s|,
      tmp, zero)
  {
    var a, b := s + [map[err := e]], s + [map[tmp := zero, err := e]];
    assert b[|s|] == a[|s|][tmp := zero];
  }

  // Whatever the call answers, whatever the body does: same signal, same
  // events, same scopes, with dst untouched when the call fails.
  lemma IfInitPreserved(f: Fetch, typ: string, zero: Value, tmp: Name, err: Name, dst: Name, cond: Expr, body: Stmt,
                        st: State, fuel: nat, w: World)
    requires TellsErrors(cond, tmp, err, dst)
    requires BoundNowhere(st.scopes, tmp) && tmp != err && tmp != BLANK && err != dst && dst != BLANK
    ensures Preserved(Exec(IfInit(f, true, err, dst, cond, body), st, fuel, w),
                      Exec(RewriteIfInit(IfInit(f, true, err, dst, cond, body), tmp, typ, zero).value, st, fuel, w))
  {
    if Exec(IfInit(f, true, err, dst, cond, body), st, fuel, w).signal != Stuck {
      IfInitRuns(f, err, dst, cond, body, st, fuel, w);
      NotBound(st.scopes, tmp);
      if w(st.trace + [Fetched(Operands(f, st.scopes).value)]).Found? {
        IfInitFound(f, typ, zero, tmp, err, dst, cond, body, st, fuel, w);
      } else {
        IfInitRefused(f, typ, zero, tmp, err, dst, cond, body, st, fuel, w);
      }
    }
  }

  // The scopes in which the condition of the original is evaluated.
  function AfterInit(f: Fetch, err: Name, dst: Name, st: State, w: World): Scopes
    requires Operands(f, st.scopes).Some?
  {
    var a := w(st.trace + [Fetched(Operands(f, st.scopes).value)]);
    StoreOf(a, st.scopes, dst) + [map[err := ErrorOf(a)]]
  }

  // What a runnable if-init statement needs of the scopes.
  lemma IfInitRuns(f: Fetch, err: Name, dst: Name, cond: Expr, body: Stmt, st: State, fuel: nat, w: World)
    requires Exec(IfInit(f, true, err, dst, cond, body), st, fuel, w).signal != Stuck
    ensures err != BLANK && Operands(f, st.scopes).Some? && Lookup(st.scopes, dst).Some?
    ensures BoolOf(Eval(cond, AfterInit(f, err, dst, st, w))).Some?
  {
    var inner := st.(scopes := Push(st.scopes));
    assert Exec(Assign([err], true, Into(f, dst)), inner, fuel, w).signal != Stuck;
    OperandsPushed(f, st.scopes);
    assert Lookup(inner.scopes, dst) == Lookup(st.scopes, dst) by { UpdateUnder(st.scopes, map[], dst, Nil); }
    assert EvalRhs(Into(f, dst), inner, w).Some?;
    assert [err][0] == err;
    InitsRun(f, "", Nil, if err == "t" then "u" else "t", err, dst, st, fuel, w);
  }

  lemma LookupTop(s: Scopes, top: Scope, x: Name)
    ensures Lookup(s + [top], x) == if x in top then Some(top[x]) else Lookup(s, x)
  {
    assert (s + [top])[..|s|] == s;
  }

  // The condition of the original meets nil or an error, as the call answered.
  lemma AfterInitMeets(f: Fetch, tmp: Name, err: Name, dst: Name, st: State, w: World)
    requires BoundNowhere(st.scopes, tmp) && tmp != err && err != dst
    requires Operands(f, st.scopes).Some? && Lookup(st.scopes, dst).Some?
    ensures var m := AfterInit(f, err, dst, st, w); var a := w(st.trace + [Fetched(Operands(f, st.scopes).value)]);
      && Meets(m, tmp, err, dst) && Lookup(m, err) == Some(ErrorOf(a))
      && forall x :: x != err ==> Lookup(m, x) == if a.Found? && x == dst then Some(a.v) else Lookup(st.scopes, x)
  {
    var a := w(st.trace + [Fetched(Operands(f, st.scopes).value)]);
    var s := StoreOf(a, st.scopes, dst);
    UpdateKeeps(st.scopes, tmp, dst, ValueOf(a, Nil));
    forall x
      ensures Lookup(s + [map[err := ErrorOf(a)]], x) == if x == err then Some(ErrorOf(a)) else Lookup(s, x)
      ensures a.Found? ==> Lookup(s, x) == if x == dst then Some(a.v) else Lookup(st.scopes, x)
    {
      LookupTop(s, map[err := ErrorOf(a)], x);
      LookupUpdate(st.scopes, dst, ValueOf(a, Nil), x);
    }
  }

  lemma PopAppended(s: Scopes, top: Scope, trace: seq<Event>)
    ensures Pop(State(s + [top], trace)) == State(s, trace)
  {
    assert (s + [top])[..|s|] == s;
  }

  lemma SkipBlock(st: State, fuel: nat, w: World)
    ensures InBlock(Skip, st, fuel, w) == Result(Next, st)
  {
    assert Push(st.scopes)[..|st.scopes|] == st.scopes;
  }

  // Both statements up to the branch that the condition picks.
  lemma OriginalRuns(f: Fetch, err: Name, dst: Name, cond: Expr, body: Stmt, st: State, fuel: nat, w: World)
    requires err != BLANK && Operands(f, st.scopes).Some? && Lookup(st.scopes, dst).Some?
    requires BoolOf(Eval(cond, AfterInit(f, err, dst, st, w))).Some?
    ensures var m := AfterInit(f, err, dst, st, w);
      var t := InBlock(if BoolOf(Eval(cond, m)).value then body else Skip,
                       State(m, st.trace + [Fetched(Operands(f, st.scopes).value)]), fuel, w);
      Exec(IfInit(f, true, err, dst, cond, body), st, fuel, w) == Result(t.signal, Pop(t.state))
  {
    var m := AfterInit(f, err, dst, st, w);
    InitsRun(f, "", Nil, if err == "t" then "u" else "t", err, dst, st, fuel, w);
    ExecIf(Assign([err], true, Into(f, dst)), cond, body, Skip, st,
      State(m, st.trace + [Fetched(Operands(f, st.scopes).value)]), BoolOf(Eval(cond, m)).value, fuel, w);
  }

  // A call needs the values of its operands, and shows them in the trace.
  lemma OperandsMean(pkg: Name, x: Expr, y: Expr, s: Scopes)
    requires Eval(x, s).Some? && Eval(y, s).Some?
    ensures Operands(Get(pkg, x, y), s) == Some([Eval(x, s).value, Eval(y, s).value])
    ensures Operands(Export(pkg, x), s) == Some([Eval(x, s).value])
  {
  }

  // The usual statement, `if err := ..; err != nil { return err }`, in full: it
  // sets the destination and goes on, or returns the error and sets nothing.
  lemma UsualIfRuns(f: Fetch, err: Name, dst: Name, st: State, fuel: nat, w: World)
    requires err != BLANK && err != dst && Operands(f, st.scopes).Some? && Lookup(st.scopes, dst).Some?
    ensures var trace := st.trace + [Fetched(Operands(f, st.scopes).value)]; var a := w(trace);
      Exec(If(Assign([err], true, Into(f, dst)), NotNil(Var(err)), Return(Var(err)), Skip), st, fuel, w)
        == if a.Found? then Result(Next, State(Update(st.scopes, dst, a.v), trace))
           else Result(Returned(Error(a.code)), State(st.scopes, trace))
  {
    var cond, body := NotNil(Var(err)), Return(Var(err));
    var trace := st.trace + [Fetched(Operands(f, st.scopes).value)];
    var a := w(trace);
    var s, top := StoreOf(a, st.scopes, dst), map[err := ErrorOf(a)];
    LookupTop(s, top, err);
    assert AfterInit(f, err, dst, st, w) == s + [top];
    assert Eval(cond, s + [top]) == Some(Bool(a.Refused?));
    OriginalRuns(f, err, dst, cond, body, st, fuel, w);
    SkipBlock(State(s + [top], trace), fuel, w);
    ReturnsError(err, State(s + [top], trace), fuel, w);
    PopAppended(s, top, trace);
  }

  lemma ReturnsError(x: Name, st: State, fuel: nat, w: World)
    requires Lookup(st.scopes, x).Some?
    ensures InBlock(Return(Var(x)), st, fuel, w) == Result(Returned(Lookup(st.scopes, x).value), st)
  {
    EvalPushed(Var(x), st.scopes);
    PopAppended(st.scopes, map[], st.trace);
  }

  // The statement the rewrite gives.
  function CopyBackIf(f: Fetch, define: bool, typ: string, zero: Value, tmp: Name, err: Name, dst: Name, cond: Expr,
                      body: Stmt): Stmt {
    If(Assign([tmp, err], define, Typed(f, typ, zero)), cond, body, Assign([dst], false, Pure(Var(tmp))))
  }

  lemma RewriteGives(f: Fetch, define: bool, typ: string, zero: Value, tmp: Name, err: Name, dst: Name, cond: Expr,
                     body: Stmt)
    ensures RewriteIfInit(IfInit(f, define, err, dst, cond, body), tmp, typ, zero)
      == Some(CopyBackIf(f, define, typ, zero, tmp, err, dst, cond, body))
  {
    assert [err][0] == err;
  }

  // The fixer declines exactly the statements that are no if without an else
  // whose init sets one name from an out-pointer call.
  lemma DeclinesIff(s: Stmt, tmp: Name, typ: string, zero: Value)
    ensures RewriteIfInit(s, tmp, typ, zero).None? <==>
      forall f, define, err, dst, cond, body ::
        s != If(Assign([err], define, Into(f, dst)), cond, body, Skip)
  {
    if s.If? && s.els == Skip && s.init.Assign? && |s.init.lhs| == 1 && s.init.rhs.Into? {
      var call, err := s.init.rhs, s.init.lhs[0];
      assert s.init.lhs == [err];
      assert s == If(Assign([err], s.init.define, Into(call.f, call.dst)), s.cond, s.thn, Skip);
    }
  }

  // The scopes in which the condition of the rewritten form is evaluated.
  function AfterTyped(f: Fetch, zero: Value, tmp: Name, err: Name, st: State, w: World): Scopes
    requires Operands(f, st.scopes).Some?
  {
    var a := w(st.trace + [Fetched(Operands(f, st.scopes).value)]);
    st.scopes + [map[tmp := ValueOf(a, zero), err := ErrorOf(a)]]
  }

  lemma RewrittenRuns(f: Fetch, typ: string, zero: Value, tmp: Name, err: Name, dst: Name, cond: Expr, body: Stmt,
                      st: State, fuel: nat, w: World)
    requires tmp != err && tmp != BLANK && err != BLANK
    requires Operands(f, st.scopes).Some? && Lookup(st.scopes, dst).Some?
    ensures var n := AfterTyped(f, zero, tmp, err, st, w); var b := BoolOf(Eval(cond, n));
      if b.None? then Exec(CopyBackIf(f, true, typ, zero, tmp, err, dst, cond, body), st, fuel, w).signal == Stuck
      else
        var t := InBlock(if b.value then body else Assign([dst], false, Pure(Var(tmp))),
                         State(n, st.trace + [Fetched(Operands(f, st.scopes).value)]), fuel, w);
        Exec(CopyBackIf(f, true, typ, zero, tmp, err, dst, cond, body), st, fuel, w) == Result(t.signal, Pop(t.state))
    ensures RewriteIfInit(IfInit(f, true, err, dst, cond, body), tmp, typ, zero)
      == Some(CopyBackIf(f, true, typ, zero, tmp, err, dst, cond, body))
  {
    var n := AfterTyped(f, zero, tmp, err, st, w);
    var init, copy := Assign([tmp, err], true, Typed(f, typ, zero)), Assign([dst], false, Pure(Var(tmp)));
    var mid := State(n, st.trace + [Fetched(Operands(f, st.scopes).value)]);
    InitsRun(f, typ, zero, tmp, err, dst, st, fuel, w);
    if BoolOf(Eval(cond, n)).Some? {
      ExecIf(init, cond, body, copy, st, mid, BoolOf(Eval(cond, n)).value, fuel, w);
    } else {
      ExecIfStuck(init, cond, body, copy, st, mid, fuel, w);
    }
    RewriteGives(f, true, typ, zero, tmp, err, dst, cond, body);
  }

  lemma IfInitFound(f: Fetch, typ: string, zero: Value, tmp: Name, err: Name, dst: Name, cond: Expr, body: Stmt,
                    st: State, fuel: nat, w: World)
    requires TellsErrors(cond, tmp, err, dst) && BoundNowhere(st.scopes, tmp)
    requires tmp != err && tmp != BLANK && err != dst && err != BLANK && dst != BLANK && tmp != dst
    requires Operands(f, st.scopes).Some? && Lookup(st.scopes, dst).Some?
    requires w(st.trace + [Fetched(Operands(f, st.scopes).value)]).Found?
    requires BoolOf(Eval(cond, AfterInit(f, err, dst, st, w))).Some?
    ensures Exec(RewriteIfInit(IfInit(f, true, err, dst, cond, body), tmp, typ, zero).value, st, fuel, w)
      == Exec(IfInit(f, true, err, dst, cond, body), st, fuel, w)
  {
    var s, trace := st.scopes, st.trace + [Fetched(Operands(f, st.scopes).value)];
    var v := w(trace).v;
    var u := Update(s, dst, v);
    FoundTests(f, zero, tmp, err, dst, cond, st, w);
    OriginalRuns(f, err, dst, cond, body, st, fuel, w);
    RewrittenRuns(f, typ, zero, tmp, err, dst, cond, body, st, fuel, w);
    SkipBlock(State(u + [map[err := Nil]], trace), fuel, w);
    CopyBack(s, trace, tmp, v, err, Nil, dst, fuel, w);
    PopAppended(u, map[err := Nil], trace);
    PopAppended(u, map[tmp := v, err := Nil], trace);
  }

  // After a successful call both conditions are false.
  lemma FoundTests(f: Fetch, zero: Value, tmp: Name, err: Name, dst: Name, cond: Expr, st: State, w: World)
    requires TellsErrors(cond, tmp, err, dst) && BoundNowhere(st.scopes, tmp) && tmp != err && err != dst
    requires Operands(f, st.scopes).Some? && Lookup(st.scopes, dst).Some?
    requires w(st.trace + [Fetched(Operands(f, st.scopes).value)]).Found?
    requires BoolOf(Eval(cond, AfterInit(f, err, dst, st, w))).Some?
    ensures BoolOf(Eval(cond, AfterInit(f, err, dst, st, w))) == Some(false)
    ensures BoolOf(Eval(cond, AfterTyped(f, zero, tmp, err, st, w))) == Some(false)
  {
    var m, o := AfterInit(f, err, dst, st, w), Lookup(st.scopes, dst).value;
    var t := st.scopes + [map[err := Nil]];
    AfterInitMeets(f, tmp, err, dst, st, w);
    assert TellsErrorIn(cond, m, err, dst);
    forall x
      ensures Lookup(Update(m, dst, o), x) == Lookup(t, x)
    {
      LookupUpdate(m, dst, o, x);
      LookupTop(st.scopes, map[err := Nil], x);
    }
    EvalAgree(cond, Update(m, dst, o), t);
    assert Meets(t, tmp, err, dst) by {
      LookupTop(st.scopes, map[err := Nil], err);
      LookupTop(st.scopes, map[err := Nil], dst);
    }
    assert TellsErrorIn(cond, t, err, dst);
    LookupTop(st.scopes, map[err := Nil], err);
    var v := w(st.trace + [Fetched(Operands(f, st.scopes).value)]).v;
    AddTemporary(st.scopes, st.trace, tmp, v, err, Nil);
    EvalExtended(cond, t, AfterTyped(f, zero, tmp, err, st, w), |st.scopes|, tmp, v);
  }

  lemma IfInitRefused(f: Fetch, typ: string, zero: Value, tmp: Name, err: Name, dst: Name, cond: Expr, body: Stmt,
                      st: State, fuel: nat, w: World)
    requires TellsErrors(cond, tmp, err, dst) && BoundNowhere(st.scopes, tmp)
    requires tmp != err && tmp != BLANK && err != dst && err != BLANK
    requires Operands(f, st.scopes).Some? && Lookup(st.scopes, dst).Some?
    requires w(st.trace + [Fetched(Operands(f, st.scopes).value)]).Refused?
    requires BoolOf(Eval(cond, AfterInit(f, err, dst, st, w))).Some?
    ensures Preserved(Exec(IfInit(f, true, err, dst, cond, body), st, fuel, w),
                      Exec(RewriteIfInit(IfInit(f, true, err, dst, cond, body), tmp, typ, zero).value, st, fuel, w))
  {
    var s, trace := st.scopes, st.trace + [Fetched(Operands(f, st.scopes).value)];
    var c := w(trace).code;
    AfterInitMeets(f, tmp, err, dst, st, w);
    assert TellsErrorIn(cond, AfterInit(f, err, dst, st, w), err, dst);
    AddTemporary(s, trace, tmp, zero, err, Error(c));
    EvalExtended(cond, AfterInit(f, err, dst, st, w), AfterTyped(f, zero, tmp, err, st, w), |s|, tmp, zero);
    OriginalRuns(f, err, dst, cond, body, st, fuel, w);
    RewrittenRuns(f, typ, zero, tmp, err, dst, cond, body, st, fuel, w);
    var a, b := State(s + [map[err := Error(c)]], trace), State(s + [map[tmp := zero, err := Error(c)]], trace);
    if InBlock(body, a, fuel, w).signal != Stuck {
      BranchExtended(body, a, b, |s|, tmp, zero, fuel, w);
    }
  }

  // A block that runs ends alike with the temporary in the innermost scope,
  // which is then left behind.
  lemma BranchExtended(body: Stmt, a: State, b: State, k: nat, tmp: Name, zero: Value, fuel: nat, w: World)
    requires ExtendedState(a, b, k, tmp, zero) && |a.scopes| == k + 1
    requires InBlock(body, a, fuel, w).signal != Stuck
    ensures var ta, tb := InBlock(body, a, fuel, w), InBlock(body, b, fuel, w);
      ta.signal == tb.signal && Pop(ta.state) == Pop(tb.state)
  {
    BlockExtended(body, a, b, k, tmp, zero, fuel, w);
    var ra, rb := InBlock(body, a, fuel, w).state, InBlock(body, b, fuel, w).state;
    assert ra.scopes[..k] == rb.scopes[..k];
  }

  // A temporary named like err repeats a name left of `:=`: the result does
  // not compile.
  lemma SameNameSticks(f: Fetch, typ: string, zero: Value, err: Name, dst: Name, cond: Expr, body: Stmt, st: State,
                       fuel: nat, w: World)
    ensures Exec(RewriteIfInit(IfInit(f, true, err, dst, cond, body), err, typ, zero).value, st, fuel, w).signal
      == Stuck
  {
    assert [err][0] == err && [err, err][0] == [err, err][1];
    assert forall s :: !BringsNew([err, err], s);
    assert Exec(Assign([err, err], true, Typed(f, typ, zero)), st.(scopes := Push(st.scopes)), fuel, w).signal == Stuck;
  }

  ghost predicate IfInitHolds(f: Fetch, define: bool, typ: string, zero: Value, tmp: Name, err: Name, dst: Name,
                              cond: Expr, body: Stmt, st: State, fuel: nat, w: World) {
    BoundNowhere(st.scopes, tmp) ==>
      Preserved(Exec(IfInit(f, define, err, dst, cond, body), st, fuel, w),
                Exec(RewriteIfInit(IfInit(f, define, err, dst, cond, body), tmp, typ, zero).value, st, fuel, w))
  }

  ghost predicate IfInitAlwaysHolds(define: bool, tmp: Name, err: Name, dst: Name, cond: Expr) {
    forall f, typ, zero, body, st, fuel, w :: IfInitHolds(f, define, typ, zero, tmp, err, dst, cond, body, st, fuel, w)
  }

  // The fixer checks neither that the init declares err nor what the condition
  // is. Its rewrite is right for every call, body, store and answer exactly
  // when err is declared there and the condition tells errors from nil; with
  // `=` in the init, exactly when the original could never run.
  lemma IfInitPreservedIff(define: bool, tmp: Name, err: Name, dst: Name, cond: Expr)
    requires ProperNames(tmp, err, dst)
    ensures IfInitAlwaysHolds(define, tmp, err, dst, cond) <==>
      if define then TellsErrors(cond, tmp, err, dst) else !CanRun(cond, tmp, err, dst)
  {
    if define && !TellsErrors(cond, tmp, err, dst) {
      var s :| Meets(s, tmp, err, dst) && BoolOf(Eval(cond, s)).Some? && !TellsErrorIn(cond, s, err, dst);
      DefinedInitCounterexample(tmp, err, dst, cond, s);
    } else if !define && CanRun(cond, tmp, err, dst) {
      var s :| Meets(s, tmp, err, dst) && BoolOf(Eval(cond, s)).Some?;
      AssignFormSticks(tmp, err, dst, cond, s);
    } else {
      forall f, typ, zero, body, st, fuel, w
        ensures IfInitHolds(f, define, typ, zero, tmp, err, dst, cond, body, st, fuel, w)
      {
        if BoundNowhere(st.scopes, tmp) {
          if define {
            IfInitPreserved(f, typ, zero, tmp, err, dst, cond, body, st, fuel, w);
          } else if Exec(IfInit(f, false, err, dst, cond, body), st, fuel, w).signal != Stuck {
            AssignFormRuns(f, tmp, err, dst, cond, body, st, fuel, w);
          }
        }
      }
    }
  }

  // For a condition that does not read dst: it says what `err != nil` says in
  // every store where it is a boolean.
  lemma WithoutDstIff(cond: Expr, tmp: Name, err: Name, dst: Name)
    requires dst !in Mentions(cond)
    ensures TellsErrors(cond, tmp, err, dst) <==>
      forall s :: Meets(s, tmp, err, dst) && BoolOf(Eval(cond, s)).Some? ==>
        BoolOf(Eval(cond, s)) == BoolOf(Eval(NotNil(Var(err)), s))
  {
    forall s, u
      ensures Eval(cond, Update(s, dst, u)) == Eval(cond, s)
    {
      forall x | x in Mentions(cond)
        ensures Lookup(Update(s, dst, u), x) == Lookup(s, x)
      {
        LookupUpdate(s, dst, u, x);
      }
      EvalAgree(cond, Update(s, dst, u), s);
    }
    forall s | Meets(s, tmp, err, dst) && BoolOf(Eval(cond, s)).Some?
      ensures TellsErrorIn(cond, s, err, dst) <==> BoolOf(Eval(cond, s)) == BoolOf(Eval(NotNil(Var(err)), s))
    {
      assert BoolOf(Eval(NotNil(Var(err)), s)) == Some(Lookup(s, err) != Some(Nil));
    }
  }

  // For a condition that tests err alone, two evaluations decide.
  lemma ErrorTestIff(cond: Expr, tmp: Name, err: Name, dst: Name)
    requires ProperNames(tmp, err, dst) && IsTestOf(cond, err)
    ensures TellsErrors(cond, tmp, err, dst) <==> TestsError(cond, err)
    ensures CanRun(cond, tmp, err, dst)
  {
    WithoutDstIff(cond, tmp, err, dst);
    forall s | Meets(s, tmp, err, dst)
      ensures var v := Lookup(s, err).value;
        BoolOf(Eval(cond, s)) == TestAt(cond, err, if v.Nil? then Nil else Error(0))
    {
      var v := Lookup(s, err).value;
      EvalLocal(cond, err, v, s);
      if v.Error? {
        ErrorCodeIrrelevant(cond, err, v.code, 0);
      }
    }
    SmallStore(tmp, err, dst, Nil, Nil);
    SmallStore(tmp, err, dst, Error(0), Nil);
  }

  lemma SmallStore(tmp: Name, err: Name, dst: Name, e: Value, v: Value)
    requires ProperNames(tmp, err, dst) && (e.Nil? || e.Error?)
    ensures var s := [map[err := e, dst := v]];
      Meets(s, tmp, err, dst) && Lookup(s, err) == Some(e) && Lookup(s, dst) == Some(v)
  {
  }

  // `err != nil || dst == nil` is one the fixer rewrites wrongly.
  lemma ReadingDstFails(tmp: Name, err: Name, dst: Name)
    requires ProperNames(tmp, err, dst)
    ensures !IfInitAlwaysHolds(true, tmp, err, dst, Or(NotNil(Var(err)), IsNil(Var(dst))))
  {
    SmallStore(tmp, err, dst, Nil, Nil);
    var s := [map[err := Nil, dst := Nil]];
    var cond := Or(NotNil(Var(err)), IsNil(Var(dst)));
    assert Eval(NotNil(Var(err)), s) == Some(Bool(false));
    assert Eval(IsNil(Var(dst)), s) == Some(Bool(true));
    assert Eval(cond, s) == Some(Bool(true));
    assert !TellsErrorIn(cond, s, err, dst);
    IfInitPreservedIff(true, tmp, err, dst, cond);
  }

  predicate ProperNames(tmp: Name, err: Name, dst: Name) {
    tmp != err && tmp != dst && err != dst && tmp != BLANK && err != BLANK && dst != BLANK
  }

  // The counterexamples fetch a literal key.
  const KEY: Fetch := Export("jwk", Lit("k", Data(7)))

  // Some value other than this one.
  function Other(v: Value): Value { if v == Nil then Data(1) else Nil }

  // A call that answers the way the store has it.
  function AnswerIn(s: Scopes, err: Name, dst: Name): Answer
    requires Lookup(s, err).Some? && Lookup(s, dst).Some?
  {
    if Lookup(s, err).value.Error? then Refused(Lookup(s, err).value.code) else Found(Lookup(s, dst).value)
  }

  // Started with another value in dst, the original evaluates its condition
  // in a store that reads like s.
  lemma OriginalReads(tmp: Name, err: Name, dst: Name, cond: Expr, s: Scopes, o: Value, w: World)
    requires ProperNames(tmp, err, dst) && Meets(s, tmp, err, dst)
    requires w([Fetched([Data(7)])]) == AnswerIn(s, err, dst)
    requires Lookup(s, err).value.Nil? || o == Lookup(s, dst).value
    ensures var st := State(Update(s, dst, o), []);
      && Meets(st.scopes, tmp, err, dst)
      && Eval(cond, AfterInit(KEY, err, dst, st, w)) == Eval(cond, s)
  {
    var st := State(Update(s, dst, o), []);
    UpdateKeeps(s, tmp, dst, o);
    forall x
      ensures Lookup(st.scopes, x) == if x == dst then Some(o) else Lookup(s, x)
    {
      LookupUpdate(s, dst, o, x);
    }
    assert st.trace + [Fetched([Data(7)])] == [Fetched([Data(7)])];
    AfterInitMeets(KEY, tmp, err, dst, st, w);
    EvalAgree(cond, AfterInit(KEY, err, dst, st, w), s);
  }

  // A store in which the condition does not tell errors gives a run on which
  // the two statements differ.
  lemma DefinedInitCounterexample(tmp: Name, err: Name, dst: Name, cond: Expr, s: Scopes)
    requires ProperNames(tmp, err, dst) && Meets(s, tmp, err, dst)
    requires BoolOf(Eval(cond, s)).Some? && !TellsErrorIn(cond, s, err, dst)
    ensures !IfInitAlwaysHolds(true, tmp, err, dst, cond)
  {
    if Lookup(s, err).value.Error? {
      MissedError(tmp, err, dst, cond, s);
    } else if BoolOf(Eval(cond, s)).value {
      FalseAlarm(tmp, err, dst, cond, s);
    } else {
      var u :| BoolOf(Eval(cond, Update(s, dst, u))).None?;
      DstDecides(tmp, err, dst, cond, s, u);
    }
  }

  // One run on which the two statements differ.
  lemma Refutes(define: bool, zero: Value, tmp: Name, err: Name, dst: Name, cond: Expr, body: Stmt, st: State, w: World)
    requires BoundNowhere(st.scopes, tmp)
    requires Exec(IfInit(KEY, define, err, dst, cond, body), st, 0, w).signal != Stuck
    requires Exec(CopyBackIf(KEY, define, "T", zero, tmp, err, dst, cond, body), st, 0, w)
      != Exec(IfInit(KEY, define, err, dst, cond, body), st, 0, w)
    ensures !IfInitAlwaysHolds(define, tmp, err, dst, cond)
  {
    RewriteGives(KEY, define, "T", zero, tmp, err, dst, cond, body);
    assert !IfInitHolds(KEY, define, "T", zero, tmp, err, dst, cond, body, st, 0, w);
  }

  // False of an error: the rewritten form then stores the zero value.
  lemma MissedError(tmp: Name, err: Name, dst: Name, cond: Expr, s: Scopes)
    requires ProperNames(tmp, err, dst) && Meets(s, tmp, err, dst)
    requires Lookup(s, err).value.Error? && BoolOf(Eval(cond, s)) == Some(false)
    ensures !IfInitAlwaysHolds(true, tmp, err, dst, cond)
  {
    var zero := Other(Lookup(s, dst).value);
    var w: World := trace => AnswerIn(s, err, dst);
    MissedBefore(tmp, err, dst, cond, s, w);
    MissedAfter(tmp, err, dst, cond, s, zero, w);
    LookupUpdate(s, dst, zero, dst);
    Refutes(true, zero, tmp, err, dst, cond, Skip, State(s, []), w);
  }

  lemma MissedBefore(tmp: Name, err: Name, dst: Name, cond: Expr, s: Scopes, w: World)
    requires ProperNames(tmp, err, dst) && Meets(s, tmp, err, dst) && Lookup(s, err).value.Error?
    requires BoolOf(Eval(cond, s)) == Some(false) && w([Fetched([Data(7)])]) == AnswerIn(s, err, dst)
    ensures Eval(cond, s + [map[err := Lookup(s, err).value]]) == Eval(cond, s)
    ensures Exec(IfInit(KEY, true, err, dst, cond, Skip), State(s, []), 0, w)
      == Result(Next, State(s, [Fetched([Data(7)])]))
  {
    var st, trace := State(s, []), [Fetched([Data(7)])];
    var e := Lookup(s, err).value;
    assert st.trace + trace == trace;
    UpdateSame(s, dst, Lookup(s, dst).value);
    OriginalReads(tmp, err, dst, cond, s, Lookup(s, dst).value, w);
    OriginalRuns(KEY, err, dst, cond, Skip, st, 0, w);
    SkipBlock(State(s + [map[err := e]], trace), 0, w);
    PopAppended(s, map[err := e], trace);
  }

  lemma MissedAfter(tmp: Name, err: Name, dst: Name, cond: Expr, s: Scopes, zero: Value, w: World)
    requires ProperNames(tmp, err, dst) && Meets(s, tmp, err, dst) && Lookup(s, err).value.Error?
    requires BoolOf(Eval(cond, s)) == Some(false) && w([Fetched([Data(7)])]) == AnswerIn(s, err, dst)
    requires Eval(cond, s + [map[err := Lookup(s, err).value]]) == Eval(cond, s)
    ensures Exec(CopyBackIf(KEY, true, "T", zero, tmp, err, dst, cond, Skip), State(s, []), 0, w)
      == Result(Next, State(Update(s, dst, zero), [Fetched([Data(7)])]))
  {
    var st, trace := State(s, []), [Fetched([Data(7)])];
    var e := Lookup(s, err).value;
    assert st.trace + trace == trace;
    AddTemporary(s, trace, tmp, zero, err, e);
    EvalExtended(cond, s + [map[err := e]], s + [map[tmp := zero, err := e]], |s|, tmp, zero);
    assert AfterTyped(KEY, zero, tmp, err, st, w) == s + [map[tmp := zero, err := e]];
    RewrittenRuns(KEY, "T", zero, tmp, err, dst, cond, Skip, st, 0, w);
    CopyBack(s, trace, tmp, zero, err, e, dst, 0, w);
    PopAppended(Update(s, dst, zero), map[tmp := zero, err := e], trace);
  }

  const RETURN: Stmt := Return(Lit("0", Nil))

  // True of nil: the body of the original sees dst set, that of the rewritten
  // form does not.
  lemma FalseAlarm(tmp: Name, err: Name, dst: Name, cond: Expr, s: Scopes)
    requires ProperNames(tmp, err, dst) && Meets(s, tmp, err, dst)
    requires Lookup(s, err).value.Nil? && BoolOf(Eval(cond, s)) == Some(true)
    ensures !IfInitAlwaysHolds(true, tmp, err, dst, cond)
  {
    var v := Lookup(s, dst).value;
    var o := Other(v);
    var w: World := trace => AnswerIn(s, err, dst);
    var t := Update(s, dst, o);
    var st, trace := State(t, []), [Fetched([Data(7)])];
    assert st.trace + trace == trace;
    OriginalReads(tmp, err, dst, cond, s, o, w);
    OriginalRuns(KEY, err, dst, cond, RETURN, st, 0, w);
    ReturnBlock(State(Update(t, dst, v) + [map[err := Nil]], trace), 0, w);
    PopAppended(Update(t, dst, v), map[err := Nil], trace);
    LookupUpdate(t, dst, v, dst);
    LookupUpdate(s, dst, o, dst);
    assert Exec(IfInit(KEY, true, err, dst, cond, RETURN), st, 0, w)
      == Result(Returned(Nil), State(Update(t, dst, v), trace));
    DstNotSet(tmp, err, dst, cond, t, v, w);
    assert !IfInitHolds(KEY, true, "T", Nil, tmp, err, dst, cond, RETURN, st, 0, w);
  }

  // The rewritten form does not return with dst set.
  lemma DstNotSet(tmp: Name, err: Name, dst: Name, cond: Expr, t: Scopes, v: Value, w: World)
    requires ProperNames(tmp, err, dst) && Lookup(t, dst).Some? && Lookup(t, dst) != Some(v)
    requires w([Fetched([Data(7)])]) == Found(v)
    ensures RewriteIfInit(IfInit(KEY, true, err, dst, cond, RETURN), tmp, "T", Nil).Some?
    ensures var r := Exec(RewriteIfInit(IfInit(KEY, true, err, dst, cond, RETURN), tmp, "T", Nil).value,
      State(t, []), 0, w);
      r.signal.Returned? ==> Lookup(r.state.scopes, dst) != Some(v)
  {
    var st, trace := State(t, []), [Fetched([Data(7)])];
    assert st.trace + trace == trace;
    RewrittenRuns(KEY, "T", Nil, tmp, err, dst, cond, RETURN, st, 0, w);
    ReturnBlock(State(t + [map[tmp := v, err := Nil]], trace), 0, w);
    PopAppended(t, map[tmp := v, err := Nil], trace);
    CopyBack(t, trace, tmp, v, err, Nil, dst, 0, w);
  }

  lemma ReturnBlock(st: State, fuel: nat, w: World)
    ensures InBlock(RETURN, st, fuel, w) == Result(Returned(Nil), st)
  {
    assert Push(st.scopes)[..|st.scopes|] == st.scopes;
  }

  // No boolean with the old value of dst: the rewritten form cannot go on.
  lemma DstDecides(tmp: Name, err: Name, dst: Name, cond: Expr, s: Scopes, u: Value)
    requires ProperNames(tmp, err, dst) && Meets(s, tmp, err, dst)
    requires Lookup(s, err).value.Nil? && BoolOf(Eval(cond, s)) == Some(false)
    requires BoolOf(Eval(cond, Update(s, dst, u))).None?
    ensures !IfInitAlwaysHolds(true, tmp, err, dst, cond)
  {
    var v := Lookup(s, dst).value;
    var w: World := trace => AnswerIn(s, err, dst);
    var st := State(Update(s, dst, u), []);
    DstBefore(tmp, err, dst, cond, s, u, w);
    assert st.trace + [Fetched([Data(7)])] == [Fetched([Data(7)])];
    LookupUpdate(s, dst, u, dst);
    TemporaryUnread(tmp, err, dst, cond, s, u, v);
    assert AfterTyped(KEY, Nil, tmp, err, st, w) == st.scopes + [map[tmp := v, err := Nil]];
    RewrittenRuns(KEY, "T", Nil, tmp, err, dst, cond, Skip, st, 0, w);
    Refutes(true, Nil, tmp, err, dst, cond, Skip, st, w);
  }

  lemma DstBefore(tmp: Name, err: Name, dst: Name, cond: Expr, s: Scopes, u: Value, w: World)
    requires ProperNames(tmp, err, dst) && Meets(s, tmp, err, dst) && Lookup(s, err).value.Nil?
    requires BoolOf(Eval(cond, s)) == Some(false) && w([Fetched([Data(7)])]) == AnswerIn(s, err, dst)
    ensures BoundNowhere(Update(s, dst, u), tmp)
    ensures Exec(IfInit(KEY, true, err, dst, cond, Skip), State(Update(s, dst, u), []), 0, w).signal == Next
  {
    var st := State(Update(s, dst, u), []);
    var v := Lookup(s, dst).value;
    assert st.trace + [Fetched([Data(7)])] == [Fetched([Data(7)])];
    OriginalReads(tmp, err, dst, cond, s, u, w);
    OriginalRuns(KEY, err, dst, cond, Skip, st, 0, w);
    SkipBlock(State(Update(st.scopes, dst, v) + [map[err := Nil]], [Fetched([Data(7)])]), 0, w);
  }

  lemma TemporaryUnread(tmp: Name, err: Name, dst: Name, cond: Expr, s: Scopes, u: Value, v: Value)
    requires ProperNames(tmp, err, dst) && Meets(s, tmp, err, dst) && Lookup(s, err).value.Nil?
    requires Eval(cond, s).Some?
    ensures var t := Update(s, dst, u); Eval(cond, t + [map[tmp := v, err := Nil]]) == Eval(cond, t)
  {
    var t := Update(s, dst, u);
    MentionsBound(cond, s);
    NotBound(s, tmp);
    forall x | x in Mentions(cond)
      ensures Lookup(t + [map[tmp := v, err := Nil]], x) == Lookup(t, x)
    {
      LookupTop(t, map[tmp := v, err := Nil], x);
      LookupUpdate(s, dst, u, x);
    }
    EvalAgree(cond, t + [map[tmp := v, err := Nil]], t);
  }

  // `if err = ...`: the temporary is never declared, while the original runs
  // wherever its condition is a boolean.
  lemma AssignFormSticks(tmp: Name, err: Name, dst: Name, cond: Expr, s: Scopes)
    requires ProperNames(tmp, err, dst) && Meets(s, tmp, err, dst) && BoolOf(Eval(cond, s)).Some?
    ensures !IfInitAlwaysHolds(false, tmp, err, dst, cond)
  {
    var w: World := trace => AnswerIn(s, err, dst);
    var st, inner := State(s, []), State(Push(s), []);
    AssignFormBefore(tmp, err, dst, cond, s, w);
    NotBound(inner.scopes, tmp);
    var a := AnswerIn(s, err, dst);
    TwoFirstUnbound(tmp, err, ValueOf(a, Nil), ErrorOf(a), inner.scopes);
    assert Exec(Assign([tmp, err], false, Typed(KEY, "T", Nil)), inner, 0, w).signal == Stuck;
    RewriteGives(KEY, false, "T", Nil, tmp, err, dst, cond, Skip);
    assert !IfInitHolds(KEY, false, "T", Nil, tmp, err, dst, cond, Skip, st, 0, w);
  }

  lemma AssignFormBefore(tmp: Name, err: Name, dst: Name, cond: Expr, s: Scopes, w: World)
    requires ProperNames(tmp, err, dst) && Meets(s, tmp, err, dst) && BoolOf(Eval(cond, s)).Some?
    requires w([Fetched([Data(7)])]) == AnswerIn(s, err, dst)
    ensures Exec(IfInit(KEY, false, err, dst, cond, Skip), State(s, []), 0, w).signal != Stuck
  {
    var p := Push(s);
    var inner, mid := State(p, []), State(p, [Fetched([Data(7)])]);
    assert inner.trace + [Fetched([Data(7)])] == mid.trace;
    LookupTop(s, map[], dst);
    LookupTop(s, map[], err);
    UpdateSame(p, dst, Lookup(s, dst).value);
    UpdateSame(p, err, Lookup(s, err).value);
    AssignOne(err, Lookup(s, err).value, p);
    assert EvalRhs(Into(KEY, dst), inner, w) == Some(([Lookup(s, err).value], mid));
    EvalPushed(cond, s);
    SkipBlock(mid, 0, w);
    ExecIf(Assign([err], false, Into(KEY, dst)), cond, Skip, Skip, State(s, []), mid,
      BoolOf(Eval(cond, s)).value, 0, w);
  }

  // An original with `=` that runs evaluates its condition to a boolean.
  lemma AssignFormRuns(f: Fetch, tmp: Name, err: Name, dst: Name, cond: Expr, body: Stmt, st: State, fuel: nat,
                       w: World)
    requires ProperNames(tmp, err, dst) && BoundNowhere(st.scopes, tmp)
    requires Exec(IfInit(f, false, err, dst, cond, body), st, fuel, w).signal != Stuck
    ensures CanRun(cond, tmp, err, dst)
  {
    var inner := st.(scopes := Push(st.scopes));
    var init := Assign([err], false, Into(f, dst));
    assert Exec(init, inner, fuel, w).signal != Stuck;
    assert [err][0] == err;
    AssignFormStores(f, tmp, err, dst, inner, fuel, w);
    var mid := Exec(init, inner, fuel, w).state;
    if BoolOf(Eval(cond, mid.scopes)).None? {
      ExecIfStuck(init, cond, body, Skip, st, mid, fuel, w);
    }
  }

  // What the init with `=` stores, when it can.
  lemma AssignFormStores(f: Fetch, tmp: Name, err: Name, dst: Name, inner: State, fuel: nat, w: World)
    requires ProperNames(tmp, err, dst) && BoundNowhere(inner.scopes, tmp)
    requires Exec(Assign([err], false, Into(f, dst)), inner, fuel, w).signal != Stuck
    ensures Exec(Assign([err], false, Into(f, dst)), inner, fuel, w).signal == Next
    ensures Meets(Exec(Assign([err], false, Into(f, dst)), inner, fuel, w).state.scopes, tmp, err, dst)
  {
    var got := EvalRhs(Into(f, dst), inner, w).value;
    var mid, e := got.1.scopes, got.0[0];
    assert got.0 == [e];
    AssignOne(err, e, mid);
    assert Exec(Assign([err], false, Into(f, dst)), inner, fuel, w)
      == Result(Next, got.1.(scopes := Update(mid, err, e)));
    var a := w(inner.trace + [Fetched(Operands(f, inner.scopes).value)]);
    assert mid == StoreOf(a, inner.scopes, dst) && e == ErrorOf(a);
    StoresMeet(inner.scopes, a, tmp, err, dst);
  }

  lemma StoresMeet(s: Scopes, a: Answer, tmp: Name, err: Name, dst: Name)
    requires ProperNames(tmp, err, dst) && BoundNowhere(s, tmp) && Lookup(s, dst).Some?
    requires Lookup(StoreOf(a, s, dst), err).Some?
    ensures Meets(Update(StoreOf(a, s, dst), err, ErrorOf(a)), tmp, err, dst)
  {
    var mid := StoreOf(a, s, dst);
    UpdateKeeps(s, tmp, dst, ValueOf(a, Nil));
    UpdateKeeps(mid, tmp, err, ErrorOf(a));
    LookupUpdate(s, dst, ValueOf(a, Nil), dst);
    LookupUpdate(mid, err, ErrorOf(a), err);
    LookupUpdate(mid, err, ErrorOf(a), dst);
  }

  lemma TwoFirstUnbound(x: Name, y: Name, v: Value, u: Value, s: Scopes)
    requires x != BLANK && Lookup(s, x) == None
    ensures Store([x, y], false, [v, u], s) == None
  {
    assert [x, y][0] == x;
  }
}
