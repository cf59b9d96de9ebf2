// A small imperative language with Go's block scoping, enough to say what an
// out-pointer call and the value-returning call that replaces it both mean.
module Lang {
  import opened Options

  type Name = string

  const BLANK: Name := "_"

  datatype Value = Nil | Error(code: nat) | Bool(b: bool) | Data(d: int)

  datatype Expr =
    | Lit(text: string, v: Value)
    | Var(x: Name)
    | NotNil(e: Expr)
    | IsNil(e: Expr)
    | Not(e: Expr)
    | And(l: Expr, r: Expr)
    | Or(l: Expr, r: Expr)

  // The two library calls the rewriters know: a token field read, and the
  // export of a key. `pkg` is the local name of the package providing them.
  datatype Fetch =
    | Get(pkg: Name, obj: Expr, field: Expr)
    | Export(pkg: Name, key: Expr)

  datatype Rhs =
    | Pure(e: Expr)
    | Into(f: Fetch, dst: Name)                    // f(.., &dst), yields error
    | Typed(f: Fetch, typ: string, zero: Value)    // f[T](..), yields (T, error)

  datatype Stmt =
    | Skip
    | Seq(first: Stmt, second: Stmt)
    | Assign(lhs: seq<Name>, define: bool, rhs: Rhs)
    | Do(call: Rhs)
    | Emit(e: Expr)
    | Return(e: Expr)
    | Break
    | Continue
    | Block(body: Stmt)
    | If(init: Stmt, cond: Expr, thn: Stmt, els: Stmt)
    | For(cond: Expr, body: Stmt)

  type Scope = map<Name, Value>

  // Innermost scope last.
  type Scopes = seq<Scope>

  datatype Event = Fetched(operands: seq<Value>) | Emitted(v: Value)

  datatype State = State(scopes: Scopes, trace: seq<Event>)

  datatype Answer = Found(v: Value) | Refused(code: nat)

  // What the library answers may depend on everything that happened before.
  type World = seq<Event> -> Answer

  datatype Signal = Next | Returned(v: Value) | Broke | Continued | Stuck | OutOfFuel

  datatype Result = Result(signal: Signal, state: State)

  // ---- Scopes ------------------------------------------------------------

  function Lookup(s: Scopes, x: Name): Option<Value> {
    if s == [] then None
    else if x in s[|s| - 1] then Some(s[|s| - 1][x])
    else Lookup(s[..|s| - 1], x)
  }

  function Update(s: Scopes, x: Name, v: Value): (r: Scopes)
    ensures |r| == |s|
  {
    if s == [] then []
    else if x in s[|s| - 1] then s[|s| - 1 := s[|s| - 1][x := v]]
    else Update(s[..|s| - 1], x, v) + [s[|s| - 1]]
  }

  predicate InInnermost(s: Scopes, x: Name) {
    s != [] && x in s[|s| - 1]
  }

  function Declare(s: Scopes, x: Name, v: Value): (r: Scopes)
    requires s != []
    ensures |r| == |s|
  {
    s[|s| - 1 := s[|s| - 1][x := v]]
  }

  function Push(s: Scopes): Scopes { s + [map[]] }

  function Pop(st: State): State {
    if st.scopes == [] then st else st.(scopes := st.scopes[..|st.scopes| - 1])
  }

  // ---- Expressions -------------------------------------------------------

  function BoolOf(v: Option<Value>): Option<bool> {
    if v.Some? && v.value.Bool? then Some(v.value.b) else None
  }

  function Eval(e: Expr, s: Scopes): Option<Value> {
    match e
    case Lit(_, v) => Some(v)
    case Var(x) => Lookup(s, x)
    case NotNil(e1) => var v := Eval(e1, s); if v.Some? then Some(Bool(v.value != Nil)) else None
    case IsNil(e1) => var v := Eval(e1, s); if v.Some? then Some(Bool(v.value == Nil)) else None
    case Not(e1) => var b := BoolOf(Eval(e1, s)); if b.Some? then Some(Bool(!b.value)) else None
    case And(l, r) =>
      var b, c := BoolOf(Eval(l, s)), BoolOf(Eval(r, s));
      if b.Some? && c.Some? then Some(Bool(b.value && c.value)) else None
    case Or(l, r) =>
      var b, c := BoolOf(Eval(l, s)), BoolOf(Eval(r, s));
      if b.Some? && c.Some? then Some(Bool(b.value || c.value)) else None
  }

  function Operands(f: Fetch, s: Scopes): Option<seq<Value>> {
    match f
    case Get(_, obj, field) =>
      var a, b := Eval(obj, s), Eval(field, s);
      if a.Some? && b.Some? then Some([a.value, b.value]) else None
    case Export(_, key) =>
      var a := Eval(key, s);
      if a.Some? then Some([a.value]) else None
  }

  // Values and state after a right-hand side; None when it cannot be run.
  function EvalRhs(r: Rhs, st: State, w: World): Option<(seq<Value>, State)> {
    match r
    case Pure(e) =>
      var v := Eval(e, st.scopes);
      if v.Some? then Some(([v.value], st)) else None
    case Into(f, dst) =>
      var ops := Operands(f, st.scopes);
      if ops.None? || Lookup(st.scopes, dst).None? then None
      else
        var trace := st.trace + [Fetched(ops.value)];
        (match w(trace)
         case Found(v) => Some(([Nil], State(Update(st.scopes, dst, v), trace)))
         case Refused(code) => Some(([Error(code)], State(st.scopes, trace))))
    case Typed(f, _, zero) =>
      var ops := Operands(f, st.scopes);
      if ops.None? then None
      else
        var trace := st.trace + [Fetched(ops.value)];
        (match w(trace)
         case Found(v) => Some(([v, Nil], State(st.scopes, trace)))
         case Refused(code) => Some(([zero, Error(code)], State(st.scopes, trace))))
  }

  // ---- Assignment --------------------------------------------------------

  // `=`: every name but the blank must already be bound.
  function AssignAll(lhs: seq<Name>, vals: seq<Value>, s: Scopes): Option<Scopes>
    requires |lhs| == |vals|
  {
    if lhs == [] then Some(s)
    else if lhs[0] == BLANK then AssignAll(lhs[1..], vals[1..], s)
    else if Lookup(s, lhs[0]).None? then None
    else AssignAll(lhs[1..], vals[1..], Update(s, lhs[0], vals[0]))
  }

  // `:=`: names of the innermost scope are assigned, others declared in it.
  function DefineAll(lhs: seq<Name>, vals: seq<Value>, s: Scopes): Option<Scopes>
    requires |lhs| == |vals|
  {
    if lhs == [] then Some(s)
    else if lhs[0] == BLANK then DefineAll(lhs[1..], vals[1..], s)
    else if s == [] then None
    else DefineAll(lhs[1..], vals[1..], Declare(s, lhs[0], vals[0]))
  }

  // `:=` needs a new name on its left side, and no name there twice.
  predicate BringsNew(lhs: seq<Name>, s: Scopes) {
    && (exists i :: 0 <= i < |lhs| && lhs[i] != BLANK && !InInnermost(s, lhs[i]))
    && (forall i, j :: 0 <= i < j < |lhs| && lhs[i] == lhs[j] ==> lhs[i] == BLANK)
  }

  function Store(lhs: seq<Name>, define: bool, vals: seq<Value>, s: Scopes): Option<Scopes> {
    if |lhs| != |vals| then None
    else if !define then AssignAll(lhs, vals, s)
    else if BringsNew(lhs, s) then DefineAll(lhs, vals, s)
    else None
  }

  // ---- Statements --------------------------------------------------------

  // `fuel` bounds loop iterations only.
  function Exec(s: Stmt, st: State, fuel: nat, w: World): Result
    decreases fuel, s, 1
  {
    match s
    case Skip => Result(Next, st)
    case Seq(a, b) =>
      var r := Exec(a, st, fuel, w);
      if r.signal != Next then r else Exec(b, r.state, fuel, w)
    case Assign(lhs, define, rhs) =>
      var v := EvalRhs(rhs, st, w);
      if v.None? then Result(Stuck, st)
      else
        var scopes := Store(lhs, define, v.value.0, v.value.1.scopes);
        if scopes.None? then Result(Stuck, st)
        else Result(Next, v.value.1.(scopes := scopes.value))
    case Do(call) =>
      var v := EvalRhs(call, st, w);
      if v.None? then Result(Stuck, st) else Result(Next, v.value.1)
    case Emit(e) =>
      var v := Eval(e, st.scopes);
      if v.None? then Result(Stuck, st) else Result(Next, st.(trace := st.trace + [Emitted(v.value)]))
    case Return(e) =>
      var v := Eval(e, st.scopes);
      if v.None? then Result(Stuck, st) else Result(Returned(v.value), st)
    case Break => Result(Broke, st)
    case Continue => Result(Continued, st)
    case Block(body) => InBlock(body, st, fuel, w)
    case If(init, cond, thn, els) =>
      var r := Exec(init, st.(scopes := Push(st.scopes)), fuel, w);
      if r.signal != Next then Result(r.signal, Pop(r.state))
      else
        var b := BoolOf(Eval(cond, r.state.scopes));
        if b.None? then Result(Stuck, st)
        else
          var t := if b.value then InBlock(thn, r.state, fuel, w) else InBlock(els, r.state, fuel, w);
          Result(t.signal, Pop(t.state))
    case For(cond, body) =>
      var b := BoolOf(Eval(cond, st.scopes));
      if b.None? then Result(Stuck, st)
      else if !b.value then Result(Next, st)
      else if fuel == 0 then Result(OutOfFuel, st)
      else
        var r := InBlock(body, st, fuel, w);
        if r.signal == Broke then Result(Next, r.state)
        else if r.signal != Next && r.signal != Continued then r
        else Exec(s, r.state, fuel - 1, w)
  }

  function InBlock(body: Stmt, st: State, fuel: nat, w: World): Result
    decreases fuel, body, 2
  {
    var r := Exec(body, st.(scopes := Push(st.scopes)), fuel, w);
    Result(r.signal, Pop(r.state))
  }

  // ---- Source text -------------------------------------------------------

  function PrintExpr(e: Expr): string {
    match e
    case Lit(text, _) => text
    case Var(x) => x
    case NotNil(e1) => PrintExpr(e1) + " != nil"
    case IsNil(e1) => PrintExpr(e1) + " == nil"
    case Not(e1) => "!(" + PrintExpr(e1) + ")"
    case And(l, r) => "(" + PrintExpr(l) + " && " + PrintExpr(r) + ")"
    case Or(l, r) => "(" + PrintExpr(l) + " || " + PrintExpr(r) + ")"
  }

  function PrintRhs(r: Rhs): string {
    match r
    case Pure(e) => PrintExpr(e)
    case Into(Get(_, obj, field), dst) => PrintExpr(obj) + ".Get(" + PrintExpr(field) + ", &" + dst + ")"
    case Into(Export(pkg, key), dst) => pkg + ".Export(" + PrintExpr(key) + ", &" + dst + ")"
    case Typed(Get(pkg, obj, field), typ, _) =>
      pkg + ".Get[" + typ + "](" + PrintExpr(obj) + ", " + PrintExpr(field) + ")"
    case Typed(Export(pkg, key), typ, _) => pkg + ".Export[" + typ + "](" + PrintExpr(key) + ")"
  }

  function PrintNames(names: seq<Name>): string {
    if names == [] then "" else if |names| == 1 then names[0] else names[0] + ", " + PrintNames(names[1..])
  }

  function Print(s: Stmt): string
    decreases s, 0
  {
    match s
    case Skip => ""
    case Seq(a, b) => Print(a) + "\n\t" + Print(b)
    case Assign(lhs, define, rhs) => PrintNames(lhs) + (if define then " := " else " = ") + PrintRhs(rhs)
    case Do(call) => PrintRhs(call)
    case Emit(e) => "emit(" + PrintExpr(e) + ")"
    case Return(e) => "return " + PrintExpr(e)
    case Break => "break"
    case Continue => "continue"
    case Block(body) => PrintBlock(body)
    case If(init, cond, thn, els) =>
      "if " + (if init == Skip then "" else Print(init) + "; ") + PrintExpr(cond) + " " + PrintBlock(thn)
      + (if els == Skip then "" else " else " + PrintBlock(els))
    case For(cond, body) => "for " + PrintExpr(cond) + " " + PrintBlock(body)
  }

  function PrintBlock(s: Stmt): string
    decreases s, 1
  {
    "{\n\t" + Print(s) + "\n}"
  }
}
