// The three edits of the if-init fixers, down to bytes: they turn the print
// of the statement into the print of the rewritten statement.
module IfInitEdits {
  import opened Sequences
  import opened Edits
  import opened Pieces
  import L = Lang
  import G = GetRewrite
  import N = TempNames

  // The spans the fixer reads off the syntax tree.
  datatype IfSpans = IfSpans(lhsStart: nat, lhsEnd: nat, rhsStart: nat, rhsEnd: nat, bodyEnd: nat)

  // fixGetToFieldIfInit and fixJWKExportIfInit, which emit the same edits.
  function FixIfInit(spans: IfSpans, errText: Text, tmp: Text, newCall: Text, dstText: Text, tag: Tag): seq<Edit> {
    [Edit(spans.lhsStart, spans.lhsEnd, tmp + ", " + errText, tag),
     Edit(spans.rhsStart, spans.rhsEnd, newCall, tag),
     Edit(spans.bodyEnd, spans.bodyEnd, " else {\n\t" + dstText + " = " + tmp + "\n}", tag)]
  }

  // The call that takes the place of the old one.
  function NewCall(f: L.Fetch, typ: string): Text {
    if f.Get? then f.pkg + ".Get[" + typ + "](" + L.PrintExpr(f.obj) + ", " + L.PrintExpr(f.field) + ")"
    else f.pkg + ".Export[" + typ + "](" + L.PrintExpr(f.key) + ")"
  }

  lemma NewCallPrints(f: L.Fetch, typ: string, zero: L.Value)
    ensures L.PrintRhs(L.Typed(f, typ, zero)) == NewCall(f, typ)
  {
  }

  // The texts on examples.
  lemma ExampleTexts()
    ensures L.PrintRhs(L.Into(L.Get("p", L.Var("o"), L.Var("f")), "d")) == "o.Get(f, &d)"
    ensures NewCall(L.Get("p", L.Var("o"), L.Var("f")), "T") == "p.Get[T](o, f)"
  {
  }

  lemma ExampleExport()
    ensures L.PrintRhs(L.Into(L.Export("p", L.Var("k")), "d")) == "p.Export(k, &d)"
    ensures NewCall(L.Export("p", L.Var("k")), "T") == "p.Export[T](k)"
  {
  }

  lemma ExampleConditions()
    ensures L.PrintExpr(L.NotNil(L.Var("e"))) == "e != nil" && L.PrintExpr(L.IsNil(L.Var("e"))) == "e == nil"
    ensures L.PrintExpr(L.And(L.Var("a"), L.Var("b"))) == "(a && b)"
    ensures L.PrintExpr(L.Or(L.Var("a"), L.Not(L.Var("b")))) == "(a || !(b))"
  {
  }

  function Token(define: bool): Text { if define then " := " else " = " }

  // Where the parts of a printed if-init statement start and end.
  function SpansOf(at: nat, err: L.Name, define: bool, call: L.Rhs, cond: L.Expr, body: L.Stmt): IfSpans {
    var lhs := at + |"if "|;
    var rhs := lhs + |err| + |Token(define)|;
    var semi := rhs + |L.PrintRhs(call)|;
    IfSpans(lhs, lhs + |err|, rhs, semi, semi + |Rest(cond, body)|)
  }

  function Rest(cond: L.Expr, body: L.Stmt): Text {
    "; " + L.PrintExpr(cond) + " " + L.PrintBlock(body)
  }

  function PiecesOf(err: L.Name, define: bool, call: L.Rhs, cond: L.Expr, body: L.Stmt, tmp: Text, newCall: Text,
                    dst: Text): seq<Piece> {
    [Stay("if "), Swap(err, tmp + ", " + err), Stay(Token(define)), Swap(L.PrintRhs(call), newCall),
     Stay(Rest(cond, body)), Swap("", " else {\n\t" + dst + " = " + tmp + "\n}")]
  }

  // Regrouping the concatenations of the printer into those of the pieces.
  lemma Regroup(i: Text, e: Text, t: Text, r: Text, semi: Text, c: Text, b: Text, z: Text)
    ensures i + (e + t + r + semi) + c + " " + b + z == i + (e + (t + (r + ((semi + c + " " + b) + z))))
  {
    var rest := semi + c + " " + b;
    Associate(r, rest, z);
    Associate(t, r + rest, z);
    Associate(e, t + (r + rest), z);
    Associate(i, e + (t + (r + rest)), z);
    RegroupInit(e, t, r, semi, c, b);
    Associate(i, e + t + r + semi, c + " " + b);
    Associate(i + (e + t + r + semi), c, " " + b);
    Associate(i + (e + t + r + semi) + c, " ", b);
    Associate(c, " ", b);
  }

  lemma RegroupInit(e: Text, t: Text, r: Text, semi: Text, c: Text, b: Text)
    ensures (e + t + r + semi) + (c + " " + b) == e + (t + (r + (semi + c + " " + b)))
  {
    Associate(e + t + r, semi, c + " " + b);
    Associate(semi, c, " " + b);
    Associate(semi + c, " ", b);
    Associate(c, " ", b);
    var rest := semi + c + " " + b;
    Associate(e + t, r, rest);
    Associate(e, t, r + rest);
  }

  lemma Unfold6(p: seq<Piece>)
    requires |p| == 6 && p[0].Stay? && p[1].Swap? && p[2].Stay? && p[3].Swap? && p[4].Stay? && p[5].Swap?
    ensures Before(p) == p[0].text + (p[1].was + (p[2].text + (p[3].was + (p[4].text + p[5].was))))
    ensures After(p) == p[0].text + (p[1].becomes + (p[2].text + (p[3].becomes + (p[4].text + p[5].becomes))))
  {
    assert p[1..][1..] == p[2..] && p[2..][1..] == p[3..] && p[3..][1..] == p[4..] && p[4..][1..] == p[5..];
    assert p[5..][1..] == [];
    assert Before(p[5..]) == p[5].was && After(p[5..]) == p[5].becomes;
    assert Before(p[4..]) == p[4].text + p[5].was && After(p[4..]) == p[4].text + p[5].becomes;
    assert Before(p[3..]) == p[3].was + Before(p[4..]) && After(p[3..]) == p[3].becomes + After(p[4..]);
    assert Before(p[2..]) == p[2].text + Before(p[3..]) && After(p[2..]) == p[2].text + After(p[3..]);
    assert Before(p[1..]) == p[1].was + Before(p[2..]) && After(p[1..]) == p[1].becomes + After(p[2..]);
  }

  lemma PrintBefore(f: L.Fetch, define: bool, err: L.Name, dst: L.Name, cond: L.Expr, body: L.Stmt, tmp: L.Name,
                    newCall: Text)
    ensures Before(PiecesOf(err, define, L.Into(f, dst), cond, body, tmp, newCall, dst))
      == L.Print(G.IfInit(f, define, err, dst, cond, body))
  {
    var call := L.PrintRhs(L.Into(f, dst));
    Unfold6(PiecesOf(err, define, L.Into(f, dst), cond, body, tmp, newCall, dst));
    Regroup("if ", err, Token(define), call, "; ", L.PrintExpr(cond), L.PrintBlock(body), "");
    assert L.PrintNames([err]) == err;
    assert L.Print(L.Assign([err], define, L.Into(f, dst))) == err + Token(define) + call;
  }

  lemma PrintAfter(f: L.Fetch, define: bool, err: L.Name, dst: L.Name, cond: L.Expr, body: L.Stmt, tmp: L.Name,
                   typ: string, zero: L.Value)
    ensures After(PiecesOf(err, define, L.Into(f, dst), cond, body, tmp, L.PrintRhs(L.Typed(f, typ, zero)), dst))
      == L.Print(G.RewriteIfInit(G.IfInit(f, define, err, dst, cond, body), tmp, typ, zero).value)
  {
    G.RewriteGives(f, define, typ, zero, tmp, err, dst, cond, body);
    PrintCopyBack(f, define, err, dst, cond, body, tmp, typ, zero);
    PiecesAfter(f, define, err, dst, cond, body, tmp, L.PrintRhs(L.Typed(f, typ, zero)));
  }

  // The rewritten statement, grouped as it is printed.
  function AfterText(define: bool, err: L.Name, dst: L.Name, cond: L.Expr, body: L.Stmt, tmp: L.Name,
                     call: Text): Text {
    "if " + (tmp + ", " + err + Token(define) + call + "; ") + L.PrintExpr(cond) + " " + L.PrintBlock(body)
      + (" else {\n\t" + dst + " = " + tmp + "\n}")
  }

  lemma PrintCopyBack(f: L.Fetch, define: bool, err: L.Name, dst: L.Name, cond: L.Expr, body: L.Stmt, tmp: L.Name,
                      typ: string, zero: L.Value)
    ensures L.Print(G.CopyBackIf(f, define, typ, zero, tmp, err, dst, cond, body))
      == AfterText(define, err, dst, cond, body, tmp, L.PrintRhs(L.Typed(f, typ, zero)))
  {
    var init := L.Assign([tmp, err], define, L.Typed(f, typ, zero));
    PrintPair(tmp, err);
    assert L.Print(init) == tmp + ", " + err + Token(define) + L.PrintRhs(L.Typed(f, typ, zero));
    ElseText(dst, tmp);
  }

  lemma PiecesAfter(f: L.Fetch, define: bool, err: L.Name, dst: L.Name, cond: L.Expr, body: L.Stmt, tmp: L.Name,
                    call: Text)
    ensures After(PiecesOf(err, define, L.Into(f, dst), cond, body, tmp, call, dst))
      == AfterText(define, err, dst, cond, body, tmp, call)
  {
    Unfold6(PiecesOf(err, define, L.Into(f, dst), cond, body, tmp, call, dst));
    Regroup("if ", tmp + ", " + err, Token(define), call, "; ", L.PrintExpr(cond), L.PrintBlock(body),
      " else {\n\t" + dst + " = " + tmp + "\n}");
  }

  lemma PrintPair(x: L.Name, y: L.Name)
    ensures L.PrintNames([x, y]) == x + ", " + y
  {
    assert [x, y][1..] == [y] && L.PrintNames([y]) == y;
  }

  lemma ElseText(dst: L.Name, tmp: L.Name)
    ensures " else " + L.PrintBlock(L.Assign([dst], false, L.Pure(L.Var(tmp))))
      == " else {\n\t" + dst + " = " + tmp + "\n}"
  {
    assert L.PrintNames([dst]) == dst;
    assert L.Print(L.Assign([dst], false, L.Pure(L.Var(tmp)))) == dst + " = " + tmp;
    assert " else " + "{\n\t" == " else {\n\t";
    Associate(" else ", "{\n\t", dst + " = " + tmp);
    Associate(" else ", "{\n\t" + (dst + " = " + tmp), "\n}");
    Associate(" else {\n\t", dst + " = ", tmp);
    Associate(" else {\n\t", dst, " = ");
  }

  lemma EditsAreSwaps(at: nat, err: L.Name, define: bool, call: L.Rhs, cond: L.Expr, body: L.Stmt, tmp: Text,
                      newCall: Text, dst: Text, tag: Tag)
    ensures FixIfInit(SpansOf(at, err, define, call, cond, body), err, tmp, newCall, dst, tag)
      == SwapEdits(PiecesOf(err, define, call, cond, body, tmp, newCall, dst), at, tag)
  {
    var p := PiecesOf(err, define, call, cond, body, tmp, newCall, dst);
    assert p[1..][1..] == p[2..] && p[2..][1..] == p[3..] && p[3..][1..] == p[4..] && p[4..][1..] == p[5..];
    assert p[5..][1..] == [];
    var a1 := at + 3;
    var a2 := a1 + |err|;
    var a3 := a2 + |Token(define)|;
    var a4 := a3 + |L.PrintRhs(call)|;
    var a5 := a4 + |Rest(cond, body)|;
    assert SwapEdits(p[5..], a5, tag) == [Edit(a5, a5, p[5].becomes, tag)];
    assert SwapEdits(p[4..], a4, tag) == SwapEdits(p[5..], a5, tag);
    assert SwapEdits(p[3..], a3, tag) == [Edit(a3, a4, newCall, tag)] + SwapEdits(p[4..], a4, tag);
    assert SwapEdits(p[2..], a2, tag) == SwapEdits(p[3..], a3, tag);
    assert SwapEdits(p[1..], a1, tag) == [Edit(a1, a2, p[1].becomes, tag)] + SwapEdits(p[2..], a2, tag);
  }

  lemma ThreeStartsDiffer(edits: seq<Edit>)
    requires |edits| == 3 && edits[0].start < edits[1].start < edits[2].start
    ensures Distinct(MapSeq((e: Edit) => e.start, edits))
  {
    var starts := MapSeq((e: Edit) => e.start, edits);
    assert starts[0] == edits[0].start && starts[1] == edits[1].start && starts[2] == edits[2].start;
  }

  // Collected, deduplicated and spliced, whatever the sorts do with them, the
  // edits turn the printed statement into the printed rewrite in place.
  lemma EditsPrintRewrite(pre: Text, post: Text, f: L.Fetch, define: bool, err: L.Name, dst: L.Name, cond: L.Expr,
                          body: L.Stmt,
                          tmp: L.Name, typ: string, zero: L.Value, tag: Tag, sorted: seq<Edit>, order: seq<Edit>)
    requires SortOutcome(FixIfInit(SpansOf(|pre|, err, define, L.Into(f, dst), cond, body), err, tmp,
                                   L.PrintRhs(L.Typed(f, typ, zero)), dst, tag), sorted)
    requires SpliceOrder(Kept(sorted), order)
    ensures Splice(pre + L.Print(G.IfInit(f, define, err, dst, cond, body)) + post, order)
      == pre + L.Print(G.RewriteIfInit(G.IfInit(f, define, err, dst, cond, body), tmp, typ, zero).value) + post
  {
    var newCall := L.PrintRhs(L.Typed(f, typ, zero));
    var pieces := PiecesOf(err, define, L.Into(f, dst), cond, body, tmp, newCall, dst);
    EditsAreSwaps(|pre|, err, define, L.Into(f, dst), cond, body, tmp, newCall, dst, tag);
    PrintBefore(f, define, err, dst, cond, body, tmp, newCall);
    PrintAfter(f, define, err, dst, cond, body, tmp, typ, zero);
    var edits := FixIfInit(SpansOf(|pre|, err, define, L.Into(f, dst), cond, body), err, tmp, newCall, dst, tag);
    ThreeStartsDiffer(edits);
    SwapsApply(pre, pieces, post, tag, edits, sorted, order);
  }

  // Whatever the sorts do, the edits print the rewritten statement in place.
  ghost predicate PrintsRewrite(edits: seq<Edit>, pre: Text, post: Text, s: L.Stmt, rewritten: L.Stmt) {
    forall sorted, order :: SortOutcome(edits, sorted) && SpliceOrder(Kept(sorted), order) ==>
      Splice(pre + L.Print(s) + post, order) == pre + L.Print(rewritten) + post
  }

  // The whole if-init fix: the temporary it picks is free when one of its 99
  // candidates is, the edits print the rewritten statement, and running that
  // statement is running the original unless the temporary is err's name.
  method FixIfInitStatement(pre: Text, post: Text, f: L.Fetch, err: L.Name, dst: L.Name, cond: L.Expr, body: L.Stmt,
                            typ: string, suffix: string, inScope: set<L.Name>, tag: Tag, ghost zero: L.Value)
    returns (edits: seq<Edit>, tmp: L.Name)
    requires err != dst && dst != L.BLANK && suffix in {"V4", "V4Exported"}
    requires !(N.Tried(dst + suffix, N.END_SUFFIX) <= inScope)
    ensures tmp !in inScope
    ensures var s := G.IfInit(f, true, err, dst, cond, body); var s' := G.RewriteIfInit(s, tmp, typ, zero).value;
      && PrintsRewrite(edits, pre, post, s, s')
      && |edits| == 3 && edits[0].text == tmp + ", " + err && edits[1].text == NewCall(f, typ)
      && edits[2].text == " else {\n\t" + dst + " = " + tmp + "\n}"
      && (tmp != err && G.TellsErrors(cond, tmp, err, dst) ==> RunsAlike(s, s', inScope))
      && (tmp == err ==> NeverRuns(s'))
  {
    tmp := N.TempName(dst, suffix, inScope);
    var newCall := NewCall(f, typ);
    edits := FixIfInit(SpansOf(|pre|, err, true, L.Into(f, dst), cond, body), err, tmp, newCall, dst, tag);
    NewCallPrints(f, typ, zero);
    forall sorted, order | SortOutcome(edits, sorted) && SpliceOrder(Kept(sorted), order) {
      EditsPrintRewrite(pre, post, f, true, err, dst, cond, body, tmp, typ, zero, tag, sorted, order);
    }
    FixRuns(f, typ, zero, tmp, err, dst, cond, body, inScope);
  }

  // Started where at most these names are bound, both end alike.
  ghost predicate RunsAlike(s: L.Stmt, s': L.Stmt, inScope: set<L.Name>) {
    forall st: L.State, fuel, w :: Visible(st.scopes) <= inScope ==>
      G.Preserved(L.Exec(s, st, fuel, w), L.Exec(s', st, fuel, w))
  }

  ghost predicate NeverRuns(s: L.Stmt) {
    forall st: L.State, fuel, w :: L.Exec(s, st, fuel, w).signal == L.Stuck
  }

  // The names some scope binds.
  function Visible(s: L.Scopes): set<L.Name> {
    if s == [] then {} else s[0].Keys + Visible(s[1..])
  }

  lemma {:induction false} NotVisible(s: L.Scopes, x: L.Name)
    requires x !in Visible(s)
    ensures G.BoundNowhere(s, x)
  {
    if s != [] {
      NotVisible(s[1..], x);
    }
  }

  lemma FixRuns(f: L.Fetch, typ: string, zero: L.Value, tmp: L.Name, err: L.Name, dst: L.Name, cond: L.Expr,
                body: L.Stmt,
                inScope: set<L.Name>)
    requires err != dst && dst != L.BLANK && tmp != L.BLANK && tmp !in inScope
    ensures var s := G.IfInit(f, true, err, dst, cond, body); var s' := G.RewriteIfInit(s, tmp, typ, zero).value;
      && (tmp != err && G.TellsErrors(cond, tmp, err, dst) ==> RunsAlike(s, s', inScope))
      && (tmp == err ==> NeverRuns(s'))
  {
    var s := G.IfInit(f, true, err, dst, cond, body);
    var s' := G.RewriteIfInit(s, tmp, typ, zero).value;
    if tmp != err && G.TellsErrors(cond, tmp, err, dst) {
      forall st: L.State, fuel, w | Visible(st.scopes) <= inScope
        ensures G.Preserved(L.Exec(s, st, fuel, w), L.Exec(s', st, fuel, w))
      {
        NotVisible(st.scopes, tmp);
        G.IfInitPreserved(f, typ, zero, tmp, err, dst, cond, body, st, fuel, w);
      }
    }
    if tmp == err {
      forall st: L.State, fuel, w {
        G.SameNameSticks(f, typ, zero, err, dst, cond, body, st, fuel, w);
      }
    }
  }
}
