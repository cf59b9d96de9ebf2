// The edit of the statement rewrites outside an if, down to bytes: it turns
// the print of the statement into the print of the rewritten statement.
module StatementEdits {
  import opened Sequences
  import opened Edits
  import opened Pieces
  import L = Lang
  import A = AssignRewrite
  import I = IfInitEdits

  // Where the statement stood, a statement that gives dst the first result of
  // the new call, and the second to the name the error went to.
  function StatementEdit(s: L.Stmt, at: nat, typ: string, tag: Tag): Edit
    requires A.IsCallStatement(s)
  {
    var call := A.CallOf(s);
    Edit(at, at + |L.Print(s)|,
         call.dst + ", " + A.ErrorName(s) + (if A.Defines(s) then " := " else " = ") + I.NewCall(call.f, typ), tag)
  }

  // Whatever the sorts do, the edits print the rewritten statement in place.
  ghost predicate PrintsStatement(edits: seq<Edit>, pre: Text, post: Text, s: L.Stmt, rewritten: L.Stmt) {
    forall sorted, order :: SortOutcome(edits, sorted) && SpliceOrder(Kept(sorted), order) ==>
      Splice(pre + L.Print(s) + post, order) == pre + L.Print(rewritten) + post
  }

  // The statement shapes of fixGetToField and fixJWKExportGeneric: a bare call
  // puts the error aside, an assignment keeps its name and token, and any
  // other statement is left alone.
  method FixStatement(pre: Text, post: Text, s: L.Stmt, typ: string, tag: Tag, ghost zero: L.Value)
    returns (edits: seq<Edit>)
    ensures edits == [] <==> !A.IsCallStatement(s)
    ensures forall f, dst ::
      s == L.Do(L.Into(f, dst)) ==>
        |edits| == 1 && edits[0].text == dst + ", _ = " + I.NewCall(f, typ)
    ensures forall f, dst, name, define ::
      s == L.Assign([name], define, L.Into(f, dst)) ==>
        |edits| == 1 && edits[0].text == dst + ", " + name + (if define then " := " else " = ") + I.NewCall(f, typ)
    ensures A.IsCallStatement(s) ==> PrintsStatement(edits, pre, post, s, A.RewriteStatement(s, typ, zero).value)
  {
    edits := [];
    if s.Do? && s.call.Into? {
      edits := [Edit(|pre|, |pre| + |L.Print(s)|, s.call.dst + ", _ = " + I.NewCall(s.call.f, typ), tag)];
      BareText(s.call.dst, I.NewCall(s.call.f, typ));
    }
    if s.Assign? && |s.lhs| == 1 && s.rhs.Into? {
      var token := if s.define then ":=" else "=";
      var text := if s.lhs[0] == "_" then s.rhs.dst + ", _ " + token + " " + I.NewCall(s.rhs.f, typ)
        else s.rhs.dst + ", " + s.lhs[0] + " " + token + " " + I.NewCall(s.rhs.f, typ);
      edits := [Edit(|pre|, |pre| + |L.Print(s)|, text, tag)];
      TokenText(s.rhs.dst, s.lhs[0], s.define, I.NewCall(s.rhs.f, typ));
    }
    if A.IsCallStatement(s) {
      assert edits == [StatementEdit(s, |pre|, typ, tag)];
      forall sorted, order | SortOutcome(edits, sorted) && SpliceOrder(Kept(sorted), order)
      {
        StatementPrints(pre, post, s, typ, zero, tag, sorted, order);
      }
    }
  }

  lemma BareText(dst: Text, call: Text)
    ensures dst + ", _ = " + call == dst + ", " + "_" + " = " + call
  {
    assert ", " + "_" + " = " == ", _ = ";
    Associate(dst + ", ", "_", " = ");
    Associate(dst, ", ", "_" + " = ");
  }

  lemma TokenText(dst: Text, name: Text, define: bool, call: Text)
    ensures var token := if define then ":=" else "=";
      var spaced := dst + ", " + name + (if define then " := " else " = ") + call;
      && dst + ", " + name + " " + token + " " + call == spaced
      && (name == "_" ==> dst + ", _ " + token + " " + call == spaced)
  {
    var token := if define then ":=" else "=";
    assert " " + token + " " == if define then " := " else " = ";
    Associate(dst + ", " + name, " ", token);
    Associate(dst + ", " + name, " " + token, " ");
    if name == "_" {
      assert ", " + "_" + " " == ", _ ";
      Associate(dst + ", ", "_", " ");
      Associate(dst, ", ", "_" + " ");
    }
  }

  lemma StatementPrints(pre: Text, post: Text, s: L.Stmt, typ: string, zero: L.Value, tag: Tag, sorted: seq<Edit>,
                        order: seq<Edit>)
    requires A.IsCallStatement(s)
    requires SortOutcome([StatementEdit(s, |pre|, typ, tag)], sorted) && SpliceOrder(Kept(sorted), order)
    ensures Splice(pre + L.Print(s) + post, order) == pre + L.Print(A.RewriteStatement(s, typ, zero).value) + post
  {
    var e := StatementEdit(s, |pre|, typ, tag);
    var pieces := [Swap(L.Print(s), e.text)];
    OnePiece(pieces[0], |pre|, tag);
    RewriteText(s, typ, zero);
    assert MapSeq((x: Edit) => x.start, [e]) == [e.start];
    SwapsApply(pre, pieces, post, tag, [e], sorted, order);
  }

  lemma RewriteText(s: L.Stmt, typ: string, zero: L.Value)
    requires A.IsCallStatement(s)
    ensures L.Print(A.RewriteStatement(s, typ, zero).value) == StatementEdit(s, 0, typ, Tag("", 0)).text
  {
    var call := A.CallOf(s);
    I.PrintPair(call.dst, A.ErrorName(s));
    I.NewCallPrints(call.f, typ, zero);
  }
}
