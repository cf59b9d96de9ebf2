// fixWithVerifyFalse: jwt.Parse(.., jwt.WithVerify(false), ..) becomes
// jwt.ParseInsecure(.., ..), down to bytes, for any number of arguments.
module CallRewrite {
  import opened Sequences
  import opened Edits
  import opened Splicing
  import opened Pieces

  // ---- The syntax tree as the fixer sees it ------------------------------

  datatype ArgNode = ArgNode(pos: nat, end: nat, text: Text, verifyFalse: bool)

  datatype CallNode = CallNode(selPos: nat, selEnd: nat, name: Text, args: seq<ArgNode>)

  datatype Fix = Unclaimed | Claimed(edits: seq<Edit>)

  // The first WithVerify(false), or the number of arguments.
  function VerifyIndex(args: seq<ArgNode>): (k: nat)
    ensures k <= |args|
  {
    if args == [] || args[0].verifyFalse then 0 else 1 + VerifyIndex(args[1..])
  }

  lemma {:induction false} VerifyIndexIsFirst(args: seq<ArgNode>)
    ensures var k := VerifyIndex(args);
      (k < |args| ==> args[k].verifyFalse) && forall i :: 0 <= i < k ==> !args[i].verifyFalse
  {
    if args != [] && !args[0].verifyFalse {
      VerifyIndexIsFirst(args[1..]);
    }
  }

  method FixWithVerifyFalse(node: CallNode, tag: Tag) returns (fix: Fix)
    ensures fix == FixOf(node, tag)
    ensures fix.Unclaimed? <==> node.name !in {"Parse", "ParseString"}
    ensures fix == Claimed([]) <==>
      node.name in {"Parse", "ParseString"} && forall i :: 0 <= i < |node.args| ==> !node.args[i].verifyFalse
  {
    VerifyIndexIsFirst(node.args);
    if node.name != "Parse" && node.name != "ParseString" {
      return Unclaimed;
    }
    var k := |node.args|;
    for i := 0 to |node.args|
      invariant k == |node.args|
      invariant VerifyIndex(node.args) == i + VerifyIndex(node.args[i..])
    {
      assert node.args[i..][0] == node.args[i] && node.args[i..][1..] == node.args[i + 1..];
      if node.args[i].verifyFalse {
        k := i;
        break;
      }
    }
    if k == |node.args| {
      return Claimed([]);
    }
    var edits := [Edit(node.selPos, node.selEnd, "ParseInsecure", tag)];
    if node.name == "ParseString" {
      var first := node.args[0];
      edits := edits + [Edit(first.pos, first.end, "[]byte(" + first.text + ")", tag)];
    }
    var removeStart, removeEnd := node.args[k].pos, node.args[k].end;
    if k > 0 {
      removeStart := node.args[k - 1].end;
    } else if k < |node.args| - 1 {
      removeEnd := node.args[k + 1].pos;
    }
    var rename := Edit(node.selPos, node.selEnd, "ParseInsecure", tag);
    Associate([rename], WrapOf(node.name, node.args[0], tag), [RemovalOf(node.args, k, tag)]);
    fix := Claimed(edits + [Edit(removeStart, removeEnd, "", tag)]);
  }

  function FixOf(node: CallNode, tag: Tag): Fix {
    var k := VerifyIndex(node.args);
    if node.name != "Parse" && node.name != "ParseString" then Unclaimed
    else if k == |node.args| then Claimed([])
    else
      Claimed([Edit(node.selPos, node.selEnd, "ParseInsecure", tag)] + ArgEditsOf(node.name, node.args, k, tag))
  }

  // The edits inside the argument list, as the fixer emits them.
  function ArgEditsOf(name: Text, args: seq<ArgNode>, k: nat, tag: Tag): seq<Edit>
    requires k < |args|
  {
    WrapOf(name, args[0], tag) + [RemovalOf(args, k, tag)]
  }

  function WrapOf(name: Text, first: ArgNode, tag: Tag): seq<Edit> {
    if name == "ParseString" then [Edit(first.pos, first.end, "[]byte(" + first.text + ")", tag)] else []
  }

  function RemovalOf(args: seq<ArgNode>, k: nat, tag: Tag): Edit
    requires k < |args|
  {
    var start := if k > 0 then args[k - 1].end else args[k].pos;
    var end := if k == 0 && |args| > 1 then args[1].pos else args[k].end;
    Edit(start, end, "", tag)
  }

  // ---- Printed calls -----------------------------------------------------

  // An argument and the separator printed after it.
  datatype Arg = Arg(text: Text, sep: Text, verifyFalse: bool)

  // `open` runs from the function name to the first argument.
  datatype Call = Call(recv: Text, name: Text, open: Text, args: seq<Arg>, close: Text)

  function PrintArgs(args: seq<Arg>): Text {
    if args == [] then "" else args[0].text + args[0].sep + PrintArgs(args[1..])
  }

  function Print(c: Call): Text {
    c.recv + c.name + c.open + PrintArgs(c.args) + c.close
  }

  function NodesOf(args: seq<Arg>, at: nat): (r: seq<ArgNode>)
    ensures |r| == |args|
  {
    if args == [] then []
    else [ArgNode(at, at + |args[0].text|, args[0].text, args[0].verifyFalse)]
         + NodesOf(args[1..], at + |args[0].text| + |args[0].sep|)
  }

  function NodeOf(c: Call, at: nat): CallNode {
    var sel := at + |c.recv|;
    CallNode(sel, sel + |c.name|, c.name, NodesOf(c.args, sel + |c.name| + |c.open|))
  }

  predicate WellFormed(c: Call) {
    c.name != "" && forall a :: a in c.args ==> a.text != ""
  }

  // ---- The intended tree rewrite -----------------------------------------

  function FirstVerify(args: seq<Arg>): (k: nat)
    ensures k <= |args|
    ensures k < |args| ==> args[k].verifyFalse
  {
    if args == [] || args[0].verifyFalse then 0 else 1 + FirstVerify(args[1..])
  }

  // Argument k goes, with the separator before it; the first one takes the
  // separator after it, or leaves it behind when it was the only argument.
  function Without(args: seq<Arg>, k: nat): seq<Arg>
    requires k < |args|
  {
    if k == 0 then args[1..]
    else args[..k - 1] + [args[k - 1].(sep := args[k].sep)] + args[k + 1..]
  }

  function WrapFirst(args: seq<Arg>): seq<Arg> {
    if args == [] then [] else [args[0].(text := "[]byte(" + args[0].text + ")")] + args[1..]
  }

  function Rewritten(c: Call): Call
    requires FirstVerify(c.args) < |c.args|
  {
    var k := FirstVerify(c.args);
    var args := if c.name == "ParseString" && k > 0 then WrapFirst(c.args) else c.args;
    var open := if |c.args| == 1 then c.open + c.args[0].sep else c.open;
    c.(name := "ParseInsecure", open := open, args := Without(args, k))
  }

  // The rewrite is a call of ParseInsecure on the same package that keeps every
  // other argument's text, in order, wrapping the first for ParseString.
  lemma RewrittenArguments(c: Call, i: nat)
    requires FirstVerify(c.args) < |c.args| && i < |c.args| - 1
    ensures |Rewritten(c).args| == |c.args| - 1
    ensures Rewritten(c).args[i].text == (
      var was := c.args[if i < FirstVerify(c.args) then i else i + 1].text;
      if c.name == "ParseString" && FirstVerify(c.args) > 0 && i == 0 then "[]byte(" + was + ")" else was)
    ensures Rewritten(c).args[i].sep == c.args[if i + 1 < FirstVerify(c.args) then i else i + 1].sep
    ensures Rewritten(c).recv == c.recv && Rewritten(c).name == "ParseInsecure" && Rewritten(c).open == c.open
      && Rewritten(c).close == c.close
    ensures forall j :: 0 <= j < FirstVerify(c.args) ==> !c.args[j].verifyFalse
  {
    FirstVerifyIsFirst(c.args);
    var k := FirstVerify(c.args);
    WithoutTexts(if c.name == "ParseString" && k > 0 then WrapFirst(c.args) else c.args, k, i);
  }

  lemma WithoutTexts(args: seq<Arg>, k: nat, i: nat)
    requires k < |args| && i < |args| - 1
    ensures |Without(args, k)| == |args| - 1
    ensures Without(args, k)[i].text == args[if i < k then i else i + 1].text
    ensures Without(args, k)[i].sep == args[if i + 1 < k then i else i + 1].sep
  {
  }

  lemma {:induction false} FirstVerifyIsFirst(args: seq<Arg>)
    ensures forall j :: 0 <= j < FirstVerify(args) ==> !args[j].verifyFalse
  {
    if args != [] && !args[0].verifyFalse {
      FirstVerifyIsFirst(args[1..]);
    }
  }

  // A call whose only argument is the option keeps no argument.
  lemma RewrittenSole(c: Call)
    requires |c.args| == 1 && c.args[0].verifyFalse
    ensures Rewritten(c) == Call(c.recv, "ParseInsecure", c.open + c.args[0].sep, [], c.close)
  {
  }

  // ---- Pieces ------------------------------------------------------------

  function ArgPieces(args: seq<Arg>): seq<Piece> {
    if args == [] then [] else [Stay(args[0].text + args[0].sep)] + ArgPieces(args[1..])
  }

  // Arguments from number 1 on, where argument k >= 1 is removed: `sep` is
  // the separator printed before them.
  function TailPieces(sep: Text, args: seq<Arg>, k: nat): seq<Piece>
    requires k < |args|
    decreases |args|
  {
    if k == 0 then [Swap(sep + args[0].text, ""), Stay(args[0].sep)] + ArgPieces(args[1..])
    else [Stay(sep + args[0].text)] + TailPieces(args[0].sep, args[1..], k - 1)
  }

  lemma {:induction false} BeforeAppend(p: seq<Piece>, q: seq<Piece>)
    ensures Before(p + q) == Before(p) + Before(q)
    ensures After(p + q) == After(p) + After(q)
  {
    if p == [] {
      assert p + q == q;
    } else {
      assert (p + q)[1..] == p[1..] + q;
      BeforeAppend(p[1..], q);
      Associate(if p[0].Stay? then p[0].text else p[0].was, Before(p[1..]), Before(q));
      Associate(if p[0].Stay? then p[0].text else p[0].becomes, After(p[1..]), After(q));
    }
  }

  lemma {:induction false} SwapEditsAppend(p: seq<Piece>, q: seq<Piece>, at: nat, tag: Tag)
    ensures SwapEdits(p + q, at, tag) == SwapEdits(p, at, tag) + SwapEdits(q, at + |Before(p)|, tag)
  {
    if p == [] {
      assert p + q == q;
    } else {
      assert (p + q)[1..] == p[1..] + q;
      SwapEditsAppend(p[1..], q, at + Size(p[0]), tag);
    }
  }

  lemma {:induction false} ArgPiecesPrint(args: seq<Arg>, at: nat, tag: Tag)
    ensures Before(ArgPieces(args)) == After(ArgPieces(args)) == PrintArgs(args)
    ensures SwapEdits(ArgPieces(args), at, tag) == []
  {
    if args != [] {
      var p := Stay(args[0].text + args[0].sep);
      ArgPiecesPrint(args[1..], at + Size(p), tag);
      assert ArgPieces(args)[1..] == ArgPieces(args[1..]);
    }
  }

  // The argument list with its head replaced, as printed after removal.
  function PrintWithout(head: Text, args: seq<Arg>, k: nat): Text
    requires 0 < k < |args|
  {
    PrintArgs(Without([args[0].(text := head)] + args[1..], k))
  }

  lemma PieceCons(p: Piece, more: seq<Piece>, at: nat, tag: Tag)
    ensures Before([p] + more) == (if p.Stay? then p.text else p.was) + Before(more)
    ensures After([p] + more) == (if p.Stay? then p.text else p.becomes) + After(more)
    ensures SwapEdits([p] + more, at, tag)
      == (if p.Stay? then [] else [Edit(at, at + |p.was|, p.becomes, tag)]) + SwapEdits(more, at + Size(p), tag)
  {
    assert ([p] + more)[1..] == more;
  }

  // Without the swaps, the tail prints the separator and the other arguments.
  lemma {:induction false} TailBefore(sep: Text, args: seq<Arg>, k: nat)
    requires k < |args|
    ensures Before(TailPieces(sep, args, k)) == sep + PrintArgs(args)
    decreases k
  {
    var rest := args[1..];
    if k == 0 {
      var p, q := Swap(sep + args[0].text, ""), Stay(args[0].sep);
      assert TailPieces(sep, args, k) == [p] + ([q] + ArgPieces(rest));
      PieceCons(p, [q] + ArgPieces(rest), 0, Tag("", 0));
      PieceCons(q, ArgPieces(rest), 0, Tag("", 0));
      ArgPiecesPrint(rest, 0, Tag("", 0));
    } else {
      TailBefore(args[0].sep, rest, k - 1);
      PieceCons(Stay(sep + args[0].text), TailPieces(args[0].sep, rest, k - 1), 0, Tag("", 0));
    }
    Associate(sep, args[0].text, args[0].sep + PrintArgs(rest));
    Associate(args[0].text, args[0].sep, PrintArgs(rest));
  }

  // The edit that removes argument k runs from the end of the one before it.
  lemma {:induction false} TailEdits(args: seq<Arg>, k: nat, at: nat, tag: Tag)
    requires 0 < k < |args|
    ensures SwapEdits(TailPieces(args[0].sep, args[1..], k - 1), at + |args[0].text|, tag)
      == [Edit(NodesOf(args, at)[k - 1].end, NodesOf(args, at)[k].end, "", tag)]
    decreases k
  {
    var sep, rest, mid := args[0].sep, args[1..], at + |args[0].text|;
    NodeShift(args, at, k);
    if k == 1 {
      NodeFirst(args, at);
      NodeFirst(rest, mid + |sep|);
      NextEdit(sep, rest, mid, tag);
    } else {
      TailEdits(rest, k - 1, mid + |sep|, tag);
      NodeShift(args, at, k - 1);
      PieceCons(Stay(sep + rest[0].text), TailPieces(rest[0].sep, rest[1..], k - 2), mid, tag);
    }
  }

  lemma NextEdit(sep: Text, rest: seq<Arg>, at: nat, tag: Tag)
    requires rest != []
    ensures SwapEdits(TailPieces(sep, rest, 0), at, tag) == [Edit(at, at + |sep| + |rest[0].text|, "", tag)]
  {
    var p, q, last := Swap(sep + rest[0].text, ""), Stay(rest[0].sep), ArgPieces(rest[1..]);
    assert TailPieces(sep, rest, 0) == [p] + ([q] + last);
    PieceCons(p, [q] + last, at, tag);
    PieceCons(q, last, at + Size(p), tag);
    ArgPiecesPrint(rest[1..], at + Size(p) + Size(q), tag);
  }

  lemma NodeFirst(args: seq<Arg>, at: nat)
    requires args != []
    ensures NodesOf(args, at)[0] == ArgNode(at, at + |args[0].text|, args[0].text, args[0].verifyFalse)
  {
  }

  lemma NodeShift(args: seq<Arg>, at: nat, k: nat)
    requires 0 < k < |args|
    ensures NodesOf(args, at)[k] == NodesOf(args[1..], at + |args[0].text| + |args[0].sep|)[k - 1]
  {
  }

  // With the swaps, it prints the arguments without argument k.
  lemma {:induction false} TailAfter(args: seq<Arg>, k: nat, head: Text)
    requires 0 < k < |args|
    ensures head + After(TailPieces(args[0].sep, args[1..], k - 1)) == PrintWithout(head, args, k)
    decreases k
  {
    var sep, rest := args[0].sep, args[1..];
    var kept := [args[0].(text := head)] + rest;
    if k == 1 {
      RemovedNext(args, head);
    } else {
      var more := TailPieces(rest[0].sep, rest[1..], k - 2);
      TailAfter(rest, k - 1, rest[0].text);
      PieceCons(Stay(sep + rest[0].text), more, 0, Tag("", 0));
      Associate(sep, rest[0].text, After(more));
      assert [rest[0].(text := rest[0].text)] + rest[1..] == rest;
      WithoutTail(kept, k);
      assert kept[1..] == rest;
      Associate(head, sep, PrintArgs(Without(rest, k - 1)));
    }
  }

  lemma WithoutTail(args: seq<Arg>, k: nat)
    requires 1 < k < |args|
    ensures PrintArgs(Without(args, k)) == args[0].text + args[0].sep + PrintArgs(Without(args[1..], k - 1))
  {
    WithoutCons(args, k);
    assert ([args[0]] + Without(args[1..], k - 1))[1..] == Without(args[1..], k - 1);
  }

  lemma WithoutCons(args: seq<Arg>, k: nat)
    requires 1 < k < |args|
    ensures Without(args, k) == [args[0]] + Without(args[1..], k - 1)
  {
    var rest := args[1..];
    assert rest[..k - 2] == args[1..k - 1];
    assert args[..k - 1] == [args[0]] + args[1..k - 1];
    assert rest[k..] == args[k + 1..];
    Associate([args[0]], args[1..k - 1], [args[k - 1].(sep := args[k].sep)]);
    Associate([args[0]], args[1..k - 1] + [args[k - 1].(sep := args[k].sep)], args[k + 1..]);
  }

  lemma RemovedNext(args: seq<Arg>, head: Text)
    requires |args| > 1
    ensures head + After(TailPieces(args[0].sep, args[1..], 0)) == PrintWithout(head, args, 1)
  {
    var rest := args[1..];
    var p, q, last := Swap(args[0].sep + rest[0].text, ""), Stay(rest[0].sep), ArgPieces(rest[1..]);
    assert TailPieces(args[0].sep, rest, 0) == [p] + ([q] + last);
    PieceCons(p, [q] + last, 0, Tag("", 0));
    PieceCons(q, last, 0, Tag("", 0));
    ArgPiecesPrint(rest[1..], 0, Tag("", 0));
    assert "" + (q.text + After(last)) == q.text + After(last);
    var kept := [args[0].(text := head)] + rest;
    assert kept[2..] == rest[1..];
    WithoutSecond(kept);
    Associate(head, rest[0].sep, PrintArgs(rest[1..]));
  }

  lemma WithoutSecond(args: seq<Arg>)
    requires |args| > 1
    ensures PrintArgs(Without(args, 1)) == args[0].text + args[1].sep + PrintArgs(args[2..])
  {
    var first := args[0].(sep := args[1].sep);
    assert args[..0] == [];
    assert Without(args, 1) == [first] + args[2..];
    assert Without(args, 1)[1..] == args[2..];
  }

  // What stands between the open and close texts.
  function MiddlePieces(c: Call): seq<Piece>
    requires FirstVerify(c.args) < |c.args|
  {
    var k, a := FirstVerify(c.args), c.args;
    if k > 0 then
      [if c.name == "ParseString" then Swap(a[0].text, "[]byte(" + a[0].text + ")") else Stay(a[0].text)]
      + TailPieces(a[0].sep, a[1..], k - 1)
    else if |a| > 1 then [Swap(a[0].text + a[0].sep, "")] + ArgPieces(a[1..])
    else [Swap(a[0].text, ""), Stay(a[0].sep)]
  }

  function ArgEdits(c: Call, at: nat, tag: Tag): seq<Edit>
    requires FirstVerify(c.args) < |c.args|
  {
    ArgEditsOf(c.name, NodesOf(c.args, at), FirstVerify(c.args), tag)
  }

  predicate Faithful(c: Call) {
    c.name == "ParseString" ==> FirstVerify(c.args) > 0
  }

  lemma MiddlePrints(c: Call, at: nat, tag: Tag)
    requires FirstVerify(c.args) < |c.args| && Faithful(c)
    ensures Before(MiddlePieces(c)) == PrintArgs(c.args)
    ensures c.open + After(MiddlePieces(c)) == Rewritten(c).open + PrintArgs(Rewritten(c).args)
    ensures SwapEdits(MiddlePieces(c), at, tag) == ArgEdits(c, at, tag)
  {
    if FirstVerify(c.args) > 0 {
      LaterArgument(c, at, tag);
    } else if |c.args| > 1 {
      FrontArgument(c, at, tag);
    } else {
      SoleArgument(c, at, tag);
    }
  }

  function FirstPiece(c: Call): Piece
    requires c.args != []
  {
    var text := c.args[0].text;
    if c.name == "ParseString" then Swap(text, "[]byte(" + text + ")") else Stay(text)
  }

  lemma LaterArgument(c: Call, at: nat, tag: Tag)
    requires 0 < FirstVerify(c.args) < |c.args|
    ensures Before(MiddlePieces(c)) == PrintArgs(c.args)
    ensures After(MiddlePieces(c)) == PrintArgs(Rewritten(c).args) && Rewritten(c).open == c.open
    ensures SwapEdits(MiddlePieces(c), at, tag) == ArgEdits(c, at, tag)
  {
    var k, a, p := FirstVerify(c.args), c.args, FirstPiece(c);
    var tail := TailPieces(a[0].sep, a[1..], k - 1);
    assert MiddlePieces(c) == [p] + tail;
    LaterPrints(c, p, tail);
    TailEdits(a, k, at, tag);
    LaterEdits(c, at, tag, tail);
  }

  lemma LaterPrints(c: Call, p: Piece, tail: seq<Piece>)
    requires 0 < FirstVerify(c.args) < |c.args| && p == FirstPiece(c)
    requires tail == TailPieces(c.args[0].sep, c.args[1..], FirstVerify(c.args) - 1)
    ensures Before([p] + tail) == PrintArgs(c.args)
    ensures After([p] + tail) == PrintArgs(Rewritten(c).args) && Rewritten(c).open == c.open
  {
    var k, a := FirstVerify(c.args), c.args;
    var head := if p.Stay? then p.text else p.becomes;
    TailBefore(a[0].sep, a[1..], k - 1);
    TailAfter(a, k, head);
    PieceCons(p, tail, 0, Tag("", 0));
    Associate(a[0].text, a[0].sep, PrintArgs(a[1..]));
    LaterWithout(c, head);
  }

  lemma LaterWithout(c: Call, head: Text)
    requires 0 < FirstVerify(c.args) < |c.args|
    requires head == if FirstPiece(c).Stay? then FirstPiece(c).text else FirstPiece(c).becomes
    ensures PrintArgs(Rewritten(c).args) == PrintWithout(head, c.args, FirstVerify(c.args)) &&
      Rewritten(c).open == c.open
  {
    var a := c.args;
    assert [a[0]] + a[1..] == a;
  }

  lemma LaterEdits(c: Call, at: nat, tag: Tag, tail: seq<Piece>)
    requires 0 < FirstVerify(c.args) < |c.args|
    requires var k, n := FirstVerify(c.args), NodesOf(c.args, at);
      SwapEdits(tail, at + |c.args[0].text|, tag) == [Edit(n[k - 1].end, n[k].end, "", tag)]
    ensures SwapEdits([FirstPiece(c)] + tail, at, tag) == ArgEdits(c, at, tag)
  {
    PieceCons(FirstPiece(c), tail, at, tag);
    FirstEdit(c, at, tag);
  }

  lemma FirstEdit(c: Call, at: nat, tag: Tag)
    requires c.args != []
    ensures WrapOf(c.name, NodesOf(c.args, at)[0], tag) == if FirstPiece(c).Stay? then []
      else [Edit(at, at + |FirstPiece(c).was|, FirstPiece(c).becomes, tag)]
    ensures Size(FirstPiece(c)) == |c.args[0].text|
  {
    NodeFirst(c.args, at);
  }

  lemma FrontArgument(c: Call, at: nat, tag: Tag)
    requires FirstVerify(c.args) == 0 && |c.args| > 1 && c.name != "ParseString"
    ensures Before(MiddlePieces(c)) == PrintArgs(c.args)
    ensures After(MiddlePieces(c)) == PrintArgs(Rewritten(c).args) && Rewritten(c).open == c.open
    ensures SwapEdits(MiddlePieces(c), at, tag) == ArgEdits(c, at, tag)
  {
    var a := c.args;
    var p, more := Swap(a[0].text + a[0].sep, ""), ArgPieces(a[1..]);
    assert MiddlePieces(c) == [p] + more;
    PieceCons(p, more, at, tag);
    ArgPiecesPrint(a[1..], at + Size(p), tag);
    assert "" + PrintArgs(a[1..]) == PrintArgs(a[1..]);
    FrontEdits(c, at, tag);
  }

  lemma FrontEdits(c: Call, at: nat, tag: Tag)
    requires FirstVerify(c.args) == 0 && |c.args| > 1 && c.name != "ParseString"
    ensures SwapEdits([Swap(c.args[0].text + c.args[0].sep, "")] + ArgPieces(c.args[1..]), at, tag)
      == ArgEdits(c, at, tag)
  {
    var a := c.args;
    var p, more := Swap(a[0].text + a[0].sep, ""), ArgPieces(a[1..]);
    PieceCons(p, more, at, tag);
    ArgPiecesPrint(a[1..], at + Size(p), tag);
    NodeFirst(a, at);
    NodeShift(a, at, 1);
    NodeFirst(a[1..], at + |a[0].text| + |a[0].sep|);
  }

  lemma SoleArgument(c: Call, at: nat, tag: Tag)
    requires FirstVerify(c.args) == 0 && |c.args| == 1 && c.name != "ParseString"
    ensures Before(MiddlePieces(c)) == PrintArgs(c.args)
    ensures c.open + After(MiddlePieces(c)) == Rewritten(c).open + PrintArgs(Rewritten(c).args)
    ensures SwapEdits(MiddlePieces(c), at, tag) == ArgEdits(c, at, tag)
  {
    var a := c.args;
    var p, q := Swap(a[0].text, ""), Stay(a[0].sep);
    assert [p, q] == [p] + [q];
    PieceCons(p, [q], at, tag);
    OnePiece(q, at + |a[0].text|, tag);
    assert a[1..] == [] && PrintArgs(a[1..]) == "";
    assert a[0].text + a[0].sep + "" == a[0].text + a[0].sep;
    assert "" + a[0].sep == a[0].sep;
  }

  // ---- The whole call ----------------------------------------------------

  function WholePieces(c: Call): seq<Piece>
    requires FirstVerify(c.args) < |c.args|
  {
    [Stay(c.recv), Swap(c.name, "ParseInsecure"), Stay(c.open)] + MiddlePieces(c) + [Stay(c.close)]
  }

  lemma HeadPieces(c: Call, at: nat, tag: Tag)
    ensures var head := [Stay(c.recv), Swap(c.name, "ParseInsecure"), Stay(c.open)];
      && Before(head) == c.recv + c.name + c.open
      && After(head) == c.recv + "ParseInsecure" + c.open
      && SwapEdits(head, at, tag) == [Edit(at + |c.recv|, at + |c.recv| + |c.name|, "ParseInsecure", tag)]
  {
    var p, q, r := Stay(c.recv), Swap(c.name, "ParseInsecure"), Stay(c.open);
    assert [p, q, r] == [p] + ([q] + [r]);
    PieceCons(p, [q] + [r], at, tag);
    PieceCons(q, [r], at + |c.recv|, tag);
    OnePiece(r, at + |c.recv| + |c.name|, tag);
    Associate(c.recv, c.name, c.open);
    Associate(c.recv, "ParseInsecure", c.open);
  }

  lemma VerifyCons(first: ArgNode, rest: seq<ArgNode>)
    ensures VerifyIndex([first] + rest) == if first.verifyFalse then 0 else 1 + VerifyIndex(rest)
  {
    assert ([first] + rest)[1..] == rest;
  }

  lemma {:induction false} SameIndex(args: seq<Arg>, at: nat)
    ensures VerifyIndex(NodesOf(args, at)) == FirstVerify(args)
  {
    if args != [] {
      var first, next := args[0], at + |args[0].text| + |args[0].sep|;
      VerifyCons(ArgNode(at, at + |first.text|, first.text, first.verifyFalse), NodesOf(args[1..], next));
      SameIndex(args[1..], next);
    }
  }

  lemma WholePrints(c: Call)
    requires FirstVerify(c.args) < |c.args| && Faithful(c)
    ensures Before(WholePieces(c)) == Print(c)
    ensures After(WholePieces(c)) == Print(Rewritten(c))
  {
    var head, mid, last := [Stay(c.recv), Swap(c.name, "ParseInsecure"), Stay(c.open)], MiddlePieces(c),
      [Stay(c.close)];
    HeadPieces(c, 0, Tag("", 0));
    MiddlePrints(c, 0, Tag("", 0));
    BeforeAppend(head + mid, last);
    BeforeAppend(head, mid);
    OnePiece(Stay(c.close), 0, Tag("", 0));
    Associate(c.recv + "ParseInsecure", c.open, After(mid));
    Associate(c.recv + "ParseInsecure", Rewritten(c).open, PrintArgs(Rewritten(c).args));
  }

  function RenameEdit(c: Call, at: nat, tag: Tag): Edit {
    Edit(at + |c.recv|, at + |c.recv| + |c.name|, "ParseInsecure", tag)
  }

  function ArgsAt(c: Call, at: nat): nat { at + |c.recv| + |c.name| + |c.open| }

  lemma WholeEdits(c: Call, at: nat, tag: Tag)
    requires FirstVerify(c.args) < |c.args| && Faithful(c)
    ensures SwapEdits(WholePieces(c), at, tag) == [RenameEdit(c, at, tag)] + ArgEdits(c, ArgsAt(c, at), tag)
  {
    var head, mid, last := [Stay(c.recv), Swap(c.name, "ParseInsecure"), Stay(c.open)], MiddlePieces(c),
      [Stay(c.close)];
    HeadPieces(c, at, tag);
    MiddlePrints(c, ArgsAt(c, at), tag);
    SwapEditsAppend(head + mid, last, at, tag);
    SwapEditsAppend(head, mid, at, tag);
    OnePiece(Stay(c.close), at + |Before(head + mid)|, tag);
  }

  lemma EmittedEdits(c: Call, at: nat, tag: Tag)
    requires c.name in {"Parse", "ParseString"} && FirstVerify(c.args) < |c.args|
    ensures FixOf(NodeOf(c, at), tag) == Claimed([RenameEdit(c, at, tag)] + ArgEdits(c, ArgsAt(c, at), tag))
  {
    SameIndex(c.args, ArgsAt(c, at));
  }

  lemma {:induction false} NodesInOrder(args: seq<Arg>, at: nat, k: nat)
    requires k < |args| && forall a :: a in args ==> a.text != ""
    ensures at <= NodesOf(args, at)[k].pos < NodesOf(args, at)[k].end
    ensures k > 0 ==> at < NodesOf(args, at)[k - 1].end <= NodesOf(args, at)[k].pos
    ensures NodesOf(args, at)[k].text == args[k].text
    ensures NodesOf(args, at)[0].pos == at
  {
    assert args[0] in args && forall a :: a in args[1..] ==> a in args;
    if k > 0 {
      NodesInOrder(args[1..], at + |args[0].text| + |args[0].sep|, k - 1);
    }
  }

  lemma ArgEditStarts(c: Call, at: nat, tag: Tag)
    requires FirstVerify(c.args) < |c.args| && Faithful(c) && WellFormed(c)
    ensures var e := ArgEdits(c, at, tag);
      && 1 <= |e| <= 2 && at <= e[0].start && (|e| == 2 ==> e[0].start < e[1].start)
  {
    var k := FirstVerify(c.args);
    NodesInOrder(c.args, at, k);
    NodesInOrder(c.args, at, 0);
    if k > 0 {
      NodesInOrder(c.args, at, k - 1);
    }
  }

  lemma RisingStartsDistinct(edits: seq<Edit>)
    requires 2 <= |edits| <= 3 && edits[0].start < edits[1].start
    requires |edits| == 3 ==> edits[1].start < edits[2].start
    ensures Distinct(MapSeq((e: Edit) => e.start, edits))
  {
    var starts := MapSeq((e: Edit) => e.start, edits);
    assert starts[0] == edits[0].start && starts[1] == edits[1].start;
    assert |edits| == 3 ==> starts[2] == edits[2].start;
  }

  // The print of the call in any file becomes the print of the rewritten call.
  ghost predicate Prints(c: Call, pre: Text, post: Text, tag: Tag, sorted: seq<Edit>, order: seq<Edit>)
    requires FirstVerify(c.args) < |c.args|
  {
    FixOf(NodeOf(c, |pre|), tag).Claimed? &&
    SortOutcome(FixOf(NodeOf(c, |pre|), tag).edits, sorted) && SpliceOrder(Kept(sorted), order)
    ==> Splice(pre + Print(c) + post, order) == pre + Print(Rewritten(c)) + post
  }

  ghost predicate AlwaysPrints(c: Call)
    requires FirstVerify(c.args) < |c.args|
  {
    forall pre, post, tag, sorted, order :: Prints(c, pre, post, tag, sorted, order)
  }

  // For ParseString with the option in front, the wrap of the first argument
  // and its removal start at the same byte.
  lemma FrontOptionEdits(c: Call, tag: Tag)
    requires c.name == "ParseString" && FirstVerify(c.args) == 0 < |c.args| && WellFormed(c)
    ensures var e, a := FixOf(NodeOf(c, 0), tag).edits, c.args; var at := ArgsAt(c, 0);
      && FixOf(NodeOf(c, 0), tag).Claimed? && |e| == 3
      && e[0] == RenameEdit(c, 0, tag)
      && e[1] == Edit(at, at + |a[0].text|, "[]byte(" + a[0].text + ")", tag)
      && e[2].start == at && e[2].end >= at + |a[0].text| && a[0].text != ""
  {
    EmittedEdits(c, 0, tag);
    assert c.args[0] in c.args;
    NodesInOrder(c.args, ArgsAt(c, 0), 0);
    if |c.args| > 1 {
      NodesInOrder(c.args, ArgsAt(c, 0), 1);
    }
  }

  // A longer removal sorts after the wrap and is dropped. For a sole argument
  // both have one range and the sort decides; some outcome drops the removal
  // there too, and the option stays, wrapped.
  lemma WrapWins(c: Call)
    requires c.name == "ParseString" && FirstVerify(c.args) == 0 < |c.args| && WellFormed(c)
    ensures !AlwaysPrints(c)
  {
    var tag := Tag("r", 1);
    FrontOptionEdits(c, tag);
    var edits := FixOf(NodeOf(c, 0), tag).edits;
    KeptOfThree(edits);
    var order := [edits[1], edits[0]];
    TwoInOrder(edits[0], edits[1]);
    WrappedIsLonger(c, order, tag);
    assert !Prints(c, "", "", tag, edits, order);
  }

  lemma TwoInOrder(a: Edit, b: Edit)
    requires a.start < b.start
    ensures SpliceOrder([a, b], [b, a])
  {
    assert multiset([b, a]) == multiset([a, b]);
  }

  lemma WrappedIsLonger(c: Call, order: seq<Edit>, tag: Tag)
    requires c.name == "ParseString" && FirstVerify(c.args) == 0 < |c.args| && |order| == 2
    requires order[1] == RenameEdit(c, 0, tag)
    requires order[0] == Edit(ArgsAt(c, 0), ArgsAt(c, 0) + |c.args[0].text|, "[]byte(" + c.args[0].text + ")", tag)
    requires c.args[0].text != ""
    ensures |Splice("" + Print(c) + "", order)| > |"" + Print(Rewritten(c)) + ""|
  {
    FrontOptionLengths(c);
    SpliceTwoLength("" + Print(c) + "", order);
    assert |order[0].text| == 8 + |c.args[0].text|;
  }

  lemma FrontOptionLengths(c: Call)
    requires c.name == "ParseString" && FirstVerify(c.args) == 0 < |c.args|
    ensures |"" + Print(c) + ""| == ArgsAt(c, 0) + |c.args[0].text| + |c.args[0].sep| + |PrintArgs(c.args[1..])|
      + |c.close|
    ensures |"" + Print(Rewritten(c)) + ""| <= |c.recv| + 13 + |c.open| + |c.args[0].sep| + |PrintArgs(c.args[1..])|
      + |c.close|
  {
    assert |"ParseInsecure"| == 13;
  }

  lemma KeptOfThree(edits: seq<Edit>)
    requires |edits| == 3
    requires edits[0].start < edits[0].end <= edits[1].start == edits[2].start < edits[1].end <= edits[2].end
    ensures Kept(edits) == [edits[0], edits[1]] && SortOutcome(edits, edits)
  {
    var rest := edits[1..];
    assert rest[0] == edits[1] && rest[1..] == [edits[2]];
    assert KeptFrom([edits[2]], edits[1].end) == KeptFrom([edits[2]][1..], edits[1].end) == [];
    assert KeptFrom(rest, edits[0].end) == [edits[1]] + KeptFrom(rest[1..], edits[1].end);
  }

  lemma SpliceTwoLength(src: Text, order: seq<Edit>)
    requires |order| == 2
    requires 0 <= order[1].start <= order[1].end <= order[0].start <= order[0].end <= |src|
    ensures |Splice(src, order)| == |src| + |order[0].text| - order[0].Width() + |order[1].text| - order[1].Width()
  {
    var one, rest := SpliceOne(src, order[0]), order[1..];
    assert rest[0] == order[1] && rest[1..] == [];
    assert Splice(SpliceOne(one, order[1]), rest[1..]) == SpliceOne(one, order[1]);
    assert Splice(one, rest) == SpliceOne(one, order[1]);
  }

  // Unless the option is in front of ParseString, the emitted edits, however
  // sorted, print the rewritten call in place of the call.
  lemma WithVerifyPrints(c: Call, pre: Text, post: Text, tag: Tag, sorted: seq<Edit>, order: seq<Edit>)
    requires c.name in {"Parse", "ParseString"} && FirstVerify(c.args) < |c.args| && WellFormed(c)
    requires c.name == "ParseString" ==> FirstVerify(c.args) > 0
    requires FixOf(NodeOf(c, |pre|), tag).Claimed?
    requires SortOutcome(FixOf(NodeOf(c, |pre|), tag).edits, sorted) && SpliceOrder(Kept(sorted), order)
    ensures Splice(pre + Print(c) + post, order) == pre + Print(Rewritten(c)) + post
  {
    WholePrints(c);
    WholeEdits(c, |pre|, tag);
    EmittedEdits(c, |pre|, tag);
    ArgEditStarts(c, ArgsAt(c, |pre|), tag);
    var edits := SwapEdits(WholePieces(c), |pre|, tag);
    RisingStartsDistinct(edits);
    SwapsApply(pre, WholePieces(c), post, tag, edits, sorted, order);
  }

  // The exact condition for the rewrite to print what it means.
  lemma WithVerifyFaithfulIff(c: Call)
    requires c.name in {"Parse", "ParseString"} && FirstVerify(c.args) < |c.args| && WellFormed(c)
    ensures AlwaysPrints(c) <==> (c.name == "ParseString" ==> FirstVerify(c.args) > 0)
  {
    if Faithful(c) {
      forall pre, post, tag, sorted, order
        ensures Prints(c, pre, post, tag, sorted, order)
      {
        EmittedEdits(c, |pre|, tag);
        if SortOutcome(FixOf(NodeOf(c, |pre|), tag).edits, sorted) && SpliceOrder(Kept(sorted), order) {
          WithVerifyPrints(c, pre, post, tag, sorted, order);
        }
      }
    } else {
      WrapWins(c);
    }
  }
}
