/**
 The nodes below a file, read off the fields of the syntax tree without regard to how it is
 walked, and the proof that the walk reports by each of them, and by nothing else.
 */
module HashTree {
  import opened Common
  import opened HashLint

  /** m stands in a field of n. */
  predicate PartOf(m: Node, n: Node) {
    match n
    case File(_, decls) => m in decls
    case SelectorExpr(_, x, sel, _) => m == x || m == sel
    case CallExpr(_, fun, args) => m == fun || m in args
    case Ident(_, _) => false
    case ParenExpr(_, inner) => m == inner
    case AssignStmt(_, lhs, rhs) => m in lhs || m in rhs
    case ValueSpec(_, names, values) => m in names || m in values
    case ExprStmt(_, expr) => m == expr
    case GoStmt(_, call) => m == call
    case DeferStmt(_, call) => m == call
    case Other(_, parts) => m in parts
  }

  /** The walk goes from a node to its parts and nowhere else. */
  lemma ChildrenAreParts(m: Node, n: Node)
    ensures m in Children(n) <==> PartOf(m, n)
  {
    match n
    case CallExpr(_, fun, args) => assert Children(n)[0] == fun && Children(n)[1..] == args;
    case SelectorExpr(_, x, sel, _) => assert Children(n)[0] == x && Children(n)[1] == sel;
    case _ =>
  }

  /** A way down from a node, part by part. */
  predicate DownFrom(n: Node, path: seq<Node>) {
    |path| > 0 && path[0] == n && forall i :: 0 <= i < |path| - 1 ==> PartOf(path[i + 1], path[i])
  }

  /** Some way down from n, continuing the path above, is such a path. */
  ghost predicate Somewhere(n: Node, above: seq<Node>, such: seq<Node> -> bool) {
    exists path :: DownFrom(n, path) && such(above + path)
  }

  lemma SomewhereByPart(n: Node, c: Node, above: seq<Node>, such: seq<Node> -> bool)
    requires PartOf(c, n) && Somewhere(c, above + [n], such)
    ensures Somewhere(n, above, such)
  {
    var path :| DownFrom(c, path) && such((above + [n]) + path);
    assert DownFrom(n, [n] + path);
    assert (above + [n]) + path == above + ([n] + path);
  }

  lemma SomewhereAtOnce(n: Node, above: seq<Node>, such: seq<Node> -> bool)
    requires such(above + [n])
    ensures Somewhere(n, above, such)
  {
    assert DownFrom(n, [n]);
  }

  /** A way down stops at once or goes on from a part. */
  lemma SomewhereSplit(n: Node, above: seq<Node>, such: seq<Node> -> bool) returns (k: nat)
    requires Somewhere(n, above, such) && !such(above + [n])
    ensures k < |Children(n)| && Somewhere(Children(n)[k], above + [n], such)
  {
    var path :| DownFrom(n, path) && such(above + path);
    assert path != [n];
    var c := path[1];
    assert PartOf(path[0 + 1], path[0]);
    assert DownFrom(c, path[1..]);
    assert (above + [n]) + path[1..] == above + path;
    ChildrenAreParts(c, n);
    k :| k < |Children(n)| && Children(n)[k] == c;
  }

  // What is reported along a path.

  /** The name Sum selected from something whose type is hash.Hash, or from that type. */
  predicate SelectsSum(n: Node) {
    match n
    case SelectorExpr(_, _, Ident(_, name), operand) => name == "Sum" && (operand == HashValue || operand == HashType)
    case _ => false
  }

  /** The first value of the assignment that is the call goes to the blank identifier. */
  predicate GoesToBlank(assign: Node, call: Node)
    requires assign.AssignStmt?
  {
    exists i :: 0 <= i < |assign.rhs| && i < |assign.lhs| && assign.rhs[i].id == call.id
      && (forall j :: 0 <= j < i ==> assign.rhs[j].id != call.id)
      && assign.lhs[i].Ident? && assign.lhs[i].name == "_"
  }

  /**
   The path ends in Sum selected from a hash, inside a call of one argument that is not nil, which is
   neither a statement of its own nor assigned to the blank identifier.
   */
  predicate ReportedBy(path: seq<Node>, call: Node) {
    && |path| >= 2 && SelectsSum(path[|path| - 1]) && path[|path| - 2] == call
    && call.CallExpr? && |call.args| == 1 && !(call.args[0].Ident? && call.args[0].name == "nil")
    && (|path| >= 3 ==>
      var above := path[|path| - 3];
      !above.ExprStmt? && !(above.AssignStmt? && GoesToBlank(above, call)))
  }

  lemma {:induction false} PositionFirst(ns: seq<Node>, n: Node)
    ensures forall j :: 0 <= j < Position(ns, n) ==> ns[j].id != n.id
  {
    if |ns| > 0 && ns[0].id != n.id {
      PositionFirst(ns[1..], n);
      forall j | 0 <= j < Position(ns, n) ensures ns[j].id != n.id {
        if j > 0 { assert ns[j] == ns[1..][j - 1]; }
      }
    }
  }

  lemma BlankIff(assign: Node, call: Node)
    requires assign.AssignStmt?
    ensures ValueUnused(call, Some(assign)) <==> GoesToBlank(assign, call)
  {
    var k := Position(assign.rhs, call);
    PositionFirst(assign.rhs, call);
    forall i | 0 <= i < |assign.rhs| && assign.rhs[i].id == call.id && forall j :: 0 <= j < i ==> assign.rhs[j].id != call.id
      ensures i == k
    {
      PositionReached(assign.rhs, call, i);
    }
  }

  lemma {:induction false} PositionReached(ns: seq<Node>, n: Node, i: nat)
    requires i < |ns| && ns[i].id == n.id && forall j :: 0 <= j < i ==> ns[j].id != n.id
    ensures Position(ns, n) == i
  {
    if i > 0 {
      assert ns[1..][i - 1] == ns[i];
      assert forall j :: 0 <= j < i - 1 ==> ns[1..][j] == ns[j + 1];
      PositionReached(ns[1..], n, i - 1);
    }
  }

  /** The report at a node, under whatever stands on the path above it. */
  lemma OwnIff(n: Node, above: seq<Node>, call: Node)
    ensures call in OwnFinding(n, FromTop(above, 1), FromTop(above, 2)) <==> ReportedBy(above + [n], call)
  {
    var path := above + [n];
    if |above| >= 2 {
      assert path[|path| - 3] == above[|above| - 2];
      if above[|above| - 2].AssignStmt? {
        BlankIff(above[|above| - 2], call);
      }
    }
    if |above| >= 1 {
      assert path[|path| - 2] == above[|above| - 1];
    }
  }

  ghost predicate FoundIn(n: Node, k: nat, above: Option<Node>, call: Node) {
    exists j :: k <= j < |Children(n)| && call in Findings(Children(n)[j], Some(n), above)
  }

  lemma {:induction false} InFindingsFrom(n: Node, k: nat, above: Option<Node>, call: Node)
    requires k <= |Children(n)|
    ensures call in FindingsFrom(n, k, above) <==> FoundIn(n, k, above, call)
    decreases |Children(n)| - k
  {
    if k < |Children(n)| {
      InFindingsFrom(n, k + 1, above, call);
      var first := Findings(Children(n)[k], Some(n), above);
      assert FindingsFrom(n, k, above) == first + FindingsFrom(n, k + 1, above);
      assert FoundIn(n, k, above, call) <==> call in first || FoundIn(n, k + 1, above, call);
    }
  }

  function Reporting(call: Node): seq<Node> -> bool {
    path => ReportedBy(path, call)
  }

  /** The findings at and below a node are the reports along the ways down from it. */
  lemma {:induction false} FindingsBelowIff(n: Node, above: seq<Node>, call: Node)
    ensures call in Findings(n, FromTop(above, 1), FromTop(above, 2)) <==> Somewhere(n, above, Reporting(call))
    decreases n
  {
    var parent, grand := FromTop(above, 1), FromTop(above, 2);
    OwnIff(n, above, call);
    InFindingsFrom(n, 0, parent, call);
    StackGrows(above, n);
    if call in OwnFinding(n, parent, grand) {
      SomewhereAtOnce(n, above, Reporting(call));
    } else if call in FindingsFrom(n, 0, parent) {
      var j :| 0 <= j < |Children(n)| && call in Findings(Children(n)[j], Some(n), parent);
      ChildrenAreParts(Children(n)[j], n);
      FindingsBelowIff(Children(n)[j], above + [n], call);
      SomewhereByPart(n, Children(n)[j], above, Reporting(call));
    } else if Somewhere(n, above, Reporting(call)) {
      var j := SomewhereSplit(n, above, Reporting(call));
      FindingsBelowIff(Children(n)[j], above + [n], call);
    }
  }

  lemma StackGrows(above: seq<Node>, n: Node)
    ensures FromTop(above + [n], 1) == Some(n) && FromTop(above + [n], 2) == FromTop(above, 1)
  {
  }

  /**
   A call is among the findings of a file exactly if some way down from the file, field by field, ends
   in such a selection of Sum inside the call, judged by its true parent and grandparent.
   */
  lemma FindingsIff(file: Node, call: Node)
    ensures call in Findings(file, None, None) <==> exists path :: DownFrom(file, path) && ReportedBy(path, call)
  {
    FindingsBelowIff(file, [], call);
    assert forall path: seq<Node> :: [] + path == path;
  }

  /** Over several files they are those of each. */
  lemma {:induction false} FindingsInFilesIff(files: seq<Node>, call: Node)
    ensures call in FindingsInFiles(files) <==>
      exists i, path :: 0 <= i < |files| && DownFrom(files[i], path) && ReportedBy(path, call)
  {
    if |files| > 0 {
      var last := |files| - 1;
      FindingsInFilesIff(files[..last], call);
      FindingsIff(files[last], call);
      assert forall i :: 0 <= i < last ==> files[..last][i] == files[i];
      if i, path :| 0 <= i < |files| && DownFrom(files[i], path) && ReportedBy(path, call) {
        assert i < last ==> DownFrom(files[..last][i], path);
      }
      if call in FindingsInFiles(files[..last]) {
        var i, path :| 0 <= i < last && DownFrom(files[..last][i], path) && ReportedBy(path, call);
        assert DownFrom(files[i], path);
      }
    }
  }
}
