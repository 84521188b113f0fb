/** A file on which the checker is right: a misuse inside a statement that drops another value. */
module HashArgument {
  import opened Common
  import opened HashLint
  import opened HashMisuse
  import opened HashMisuseTree

  lemma OneChildJudged(n: Node, c: Node, above: Option<Node>, parent: Option<Node>, dropped: bool)
    requires Children(n) == [c] && !n.SelectorExpr? && !Diverges(n, above, dropped)
    requires Judged(c, Some(n), Drops(n, 0, dropped))
    ensures Judged(n, above, dropped)
    ensures Findings(n, above, parent) == Findings(c, Some(n), above)
  {
    assert JudgedFrom(n, 1, dropped);
    assert FindingsFrom(n, 1, above) == [];
    assert Findings(n, above, parent) == [] + (Findings(c, Some(n), above) + []);
  }

  lemma InFile(file: Node, body: Node, stmt: Node, c: Node, findings: seq<Node>)
    requires body == Other(1, [stmt]) && file == FileOf(stmt) && stmt == ExprStmt(3, c)
    requires Proper(c) && 0 !in Ids(c) && 1 !in Ids(c) && 3 !in Ids(c)
    requires Judged(c, Some(stmt), true) && Findings(c, Some(stmt), Some(body)) == findings
    ensures ReportsMisuses(file) && Findings(file, None, None) == findings
    ensures forall call :: call in findings ==> MisuseIn(file, call)
  {
    OneChild(stmt, c);
    OneChild(body, stmt);
    OneChild(file, body);
    OneChildJudged(stmt, c, Some(body), Some(file), false);
    OneChildJudged(body, stmt, Some(file), None, false);
    OneChildJudged(file, body, None, None, false);
    ReportsAreMisusesIff(file);
    ReportsMisusesAsCounted(file);
    forall call | call in findings ensures MisuseIn(file, call) {
      MisusesInFile(file, call);
      assert call in multiset(findings);
    }
  }

  lemma ArgumentIsProper(n: Node, f: Node, sum: Node)
    requires f == Ident(41, "f") && n == CallExpr(40, f, [sum]) && Proper(sum) && Ids(sum) == {2, 10, 11, 12, 20}
    ensures Proper(n) && Ids(n) == {40, 41, 2, 10, 11, 12, 20}
  {
    assert Children(n) == [f, sum];
    Leaf(f);
    LastChild(n, 1);
    ChildBefore(n, 0, Ids(sum));
  }

  /** Sum of b as the argument of a call of f. */
  lemma ArgumentIsReported(n: Node, f: Node, sum: Node, above: Option<Node>, parent: Option<Node>)
    requires sum == SumOfB() && f == Ident(41, "f") && n == CallExpr(40, f, [sum])
    ensures Judged(n, above, true) && Findings(n, above, parent) == [sum]
  {
    SumIsReported(sum, n, above);
    ArgumentIsFound(n, f, sum, above, parent);
  }

  lemma ArgumentIsFound(n: Node, f: Node, sum: Node, above: Option<Node>, parent: Option<Node>)
    requires f.Ident? && n == CallExpr(40, f, [sum]) && sum.CallExpr?
    requires Judged(sum, Some(n), false) && Findings(sum, Some(n), above) == [sum]
    ensures Judged(n, above, true) && Findings(n, above, parent) == [sum]
  {
    assert Judged(f, Some(n), false) && Findings(f, Some(n), above) == [];
    assert JudgedFrom(n, 2, true) && JudgedFrom(n, 1, true);
    assert FindingsFrom(n, 2, above) == [] && FindingsFrom(n, 1, above) == [sum];
  }

  lemma SumIsReported(sum: Node, n: Node, above: Option<Node>)
    requires sum == SumOfB() && n.CallExpr?
    ensures Judged(sum, Some(n), false) && Findings(sum, Some(n), above) == [sum]
  {
    assert Judged(sum.fun, Some(sum), false) && Judged(sum.args[0], Some(sum), false);
    assert JudgedFrom(sum, 2, false) && JudgedFrom(sum, 1, false);
    assert Findings(sum.args[0], Some(sum), Some(n)) == [] && FindingsFrom(sum, 2, Some(n)) == [];
    assert FindingsFrom(sum, 1, Some(n)) == [];
    assert Findings(sum.fun, Some(sum), Some(n)) == [sum];
  }

  /** Reported: the statement f(h.Sum(b)), a misuse inside a statement that drops the value of f. */
  lemma ArgumentExample(file: Node, stmt: Node, call: Node, sum: Node)
    requires sum == SumOfB() && call == CallExpr(40, Ident(41, "f"), [sum]) && stmt == ExprStmt(3, call) && file == FileOf(stmt)
    ensures Findings(file, None, None) == [sum] && MisuseIn(file, sum) && ReportsMisuses(file)
  {
    var f, body := Ident(41, "f"), Other(1, [stmt]);
    SumOfBIsProper(sum);
    ArgumentIsProper(call, f, sum);
    ArgumentIsReported(call, f, sum, Some(stmt), Some(body));
    InFile(file, body, stmt, call, [sum]);
    assert sum in [sum];
  }
}
