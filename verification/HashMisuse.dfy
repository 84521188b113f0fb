/**
 What the checker is documented to flag, calls of Sum whose parameter is not nil and whose
 value is used, stated on its own, and exactly when the checker reports that.
 */
module HashMisuse {
  import opened Common
  import opened HashLint

  // The documentation.

  function Unparen(n: Node): Node {
    if n.ParenExpr? then Unparen(n.inner) else n
  }

  predicate CallsSum(n: Node) {
    n.CallExpr? && IsHashSum(Unparen(n.fun))
  }

  /** The parameter of Sum where it is written out: behind the receiver when Sum is called through the type. */
  function Parameter(call: Node): Option<Node>
    requires CallsSum(call)
  {
    var receivers := if Unparen(call.fun).operand.HashType? then 1 else 0;
    if |call.args| == receivers + 1 then Some(call.args[receivers]) else None
  }

  predicate NilParameter(call: Node)
    requires CallsSum(call)
  {
    Parameter(call).Some? && IsIdent(Unparen(Parameter(call).value), "nil")
  }

  /**
   The value of child k is dropped: by a statement that is only the expression, by go and
   defer, and by the blank identifier in an assignment or a declaration; parentheses change
   nothing.
   */
  predicate Drops(n: Node, k: nat, dropped: bool)
    requires k < |Children(n)|
  {
    match n
    case ParenExpr(_, _) => dropped
    case ExprStmt(_, _) => true
    case GoStmt(_, _) => true
    case DeferStmt(_, _) => true
    case AssignStmt(_, lhs, _) => |lhs| <= k < 2 * |lhs| && IsIdent(Unparen(lhs[k - |lhs|]), "_")
    case ValueSpec(_, names, _) => |names| <= k < 2 * |names| && IsIdent(names[k - |names|], "_")
    case _ => false
  }

  predicate IsMisuse(n: Node, dropped: bool) {
    CallsSum(n) && !NilParameter(n) && !dropped
  }

  function Documented(n: Node, dropped: bool): multiset<Node> {
    if IsMisuse(n, dropped) then multiset{n} else multiset{}
  }

  function Misuses(n: Node, dropped: bool): multiset<Node>
    decreases n, 1, 0
  {
    Documented(n, dropped) + MisusesFrom(n, 0, dropped)
  }

  function MisusesFrom(n: Node, k: nat, dropped: bool): multiset<Node>
    requires k <= |Children(n)|
    decreases n, 0, |Children(n)| - k
  {
    if k == |Children(n)| then multiset{}
    else Misuses(Children(n)[k], Drops(n, k, dropped)) + MisusesFrom(n, k + 1, dropped)
  }

  // The reports, call by call.

  /** What is reported of n itself, when its children from k on are visited. */
  function Own(n: Node, k: nat, above: Option<Node>): multiset<Node>
    requires k <= |Children(n)|
    decreases |Children(n)| - k
  {
    if k == |Children(n)| then multiset{}
    else multiset(OwnFinding(Children(n)[k], Some(n), above)) + Own(n, k + 1, above)
  }

  function Reported(n: Node, above: Option<Node>): multiset<Node>
    decreases n, 1, 0
  {
    Own(n, 0, above) + ReportedFrom(n, 0)
  }

  function ReportedFrom(n: Node, k: nat): multiset<Node>
    requires k <= |Children(n)|
    decreases n, 0, |Children(n)| - k
  {
    if k == |Children(n)| then multiset{}
    else Reported(Children(n)[k], Some(n)) + ReportedFrom(n, k + 1)
  }

  lemma Regrouped(own: seq<Node>, below: seq<Node>, rest: seq<Node>, o: multiset<Node>, r: multiset<Node>)
    requires multiset(rest) == o + r
    ensures multiset((own + below) + rest) == (multiset(own) + o) + (multiset(below) + r)
  {
  }

  /** Whatever the order in which they come, the findings below a node are the reports of it and of what is below. */
  lemma {:induction false} FindingsAreReported(n: Node, k: nat, above: Option<Node>)
    requires k <= |Children(n)|
    ensures multiset(FindingsFrom(n, k, above)) == Own(n, k, above) + ReportedFrom(n, k)
    decreases n, |Children(n)| - k
  {
    if k < |Children(n)| {
      var c := Children(n)[k];
      FindingsAreReported(c, 0, Some(n));
      FindingsAreReported(n, k + 1, above);
      Regrouped(OwnFinding(c, Some(n), above), FindingsFrom(c, 0, Some(n)), FindingsFrom(n, k + 1, above),
                Own(n, k + 1, above), ReportedFrom(n, k + 1));
    }
  }

  // Where the two part.

  /** A form of dropping a value that the checker does not look for. */
  predicate OutOfSight(call: Node, above: Option<Node>) {
    above.Some? &&
    match above.value
    case ParenExpr(_, _) => true
    case GoStmt(_, _) => true
    case DeferStmt(_, _) => true
    case ValueSpec(_, _, _) => true
    case AssignStmt(_, lhs, rhs) => Position(rhs, call) < |lhs| && lhs[Position(rhs, call)].ParenExpr?
    case _ => false
  }

  /** A call of anything that is handed the method value Sum. */
  predicate Bystander(n: Node, above: Option<Node>, dropped: bool) {
    n.CallExpr? && |n.args| == 1 && IsHashSum(n.args[0]) && (dropped ==> OutOfSight(n, above))
  }

  /** A call of Sum whose value is dropped out of sight, or whose nil is in parentheses. */
  predicate FalseAlarm(n: Node, above: Option<Node>, dropped: bool) {
    n.CallExpr? && IsHashSum(n.fun) && |n.args| == 1 && !IsIdent(n.args[0], "nil") &&
    if dropped then OutOfSight(n, above) else n.args[0].ParenExpr? && NilParameter(n)
  }

  /** A misuse with Sum in parentheses, or with the receiver as first argument. */
  predicate Overlooked(n: Node, dropped: bool) {
    IsMisuse(n, dropped) && (n.fun.ParenExpr? || |n.args| == 2)
  }

  predicate Diverges(n: Node, above: Option<Node>, dropped: bool) {
    Bystander(n, above, dropped) || FalseAlarm(n, above, dropped) || Overlooked(n, dropped)
  }

  /** No call at or below n is judged differently. */
  predicate Judged(n: Node, above: Option<Node>, dropped: bool)
    decreases n, 1, 0
  {
    !Diverges(n, above, dropped) && JudgedFrom(n, 0, dropped)
  }

  predicate JudgedFrom(n: Node, k: nat, dropped: bool)
    requires k <= |Children(n)|
    decreases n, 0, |Children(n)| - k
  {
    k < |Children(n)| ==> Judged(Children(n)[k], Some(n), Drops(n, k, dropped)) && JudgedFrom(n, k + 1, dropped)
  }

  // The trees of a package that compiles.

  function Ids(n: Node): set<nat>
    decreases n, 1, 0
  {
    {n.id} + IdsFrom(n, 0)
  }

  function IdsFrom(n: Node, k: nat): set<nat>
    requires k <= |Children(n)|
    decreases n, 0, |Children(n)| - k
  {
    if k == |Children(n)| then {} else Ids(Children(n)[k]) + IdsFrom(n, k + 1)
  }

  /** Sum takes one slice of bytes, behind the receiver when it is called through the type. */
  predicate TypedWell(n: Node) {
    CallsSum(n) ==>
      && (forall i :: 0 <= i < |n.args| ==> !IsHashSum(n.args[i]))
      && if Parameter(n).Some? then true
         else Unparen(n.fun).operand.HashType? && |n.args| == 1 && !IsIdent(n.args[0], "nil")
  }

  /** Distinct nodes, well typed, with proper assignments. */
  predicate Proper(n: Node)
    decreases n, 1, 0
  {
    AssignsWell(n) && TypedWell(n) && n.id !in IdsFrom(n, 0) && ProperFrom(n, 0)
  }

  predicate ProperFrom(n: Node, k: nat)
    requires k <= |Children(n)|
    decreases n, 0, |Children(n)| - k
  {
    k < |Children(n)| ==> Proper(Children(n)[k]) && Ids(Children(n)[k]) !! IdsFrom(n, k + 1) && ProperFrom(n, k + 1)
  }

  // One call.

  /** The position and fate of a node below its parent. */
  ghost predicate Placed(n: Node, above: Option<Node>, dropped: bool) {
    match above
    case None => !dropped
    case Some(g) =>
      AssignsWell(g) &&
      exists k, d :: 0 <= k < |Children(g)| && Children(g)[k] == n && dropped == Drops(g, k, d)
  }

  lemma {:induction false} PositionOf(ns: seq<Node>, j: nat)
    requires j < |ns| && forall i :: 0 <= i < j ==> ns[i].id != ns[j].id
    ensures Position(ns, ns[j]) == j
  {
    if j > 0 {
      PositionOf(ns[1..], j - 1);
    }
  }

  /** What the checker takes for an unused value is a value dropped in sight. */
  lemma UnusedIsDroppedInSight(n: Node, above: Option<Node>, dropped: bool)
    requires n.CallExpr? && Placed(n, above, dropped)
    ensures ValueUnused(n, above) <==> dropped && !OutOfSight(n, above)
  {
    if above.Some? && above.value.AssignStmt? {
      var g := above.value;
      var k, d :| 0 <= k < |Children(g)| && Children(g)[k] == n && dropped == Drops(g, k, d);
      assert k >= |g.lhs|;
      PositionOf(g.rhs, k - |g.lhs|);
    }
  }

  lemma OwnOfCall(n: Node, above: Option<Node>)
    ensures Own(n, 0, above) ==
      if !SuspiciousCall(n, above) then multiset{}
      else multiset(OwnFinding(n.fun, Some(n), above)) + multiset(OwnFinding(n.args[0], Some(n), above))
  {
    if SuspiciousCall(n, above) {
      assert Children(n) == [n.fun, n.args[0]];
      assert Own(n, 2, above) == multiset{};
      assert Own(n, 1, above) == multiset(OwnFinding(n.args[0], Some(n), above));
    } else {
      OwnOfOther(n, 0, above);
    }
  }

  lemma {:induction false} OwnOfOther(n: Node, k: nat, above: Option<Node>)
    requires k <= |Children(n)| && !SuspiciousCall(n, above)
    ensures Own(n, k, above) == multiset{}
    decreases |Children(n)| - k
  {
    if k < |Children(n)| {
      OwnOfOther(n, k + 1, above);
    }
  }

  lemma OwnOfTypedCall(n: Node, above: Option<Node>, dropped: bool)
    requires n.CallExpr? && TypedWell(n) && (ValueUnused(n, above) <==> dropped && !OutOfSight(n, above))
    ensures Own(n, 0, above) == Documented(n, dropped) <==> !Diverges(n, above, dropped)
  {
    OwnOfCall(n, above);
  }

  /** The reports of one call are what is documented exactly when the call does not diverge. */
  lemma OwnIff(n: Node, above: Option<Node>, dropped: bool)
    requires TypedWell(n) && Placed(n, above, dropped)
    ensures Own(n, 0, above) == Documented(n, dropped) <==> !Diverges(n, above, dropped)
  {
    if n.CallExpr? {
      UnusedIsDroppedInSight(n, above, dropped);
      OwnOfTypedCall(n, above, dropped);
    } else {
      OwnOfCall(n, above);
    }
  }

  // All calls.

  ghost predicate Within(m: multiset<Node>, ids: set<nat>) {
    forall x :: x in m ==> x.id in ids
  }

  lemma SplitEqual(a: multiset<Node>, b: multiset<Node>, c: multiset<Node>, d: multiset<Node>, s: set<nat>, t: set<nat>)
    requires s !! t && Within(a, s) && Within(c, s) && Within(b, t) && Within(d, t)
    ensures a + b == c + d <==> a == c && b == d
  {
    if a + b == c + d {
      forall x ensures a[x] == c[x] && b[x] == d[x] {
        assert (a + b)[x] == (c + d)[x];
        assert x.id in s ==> x !in b && x !in d;
        assert x.id !in s ==> x !in a && x !in c;
      }
    }
  }

  lemma OwnWithin(n: Node, above: Option<Node>)
    ensures Within(Own(n, 0, above), {n.id})
  {
    OwnOfCall(n, above);
  }

  lemma {:induction false} ReportedWithin(n: Node, above: Option<Node>)
    ensures Within(Reported(n, above), Ids(n))
    decreases n, 1, 0
  {
    OwnWithin(n, above);
    ReportedFromWithin(n, 0);
  }

  lemma {:induction false} ReportedFromWithin(n: Node, k: nat)
    requires k <= |Children(n)|
    ensures Within(ReportedFrom(n, k), IdsFrom(n, k))
    decreases n, 0, |Children(n)| - k
  {
    if k < |Children(n)| {
      ReportedWithin(Children(n)[k], Some(n));
      ReportedFromWithin(n, k + 1);
    }
  }

  lemma {:induction false} MisusesWithin(n: Node, dropped: bool)
    ensures Within(Misuses(n, dropped), Ids(n))
    decreases n, 1, 0
  {
    MisusesFromWithin(n, 0, dropped);
  }

  lemma {:induction false} MisusesFromWithin(n: Node, k: nat, dropped: bool)
    requires k <= |Children(n)|
    ensures Within(MisusesFrom(n, k, dropped), IdsFrom(n, k))
    decreases n, 0, |Children(n)| - k
  {
    if k < |Children(n)| {
      MisusesWithin(Children(n)[k], Drops(n, k, dropped));
      MisusesFromWithin(n, k + 1, dropped);
    }
  }

  lemma SplitNode(n: Node, above: Option<Node>, dropped: bool)
    requires n.id !in IdsFrom(n, 0)
    ensures Reported(n, above) == Misuses(n, dropped) <==>
      && Own(n, 0, above) == Documented(n, dropped)
      && ReportedFrom(n, 0) == MisusesFrom(n, 0, dropped)
  {
    OwnWithin(n, above);
    ReportedFromWithin(n, 0);
    MisusesFromWithin(n, 0, dropped);
    SplitEqual(Own(n, 0, above), ReportedFrom(n, 0), Documented(n, dropped), MisusesFrom(n, 0, dropped),
               {n.id}, IdsFrom(n, 0));
  }

  lemma FromAt(n: Node, k: nat, dropped: bool)
    requires k < |Children(n)|
    ensures ReportedFrom(n, k) == Reported(Children(n)[k], Some(n)) + ReportedFrom(n, k + 1)
    ensures MisusesFrom(n, k, dropped) ==
      Misuses(Children(n)[k], Drops(n, k, dropped)) + MisusesFrom(n, k + 1, dropped)
  {
  }

  lemma ChildWithin(c: Node, above: Option<Node>, dropped: bool)
    ensures Within(Reported(c, above), Ids(c)) && Within(Misuses(c, dropped), Ids(c))
  {
    ReportedWithin(c, above);
    MisusesWithin(c, dropped);
  }

  lemma FromWithin(n: Node, k: nat, dropped: bool)
    requires k <= |Children(n)|
    ensures Within(ReportedFrom(n, k), IdsFrom(n, k)) && Within(MisusesFrom(n, k, dropped), IdsFrom(n, k))
  {
    ReportedFromWithin(n, k);
    MisusesFromWithin(n, k, dropped);
  }

  lemma SplitChild(n: Node, k: nat, dropped: bool)
    requires k < |Children(n)| && Ids(Children(n)[k]) !! IdsFrom(n, k + 1)
    ensures ReportedFrom(n, k) == MisusesFrom(n, k, dropped) <==>
      && Reported(Children(n)[k], Some(n)) == Misuses(Children(n)[k], Drops(n, k, dropped))
      && ReportedFrom(n, k + 1) == MisusesFrom(n, k + 1, dropped)
  {
    var c, d := Children(n)[k], Drops(n, k, dropped);
    FromAt(n, k, dropped);
    ChildWithin(c, Some(n), d);
    FromWithin(n, k + 1, dropped);
    SplitEqual(Reported(c, Some(n)), ReportedFrom(n, k + 1), Misuses(c, d), MisusesFrom(n, k + 1, dropped),
               Ids(c), IdsFrom(n, k + 1));
  }

  lemma ChildPlaced(n: Node, k: nat, dropped: bool)
    requires AssignsWell(n) && k < |Children(n)|
    ensures Placed(Children(n)[k], Some(n), Drops(n, k, dropped))
  {
  }

  lemma {:induction false} ReportedIff(n: Node, above: Option<Node>, dropped: bool)
    requires Proper(n) && Placed(n, above, dropped)
    ensures Reported(n, above) == Misuses(n, dropped) <==> Judged(n, above, dropped)
    decreases n, 1, 0
  {
    OwnIff(n, above, dropped);
    SplitNode(n, above, dropped);
    ReportedFromIff(n, 0, dropped);
  }

  lemma {:induction false} ReportedFromIff(n: Node, k: nat, dropped: bool)
    requires k <= |Children(n)| && AssignsWell(n) && ProperFrom(n, k)
    ensures ReportedFrom(n, k) == MisusesFrom(n, k, dropped) <==> JudgedFrom(n, k, dropped)
    decreases n, 0, |Children(n)| - k
  {
    if k < |Children(n)| {
      ChildPlaced(n, k, dropped);
      ReportedIff(Children(n)[k], Some(n), Drops(n, k, dropped));
      ReportedFromIff(n, k + 1, dropped);
      SplitChild(n, k, dropped);
    }
  }

  /**
   Over a file the checker reports exactly the documented misuses, each as often, if and only
   if no call in it is a bystander, a false alarm or overlooked.
   */
  lemma ReportsAreMisusesIff(file: Node)
    requires file.File? && Proper(file)
    ensures multiset(Findings(file, None, None)) == Misuses(file, false) <==> Judged(file, None, false)
  {
    FindingsAreReported(file, 0, None);
    assert Findings(file, None, None) == [] + FindingsFrom(file, 0, None);
    ReportedIff(file, None, false);
  }

  // One file for each kind.

  /** The checker may receive the file, and does not report what is documented. */
  predicate Misjudged(file: Node) {
    file.File? && Proper(file) && multiset(Findings(file, None, None)) != Misuses(file, false)
  }

  function FileOf(stmt: Node): Node {
    File(0, [Other(1, [stmt])])
  }

  lemma LastChild(n: Node, k: nat)
    requires k + 1 == |Children(n)| && Proper(Children(n)[k])
    ensures IdsFrom(n, k) == Ids(Children(n)[k]) && ProperFrom(n, k)
  {
    assert IdsFrom(n, k + 1) == {};
  }

  lemma ChildBefore(n: Node, k: nat, ids: set<nat>)
    requires k < |Children(n)| && Proper(Children(n)[k]) && ProperFrom(n, k + 1)
    requires IdsFrom(n, k + 1) == ids && Ids(Children(n)[k]) !! ids
    ensures IdsFrom(n, k) == Ids(Children(n)[k]) + ids && ProperFrom(n, k)
  {
  }

  lemma OneChild(n: Node, c: Node)
    requires Children(n) == [c] && AssignsWell(n) && TypedWell(n) && Proper(c) && n.id !in Ids(c)
    ensures Proper(n) && Ids(n) == {n.id} + Ids(c)
  {
    LastChild(n, 0);
  }

  lemma JudgedChild(n: Node, above: Option<Node>, dropped: bool)
    requires |Children(n)| > 0 && !Judged(Children(n)[0], Some(n), Drops(n, 0, dropped))
    ensures !Judged(n, above, dropped)
  {
    assert !JudgedFrom(n, 0, dropped);
  }

  lemma JudgedWrongly(stmt: Node)
    requires Proper(stmt) && 0 !in Ids(stmt) && 1 !in Ids(stmt) && !Judged(stmt, Some(Other(1, [stmt])), false)
    ensures Misjudged(FileOf(stmt))
  {
    var body := Other(1, [stmt]);
    OneChild(body, stmt);
    OneChild(FileOf(stmt), body);
    JudgedChild(body, Some(FileOf(stmt)), false);
    JudgedChild(FileOf(stmt), None, false);
    ReportsAreMisusesIff(FileOf(stmt));
  }

  function Sum(operand: Operand): Node {
    SelectorExpr(10, Ident(11, "h"), Ident(12, "Sum"), operand)
  }

  /** The call h.Sum(b). */
  function SumOfB(): Node {
    CallExpr(2, Sum(HashValue), [Ident(20, "b")])
  }

  function Assign(target: string, value: Node): Node {
    AssignStmt(3, [Ident(30, target)], [value])
  }

  lemma Leaf(n: Node)
    requires n.Ident?
    ensures Proper(n) && Ids(n) == {n.id}
  {
    assert IdsFrom(n, 0) == {};
  }

  /** A statement that assigns or declares one value, which is wrongly judged. */
  lemma TargetedWrongly(stmt: Node, target: string, value: Node)
    requires Children(stmt) == [Ident(30, target), value] && stmt.id == 3 && AssignsWell(stmt) && TypedWell(stmt)
    requires Proper(value) && Ids(value) !! {0, 1, 3, 30} && !Judged(value, Some(stmt), Drops(stmt, 1, false))
    ensures Misjudged(FileOf(stmt))
  {
    Leaf(Ident(30, target));
    LastChild(stmt, 1);
    ChildBefore(stmt, 0, Ids(value));
    assert !JudgedFrom(stmt, 1, false) && !JudgedFrom(stmt, 0, false);
    JudgedWrongly(stmt);
  }

  lemma SumOfBIsProper(n: Node)
    requires n == SumOfB()
    ensures Proper(n) && Ids(n) == {2, 10, 11, 12, 20}
  {
  }

  /** Reported: x = f(h.Sum), where nothing calls Sum. */
  lemma BystanderExample(value: Node)
    requires value == CallExpr(2, Ident(21, "f"), [Sum(HashValue)])
    ensures Misjudged(FileOf(Assign("x", value)))
  {
    BystanderIsProper(value);
    TargetedWrongly(Assign("x", value), "x", value);
  }

  lemma BystanderIsProper(n: Node)
    requires n == CallExpr(2, Ident(21, "f"), [Sum(HashValue)])
    ensures Proper(n) && Ids(n) == {2, 21, 10, 11, 12}
  {
  }

  /** Reported: defer h.Sum(b), which drops the value. */
  lemma DeferExample(value: Node)
    requires value == SumOfB()
    ensures Misjudged(FileOf(DeferStmt(3, value)))
  {
    SumOfBIsProper(value);
    OneChild(DeferStmt(3, value), value);
    JudgedChild(DeferStmt(3, value), Some(Other(1, [DeferStmt(3, value)])), false);
    JudgedWrongly(DeferStmt(3, value));
  }

  /** Reported: go h.Sum(b), which drops the value. */
  lemma GoExample(value: Node)
    requires value == SumOfB()
    ensures Misjudged(FileOf(GoStmt(3, value)))
  {
    SumOfBIsProper(value);
    OneChild(GoStmt(3, value), value);
    JudgedChild(GoStmt(3, value), Some(Other(1, [GoStmt(3, value)])), false);
    JudgedWrongly(GoStmt(3, value));
  }

  /** Reported: var _ = h.Sum(b), which drops the value. */
  lemma BlankDeclarationExample(value: Node)
    requires value == SumOfB()
    ensures Misjudged(FileOf(ValueSpec(3, [Ident(30, "_")], [value])))
  {
    SumOfBIsProper(value);
    assert FalseAlarm(value, Some(ValueSpec(3, [Ident(30, "_")], [value])), true);
    TargetedWrongly(ValueSpec(3, [Ident(30, "_")], [value]), "_", value);
  }

  /** Reported: _ = (h.Sum(b)), which drops the value. */
  lemma ParenthesizedCallExample(value: Node, call: Node)
    requires value == ParenExpr(31, call) && call == SumOfB()
    ensures Misjudged(FileOf(Assign("_", value)))
  {
    ParenthesizedCallIsWrong(value, call, Assign("_", value));
    assert Drops(Assign("_", value), 1, false);
    TargetedWrongly(Assign("_", value), "_", value);
  }

  lemma ParenthesizedCallIsWrong(n: Node, call: Node, above: Node)
    requires n == ParenExpr(31, call) && call == SumOfB()
    ensures Proper(n) && Ids(n) == {31, 2, 10, 11, 12, 20} && !Judged(n, Some(above), true)
  {
    SumOfBIsProper(call);
    OneChild(n, call);
    assert FalseAlarm(call, Some(n), true);
    JudgedChild(n, Some(above), true);
  }

  /** Reported: x = h.Sum((nil)), whose parameter is nil. */
  lemma ParenthesizedNilExample(value: Node)
    requires value == CallExpr(2, Sum(HashValue), [ParenExpr(20, Ident(21, "nil"))])
    ensures Misjudged(FileOf(Assign("x", value)))
  {
    ParenthesizedNilIsProper(value);
    assert FalseAlarm(value, Some(Assign("x", value)), false);
    TargetedWrongly(Assign("x", value), "x", value);
  }

  lemma ParenthesizedNilIsProper(n: Node)
    requires n == CallExpr(2, Sum(HashValue), [ParenExpr(20, Ident(21, "nil"))])
    ensures Proper(n) && Ids(n) == {2, 10, 11, 12, 20, 21}
  {
    assert Ids(Sum(HashValue)) == {10, 11, 12} && Ids(n.args[0]) == {20, 21};
  }

  /** Not reported: x = (h.Sum)(b), a misuse. */
  lemma ParenthesizedSumExample(value: Node)
    requires value == CallExpr(2, ParenExpr(9, Sum(HashValue)), [Ident(20, "b")])
    ensures Misjudged(FileOf(Assign("x", value)))
  {
    ParenthesizedSumIsProper(value);
    assert Overlooked(value, false);
    TargetedWrongly(Assign("x", value), "x", value);
  }

  lemma ParenthesizedSumIsProper(n: Node)
    requires n == CallExpr(2, ParenExpr(9, Sum(HashValue)), [Ident(20, "b")])
    ensures Proper(n) && Ids(n) == {2, 9, 10, 11, 12, 20}
  {
  }

  /** Not reported: x = hash.Hash.Sum(k, b), a misuse. */
  lemma ThroughTypeExample(value: Node)
    requires value == CallExpr(2, Sum(HashType), [Ident(21, "k"), Ident(20, "b")])
    ensures Misjudged(FileOf(Assign("x", value)))
  {
    ThroughTypeIsProper(value);
    assert Overlooked(value, false);
    TargetedWrongly(Assign("x", value), "x", value);
  }

  lemma ThroughTypeIsProper(n: Node)
    requires n == CallExpr(2, Sum(HashType), [Ident(21, "k"), Ident(20, "b")])
    ensures Proper(n) && Ids(n) == {2, 10, 11, 12, 20, 21}
  {
  }
}
