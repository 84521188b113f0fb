/**
 The documented misuses and the kinds of wrong judgement over all nodes below a file, read off the
 fields of the syntax tree, and the agreement of the checker with its documentation over them.
 */
module HashMisuseTree {
  import opened Common
  import opened HashLint
  import opened HashTree
  import opened HashMisuse

  predicate IsBlank(n: Node) {
    n.Ident? && n.name == "_"
  }

  /** A node drops the value of a part of it, parentheses aside. */
  predicate DropsPart(n: Node, part: Node) {
    match n
    case ExprStmt(_, expr) => part == expr
    case GoStmt(_, call) => part == call
    case DeferStmt(_, call) => part == call
    case AssignStmt(_, lhs, rhs) => exists i :: 0 <= i < |lhs| && i < |rhs| && rhs[i] == part && IsBlank(Unparen(lhs[i]))
    case ValueSpec(_, names, values) => exists i :: 0 <= i < |names| && i < |values| && values[i] == part && IsBlank(names[i])
    case _ => false
  }

  /** The value at the end of the path is dropped by what stands above it, seen through parentheses. */
  predicate Dropped(path: seq<Node>)
    decreases |path|
  {
    var top := |path| - 1;
    top >= 1 && if path[top - 1].ParenExpr? then Dropped(path[..top]) else DropsPart(path[top - 1], path[top])
  }

  /** The path ends in a call of Sum with a parameter other than nil, whose value is used. */
  predicate MisuseAt(path: seq<Node>, call: Node) {
    |path| > 0 && path[|path| - 1] == call && CallsSum(call) && !NilParameter(call) && !Dropped(path)
  }

  /** The node at the end of the path is a bystander, a false alarm or overlooked. */
  predicate DivergesAt(path: seq<Node>) {
    |path| > 0 && Diverges(path[|path| - 1], FromTop(path, 2), Dropped(path))
  }

  function Misusing(call: Node): seq<Node> -> bool {
    path => MisuseAt(path, call)
  }

  function Diverging(): seq<Node> -> bool {
    path => DivergesAt(path)
  }

  // The children of a proper node.

  lemma {:induction false} IdsFromHas(n: Node, k: nat, j: nat)
    requires k <= j < |Children(n)|
    ensures Ids(Children(n)[j]) <= IdsFrom(n, k)
    decreases j - k
  {
    if k < j {
      IdsFromHas(n, k + 1, j);
    }
  }

  lemma {:induction false} ProperAt(n: Node, k: nat, j: nat)
    requires k <= j < |Children(n)| && ProperFrom(n, k)
    ensures ProperFrom(n, j)
    decreases j - k
  {
    if k < j {
      ProperAt(n, k + 1, j);
    }
  }

  lemma OwnId(n: Node)
    ensures n.id in Ids(n)
  {
  }

  lemma ChildrenDiffer(n: Node, i: nat, j: nat)
    requires ProperFrom(n, 0) && i < j < |Children(n)|
    ensures Children(n)[i] != Children(n)[j]
  {
    ProperAt(n, 0, i);
    OwnId(Children(n)[i]);
    OwnId(Children(n)[j]);
    IdsFromHas(n, i + 1, j);
  }

  lemma PlaceOf(n: Node, k: nat, i: nat)
    requires ProperFrom(n, 0) && k < |Children(n)| && i < |Children(n)| && Children(n)[i] == Children(n)[k]
    ensures i == k
  {
    if i < k {
      ChildrenDiffer(n, i, k);
    } else if k < i {
      ChildrenDiffer(n, k, i);
    }
  }

  /** Dropping by position among the children is dropping by field. */
  lemma DropsIff(n: Node, k: nat, above: seq<Node>)
    requires ProperFrom(n, 0) && k < |Children(n)|
    ensures Drops(n, k, Dropped(above + [n])) == Dropped((above + [n]) + [Children(n)[k]])
  {
    var c := Children(n)[k];
    var path := (above + [n]) + [c];
    assert path[..|path| - 1] == above + [n];
    match n
    case AssignStmt(_, lhs, rhs) =>
      forall i | 0 <= i < |rhs| && rhs[i] == c ensures |lhs| + i == k {
        PlaceOf(n, k, |lhs| + i);
      }
    case ValueSpec(_, names, values) =>
      forall i | 0 <= i < |values| && values[i] == c ensures |names| + i == k {
        PlaceOf(n, k, |names| + i);
      }
    case _ =>
  }

  // The documented misuses.

  ghost predicate MisuseBelow(n: Node, k: nat, above: seq<Node>, call: Node) {
    exists j :: k <= j < |Children(n)| && Somewhere(Children(n)[j], above + [n], Misusing(call))
  }

  lemma SomewhereIff(n: Node, above: seq<Node>, call: Node)
    ensures Somewhere(n, above, Misusing(call)) <==> MisuseAt(above + [n], call) || MisuseBelow(n, 0, above, call)
  {
    if MisuseAt(above + [n], call) {
      SomewhereAtOnce(n, above, Misusing(call));
    } else if Somewhere(n, above, Misusing(call)) {
      var j := SomewhereSplit(n, above, Misusing(call));
    }
    if MisuseBelow(n, 0, above, call) {
      var j :| 0 <= j < |Children(n)| && Somewhere(Children(n)[j], above + [n], Misusing(call));
      ChildrenAreParts(Children(n)[j], n);
      SomewhereByPart(n, Children(n)[j], above, Misusing(call));
    }
  }

  lemma MisuseBelowSplit(n: Node, k: nat, above: seq<Node>, call: Node)
    requires k < |Children(n)|
    ensures MisuseBelow(n, k, above, call) <==> Somewhere(Children(n)[k], above + [n], Misusing(call)) || MisuseBelow(n, k + 1, above, call)
  {
  }

  lemma CountApart(a: multiset<Node>, b: multiset<Node>, s: set<nat>, t: set<nat>, call: Node)
    requires s !! t && Within(a, s) && Within(b, t) && a[call] <= 1 && b[call] <= 1
    ensures (a + b)[call] == if a[call] == 1 || b[call] == 1 then 1 else 0
  {
    assert a[call] == 1 ==> call in a && call.id in s;
    assert b[call] == 1 ==> call in b && call.id in t;
  }

  /** In a proper tree every call that some way down shows to be a misuse counts once, and no other does. */
  lemma {:induction false} MisusesCount(n: Node, above: seq<Node>, call: Node)
    requires Proper(n)
    ensures Misuses(n, Dropped(above + [n]))[call] == if Somewhere(n, above, Misusing(call)) then 1 else 0
    decreases n, 1, 0
  {
    var d := Dropped(above + [n]);
    MisusesFromCount(n, 0, above, call);
    MisusesFromWithin(n, 0, d);
    SomewhereIff(n, above, call);
    CountApart(Documented(n, d), MisusesFrom(n, 0, d), {n.id}, IdsFrom(n, 0), call);
  }

  lemma {:induction false} MisusesFromCount(n: Node, k: nat, above: seq<Node>, call: Node)
    requires k <= |Children(n)| && ProperFrom(n, 0) && ProperFrom(n, k)
    ensures MisusesFrom(n, k, Dropped(above + [n]))[call] == if MisuseBelow(n, k, above, call) then 1 else 0
    decreases n, 0, |Children(n)| - k
  {
    if k < |Children(n)| {
      var c := Children(n)[k];
      MisusesCount(c, above + [n], call);
      MisusesFromCount(n, k + 1, above, call);
      MisusesOfChild(n, k, above, call);
    }
  }

  lemma MisusesOfChild(n: Node, k: nat, above: seq<Node>, call: Node)
    requires k < |Children(n)| && ProperFrom(n, 0) && Ids(Children(n)[k]) !! IdsFrom(n, k + 1)
    requires Misuses(Children(n)[k], Dropped((above + [n]) + [Children(n)[k]]))[call] ==
      if Somewhere(Children(n)[k], above + [n], Misusing(call)) then 1 else 0
    requires MisusesFrom(n, k + 1, Dropped(above + [n]))[call] == if MisuseBelow(n, k + 1, above, call) then 1 else 0
    ensures MisusesFrom(n, k, Dropped(above + [n]))[call] == if MisuseBelow(n, k, above, call) then 1 else 0
  {
    var c, d := Children(n)[k], Dropped(above + [n]);
    DropsIff(n, k, above);
    MisuseBelowSplit(n, k, above, call);
    MisusesWithin(c, Drops(n, k, d));
    MisusesFromWithin(n, k + 1, d);
    FromAt(n, k, d);
    CountApart(Misuses(c, Drops(n, k, d)), MisusesFrom(n, k + 1, d), Ids(c), IdsFrom(n, k + 1), call);
  }

  // The calls that are judged differently.

  ghost predicate DivergesBelow(n: Node, k: nat, above: seq<Node>) {
    exists j :: k <= j < |Children(n)| && Somewhere(Children(n)[j], above + [n], Diverging())
  }

  lemma {:induction false} JudgedIff(n: Node, above: seq<Node>)
    requires Proper(n)
    ensures Judged(n, FromTop(above, 1), Dropped(above + [n])) <==> !Somewhere(n, above, Diverging())
    decreases n, 1, 0
  {
    JudgedFromIff(n, 0, above);
    assert FromTop(above + [n], 2) == FromTop(above, 1);
    if DivergesAt(above + [n]) {
      SomewhereAtOnce(n, above, Diverging());
    } else if Somewhere(n, above, Diverging()) {
      var j := SomewhereSplit(n, above, Diverging());
    }
    if DivergesBelow(n, 0, above) {
      var j :| 0 <= j < |Children(n)| && Somewhere(Children(n)[j], above + [n], Diverging());
      ChildrenAreParts(Children(n)[j], n);
      SomewhereByPart(n, Children(n)[j], above, Diverging());
    }
  }

  lemma {:induction false} JudgedFromIff(n: Node, k: nat, above: seq<Node>)
    requires k <= |Children(n)| && ProperFrom(n, 0) && ProperFrom(n, k)
    ensures JudgedFrom(n, k, Dropped(above + [n])) <==> !DivergesBelow(n, k, above)
    decreases n, 0, |Children(n)| - k
  {
    if k < |Children(n)| {
      var c := Children(n)[k];
      DropsIff(n, k, above);
      StackGrows(above, n);
      JudgedIff(c, above + [n]);
      JudgedFromIff(n, k + 1, above);
      assert DivergesBelow(n, k, above) <==> Somewhere(c, above + [n], Diverging()) || DivergesBelow(n, k + 1, above);
    }
  }

  // The checker and its documentation.

  /** Some way down from the file shows the call to be a misuse. */
  ghost predicate MisuseIn(file: Node, call: Node) {
    exists path :: DownFrom(file, path) && MisuseAt(path, call)
  }

  /** Every misuse below the file is reported once, and nothing else is. */
  ghost predicate ReportsMisuses(file: Node) {
    forall call :: multiset(Findings(file, None, None))[call] == if MisuseIn(file, call) then 1 else 0
  }

  lemma MisusesInFile(file: Node, call: Node)
    requires Proper(file)
    ensures Misuses(file, false)[call] == if MisuseIn(file, call) then 1 else 0
  {
    MisusesCount(file, [], call);
    assert forall path: seq<Node> :: [] + path == path;
  }

  lemma SameCounts(a: multiset<Node>, b: multiset<Node>)
    requires forall call :: a[call] == b[call]
    ensures a == b
  {
  }

  lemma ReportsMisusesAsCounted(file: Node)
    requires Proper(file)
    ensures ReportsMisuses(file) <==> multiset(Findings(file, None, None)) == Misuses(file, false)
  {
    var found, documented := multiset(Findings(file, None, None)), Misuses(file, false);
    if found == documented {
      forall call ensures found[call] == if MisuseIn(file, call) then 1 else 0 {
        MisusesInFile(file, call);
      }
    } else if ReportsMisuses(file) {
      forall call ensures found[call] == documented[call] {
        MisusesInFile(file, call);
      }
      SameCounts(found, documented);
    }
  }

  /** Some way down from the file ends in a bystander, a false alarm or an overlooked call. */
  ghost predicate DivergesIn(file: Node) {
    exists path :: DownFrom(file, path) && DivergesAt(path)
  }

  lemma JudgedInFile(file: Node)
    requires Proper(file)
    ensures Judged(file, None, false) <==> !DivergesIn(file)
  {
    JudgedIff(file, []);
    assert forall path: seq<Node> :: [] + path == path;
  }

  /**
   The checker reports each documented misuse below a file once and nothing else, if and only if no way
   down from the file ends in a call that is judged differently.
   */
  lemma ReportsMisusesIff(file: Node)
    requires file.File? && Proper(file)
    ensures ReportsMisuses(file) <==> !DivergesIn(file)
  {
    ReportsAreMisusesIff(file);
    JudgedInFile(file);
    ReportsMisusesAsCounted(file);
  }

  // Each report once.

  lemma OwnOnce(n: Node, above: Option<Node>, call: Node)
    requires TypedWell(n)
    ensures Own(n, 0, above)[call] <= 1
  {
    OwnOfCall(n, above);
  }

  lemma {:induction false} ReportedOnce(n: Node, above: Option<Node>, call: Node)
    requires Proper(n)
    ensures Reported(n, above)[call] <= 1
    decreases n, 1, 0
  {
    OwnOnce(n, above, call);
    OwnWithin(n, above);
    ReportedFromOnce(n, 0, call);
    ReportedFromWithin(n, 0);
    CountApart(Own(n, 0, above), ReportedFrom(n, 0), {n.id}, IdsFrom(n, 0), call);
  }

  lemma {:induction false} ReportedFromOnce(n: Node, k: nat, call: Node)
    requires k <= |Children(n)| && ProperFrom(n, k)
    ensures ReportedFrom(n, k)[call] <= 1
    decreases n, 0, |Children(n)| - k
  {
    if k < |Children(n)| {
      var c := Children(n)[k];
      ReportedOnce(c, Some(n), call);
      ReportedFromOnce(n, k + 1, call);
      ReportedWithin(c, Some(n));
      ReportedFromWithin(n, k + 1);
      FromAt(n, k, false);
      CountApart(Reported(c, Some(n)), ReportedFrom(n, k + 1), Ids(c), IdsFrom(n, k + 1), call);
    }
  }

  /** Of a proper file a call is reported once if some way down leads to it so, and not at all if none does. */
  lemma FindingsCount(file: Node, call: Node)
    requires file.File? && Proper(file)
    ensures multiset(Findings(file, None, None))[call] ==
      if exists path :: DownFrom(file, path) && ReportedBy(path, call) then 1 else 0
  {
    FindingsIff(file, call);
    FindingsAreReported(file, 0, None);
    assert Findings(file, None, None) == [] + FindingsFrom(file, 0, None);
    ReportedOnce(file, None, call);
  }
}
