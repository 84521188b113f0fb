/** The checker for misuse of hash.Hash.Sum: a syntax-tree visitor with a stack of ancestors. */
module HashLint {
  import opened Common

  /**
   What stands in front of a selected name: a value of the type that is called hash.Hash, that
   type itself, or neither. A hash.Hash32, a struct that embeds the interface and an alias of it
   are neither.
   */
  datatype Operand = NotHash | HashValue | HashType

  /** Syntax trees; the id stands for the identity of the node. */
  datatype Node =
    | File(id: nat, decls: seq<Node>)
    | SelectorExpr(id: nat, x: Node, sel: Node, operand: Operand)
    | CallExpr(id: nat, fun: Node, args: seq<Node>)
    | Ident(id: nat, name: string)
    | ParenExpr(id: nat, inner: Node)
    | AssignStmt(id: nat, lhs: seq<Node>, rhs: seq<Node>)
    | ValueSpec(id: nat, names: seq<Node>, values: seq<Node>)
    | ExprStmt(id: nat, expr: Node)
    | GoStmt(id: nat, call: Node)
    | DeferStmt(id: nat, call: Node)
    | Other(id: nat, parts: seq<Node>)

  /** The children in the order in which they are visited. */
  function Children(n: Node): (cs: seq<Node>)
    ensures forall i :: 0 <= i < |cs| ==> cs[i] < n
  {
    match n
    case File(_, decls) => decls
    case SelectorExpr(_, x, sel, _) => [x, sel]
    case CallExpr(_, fun, args) => [fun] + args
    case Ident(_, _) => []
    case ParenExpr(_, inner) => [inner]
    case AssignStmt(_, lhs, rhs) => lhs + rhs
    case ValueSpec(_, names, values) => names + values
    case ExprStmt(_, expr) => [expr]
    case GoStmt(_, call) => [call]
    case DeferStmt(_, call) => [call]
    case Other(_, parts) => parts
  }

  predicate IsIdent(n: Node, name: string) {
    n.Ident? && n.name == name
  }

  predicate IsHashSum(n: Node) {
    n.SelectorExpr? && IsIdent(n.sel, "Sum") && !n.operand.NotHash?
  }

  /** The first position of a node in a list, by identity. */
  function Position(ns: seq<Node>, n: Node): (k: nat)
    ensures k <= |ns| && (k < |ns| ==> ns[k].id == n.id)
    ensures n in ns ==> k < |ns|
  {
    if |ns| == 0 || ns[0].id == n.id then 0 else 1 + Position(ns[1..], n)
  }

  /** What the checker takes for an unused value: a statement of its own, or an assignment to the blank identifier. */
  predicate ValueUnused(call: Node, above: Option<Node>) {
    match above
    case None => false
    case Some(g) =>
      g.ExprStmt? ||
      (g.AssignStmt? && Position(g.rhs, call) < |g.lhs| && Position(g.rhs, call) < |g.rhs|
        && IsIdent(g.lhs[Position(g.rhs, call)], "_"))
  }

  /** One argument that is not the identifier nil, and no such use. */
  predicate SuspiciousCall(call: Node, above: Option<Node>) {
    call.CallExpr? && |call.args| == 1 && !IsIdent(call.args[0], "nil") && !ValueUnused(call, above)
  }

  // What is reported, by parent and grandparent.

  /** The call reported at a node with that parent and grandparent, if any. */
  function OwnFinding(n: Node, parent: Option<Node>, grand: Option<Node>): seq<Node> {
    if IsHashSum(n) && parent.Some? && SuspiciousCall(parent.value, grand) then [parent.value] else []
  }

  function Findings(n: Node, parent: Option<Node>, grand: Option<Node>): seq<Node>
    decreases n, 1, 0
  {
    OwnFinding(n, parent, grand) + FindingsFrom(n, 0, parent)
  }

  /** The findings at and below the children of n from k on. */
  function FindingsFrom(n: Node, k: nat, above: Option<Node>): seq<Node>
    requires k <= |Children(n)|
    decreases n, 0, |Children(n)| - k
  {
    if k == |Children(n)| then [] else Findings(Children(n)[k], Some(n), above) + FindingsFrom(n, k + 1, above)
  }

  function FindingsInFiles(files: seq<Node>): seq<Node> {
    if |files| == 0 then [] else FindingsInFiles(files[..|files| - 1]) + Findings(files[|files| - 1], None, None)
  }

  // The trees that the language admits.

  /** Nothing is assigned to a call, every value has a target, and values are distinct nodes. */
  predicate AssignsWell(n: Node) {
    n.AssignStmt? ==>
      && (forall i :: 0 <= i < |n.lhs| ==> !n.lhs[i].CallExpr?)
      && |n.rhs| <= |n.lhs|
      && (forall i, j :: 0 <= i < j < |n.rhs| ==> n.rhs[i].id != n.rhs[j].id)
  }

  predicate Admitted(n: Node)
    decreases n
  {
    AssignsWell(n) && forall i :: 0 <= i < |Children(n)| ==> Admitted(Children(n)[i])
  }

  /** A path from a file down, each node a child of the one before. */
  predicate IsPath(path: seq<Node>) {
    && |path| > 0 && path[0].File?
    && (forall i :: 0 <= i < |path| - 1 ==> path[i + 1] in Children(path[i]))
    && (forall i :: 0 <= i < |path| ==> AssignsWell(path[i]))
  }

  /** The node k places from the top of the path, if there is one. */
  function FromTop(path: seq<Node>, k: nat): Option<Node>
    requires k > 0
  {
    if k <= |path| then Some(path[|path| - k]) else None
  }

  // The visitor.

  class Checker {
    var stack: seq<Node>
    var reports: seq<Node>

    constructor ()
      ensures stack == [] && reports == []
    {
      stack, reports := [], [];
    }

    /**
     The callback at a node. It is called with the path to the node on the stack; with
     that, looking two and three places from the top stays within the stack, and the
     assignment above a call has the call among its values.
     */
    method Enter(n: Node)
      requires IsPath(stack + [n])
      modifies this
      ensures stack == old(stack) + [n]
      ensures reports == old(reports) + OwnFinding(n, FromTop(old(stack), 1), FromTop(old(stack), 2))
    {
      ghost var path := stack + [n];
      stack := stack + [n];
      if !n.SelectorExpr? || !IsIdent(n.sel, "Sum") || n.operand.NotHash? {
        return;
      }
      assert path[0].File?;
      var callExpr := stack[|stack| - 2];
      if !callExpr.CallExpr? || |callExpr.args| != 1 {
        return;
      }
      var nilArg := IsIdent(callExpr.args[0], "nil");
      var above := stack[|stack| - 3];
      assert callExpr in Children(above) by { assert path[|path| - 3 + 1] in Children(path[|path| - 3]); }
      var retUnused := false;
      if above.AssignStmt? {
        retUnused := AssignedToBlank(above, callExpr);
      } else if above.ExprStmt? {
        retUnused := true;
      }
      if !nilArg && !retUnused {
        reports := reports + [callExpr];
      }
    }

    /** The loop over the values of an assignment; running off its end is the unreachable panic. */
    method AssignedToBlank(assign: Node, call: Node) returns (blank: bool)
      requires assign.AssignStmt? && AssignsWell(assign) && call.CallExpr? && call in Children(assign)
      ensures blank == ValueUnused(call, Some(assign))
    {
      assert call in assign.rhs;
      var i := 0;
      while assign.rhs[i].id != call.id
        invariant 0 <= i <= Position(assign.rhs, call) < |assign.rhs|
        invariant Position(assign.rhs, call) == i + Position(assign.rhs[i..], call)
        decreases |assign.rhs| - i
      {
        i := i + 1;
      }
      blank := IsIdent(assign.lhs[i], "_");
    }

    /** The callback at nil. */
    method Leave()
      requires |stack| > 0
      modifies this
      ensures stack == old(stack)[..|old(stack)| - 1] && reports == old(reports)
    {
      stack := stack[..|stack| - 1];
    }

    /** The traversal of one tree: the stack is left as it was found. */
    method Inspect(n: Node)
      requires IsPath(stack + [n]) && Admitted(n)
      modifies this
      ensures stack == old(stack)
      ensures reports == old(reports) + Findings(n, FromTop(old(stack), 1), FromTop(old(stack), 2))
      decreases n, 1
    {
      ghost var parent := FromTop(stack, 1);
      ghost var before := reports;
      Enter(n);
      InspectAll(Children(n), n);
      Leave();
      assert reports == before + Findings(n, parent, FromTop(old(stack), 2));
    }

    method InspectAll(ns: seq<Node>, parent: Node)
      requires ns == Children(parent) && IsPath(stack) && FromTop(stack, 1) == Some(parent) && Admitted(parent)
      modifies this
      ensures stack == old(stack)
      ensures reports == old(reports) + FindingsFrom(parent, 0, FromTop(old(stack), 2))
      decreases parent, 0
    {
      ghost var above := FromTop(stack, 2);
      for i := 0 to |ns|
        invariant stack == old(stack)
        invariant old(reports) + FindingsFrom(parent, 0, above) == reports + FindingsFrom(parent, i, above)
      {
        PathGrows(stack, ns[i]);
        NextFindings(reports, i, parent, above);
        Inspect(ns[i]);
      }
    }

    /** All files; the stack is empty after each. */
    method Run(files: seq<Node>)
      requires stack == [] && reports == []
      requires forall i :: 0 <= i < |files| ==> files[i].File? && Admitted(files[i])
      modifies this
      ensures stack == [] && reports == FindingsInFiles(files)
    {
      for i := 0 to |files|
        invariant stack == [] && reports == FindingsInFiles(files[..i])
      {
        assert files[..i + 1][..i] == files[..i];
        assert stack + [files[i]] == [files[i]];
        Inspect(files[i]);
      }
      assert files[..|files|] == files;
    }
  }

  lemma NextFindings(reports: seq<Node>, k: nat, n: Node, above: Option<Node>)
    requires k < |Children(n)|
    ensures reports + FindingsFrom(n, k, above) ==
      (reports + Findings(Children(n)[k], Some(n), above)) + FindingsFrom(n, k + 1, above)
  {
  }

  lemma PathGrows(path: seq<Node>, n: Node)
    requires IsPath(path) && n in Children(path[|path| - 1]) && Admitted(path[|path| - 1])
    ensures IsPath(path + [n]) && Admitted(n)
  {
    var i :| 0 <= i < |Children(path[|path| - 1])| && Children(path[|path| - 1])[i] == n;
    assert Admitted(Children(path[|path| - 1])[i]);
  }
}
