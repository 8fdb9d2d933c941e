/**
 * UnreachableCodeCheck: for a function or class method with at least two
 * top-level statements, run a fresh BranchEvaluator over the body and
 * report one finding per witness it records, in order.
 */
module UnreachableCode {
  import opened Common
  import opened Ast
  import opened Scopes
  import opened Collaborators
  import opened Reachability

  /** The reporting source (BaseCheck, which fills it in, is not part of this model). */
  const SOURCE := "UnreachableCodeCheck"
  const MESSAGE := "Unreachable code was found."

  /** `getCheckNodeTypes`. */
  function CheckNodeTypes(): (r: seq<NodeType>)
    ensures TFunction in r && TClassMethod in r && |r| == 2
  {
    [TFunction, TClassMethod]
  }

  /**
   * The statement list `run` hands to the evaluator, and its count: a
   * class method without a body (`getStmts()` is null) is wrapped into a
   * one-element list, which is below the threshold either way.
   */
  function StatementsOf(n: Node): (r: (seq<Node>, nat))
    ensures n.kind.Function? ==> r == (n.kind.body, |n.kind.body|)
    ensures n.kind.ClassMethod? && n.kind.stmts.Some? ==> r == (n.kind.stmts.value, |n.kind.stmts.value|)
    ensures n.kind.ClassMethod? && n.kind.stmts.None? ==> r.1 == 1
  {
    match n.kind
    case Function(_, b) => (b, |b|)
    case ClassMethod(_, _, Some(b)) => (b, |b|)
    case ClassMethod(_, _, None) => ([], 1)
    case _ => ([], 0)
  }

  /** The witnesses a run reports: none unless the node is checked and has two statements or more. */
  function ReportedWitnesses(n: Node): seq<Node> {
    var (stmts, count) := StatementsOf(n);
    if (n.kind.Function? || n.kind.ClassMethod?) && count >= 2 then Scan(stmts, 0).witnesses else []
  }

  function FindingAt(file: string, w: Node): Finding {
    Finding(SOURCE, file, w.line, UnreachableCode, MESSAGE)
  }

  /** `run`; the class and scope arguments are accepted and ignored. */
  method Run(file: string, node: Node, inside: Option<Node>, scope: Option<VarView>) returns (emitted: seq<Finding>)
    ensures |emitted| == |ReportedWitnesses(node)|
    ensures forall k :: 0 <= k < |emitted| ==> emitted[k] == FindingAt(file, ReportedWitnesses(node)[k])
  {
    emitted := [];
    if node.kind.Function? || node.kind.ClassMethod? {
      var statements: seq<Node> := [];
      var count := 0;
      match node.kind {
        case Function(_, b) =>
          statements := b;
          count := |b|;
        case ClassMethod(_, _, body) =>
          if body.Some? {
            statements := body.value;
            count := |statements|;
          } else {
            count := 1;
          }
      }
      if count >= 2 {
        var evaluator := new BranchEvaluator();
        var _ := evaluator.StatementsAlwaysExit(statements);
        var errors := evaluator.GetErrors();
        var i := 0;
        while i < |errors|
          invariant 0 <= i <= |errors|
          invariant |emitted| == i
          invariant forall k :: 0 <= k < i ==> emitted[k] == FindingAt(file, errors[k])
          decreases |errors| - i
        {
          emitted := emitted + [FindingAt(file, errors[i])];
          i := i + 1;
        }
      }
    }
  }

  /** Only functions and class methods are ever reported on, and never one with fewer than two statements. */
  lemma OnlyLongFunctionBodiesReport(n: Node)
    ensures !(n.kind.Function? || n.kind.ClassMethod?) ==> ReportedWitnesses(n) == []
    ensures StatementsOf(n).1 < 2 ==> ReportedWitnesses(n) == []
  {
  }

  /** A statement that holds no nested branching statement. */
  predicate Flat(n: Node) {
    !n.kind.If? && !n.kind.Switch?
  }

  /**
   * Over a list of flat statements (no `if`, no `switch`), the scan records
   * at most one witness: the first return or exit, when there is one.
   */
  lemma {:induction false} FlatListWitness(ss: seq<Node>, i: nat)
    requires i <= |ss|
    requires forall k :: i <= k < |ss| ==> Flat(ss[k])
    ensures Scan(ss, i).exits ==> exists k: nat :: FirstExiting(ss, i, k) && Scan(ss, i).witnesses == [ss[k]]
    ensures !Scan(ss, i).exits ==> Scan(ss, i).witnesses == []
    decreases |ss| - i
  {
    if i < |ss| {
      FlatListWitness(ss, i + 1);
      StatementKinds(ss[i]);
      if Exiting(ss[i]) {
        assert FirstExiting(ss, i, i);
      } else if Scan(ss, i).exits {
        var k: nat :| FirstExiting(ss, i + 1, k) && Scan(ss, i + 1).witnesses == [ss[k]];
        assert FirstExiting(ss, i, k);
      }
    }
  }

  /**
   * A function whose body is two or more flat statements is reported at
   * most once, at its first return or exit statement, which is itself
   * reachable: the check reports the exiting statement, not the code
   * after it.
   */
  lemma FlatFunctionReportsFirstExit(n: Node)
    requires n.kind.Function? && |n.kind.body| >= 2
    requires forall k :: 0 <= k < |n.kind.body| ==> Flat(n.kind.body[k])
    ensures |ReportedWitnesses(n)| <= 1
    ensures |ReportedWitnesses(n)| == 1 <==> exists k :: 0 <= k < |n.kind.body| && (n.kind.body[k].kind.Return? || n.kind.body[k].kind.Exit?)
    ensures |ReportedWitnesses(n)| == 1 ==> ReportedWitnesses(n)[0].kind.Return? || ReportedWitnesses(n)[0].kind.Exit?
    ensures |ReportedWitnesses(n)| == 1 ==>
      exists k: nat :: FirstExiting(n.kind.body, 0, k) && ReportedWitnesses(n) == [n.kind.body[k]]
  {
    var b := n.kind.body;
    assert ReportedWitnesses(n) == Scan(b, 0).witnesses;
    FlatListWitness(b, 0);
    ScanFindsFirstExitingStatement(b, 0);
    forall k | 0 <= k < |b|
      ensures Exiting(b[k]) <==> (b[k].kind.Return? || b[k].kind.Exit?)
    {
      StatementKinds(b[k]);
    }
  }
}
