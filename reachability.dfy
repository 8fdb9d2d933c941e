/**
 * BranchEvaluator: whether a statement list is guaranteed to leave the
 * function (return or exit) before falling through, and the "witness"
 * statements it records along the way for the unreachable-code check.
 *
 * The answer is specified by the functions Scan, StmtVerdict, IfVerdict,
 * ClauseVerdict, ElseIfsVerdict and CasesVerdict over the syntax tree; the
 * class BranchEvaluator computes it statement by statement, appending to
 * its `errors` list exactly the witnesses the specification lists.
 */
module Reachability {
  import opened Common
  import opened Ast

  /** Whether a construct always exits, and the witnesses recorded while deciding it, in order. */
  datatype Verdict = Verdict(exits: bool, witnesses: seq<Node>)

  /** `acc` recorded first, then `v`'s witnesses; `v`'s answer. */
  function After(acc: seq<Node>, v: Verdict): Verdict {
    Verdict(v.exits, acc + v.witnesses)
  }

  /**
   * Scanning `ss` from index `i`: no-ops are skipped; the first statement
   * that always exits ends the scan with a true answer and is itself
   * recorded as the witness.
   */
  function Scan(ss: seq<Node>, i: nat): Verdict
    decreases ss, |ss| - i
  {
    if i >= |ss| then Verdict(false, [])
    else if ss[i].kind.Nop? then Scan(ss, i + 1)
    else
      var v := StmtVerdict(ss[i]);
      if v.exits then Verdict(true, v.witnesses + [ss[i]])
      else After(v.witnesses, Scan(ss, i + 1))
  }

  /** `statementAlwaysExits`: return and exit do; `if` and `switch` by their arms; nothing else does. */
  function StmtVerdict(n: Node): Verdict
    decreases n, 2
  {
    if n.kind.Exit? || n.kind.Return? then Verdict(true, [])
    else if n.kind.If? then IfVerdict(n)
    else if n.kind.Switch? then CasesVerdict(n.kind.cases, 0, false)
    else Verdict(false, [])
  }

  /** The statements of an `elseif` or `else` clause, scanned. */
  function ClauseVerdict(c: Node): Verdict
    decreases c, 3
  {
    if c.kind.ElseIf? || c.kind.Else? then Scan(c.kind.body, 0)
    else Verdict(false, [])
  }

  /** Every `elseif` from index `i` on, stopping at the first that does not exit. */
  function ElseIfsVerdict(eis: seq<Node>, i: nat): Verdict
    decreases eis, |eis| - i
  {
    if i >= |eis| then Verdict(true, [])
    else
      var v := ClauseVerdict(eis[i]);
      if !v.exits then v else After(v.witnesses, ElseIfsVerdict(eis, i + 1))
  }

  /**
   * `allIfBranchesExit`, branch for branch: the `else` is evaluated a second
   * time when there are `elseif` clauses, and an exiting second evaluation
   * makes the answer false.
   */
  function IfVerdict(n: Node): Verdict
    requires n.kind.If?
    decreases n, 1
  {
    var k := n.kind;
    if k.els.None? && k.elseifs == [] then Verdict(false, [])
    else
      var t := Scan(k.body, 0);
      if !t.exits then t
      else
        var e1 := if k.els.Some? then ClauseVerdict(k.els.value) else Verdict(true, []);
        if !e1.exits then Verdict(false, t.witnesses + e1.witnesses)
        else if k.elseifs == [] then Verdict(true, t.witnesses + e1.witnesses)
        else
          var ei := ElseIfsVerdict(k.elseifs, 0);
          var w := t.witnesses + e1.witnesses + ei.witnesses;
          if !ei.exits || k.els.None? then Verdict(false, w)
          else
            var e2 := ClauseVerdict(k.els.value);
            Verdict(!e2.exits, w + e2.witnesses)
  }

  /** A case body without its trailing `break` and no-op statements. */
  function StripTrailing(ss: seq<Node>): (r: seq<Node>)
    ensures |r| <= |ss| && r == ss[..|r|]
    ensures r == [] || !(r[|r| - 1].kind.Break? || r[|r| - 1].kind.Nop?)
    ensures forall k :: |r| <= k < |ss| ==> ss[k].kind.Break? || ss[k].kind.Nop?
    decreases |ss|
  {
    if ss != [] && (ss[|ss| - 1].kind.Break? || ss[|ss| - 1].kind.Nop?) then StripTrailing(ss[..|ss| - 1])
    else ss
  }

  /** The cases from index `i` on; `hasDefault` says whether a `default` was seen before `i`. */
  function CasesVerdict(cases: seq<Case>, i: nat, hasDefault: bool): Verdict
    decreases cases, |cases| - i
  {
    if i >= |cases| then Verdict(hasDefault, [])
    else
      var hd := hasDefault || cases[i].cond.None?;
      var v := CaseVerdict(cases[i]);
      if !v.exits then v else After(v.witnesses, CasesVerdict(cases, i + 1, hd))
  }

  /** One case body without its trailing breaks: an empty one lets the switch go on to the next case. */
  function CaseVerdict(c: Case): Verdict
    decreases c, 0
  {
    var ss := StripTrailing(c.body);
    if ss == [] then Verdict(true, []) else Scan(ss, 0)
  }

  // ---------------------------------------------------------------------
  // Properties of the specification

  /** A statement the scan stops at: not a no-op, and always exiting. */
  predicate Exiting(n: Node) {
    !n.kind.Nop? && StmtVerdict(n).exits
  }

  /** `k` is the first exiting statement of `ss` at or after `i`. */
  predicate FirstExiting(ss: seq<Node>, i: nat, k: nat) {
    i <= k < |ss| && Exiting(ss[k]) && forall j :: i <= j < k ==> !Exiting(ss[j])
  }

  /**
   * A statement list always exits exactly when one of its statements does,
   * and then the last witness recorded is the first such statement itself.
   */
  lemma {:induction false} ScanFindsFirstExitingStatement(ss: seq<Node>, i: nat)
    requires i <= |ss|
    ensures Scan(ss, i).exits <==> exists k :: i <= k < |ss| && Exiting(ss[k])
    ensures Scan(ss, i).exits ==>
      exists k: nat :: FirstExiting(ss, i, k) && |Scan(ss, i).witnesses| > 0
        && Scan(ss, i).witnesses[|Scan(ss, i).witnesses| - 1] == ss[k]
    decreases |ss| - i
  {
    if i < |ss| {
      ScanFindsFirstExitingStatement(ss, i + 1);
      if Exiting(ss[i]) {
        assert FirstExiting(ss, i, i);
      } else if Scan(ss, i).exits {
        var k: nat :| FirstExiting(ss, i + 1, k) && |Scan(ss, i + 1).witnesses| > 0
          && Scan(ss, i + 1).witnesses[|Scan(ss, i + 1).witnesses| - 1] == ss[k];
        assert FirstExiting(ss, i, k);
      }
    }
  }

  /** Lists of no-ops only, the empty list included, never exit and record nothing. */
  lemma {:induction false} NoOpListsDoNotExit(ss: seq<Node>, i: nat)
    requires i <= |ss|
    requires forall k :: i <= k < |ss| ==> ss[k].kind.Nop?
    ensures Scan(ss, i) == Verdict(false, [])
    decreases |ss| - i
  {
    if i < |ss| {
      NoOpListsDoNotExit(ss, i + 1);
    }
  }

  /** Return and exit always exit; every kind other than return, exit, `if` and `switch` never does, and records nothing. */
  lemma StatementKinds(n: Node)
    ensures n.kind.Return? || n.kind.Exit? ==> StmtVerdict(n) == Verdict(true, [])
    ensures !(n.kind.Return? || n.kind.Exit? || n.kind.If? || n.kind.Switch?) ==> StmtVerdict(n) == Verdict(false, [])
  {
  }

  /** An `if` without `else` and without `elseif` never exits, and its bodies are not examined. */
  lemma IfWithoutElseNeverExits(n: Node)
    requires n.kind.If? && n.kind.els.None? && n.kind.elseifs == []
    ensures StmtVerdict(n) == Verdict(false, [])
  {
  }

  /** An `if` with only an `else` exits exactly when both of its bodies do. */
  lemma IfElseExitsIffBothArmsExit(n: Node)
    requires n.kind.If? && n.kind.els.Some? && n.kind.elseifs == []
    ensures StmtVerdict(n).exits <==> Scan(n.kind.body, 0).exits && ClauseVerdict(n.kind.els.value).exits
  {
  }

  /** An `if` with any `elseif` never exits, whatever its arms do: the `else` evaluated twice cannot both exit and not exit. */
  lemma IfWithElseIfNeverExits(n: Node)
    requires n.kind.If? && n.kind.elseifs != []
    ensures !StmtVerdict(n).exits
  {
  }

  /** A case body counts when, stripped of its trailing `break`s and no-ops, it is empty or always exits. */
  predicate CaseExits(c: Case) {
    var ss := StripTrailing(c.body);
    ss == [] || Scan(ss, 0).exits
  }

  /** The cases from `i` on: the switch exits iff a `default` exists and every case counts. */
  lemma {:induction false} CasesExitIff(cases: seq<Case>, i: nat, hasDefault: bool)
    requires i <= |cases|
    ensures CasesVerdict(cases, i, hasDefault).exits <==>
      (hasDefault || exists k :: i <= k < |cases| && cases[k].cond.None?)
      && forall k :: i <= k < |cases| ==> CaseExits(cases[k])
    decreases |cases| - i
  {
    if i < |cases| {
      CasesExitIff(cases, i + 1, hasDefault || cases[i].cond.None?);
    }
  }

  /** A `switch` exits iff it has a `default` case and every case body counts; without `default` it never exits. */
  lemma SwitchExitsIff(n: Node)
    requires n.kind.Switch?
    ensures StmtVerdict(n).exits <==>
      (exists k :: 0 <= k < |n.kind.cases| && n.kind.cases[k].cond.None?)
      && forall k :: 0 <= k < |n.kind.cases| ==> CaseExits(n.kind.cases[k])
  {
    CasesExitIff(n.kind.cases, 0, false);
  }

  /**
   * `return 1; echo "x"; echo "y";`: the list exits, and the one witness
   * recorded is the `return` itself, not the first unreachable statement.
   */
  lemma ReturnThenStatementsWitness(ret: Node, a: Node, b: Node)
    requires ret.kind.Return? && !a.kind.Nop? && !b.kind.Nop?
    ensures Scan([ret, a, b], 0) == Verdict(true, [ret])
  {
  }

  /** An `exit` wrapped in an expression statement is not itself an `exit` statement: the wrapper never exits. */
  lemma WrappedExitDoesNotExit(e: Node, n: Node)
    requires e.kind.Exit? && n.kind == Other("Expression", false, [e])
    ensures StmtVerdict(e) == Verdict(true, [])
    ensures StmtVerdict(n) == Verdict(false, [])
  {
  }

  /** The first index at or after `start` that does not hold a no-op (`|stmts|` if none). */
  method SkipNops(stmts: seq<Node>, start: nat) returns (j: nat)
    requires start <= |stmts|
    ensures start <= j <= |stmts|
    ensures forall k :: start <= k < j ==> stmts[k].kind.Nop?
    ensures j < |stmts| ==> !stmts[j].kind.Nop?
  {
    j := start;
    while j < |stmts| && stmts[j].kind.Nop?
      invariant start <= j <= |stmts|
      invariant forall k :: start <= k < j ==> stmts[k].kind.Nop?
      decreases |stmts| - j
    {
      j := j + 1;
    }
  }

  /** The loop that pops trailing `break`s and no-ops off a case body. */
  method StripTrailingBreaks(body: seq<Node>) returns (stmts: seq<Node>)
    ensures stmts == StripTrailing(body)
  {
    stmts := body;
    while stmts != [] && (stmts[|stmts| - 1].kind.Break? || stmts[|stmts| - 1].kind.Nop?)
      invariant StripTrailing(stmts) == StripTrailing(body)
      decreases |stmts|
    {
      stmts := stmts[..|stmts| - 1];
    }
  }

  class BranchEvaluator {
    /** The witnesses recorded so far; only ever appended to, until reset. */
    var errors: seq<Node>

    constructor()
      ensures errors == []
    {
      errors := [];
    }

    method Reset()
      modifies this
      ensures errors == []
    {
      errors := [];
    }

    method GetErrors() returns (r: seq<Node>)
      ensures r == errors
    {
      r := errors;
    }

    /** `statementsAlwaysExit`. */
    method StatementsAlwaysExit(stmts: seq<Node>) returns (r: bool)
      modifies this
      ensures r == Scan(stmts, 0).exits
      ensures errors == old(errors) + Scan(stmts, 0).witnesses
      decreases stmts, 0
    {
      ghost var whole := Scan(stmts, 0);
      var i := 0;
      while i < |stmts|
        invariant 0 <= i <= |stmts|
        invariant whole.exits == Scan(stmts, i).exits
        invariant old(errors) + whole.witnesses == errors + Scan(stmts, i).witnesses
        decreases |stmts| - i
      {
        if stmts[i].kind.Nop? {
          i := i + 1;
          continue;
        }
        ghost var e0 := errors;
        ghost var v := StmtVerdict(stmts[i]);
        var b := StatementAlwaysExits(stmts[i]);
        if b {
          var j := SkipNops(stmts, i);
          if j < |stmts| {
            errors := errors + [stmts[j]];
            return true;
          }
          i := j;
        }
        ghost var rest := Scan(stmts, i + 1);
        assert Scan(stmts, i).witnesses == v.witnesses + rest.witnesses;
        assert e0 + Scan(stmts, i).witnesses == errors + rest.witnesses;
        i := i + 1;
      }
      return false;
    }

    /** `statementAlwaysExits`. */
    method StatementAlwaysExits(n: Node) returns (r: bool)
      modifies this
      ensures r == StmtVerdict(n).exits
      ensures errors == old(errors) + StmtVerdict(n).witnesses
      decreases n, 2
    {
      if n.kind.Exit? || n.kind.Return? {
        r := true;
      } else if n.kind.If? {
        r := AllIfBranchesExit(n);
      } else if n.kind.Switch? {
        r := AllSwitchCasesExit(n);
      } else {
        r := false;
      }
    }

    /** `$clause->stmts` of an `elseif` or `else`, evaluated. */
    method ClauseAlwaysExits(c: Node) returns (r: bool)
      modifies this
      ensures r == ClauseVerdict(c).exits
      ensures errors == old(errors) + ClauseVerdict(c).witnesses
      decreases c, 3
    {
      if c.kind.ElseIf? || c.kind.Else? {
        r := StatementsAlwaysExit(c.kind.body);
      } else {
        r := false;
      }
    }

    /** The `foreach` over the `elseif` clauses in `allIfBranchesExit`. */
    method AllElseIfsExit(eis: seq<Node>) returns (r: bool)
      modifies this
      ensures r == ElseIfsVerdict(eis, 0).exits
      ensures errors == old(errors) + ElseIfsVerdict(eis, 0).witnesses
      decreases eis, 0
    {
      ghost var whole := ElseIfsVerdict(eis, 0);
      var i := 0;
      while i < |eis|
        invariant 0 <= i <= |eis|
        invariant whole.exits == ElseIfsVerdict(eis, i).exits
        invariant old(errors) + whole.witnesses == errors + ElseIfsVerdict(eis, i).witnesses
        decreases |eis| - i
      {
        ghost var e0 := errors;
        ghost var here := ElseIfsVerdict(eis, i);
        ghost var v := ClauseVerdict(eis[i]);
        var b := ClauseAlwaysExits(eis[i]);
        if !b {
          assert here == v;
          return false;
        }
        ghost var rest := ElseIfsVerdict(eis, i + 1);
        assert here.witnesses == v.witnesses + rest.witnesses;
        assert e0 + here.witnesses == errors + rest.witnesses;
        i := i + 1;
      }
      return true;
    }

    /** `allIfBranchesExit`. */
    method AllIfBranchesExit(n: Node) returns (r: bool)
      requires n.kind.If?
      modifies this
      ensures r == IfVerdict(n).exits
      ensures errors == old(errors) + IfVerdict(n).witnesses
      decreases n, 1
    {
      var k := n.kind;
      if k.els.None? && k.elseifs == [] {
        return false;
      }
      var trueCond := StatementsAlwaysExit(k.body);
      if !trueCond {
        return false;
      }
      if k.els.Some? {
        var e := ClauseAlwaysExits(k.els.value);
        if !e {
          return false;
        }
      }
      if k.elseifs != [] {
        var all := AllElseIfsExit(k.elseifs);
        if !all {
          return false;
        }
        if k.els.None? {
          return false;
        }
        var e2 := ClauseAlwaysExits(k.els.value);
        if e2 {
          return false;
        }
      }
      return true;
    }

    /** `allSwitchCasesExit`. */
    method AllSwitchCasesExit(n: Node) returns (r: bool)
      requires n.kind.Switch?
      modifies this
      ensures r == StmtVerdict(n).exits
      ensures errors == old(errors) + StmtVerdict(n).witnesses
      decreases n, 1
    {
      var cases := n.kind.cases;
      ghost var whole := CasesVerdict(cases, 0, false);
      assert StmtVerdict(n) == whole;
      var hasDefault := false;
      var i := 0;
      while i < |cases|
        invariant 0 <= i <= |cases|
        invariant whole.exits == CasesVerdict(cases, i, hasDefault).exits
        invariant old(errors) + whole.witnesses == errors + CasesVerdict(cases, i, hasDefault).witnesses
        decreases |cases| - i
      {
        ghost var e0 := errors;
        ghost var here := CasesVerdict(cases, i, hasDefault);
        if cases[i].cond.None? {
          hasDefault := true;
        }
        ghost var v := CaseVerdict(cases[i]);
        var b := CaseAlwaysExits(n, i);
        if !b {
          assert here == v;
          return false;
        }
        ghost var rest := CasesVerdict(cases, i + 1, hasDefault);
        assert here.witnesses == v.witnesses + rest.witnesses;
        assert e0 + here.witnesses == errors + rest.witnesses;
        i := i + 1;
      }
      return hasDefault;
    }

    /** The body of case `i`, without its trailing breaks, scanned; an empty body lets the loop go on. */
    method CaseAlwaysExits(n: Node, i: nat) returns (r: bool)
      requires n.kind.Switch? && i < |n.kind.cases|
      modifies this
      ensures r == CaseVerdict(n.kind.cases[i]).exits
      ensures errors == old(errors) + CaseVerdict(n.kind.cases[i]).witnesses
      decreases n, 0
    {
      var stmts := StripTrailingBreaks(n.kind.cases[i].body);
      if stmts == [] {
        return true;
      }
      r := StatementsAlwaysExit(stmts);
    }
  }
}
