/**
 * Recognition of the condition forms that guarantee a variable is not
 * null where the condition holds, and of the condition of a branching
 * node. The analyzer uses the recognised variable to narrow the scope it
 * pushes for the guarded branch.
 */
module Guards {
  import opened Common
  import opened Ast

  /** `$n` is the constant `null`, in any letter case. */
  predicate IsNullConst(n: Node) {
    n.kind.ConstFetch? && EqualsIgnoreCase(n.kind.cname, "null")
  }

  /** Every plain variable name occurring in the guard positions of `n`. */
  function NamedVars(n: Node): set<string>
    decreases n
  {
    match n.kind
    case Variable(name) => if name.Str? then {name.s} else {}
    case BooleanOr(l, r) => NamedVars(l) + NamedVars(r)
    case BooleanAnd(l, r) => NamedVars(l) + NamedVars(r)
    case NotEqual(l, r) => NamedVars(l) + NamedVars(r)
    case NotIdentical(l, r) => NamedVars(l) + NamedVars(r)
    case Instanceof(e, _) => NamedVars(e)
    case Isset(vs) => if |vs| == 1 then NamedVars(vs[0]) else {}
    case BooleanNot(e) => NamedVars(e)
    case Empty(e) => NamedVars(e)
    case FuncCall(_, args) => if |args| == 1 then NamedVars(args[0].value) else {}
    case _ => {}
  }

  /** `null != $v`, `$v != null` and the `!==` forms: the variable compared with null, if any. */
  function ComparedWithNull(l: Node, r: Node): (v: string)
    ensures v == "" || v in NamedVars(l) + NamedVars(r)
  {
    if IsNullConst(l) && IsNamedVariable(r) then VariableName(r)
    else if IsNullConst(r) && IsNamedVariable(l) then VariableName(l)
    else ""
  }

  /**
   * `checksForNonNullVariable`: the variable a condition shows to be
   * non-null, or "" when it recognises none. For `a || b` only the left
   * operand is consulted; for `a && b` the left operand's answer wins when
   * it is truthy, then the right one's.
   */
  function ChecksForNonNullVariable(n: Node): (r: string)
    ensures r == "" || r in NamedVars(n)
    decreases n
  {
    match n.kind
    case BooleanOr(l, _) => ChecksForNonNullVariable(l)
    case BooleanAnd(l, rt) =>
      var a := ChecksForNonNullVariable(l);
      if Truthy(a) then a
      else
        var b := ChecksForNonNullVariable(rt);
        if Truthy(b) then b else ""
    case NotEqual(l, rt) => ComparedWithNull(l, rt)
    case NotIdentical(l, rt) => ComparedWithNull(l, rt)
    case Instanceof(e, _) => if IsNamedVariable(e) then VariableName(e) else ""
    case Variable(name) => if name.Str? then name.s else ""
    case Isset(vs) => if |vs| == 1 && IsNamedVariable(vs[0]) then VariableName(vs[0]) else ""
    case BooleanNot(e) =>
      if e.kind.FuncCall? && e.kind.fname.QName? && e.kind.fname.s == "is_null"
         && |e.kind.args| == 1 && IsNamedVariable(e.kind.args[0].value) then
        assert VariableName(e.kind.args[0].value) in NamedVars(e);
        VariableName(e.kind.args[0].value)
      else if e.kind.Empty? && IsNamedVariable(e.kind.expr) then
        assert VariableName(e.kind.expr) in NamedVars(e);
        VariableName(e.kind.expr)
      else ""
    case _ => ""
  }

  /**
   * An independent reading of the same idea: where `n` is true, the
   * variable `v` holds a non-null value. A conjunction guards what either
   * side guards; a disjunction only what both sides guard. Function names
   * compare without regard to case, as PHP resolves them.
   */
  predicate Guarantees(n: Node, v: string)
    decreases n
  {
    match n.kind
    case Variable(name) => name == Str(v)
    case BooleanAnd(l, r) => Guarantees(l, v) || Guarantees(r, v)
    case BooleanOr(l, r) => Guarantees(l, v) && Guarantees(r, v)
    case NotEqual(l, r) => (IsNullConst(l) && r.kind == Variable(Str(v))) || (IsNullConst(r) && l.kind == Variable(Str(v)))
    case NotIdentical(l, r) => (IsNullConst(l) && r.kind == Variable(Str(v))) || (IsNullConst(r) && l.kind == Variable(Str(v)))
    case Instanceof(e, _) => e.kind == Variable(Str(v))
    case Isset(vs) => exists k :: 0 <= k < |vs| && vs[k].kind == Variable(Str(v))
    case BooleanNot(e) =>
      (e.kind.FuncCall? && e.kind.fname.QName? && EqualsIgnoreCase(e.kind.fname.s, "is_null")
       && |e.kind.args| == 1 && e.kind.args[0].value.kind == Variable(Str(v)))
      || (e.kind.Empty? && e.kind.expr.kind == Variable(Str(v)))
    case _ => false
  }

  /** No disjunction on the path the recogniser follows. */
  predicate OrFree(n: Node)
    decreases n
  {
    match n.kind
    case BooleanOr(_, _) => false
    case BooleanAnd(l, r) => OrFree(l) && OrFree(r)
    case _ => true
  }

  /** Outside disjunctions the recogniser is sound: the variable it reports is one the condition guarantees non-null. */
  lemma {:induction false} RecognisedGuardIsSound(n: Node)
    requires OrFree(n)
    ensures var r := ChecksForNonNullVariable(n); r != "" ==> Guarantees(n, r)
    decreases n
  {
    match n.kind
    case BooleanAnd(l, rt) =>
      RecognisedGuardIsSound(l);
      RecognisedGuardIsSound(rt);
    case Isset(vs) =>
      if |vs| == 1 && IsNamedVariable(vs[0]) {
        assert vs[0].kind == Variable(Str(VariableName(vs[0])));
      }
    case _ =>
  }

  /** Every form the recogniser knows, used on its own, is recognised. */
  lemma SimpleGuardsAreRecognised(n: Node, v: string)
    requires n.kind.Variable? || n.kind.NotEqual? || n.kind.NotIdentical? || n.kind.Instanceof?
    requires Guarantees(n, v) && Truthy(v)
    requires n.kind.NotEqual? || n.kind.NotIdentical? ==> !(IsNullConst(n.kind.left) && IsNullConst(n.kind.right))
    ensures ChecksForNonNullVariable(n) == v
  {
  }

  /** Single-variable `isset($v)`, `!empty($v)` and `!is_null($v)` (spelled in lower case) are recognised. */
  lemma UnaryGuardsAreRecognised(n: Node, v: string)
    requires Truthy(v)
    requires (n.kind.Isset? && |n.kind.vars| == 1 && n.kind.vars[0].kind == Variable(Str(v)))
      || (n.kind.BooleanNot? && n.kind.expr.kind.Empty? && n.kind.expr.kind.expr.kind == Variable(Str(v)))
      || (n.kind.BooleanNot? && n.kind.expr.kind.FuncCall? && n.kind.expr.kind.fname == QName("is_null")
          && |n.kind.expr.kind.args| == 1 && n.kind.expr.kind.args[0].value.kind == Variable(Str(v)))
    ensures ChecksForNonNullVariable(n) == v
  {
  }

  /**
   * `is_null` is compared with its exact spelling, so `!IS_NULL($a)`
   * guarantees `$a` is not null but narrows nothing.
   */
  lemma UpperCaseIsNullIsNotRecognised()
    ensures var a := Node(0, 1, [], Variable(Str("a")));
      var call := Node(1, 1, [], FuncCall(QName("IS_NULL"), [Arg(a)]));
      var n := Node(2, 1, [], BooleanNot(call));
      ChecksForNonNullVariable(n) == "" && Guarantees(n, "a")
  {
    assert Lower("IS_NULL") == Lower("is_null");
  }

  /**
   * For `a || b` the recogniser reports the left operand's variable even
   * though the right operand alone can make the condition true:
   * `if ($a || $b)` narrows `$a`.
   */
  lemma DisjunctionReportsLeftVariable()
    ensures var a := Node(0, 1, [], Variable(Str("a")));
      var b := Node(1, 1, [], Variable(Str("b")));
      var n := Node(2, 1, [], BooleanOr(a, b));
      ChecksForNonNullVariable(n) == "a" && !Guarantees(n, "a")
  {
  }

  /** `getIfCond`: the condition of a ternary, an `if` or an `elseif`; None for anything else. */
  function GetIfCond(n: Node): (r: Option<Node>)
    ensures r.Some? <==> n.kind.Ternary? || n.kind.If? || n.kind.ElseIf?
    ensures r.Some? ==> r.value < n
  {
    match n.kind
    case Ternary(c, _, _) => Some(c)
    case If(c, _, _, _) => Some(c)
    case ElseIf(c, _) => Some(c)
    case _ => None
  }
}
