/**
 * What the analyzer's enter and exit hooks do to its state, as functions
 * of that state. The StaticAnalyzer class (analysis.dfy) performs the
 * same changes step by step and is proved to end in the state given here;
 * the properties of the traversal are stated as lemmas on these functions
 * (traversal_props.dfy).
 *
 * Scope operations act on the whole stack and an index into it, so that
 * a by-reference capture (an alias to a lower scope) behaves as the one
 * shared record it is. `t` is always the index of the top scope.
 */
module Traversal {
  import opened Common
  import opened PhpTypes
  import opened Ast
  import opened Scopes
  import opened Collaborators
  import opened TypeInference
  import opened Guards
  import Checks
  import UnreachableCode

  /** `__CLASS__` in the analyzer: the source of the findings it reports itself. */
  const ANALYZER := "BambooHR\\Guardrail\\NodeVisitors\\StaticAnalyzer"

  /** The analyzer's traversal state, findings apart. */
  datatype AState = AState(
    classStack: seq<Node>,
    scopes: Stack,
    /** ids of the nodes marked 'merge-scope-on-leave' */
    mergeOnLeave: set<nat>,
    /** ids of the variable nodes marked 'assignment' */
    assignmentTargets: set<nat>)

  /** The state after construction or `setFile`: one global scope. */
  function Initial(classStack: seq<Node>, mergeOnLeave: set<nat>, assignmentTargets: set<nat>): (s: AState)
    ensures |s.scopes| == 1 && s.scopes[0].isGlobal && s.scopes[0].vars == map[]
  {
    AState(classStack, [NewScope(true, true)], mergeOnLeave, assignmentTargets)
  }

  /** `end($this->classStack) ?: null`, as the inferrer receives it: the enclosing class's name. */
  function InsideName(classStack: seq<Node>): Option<string> {
    if classStack == [] then None
    else match classStack[|classStack| - 1].kind
      case ClassDecl(name, _) => Some(name)
      case _ => None
  }

  /** `end($this->classStack) ?: null`, as a check receives it. */
  function InsideNode(classStack: seq<Node>): Option<Node> {
    if classStack == [] then None else Some(classStack[|classStack| - 1])
  }

  // ---------------------------------------------------------------------
  // setScopeType and setScopeExpression

  /** `setScopeType` on the top scope. */
  function ScopeTypeAfter(st: Stack, name: string, newType: string, line: int, attrs: set<Attr>): (r: Stack)
    requires |st| > 0
    ensures |r| == |st|
  {
    var t := |st| - 1;
    var oldType := GetVarType(st, t, name);
    var st1 :=
      if oldType == newType then st
      else if oldType == UNDEFINED then SetVarType(st, t, name, newType, line)
      else if newType == NULL_TYPE then SetVarNull(st, t, name, true)
      else SetVarType(st, t, name, MIXED_TYPE, line);
    SetVarAttributes(st1, t, name, attrs)
  }

  /** The nullability an inference reports, as the attribute flags it sets. */
  function NullabilityAttrs(n: Nullability): set<Attr> {
    {InferredNullability(n)}
  }

  /** `setScopeExpression`: infer the expression in the top scope and record the result. */
  function ScopeExpressionAfter(infer: Inferrer, inside: Option<string>, st: Stack, name: string, expr: Option<Node>, line: int): (r: Stack)
    requires |st| > 0
    ensures |r| == |st|
  {
    RecordInferred(st, name, infer(inside, expr, ViewAt(st, |st| - 1)), line)
  }

  /** What `setScopeExpression` does with the inference result. */
  function RecordInferred(st: Stack, name: string, inferred: Inferred, line: int): (r: Stack)
    requires |st| > 0
    ensures |r| == |st|
  {
    var st1 := ScopeTypeAfter(st, name, inferred.typ, line, NullabilityAttrs(inferred.nullability));
    if inferred.nullability == Possible then SetVarNull(st1, |st| - 1, name, true) else st1
  }

  // ---------------------------------------------------------------------
  // Branch scopes

  /** `addCastedType`: `$v instanceof Name` gives `$v` the type Name in scope `i`. */
  function AddCastedType(st: Stack, i: nat, cond: Node): (r: Stack)
    requires i < |st| && cond.kind.Instanceof?
    ensures |r| == |st|
  {
    if IsNamedVariable(cond.kind.expr) && cond.kind.cls.QName? then
      SetVarType(st, i, VariableName(cond.kind.expr), cond.kind.cls.s, cond.kind.expr.line)
    else st
  }

  /**
   * The narrowing a condition brings to the freshly cloned scope on top of
   * the stack: a cast for `instanceof`, then the guarded variable made
   * non-null and, for `if` conditions only, a NULL type turned into MIXED
   * without touching the recorded line.
   */
  function NarrowTop(st: Stack, c: Node, nullToMixed: bool): (r: Stack)
    requires |st| > 0
    ensures |r| == |st|
  {
    var t := |st| - 1;
    var st1 := if c.kind.Instanceof? then AddCastedType(st, t, c) else st;
    var v := ChecksForNonNullVariable(c);
    if !Truthy(v) then st1
    else
      var st2 := SetVarNull(st1, t, v, false);
      if nullToMixed && GetVarType(st2, t, v) == NULL_TYPE then SetTypeInPlace(st2, t, v, MIXED_TYPE)
      else st2
  }

  /** `pushIfScope($node, $previous)`. */
  function IfScope(st: Stack, node: Node, previous: Option<Scope>): (r: Stack)
    requires |st| > 0
    ensures |r| == |st| + 1
  {
    var pushed := st + [GetScopeClone(st, |st| - 1, previous)];
    match GetIfCond(node)
    case None => pushed
    case Some(c) => NarrowTop(pushed, c, true)
  }

  /** `pushShortCircuitAndScope`: narrowed by the left operand only. */
  function AndScope(st: Stack, node: Node): (r: Stack)
    requires |st| > 0 && node.kind.BooleanAnd?
    ensures |r| == |st| + 1
  {
    NarrowTop(st + [GetScopeClone(st, |st| - 1, None)], node.kind.left, false)
  }

  /** `pushShortCircuitOrScope`: an un-narrowed clone. */
  function OrScope(st: Stack): (r: Stack)
    requires |st| > 0
    ensures |r| == |st| + 1
  {
    st + [GetScopeClone(st, |st| - 1, None)]
  }

  /** `array_pop` the top scope and merge it into the one below. */
  function PopMerge(st: Stack): (r: Stack)
    requires |st| > 1
    ensures |r| == |st| - 1
  {
    var top := ViewAt(st, |st| - 1);
    var rest := st[..|st| - 1];
    rest[|rest| - 1 := Merge(rest[|rest| - 1], top)]
  }

  // ---------------------------------------------------------------------
  // Function scopes

  /** Whether the new function scope is static. */
  function IsStaticFunction(f: Node): bool {
    match f.kind
    case ClassMethod(st, _, _) => st
    case Closure(st, _, _, _) => st
    case ArrowFunction(st, _, _) => st
    case _ => true
  }

  function ParamsOf(f: Node): seq<Param> {
    match f.kind
    case ClassMethod(_, ps, _) => ps
    case Function(ps, _) => ps
    case Closure(_, ps, _, _) => ps
    case ArrowFunction(_, ps, _) => ps
    case _ => []
  }

  /** The declared type name with a `?` wrapper removed; "" when untyped (`strval(null)`). */
  function HintName(h: Option<TypeHint>): string {
    match h
    case None => ""
    case Some(Plain(n)) => n
    case Some(NullableHint(n)) => n
  }

  /** The type a parameter is seeded with. */
  function ParamType(env: Env, p: Param): string {
    if p.variadic then (if p.hint.Some? then env.constFromName(HintName(p.hint)) + "[]" else ARRAY_TYPE)
    else env.constFromName(HintName(p.hint))
  }

  /** One pass of the parameter loop of `pushFunctionScope`, on scope `i`. */
  function SeedParam(env: Env, st: Stack, i: nat, p: Param): (r: Stack)
    requires i < |st|
    ensures |r| == |st|
  {
    var st0 := SetVarType(st, i, p.name, ParamType(env, p), p.line);
    var st1 :=
      if p.variadic then SetVarNull(st0, i, p.name, false)
      else
        var st2 := SetVarAttributes(st0, i, p.name, {TouchedFunctionParam});
        if p.hint.Some? && !p.hasDefault then SetVarNull(st2, i, p.name, false) else st2;
    SetVarUsed(st1, i, p.name)
  }

  /** The parameter loop: each parameter in order. */
  function SeedParams(env: Env, st: Stack, i: nat, ps: seq<Param>): (r: Stack)
    requires i < |st|
    ensures |r| == |st|
    decreases |ps|
  {
    if ps == [] then st else SeedParams(env, SeedParam(env, st, i, ps[0]), i, ps[1..])
  }

  function UnknownUseFinding(file: string, line: int, name: string): Finding {
    Finding(ANALYZER, file, line, UnknownVariable, "Attempt to use unknown variable $" + name + " in uses() clause")
  }

  /** One `use` of a closure: scope `t` is the enclosing scope, scope `i` the closure's. */
  function CaptureUse(file: string, st: Stack, t: nat, i: nat, u: Node): (r: (Stack, seq<Finding>))
    requires t < i < |st|
    ensures |r.0| == |st|
  {
    if !(u.kind.ClosureUse? && IsNamedVariable(u.kind.useVar)) then (st, [])
    else
      var name := VariableName(u.kind.useVar);
      var typ := GetVarType(st, t, name);
      if typ == UNDEFINED && !st[t].isGlobal then (st, [UnknownUseFinding(file, u.line, name)])
      else if u.kind.byRef then (SetVarReference(st, i, name, t), [])
      else (SetVarType(SetVarUsed(st, t, name), i, name, if typ == UNDEFINED then MIXED_TYPE else typ, u.line), [])
  }

  /** The `uses` loop: each use in order, the findings concatenated. */
  function CaptureUses(file: string, st: Stack, t: nat, i: nat, us: seq<Node>): (r: (Stack, seq<Finding>))
    requires t < i < |st|
    ensures |r.0| == |st|
    decreases |us|
  {
    if us == [] then (st, [])
    else
      var (st1, f1) := CaptureUse(file, st, t, i, us[0]);
      var (st2, f2) := CaptureUses(file, st1, t, i, us[1..]);
      (st2, f1 + f2)
  }

  /** `pushFunctionScope`: the new scope is pushed, and findings for unknown captured names are reported. */
  function FunctionScope(env: Env, file: string, st: Stack, f: Node): (r: (Stack, seq<Finding>))
    requires |st| > 0
    ensures |r.0| == |st| + 1
  {
    var i := |st|;
    var s1 := SeedParams(env, st + [Scope(map[], IsStaticFunction(f), false, None)], i, ParamsOf(f));
    var s2 := if f.kind.ArrowFunction? then s1[i := Merge(s1[i], ViewAt(s1, i - 1))] else s1;
    if f.kind.Closure? then CaptureUses(file, s2, i - 1, i, f.kind.uses) else (s2, [])
  }

  // ---------------------------------------------------------------------
  // Assignments and the other variable-introducing nodes

  /** The assignment carries a documented inline type for `name`. */
  predicate HasInlineVar(n: Node, name: string) {
    exists k :: 0 <= k < |n.inlineVars| && n.inlineVars[k].0 == name
  }

  /** Whether a destructuring item binds a plain variable without a key. */
  predicate KeylessVariableItem(item: Option<ArrayItem>) {
    item.Some? && item.value.key.None? && item.value.value.Some? && IsNamedVariable(item.value.value.value)
  }

  /** Every keyless variable item of a `list(...)` or `[...]` becomes MIXED. */
  function ItemsMixed(st: Stack, items: seq<Option<ArrayItem>>): (r: Stack)
    requires |st| > 0
    ensures |r| == |st|
    decreases |items|
  {
    if items == [] then st
    else
      var st1 := if KeylessVariableItem(items[0]) then
          ScopeTypeAfter(st, VariableName(items[0].value.value.value), MIXED_TYPE, items[0].value.line, {})
        else st;
      ItemsMixed(st1, items[1..])
  }

  /** The variable at the bottom of a chain of array fetches. */
  function DimBase(n: Node): (b: Node)
    ensures !b.kind.ArrayDimFetch?
  {
    if n.kind.ArrayDimFetch? then DimBase(n.kind.base) else n
  }

  /** `handleAssignment`: the new stack and the target ids marked as assignments. */
  function AssignmentAfter(env: Env, infer: Inferrer, inside: Option<string>, st: Stack, node: Node): (r: (Stack, set<nat>))
    requires |st| > 0 && (node.kind.Assign? || node.kind.AssignRef?)
    ensures |r.0| == |st|
  {
    var target := node.kind.target;
    var expr := node.kind.expr;
    if IsNamedVariable(target) then
      var name := VariableName(target);
      var overridden := env.useDocBlockForInlineVars && HasInlineVar(node, name);
      (if overridden then st else ScopeExpressionAfter(infer, inside, st, name, Some(expr), expr.line), {target.id})
    else if target.kind.ListExpr? || target.kind.ArrayExpr? then
      (ItemsMixed(st, target.kind.items), {})
    else if target.kind.ArrayDimFetch? then
      var b := DimBase(target);
      if IsNamedVariable(b) && GetVarType(st, |st| - 1, VariableName(b)) == UNDEFINED then
        (ScopeTypeAfter(st, VariableName(b), ARRAY_TYPE, b.line, {}), {})
      else (st, {})
    else (st, {})
  }

  /** `global $a, $b;`: each named variable becomes MIXED. */
  function GlobalsMixed(st: Stack, vars: seq<Node>): (r: Stack)
    requires |st| > 0
    ensures |r| == |st|
    decreases |vars|
  {
    if vars == [] then st
    else
      var st1 := if IsNamedVariable(vars[0]) then ScopeTypeAfter(st, VariableName(vars[0]), MIXED_TYPE, vars[0].line, {}) else st;
      GlobalsMixed(st1, vars[1..])
  }

  /** The element type of an iterated type: "T" for "T[]", MIXED otherwise. */
  function ElementType(t: string): string {
    if EndsWithBrackets(t) then StripBrackets(t) else MIXED_TYPE
  }

  /** The `foreach` hook: the key, then the value given the inferred type of the iterated expression. */
  function ForeachAfter(infer: Inferrer, inside: Option<string>, st: Stack, node: Node): (r: Stack)
    requires |st| > 0 && node.kind.Foreach?
    ensures |r| == |st|
  {
    var st1 := ForeachKeyAfter(st, node);
    ForeachValueAfter(st1, node, infer(inside, Some(node.kind.expr), ViewAt(st1, |st1| - 1)).typ)
  }

  /** A plain key variable becomes MIXED. */
  function ForeachKeyAfter(st: Stack, node: Node): (r: Stack)
    requires |st| > 0 && node.kind.Foreach?
    ensures |r| == |st|
  {
    var k := node.kind;
    if k.keyVar.Some? && IsNamedVariable(k.keyVar.value) then
      ScopeTypeAfter(st, VariableName(k.keyVar.value), MIXED_TYPE, k.keyVar.value.line, {})
    else st
  }

  /** A plain value variable takes the element type of `iterated`; a `list(...)` makes its items MIXED. */
  function ForeachValueAfter(st: Stack, node: Node, iterated: string): (r: Stack)
    requires |st| > 0 && node.kind.Foreach?
    ensures |r| == |st|
  {
    var k := node.kind;
    if IsNamedVariable(k.valueVar) then ScopeTypeAfter(st, VariableName(k.valueVar), ElementType(iterated), k.valueVar.line, {})
    else if k.valueVar.kind.ListExpr? then ItemsMixed(st, k.valueVar.kind.items)
    else st
  }

  /** The `catch` hook. */
  function CatchAfter(st: Stack, node: Node): (r: Stack)
    requires |st| > 0 && node.kind.Catch?
    ensures |r| == |st|
  {
    var name := node.kind.varName;
    var typ := if |node.kind.types| == 1 then node.kind.types[0] else MIXED_TYPE;
    SetVarUsed(ScopeTypeAfter(st, name, typ, node.line, {}), |st| - 1, name)
  }

  /** Whether argument `k` sits at a by-reference parameter position (or beyond a by-reference last parameter). */
  predicate ByRefPosition(refParams: seq<bool>, k: nat) {
    (k < |refParams| && refParams[k]) || (k >= |refParams| && |refParams| > 0 && refParams[|refParams| - 1])
  }

  /** `addReferenceParametersToLocalScope`, from argument `k` on. */
  function RefArgsMixed(st: Stack, args: seq<Arg>, refParams: seq<bool>, k: nat): (r: Stack)
    requires |st| > 0
    ensures |r| == |st|
    decreases |args| - k
  {
    if k >= |args| then st
    else
      var v := args[k].value;
      var st1 := if ByRefPosition(refParams, k) && IsNamedVariable(v) then ScopeTypeAfter(st, VariableName(v), MIXED_TYPE, v.line, {}) else st;
      RefArgsMixed(st1, args, refParams, k + 1)
  }

  /** The method-call hook: a resolvable receiver type and a known method bring by-reference arguments into scope. */
  function MethodCallAfter(env: Env, infer: Inferrer, inside: Option<string>, st: Stack, node: Node): (r: Stack)
    requires |st| > 0 && node.kind.MethodCall?
    ensures |r| == |st|
  {
    var k := node.kind;
    if !k.mname.Ident? then st
    else
      var typ := infer(inside, Some(k.receiver), ViewAt(st, |st| - 1)).typ;
      if !Resolvable(typ) then st
      else match env.methodNamed(typ, k.mname.s)
        case Some(m) => RefArgsMixed(st, k.args, m.refParams, 0)
        case None => st
  }

  /** The static-call hook: a literal class and method name are looked up as written. */
  function StaticCallAfter(env: Env, st: Stack, node: Node): (r: Stack)
    requires |st| > 0 && node.kind.StaticCall?
    ensures |r| == |st|
  {
    var k := node.kind;
    if !(k.cls.QName? && k.mname.Str?) then st
    else match env.methodNamed(k.cls.s, k.mname.s)
      case Some(m) => RefArgsMixed(st, k.args, m.refParams, 0)
      case None => st
  }

  /** `assert($v instanceof Name)` with exactly one argument: the variable takes that type and is not null. */
  function AssertInstanceofAfter(st: Stack, node: Node): (r: Stack)
    requires |st| > 0 && node.kind.FuncCall? && node.kind.fname.QName?
    ensures |r| == |st|
  {
    var k := node.kind;
    if !(EqualsIgnoreCase(k.fname.s, "assert") && |k.args| == 1) then st
    else
      var c := k.args[0].value;
      if c.kind.Instanceof? && IsNamedVariable(c.kind.expr) && c.kind.cls.QName? then
        var name := VariableName(c.kind.expr);
        SetVarNull(SetVarType(st, |st| - 1, name, c.kind.cls.s, c.line), |st| - 1, name, false)
      else st
  }

  /** The function-call hook. */
  function FuncCallAfter(env: Env, st: Stack, node: Node): (r: Stack)
    requires |st| > 0 && node.kind.FuncCall?
    ensures |r| == |st|
  {
    var k := node.kind;
    if !k.fname.QName? then st
    else
      var st1 := AssertInstanceofAfter(st, node);
      match env.functionNamed(k.fname.s)
      case Some(f) => RefArgsMixed(st1, k.args, f.refParams, 0)
      case None => st1
  }

  // ---------------------------------------------------------------------
  // Entering a node

  /** The `namespacedInlineVar` loop: each documented inline variable gets its type, from index `k` on. */
  function InlineVarsAfter(env: Env, st: Stack, vars: seq<(string, string)>, line: int, k: nat): (r: Stack)
    requires |st| > 0
    ensures |r| == |st|
    decreases |vars| - k
  {
    if k >= |vars| then st
    else InlineVarsAfter(env, SetVarType(st, |st| - 1, vars[k].0, env.constFromInlineDocBlock(vars[k].1), line), vars, line, k + 1)
  }

  /** The stack after the inline variable types of a node that is not function-like are recorded. */
  function InlineScopes(env: Env, s: AState, node: Node): (r: Stack)
    requires |s.scopes| > 0
    ensures |r| == |s.scopes|
  {
    if env.useDocBlockForInlineVars && !IsFunctionLike(node) then InlineVarsAfter(env, s.scopes, node.inlineVars, node.line, 0)
    else s.scopes
  }

  /** The depth an enter hook needs: `elseif` and `else` pop the scope of the branch before them. */
  predicate CanEnter(s: AState, node: Node) {
    |s.scopes| > (if node.kind.ElseIf? || node.kind.Else? then 1 else 0) && |s.scopes| > 0
  }

  /**
   * The ternary hook: a scope for the true branch when there is one, then
   * an if-scope for the false branch; the branches are marked to pop and
   * merge their scopes when left.
   */
  function TernaryAfter(s: AState, node: Node): (r: AState)
    requires |s.scopes| > 0 && node.kind.Ternary?
  {
    var k := node.kind;
    var st := s.scopes;
    var st1 := if k.ifTrue.Some? then st + [GetScopeClone(st, |st| - 1, None)] else st;
    var marks := (if k.ifTrue.Some? then {k.ifTrue.value.id} else {}) + {k.ifFalse.id};
    s.(scopes := IfScope(st1, node, None), mergeOnLeave := s.mergeOnLeave + marks)
  }

  /** The enter hook of a node (`buildClosures`), with the findings it reports. */
  function EnterHook(env: Env, infer: Inferrer, file: string, s: AState, node: Node): (r: (AState, seq<Finding>))
    requires CanEnter(s, node)
  {
    var st := s.scopes;
    var inside := InsideName(s.classStack);
    var k := node.kind;
    if k.ClassDecl? then (s.(classStack := s.classStack + [node]), [])
    else if k.Function? || k.ArrowFunction? || k.Closure? || (k.ClassMethod? && s.classStack != []) then
      var (st1, fs) := FunctionScope(env, file, st, node);
      (s.(scopes := st1), fs)
    else if k.Assign? || k.AssignRef? then
      var (st1, targets) := AssignmentAfter(env, infer, inside, st, node);
      (s.(scopes := st1, assignmentTargets := s.assignmentTargets + targets), [])
    else if k.StaticVar? then (s.(scopes := ScopeExpressionAfter(infer, inside, st, k.varName, k.default, node.line)), [])
    else if k.Catch? then (s.(scopes := CatchAfter(st, node)), [])
    else if k.Global? then (s.(scopes := GlobalsMixed(st, k.vars)), [])
    else if k.MethodCall? then (s.(scopes := MethodCallAfter(env, infer, inside, st, node)), [])
    else if k.StaticCall? then (s.(scopes := StaticCallAfter(env, st, node)), [])
    else if k.FuncCall? then (s.(scopes := FuncCallAfter(env, st, node)), [])
    else if k.Foreach? then (s.(scopes := ForeachAfter(infer, inside, st, node)), [])
    else if k.ElseIf? || k.Else? then (s.(scopes := IfScope(st[..|st| - 1], node, Some(st[|st| - 1]))), [])
    else if k.Ternary? then (TernaryAfter(s, node), [])
    else if k.If? then (s.(scopes := IfScope(st, node, None)), [])
    else if k.BooleanOr? then (s.(scopes := OrScope(st)), [])
    else if k.BooleanAnd? then (s.(scopes := AndScope(st, node)), [])
    else (s, [])
  }

  /** What one registered check reports on a node. */
  function CheckFindings(env: Env, file: string, node: Node, inside: Option<Node>, scope: Option<VarView>, c: Checks.Check): seq<Finding> {
    match c
    case UnreachableCodeCheck =>
      var w := UnreachableCode.ReportedWitnesses(node);
      seq(|w|, k requires 0 <= k < |w| => UnreachableCode.FindingAt(file, w[k]))
    case External(name, _) => env.externalCheck(name, file, node, inside, scope)
  }

  /** The checks registered for the node's class, run in order, from index `k` on. */
  function ChecksFindings(env: Env, file: string, node: Node, inside: Option<Node>, scope: Option<VarView>, cs: seq<Checks.Check>, k: nat): seq<Finding>
    decreases |cs| - k
  {
    if k >= |cs| then [] else CheckFindings(env, file, node, inside, scope, cs[k]) + ChecksFindings(env, file, node, inside, scope, cs, k + 1)
  }

  /** The checks the registry holds for a node type. */
  function ChecksFor(table: map<NodeType, seq<Checks.Check>>, t: NodeType): seq<Checks.Check> {
    if t in table then table[t] else []
  }

  /** What the checks registered for the node's class report, given the stacks the enter hook left. */
  function ChecksAfterHook(env: Env, table: map<NodeType, seq<Checks.Check>>, file: string, s: AState, node: Node): seq<Finding>
    requires |s.scopes| > 0
  {
    ChecksFindings(env, file, node, InsideNode(s.classStack), Some(ViewAt(s.scopes, |s.scopes| - 1)), ChecksFor(table, TypeOf(node)), 0)
  }

  /**
   * `enterNode`: a trait is skipped before anything runs; otherwise the
   * inline variable types, then the enter hook, then the registered checks
   * (which see the stacks as the hook left them). The boolean says whether
   * the children are to be skipped.
   */
  function Enter(env: Env, infer: Inferrer, table: map<NodeType, seq<Checks.Check>>, file: string, s: AState, node: Node): (r: (AState, seq<Finding>, bool))
    requires CanEnter(s, node)
  {
    if node.kind.TraitDecl? then (s, [], true)
    else
      var hook := EnterHook(env, infer, file, s.(scopes := InlineScopes(env, s, node)), node);
      (hook.0, hook.1 + ChecksAfterHook(env, table, file, hook.0, node), false)
  }

  // ---------------------------------------------------------------------
  // Leaving a node

  /** Whether leaving the node first pops and merges a scope marked by a ternary. */
  predicate MergesOnLeave(s: AState, node: Node) {
    IsExpr(node) && node.id in s.mergeOnLeave
  }

  /** Whether the node's exit hook pops a scope. */
  predicate HookPops(s: AState, node: Node) {
    var k := node.kind;
    k.If? || k.BooleanOr? || k.BooleanAnd? || k.ArrowFunction? || k.Function? || k.Closure?
    || (k.ClassMethod? && s.classStack != [])
  }

  /** How many scopes leaving the node pops. */
  function PopsOnLeave(s: AState, node: Node): nat {
    (if MergesOnLeave(s, node) then 1 else 0) + (if HookPops(s, node) then 1 else 0)
  }

  /** The exit hook of a node (`buildLeaveClosures`), with the unused variables of a function scope it pops. */
  function LeaveHook(s: AState, node: Node): (r: (AState, map<string, int>))
    requires |s.scopes| > (if HookPops(s, node) then 1 else 0)
  {
    var st := s.scopes;
    var t := |st| - 1;
    var k := node.kind;
    if k.Variable? then
      (if k.name.Str? && node.id !in s.assignmentTargets then (s.(scopes := SetVarUsed(st, t, k.name.s)), map[]) else (s, map[]))
    else if k.FuncCall? then
      (if k.fname.QName? && EqualsIgnoreCase(k.fname.s, "get_defined_vars()") then (s.(scopes := st[t := MarkAllVarsUsed(st[t])]), map[]) else (s, map[]))
    else if k.Assign? || k.AssignRef? then
      (if IsNamedVariable(k.target) then (s.(scopes := SetVarWritten(st, t, VariableName(k.target), node.line)), map[]) else (s, map[]))
    else if k.ClassDecl? then
      (s.(classStack := if s.classStack == [] then [] else s.classStack[..|s.classStack| - 1]), map[])
    else if k.Function? || k.Closure? || (k.ClassMethod? && s.classStack != []) then
      (s.(scopes := st[..t]), GetUnusedVars(st[t]))
    else if k.ArrowFunction? then (s.(scopes := st[..t]), map[])
    else if k.ElseIf? || k.Else? then (s.(scopes := st[t := MergePrevious(st[t])]), map[])
    else if k.If? || k.BooleanOr? || k.BooleanAnd? then (s.(scopes := PopMerge(st)), map[])
    else (s, map[])
  }

  /** `leaveNode`: a pending merge-on-leave first, then the exit hook. */
  function Leave(s: AState, node: Node): (r: (AState, map<string, int>))
    requires |s.scopes| > PopsOnLeave(s, node)
  {
    var s1 := if MergesOnLeave(s, node) then s.(scopes := PopMerge(s.scopes)) else s;
    LeaveHook(s1, node)
  }

  function UnusedFinding(file: string, name: string, line: int): Finding {
    Finding(ANALYZER, file, line, UnusedVariable, "$" + name + " is assigned but never referenced")
  }

  /** `names` lists every key of the set exactly once. */
  ghost predicate Enumerates(names: seq<string>, keys: set<string>) {
    (forall i, j :: 0 <= i < j < |names| ==> names[i] != names[j])
    && (forall n :: n in names <==> n in keys)
  }

  /** One finding per name, in the order of `names`. */
  function UnusedFindings(file: string, unused: map<string, int>, names: seq<string>): (r: seq<Finding>)
    requires forall n :: n in names ==> n in unused
    ensures |r| == |names|
    ensures forall k :: 0 <= k < |names| ==> r[k] == UnusedFinding(file, names[k], unused[names[k]])
  {
    if names == [] then [] else [UnusedFinding(file, names[0], unused[names[0]])] + UnusedFindings(file, unused, names[1..])
  }

  /** `emitted` reports each unused variable exactly once, in some order, and nothing else. */
  ghost predicate ReportsUnused(emitted: seq<Finding>, file: string, unused: map<string, int>) {
    exists names :: Enumerates(names, unused.Keys) && emitted == UnusedFindings(file, unused, names)
  }
}
