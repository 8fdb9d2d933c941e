/**
 * The StaticAnalyzer node visitor: a class holding the class stack, the
 * scope stack, the check registry and the findings it and its checks
 * report. Each hook changes the stacks step by step, as the analyzer
 * does, and is proved to end in the state the Traversal functions give.
 */
module Analysis {
  import opened Common
  import opened PhpTypes
  import opened Ast
  import opened Scopes
  import opened Collaborators
  import opened TypeInference
  import opened Guards
  import opened Traversal
  import opened TraversalProperties
  import Checks
  import UnreachableCode

  /** A loop of `pushFunctionScope`: seed scope `i` from the parameters, in order. */
  method SeedParameters(env: Env, st: Stack, i: nat, params: seq<Param>) returns (r: Stack)
    requires i < |st|
    ensures r == SeedParams(env, st, i, params)
  {
    r := st;
    var k := 0;
    while k < |params|
      invariant 0 <= k <= |params| && |r| == |st|
      invariant SeedParams(env, st, i, params) == SeedParams(env, r, i, params[k..])
      decreases |params| - k
    {
      ghost var r0 := r;
      r := SeedParameter(env, r, i, params[k]);
      assert params[k..][0] == params[k] && params[k..][1..] == params[k + 1..];
      assert SeedParams(env, r0, i, params[k..]) == SeedParams(env, r, i, params[k + 1..]);
      k := k + 1;
    }
  }

  /** One parameter of that loop. */
  method SeedParameter(env: Env, st: Stack, i: nat, p: Param) returns (r: Stack)
    requires i < |st|
    ensures r == SeedParam(env, st, i, p)
  {
    r := st;
    if p.variadic {
      r := SetVarType(r, i, p.name, ParamType(env, p), p.line);
      r := SetVarNull(r, i, p.name, false);
    } else {
      r := SetVarType(r, i, p.name, env.constFromName(HintName(p.hint)), p.line);
      r := SetVarAttributes(r, i, p.name, {TouchedFunctionParam});
      if p.hint.Some? && !p.hasDefault {
        r := SetVarNull(r, i, p.name, false);
      }
    }
    r := SetVarUsed(r, i, p.name);
  }

  /** `setScopeType` on a stack: retype `name` in the top scope and add the attributes. */
  method ScopeType(st: Stack, name: string, newType: string, line: int, attrs: set<Attr>) returns (r: Stack)
    requires |st| > 0
    ensures r == ScopeTypeAfter(st, name, newType, line, attrs)
  {
    r := st;
    var t := |r| - 1;
    var oldType := GetVarType(r, t, name);
    if oldType != newType {
      if oldType == UNDEFINED {
        r := SetVarType(r, t, name, newType, line);
      } else if newType == NULL_TYPE {
        r := SetVarNull(r, t, name, true);
      } else {
        r := SetVarType(r, t, name, MIXED_TYPE, line);
      }
    }
    r := SetVarAttributes(r, t, name, attrs);
  }

  /** The loop over the items of `list(...)` or `[...]`: every keyless variable item becomes MIXED. */
  method MixListItems(st: Stack, items: seq<Option<ArrayItem>>) returns (r: Stack)
    requires |st| > 0
    ensures r == ItemsMixed(st, items)
  {
    r := st;
    var k := 0;
    while k < |items|
      invariant 0 <= k <= |items| && |r| == |st|
      invariant ItemsMixed(st, items) == ItemsMixed(r, items[k..])
      decreases |items| - k
    {
      var item := items[k];
      ghost var r0 := r;
      if KeylessVariableItem(item) {
        r := ScopeType(r, VariableName(item.value.value.value), MIXED_TYPE, item.value.line, {});
      }
      assert items[k..][0] == item && items[k..][1..] == items[k + 1..];
      assert ItemsMixed(r0, items[k..]) == ItemsMixed(r, items[k + 1..]);
      k := k + 1;
    }
  }

  /** The loop of `addReferenceParametersToLocalScope`: each variable passed by reference becomes MIXED. */
  method MixRefArgs(st: Stack, args: seq<Arg>, refParams: seq<bool>) returns (r: Stack)
    requires |st| > 0
    ensures r == RefArgsMixed(st, args, refParams, 0)
  {
    r := st;
    var k := 0;
    while k < |args|
      invariant 0 <= k <= |args| && |r| == |st|
      invariant RefArgsMixed(st, args, refParams, 0) == RefArgsMixed(r, args, refParams, k)
      decreases |args| - k
    {
      var value := args[k].value;
      RefArgsMixedStep(r, args, refParams, k);
      if ByRefPosition(refParams, k) && IsNamedVariable(value) {
        r := ScopeType(r, VariableName(value), MIXED_TYPE, value.line, {});
      }
      k := k + 1;
    }
  }

  /** The loop of the `global` hook: each named variable becomes MIXED. */
  method MixGlobals(st: Stack, vars: seq<Node>) returns (r: Stack)
    requires |st| > 0
    ensures r == GlobalsMixed(st, vars)
  {
    r := st;
    var k := 0;
    while k < |vars|
      invariant 0 <= k <= |vars| && |r| == |st|
      invariant GlobalsMixed(st, vars) == GlobalsMixed(r, vars[k..])
      decreases |vars| - k
    {
      ghost var r0 := r;
      if IsNamedVariable(vars[k]) {
        r := ScopeType(r, VariableName(vars[k]), MIXED_TYPE, vars[k].line, {});
      }
      assert vars[k..][0] == vars[k] && vars[k..][1..] == vars[k + 1..];
      assert GlobalsMixed(r0, vars[k..]) == GlobalsMixed(r, vars[k + 1..]);
      k := k + 1;
    }
  }

  class StaticAnalyzer {
    const env: Env
    /** The analyzer's type inferrer. */
    const infer: Inferrer
    /** The registry: for each node class, the checks that asked for it, in registration order. */
    const checks: map<NodeType, seq<Checks.Check>>
    var file: string
    var classStack: seq<Node>
    var scopeStack: Stack
    /** Every finding reported so far, by the analyzer and by its checks. */
    var findings: seq<Finding>
    var mergeOnLeave: set<nat>
    var assignmentTargets: set<nat>

    function State(): AState
      reads this
    {
      AState(classStack, scopeStack, mergeOnLeave, assignmentTargets)
    }

    /** The scope stack is never empty. */
    predicate Valid()
      reads this
    {
      |scopeStack| > 0
    }

    /** The constructor: one global scope, and the registry built from the checker list. */
    constructor(env: Env, typesOf: string -> seq<NodeType>, plugins: seq<Checks.Check>)
      ensures Valid() && State() == Initial([], {}, {}) && findings == [] && this.env == env
      ensures infer == NoPluginInferrer(env)
      ensures forall t :: t in checks <==> Checks.Registered(Checks.CheckerList(typesOf, plugins), t) != []
      ensures forall t :: t in checks ==> checks[t] == Checks.Registered(Checks.CheckerList(typesOf, plugins), t)
    {
      this.env := env;
      infer := NoPluginInferrer(env);
      var table := Checks.BuildCheckTable(Checks.CheckerList(typesOf, plugins));
      checks := table;
      file := "";
      classStack := [];
      scopeStack := [NewScope(true, true)];
      findings := [];
      mergeOnLeave := {};
      assignmentTargets := {};
    }

    /** `setFile`: a new file starts from one global scope; the class stack is kept. */
    method SetFile(name: string)
      modifies this
      ensures Valid() && file == name && findings == old(findings)
      ensures State() == Initial(old(classStack), old(mergeOnLeave), old(assignmentTargets))
    {
      file := name;
      scopeStack := [NewScope(true, true)];
    }

    // -------------------------------------------------------------------
    // setScopeType, setScopeExpression

    method SetScopeType(name: string, newType: string, line: int, attrs: set<Attr>)
      requires Valid()
      modifies this
      ensures State() == old(State()).(scopes := ScopeTypeAfter(old(scopeStack), name, newType, line, attrs))
      ensures findings == old(findings) && file == old(file)
    {
      scopeStack := ScopeType(scopeStack, name, newType, line, attrs);
    }

    method SetScopeExpression(name: string, expr: Option<Node>, line: int)
      requires Valid()
      modifies this
      ensures State() == old(State()).(scopes := ScopeExpressionAfter(infer, InsideName(classStack), old(scopeStack), name, expr, line))
      ensures findings == old(findings) && file == old(file)
    {
      var t := |scopeStack| - 1;
      var inferred := infer(InsideName(classStack), expr, ViewAt(scopeStack, t));
      SetScopeType(name, inferred.typ, line, NullabilityAttrs(inferred.nullability));
      if inferred.nullability == Possible {
        scopeStack := SetVarNull(scopeStack, t, name, true);
      }
    }

    // -------------------------------------------------------------------
    // Branch scopes

    method PushIfScope(node: Node, previous: Option<Scope>)
      requires Valid()
      modifies this
      ensures State() == old(State()).(scopes := IfScope(old(scopeStack), node, previous))
      ensures findings == old(findings) && file == old(file)
    {
      var local := scopeStack + [GetScopeClone(scopeStack, |scopeStack| - 1, previous)];
      var t := |local| - 1;
      var cond := GetIfCond(node);
      if cond.Some? {
        var c := cond.value;
        if c.kind.Instanceof? {
          local := AddCastedType(local, t, c);
        }
        var v := ChecksForNonNullVariable(c);
        if Truthy(v) {
          local := SetVarNull(local, t, v, false);
          if GetVarType(local, t, v) == NULL_TYPE {
            local := SetTypeInPlace(local, t, v, MIXED_TYPE);
          }
        }
      }
      scopeStack := local;
    }

    method PushShortCircuitAndScope(node: Node)
      requires Valid() && node.kind.BooleanAnd?
      modifies this
      ensures State() == old(State()).(scopes := AndScope(old(scopeStack), node))
      ensures findings == old(findings) && file == old(file)
    {
      var local := scopeStack + [GetScopeClone(scopeStack, |scopeStack| - 1, None)];
      var t := |local| - 1;
      var c := node.kind.left;
      if c.kind.Instanceof? {
        local := AddCastedType(local, t, c);
      }
      var v := ChecksForNonNullVariable(c);
      if Truthy(v) {
        local := SetVarNull(local, t, v, false);
      }
      scopeStack := local;
    }

    method PushShortCircuitOrScope()
      requires Valid()
      modifies this
      ensures State() == old(State()).(scopes := OrScope(old(scopeStack)))
      ensures findings == old(findings) && file == old(file)
    {
      scopeStack := scopeStack + [GetScopeClone(scopeStack, |scopeStack| - 1, None)];
    }

    // -------------------------------------------------------------------
    // Function scopes

    /** The `uses` loop of `pushFunctionScope`: scope `i - 1` is the enclosing scope, scope `i` the closure's. */
    method CaptureClosureUses(ext: Stack, i: nat, uses: seq<Node>) returns (r: Stack)
      requires 0 < i < |ext|
      modifies this`findings
      ensures r == CaptureUses(file, ext, i - 1, i, uses).0
      ensures findings == old(findings) + CaptureUses(file, ext, i - 1, i, uses).1
    {
      r := ext;
      var k := 0;
      while k < |uses|
        invariant 0 <= k <= |uses| && |r| == |ext|
        invariant CaptureUses(file, ext, i - 1, i, uses).0 == CaptureUses(file, r, i - 1, i, uses[k..]).0
        invariant old(findings) + CaptureUses(file, ext, i - 1, i, uses).1 == findings + CaptureUses(file, r, i - 1, i, uses[k..]).1
        decreases |uses| - k
      {
        ghost var r0 := r;
        r := CaptureClosureUse(r, i, uses[k]);
        assert uses[k..][0] == uses[k] && uses[k..][1..] == uses[k + 1..];
        assert CaptureUses(file, r0, i - 1, i, uses[k..]).0 == CaptureUses(file, r, i - 1, i, uses[k + 1..]).0;
        k := k + 1;
      }
    }

    /** One element of the `uses` loop. */
    method CaptureClosureUse(st: Stack, i: nat, u: Node) returns (r: Stack)
      requires 0 < i < |st|
      modifies this`findings
      ensures r == CaptureUse(file, st, i - 1, i, u).0
      ensures findings == old(findings) + CaptureUse(file, st, i - 1, i, u).1
    {
      r := st;
      if u.kind.ClosureUse? && IsNamedVariable(u.kind.useVar) {
        var name := VariableName(u.kind.useVar);
        var typ := GetVarType(r, i - 1, name);
        if typ == UNDEFINED && !r[i - 1].isGlobal {
          findings := findings + [UnknownUseFinding(file, u.line, name)];
        } else if u.kind.byRef {
          r := SetVarReference(r, i, name, i - 1);
        } else {
          r := SetVarUsed(r, i - 1, name);
          if typ == UNDEFINED {
            typ := MIXED_TYPE;
          }
          r := SetVarType(r, i, name, typ, u.line);
        }
      }
    }

    /** The stack `pushFunctionScope` builds from `st`, reporting the unknown captured names. */
    method FunctionScopeStack(st: Stack, f: Node) returns (r: Stack)
      requires |st| > 0
      modifies this`findings
      ensures r == FunctionScope(env, file, st, f).0
      ensures findings == old(findings) + FunctionScope(env, file, st, f).1
    {
      var i := |st|;
      var seeded := SeedParameters(env, st + [Scope(map[], IsStaticFunction(f), false, None)], i, ParamsOf(f));
      if f.kind.Closure? {
        assert FunctionScope(env, file, st, f) == CaptureUses(file, seeded, i - 1, i, f.kind.uses);
        r := CaptureClosureUses(seeded, i, f.kind.uses);
      } else if f.kind.ArrowFunction? {
        r := seeded[i := Merge(seeded[i], ViewAt(seeded, i - 1))];
        assert FunctionScope(env, file, st, f) == (r, []);
      } else {
        r := seeded;
        assert FunctionScope(env, file, st, f) == (r, []);
      }
    }

    method PushFunctionScope(f: Node)
      requires Valid()
      modifies this
      ensures State() == old(State()).(scopes := FunctionScope(env, file, old(scopeStack), f).0)
      ensures findings == old(findings) + FunctionScope(env, file, old(scopeStack), f).1 && file == old(file)
    {
      scopeStack := FunctionScopeStack(scopeStack, f);
    }

    // -------------------------------------------------------------------
    // Assignments and the other variable-introducing hooks

    /** The loop over the items of `list(...)` or `[...]`. */
    method ItemsToMixed(items: seq<Option<ArrayItem>>)
      requires Valid()
      modifies this
      ensures State() == old(State()).(scopes := ItemsMixed(old(scopeStack), items))
      ensures findings == old(findings) && file == old(file)
    {
      scopeStack := MixListItems(scopeStack, items);
    }

    method HandleAssignment(node: Node)
      requires Valid() && (node.kind.Assign? || node.kind.AssignRef?)
      modifies this
      ensures State() == old(State()).(
        scopes := AssignmentAfter(env, infer, InsideName(classStack), old(scopeStack), node).0,
        assignmentTargets := old(assignmentTargets) + AssignmentAfter(env, infer, InsideName(classStack), old(scopeStack), node).1)
      ensures findings == old(findings) && file == old(file)
    {
      var target := node.kind.target;
      var expr := node.kind.expr;
      if IsNamedVariable(target) {
        var name := VariableName(target);
        var overridden := env.useDocBlockForInlineVars && HasInlineVar(node, name);
        assignmentTargets := assignmentTargets + {target.id};
        if !overridden {
          SetScopeExpression(name, Some(expr), expr.line);
        }
      } else if target.kind.ListExpr? || target.kind.ArrayExpr? {
        ItemsToMixed(target.kind.items);
      } else if target.kind.ArrayDimFetch? {
        var v := target;
        while v.kind.ArrayDimFetch?
          invariant DimBase(v) == DimBase(target)
          decreases v
        {
          v := v.kind.base;
        }
        if IsNamedVariable(v) && GetVarType(scopeStack, |scopeStack| - 1, VariableName(v)) == UNDEFINED {
          SetScopeType(VariableName(v), ARRAY_TYPE, v.line, {});
        }
      }
    }

    /** `addReferenceParametersToLocalScope`. */
    method AddReferenceParametersToLocalScope(args: seq<Arg>, refParams: seq<bool>)
      requires Valid()
      modifies this
      ensures State() == old(State()).(scopes := RefArgsMixed(old(scopeStack), args, refParams, 0))
      ensures findings == old(findings) && file == old(file)
    {
      scopeStack := MixRefArgs(scopeStack, args, refParams);
    }

    method GlobalHook(node: Node)
      requires Valid() && node.kind.Global?
      modifies this
      ensures State() == old(State()).(scopes := GlobalsMixed(old(scopeStack), node.kind.vars))
      ensures findings == old(findings) && file == old(file)
    {
      scopeStack := MixGlobals(scopeStack, node.kind.vars);
    }

    method ForeachHook(node: Node)
      requires Valid() && node.kind.Foreach?
      modifies this
      ensures State() == old(State()).(scopes := ForeachAfter(infer, InsideName(classStack), old(scopeStack), node))
      ensures findings == old(findings) && file == old(file)
    {
      var k := node.kind;
      ghost var st1 := ForeachKeyAfter(scopeStack, node);
      if k.keyVar.Some? && IsNamedVariable(k.keyVar.value) {
        SetScopeType(VariableName(k.keyVar.value), MIXED_TYPE, k.keyVar.value.line, {});
      }
      assert scopeStack == st1;
      var iterated := "";
      if IsNamedVariable(k.valueVar) {
        iterated := infer(InsideName(classStack), Some(k.expr), ViewAt(scopeStack, |scopeStack| - 1)).typ;
      }
      ForeachValueHook(node, iterated);
    }

    /** The value variable of a `foreach` over a value of type `iterated`. */
    method ForeachValueHook(node: Node, iterated: string)
      requires Valid() && node.kind.Foreach?
      modifies this
      ensures State() == old(State()).(scopes := ForeachValueAfter(old(scopeStack), node, iterated))
      ensures findings == old(findings) && file == old(file)
    {
      var k := node.kind;
      if IsNamedVariable(k.valueVar) {
        var typ := iterated;
        if EndsWithBrackets(typ) {
          typ := StripBrackets(typ);
        } else {
          typ := MIXED_TYPE;
        }
        SetScopeType(VariableName(k.valueVar), typ, k.valueVar.line, {});
      } else if k.valueVar.kind.ListExpr? {
        ItemsToMixed(k.valueVar.kind.items);
      }
    }

    method CatchHook(node: Node)
      requires Valid() && node.kind.Catch?
      modifies this
      ensures State() == old(State()).(scopes := CatchAfter(old(scopeStack), node))
      ensures findings == old(findings) && file == old(file)
    {
      var typ := if |node.kind.types| == 1 then node.kind.types[0] else MIXED_TYPE;
      SetScopeType(node.kind.varName, typ, node.line, {});
      scopeStack := SetVarUsed(scopeStack, |scopeStack| - 1, node.kind.varName);
    }

    method MethodCallHook(node: Node)
      requires Valid() && node.kind.MethodCall?
      modifies this
      ensures State() == old(State()).(scopes := MethodCallAfter(env, infer, InsideName(classStack), old(scopeStack), node))
      ensures findings == old(findings) && file == old(file)
    {
      var k := node.kind;
      if k.mname.Ident? {
        var typ := infer(InsideName(classStack), Some(k.receiver), ViewAt(scopeStack, |scopeStack| - 1)).typ;
        if Resolvable(typ) {
          var m := env.methodNamed(typ, k.mname.s);
          if m.Some? {
            AddReferenceParametersToLocalScope(k.args, m.value.refParams);
          }
        }
      }
    }

    method StaticCallHook(node: Node)
      requires Valid() && node.kind.StaticCall?
      modifies this
      ensures State() == old(State()).(scopes := StaticCallAfter(env, old(scopeStack), node))
      ensures findings == old(findings) && file == old(file)
    {
      var k := node.kind;
      if k.cls.QName? && k.mname.Str? {
        var m := env.methodNamed(k.cls.s, k.mname.s);
        if m.Some? {
          AddReferenceParametersToLocalScope(k.args, m.value.refParams);
        }
      }
    }

    method FuncCallHook(node: Node)
      requires Valid() && node.kind.FuncCall?
      modifies this
      ensures State() == old(State()).(scopes := FuncCallAfter(env, old(scopeStack), node))
      ensures findings == old(findings) && file == old(file)
    {
      var k := node.kind;
      if k.fname.QName? {
        scopeStack := AssertInstanceofAfter(scopeStack, node);
        var f := env.functionNamed(k.fname.s);
        if f.Some? {
          AddReferenceParametersToLocalScope(k.args, f.value.refParams);
        }
      }
    }

    method TernaryHook(node: Node)
      requires Valid() && node.kind.Ternary?
      modifies this
      ensures State() == TernaryAfter(old(State()), node)
      ensures findings == old(findings) && file == old(file)
    {
      var k := node.kind;
      if k.ifTrue.Some? {
        scopeStack := scopeStack + [GetScopeClone(scopeStack, |scopeStack| - 1, None)];
        mergeOnLeave := mergeOnLeave + {k.ifTrue.value.id};
      }
      PushIfScope(node, None);
      mergeOnLeave := mergeOnLeave + {k.ifFalse.id};
    }

    /** The enter hooks that push a scope. */
    method EnterScopeHook(node: Node)
      requires Valid() && CanEnter(State(), node)
      requires node.kind.ElseIf? || node.kind.Else? || node.kind.Ternary? || node.kind.If? || node.kind.BooleanOr? || node.kind.BooleanAnd?
      modifies this
      ensures State() == EnterHook(env, infer, old(file), old(State()), node).0
      ensures findings == old(findings) + EnterHook(env, infer, old(file), old(State()), node).1 && file == old(file)
    {
      var k := node.kind;
      if k.ElseIf? || k.Else? {
        var last := scopeStack[|scopeStack| - 1];
        scopeStack := scopeStack[..|scopeStack| - 1];
        PushIfScope(node, Some(last));
      } else if k.Ternary? {
        TernaryHook(node);
      } else if k.If? {
        PushIfScope(node, None);
      } else if k.BooleanOr? {
        PushShortCircuitOrScope();
      } else {
        PushShortCircuitAndScope(node);
      }
    }

    /** The enter hooks that record variable facts. */
    method EnterVariableHook(node: Node)
      requires Valid()
      requires node.kind.Assign? || node.kind.AssignRef? || node.kind.StaticVar? || node.kind.Catch? || node.kind.Global?
        || node.kind.MethodCall? || node.kind.StaticCall? || node.kind.FuncCall? || node.kind.Foreach?
      modifies this
      ensures State() == EnterHook(env, infer, old(file), old(State()), node).0
      ensures findings == old(findings) + EnterHook(env, infer, old(file), old(State()), node).1 && file == old(file)
    {
      var k := node.kind;
      if k.Assign? || k.AssignRef? {
        HandleAssignment(node);
      } else if k.StaticVar? {
        SetScopeExpression(k.varName, k.default, node.line);
      } else if k.Catch? {
        CatchHook(node);
      } else if k.Global? {
        GlobalHook(node);
      } else if k.MethodCall? {
        MethodCallHook(node);
      } else if k.StaticCall? {
        StaticCallHook(node);
      } else if k.FuncCall? {
        FuncCallHook(node);
      } else {
        ForeachHook(node);
      }
    }

    /** `$this->enterHooks[$class]($node)`. */
    method RunEnterHook(node: Node)
      requires Valid() && CanEnter(State(), node)
      modifies this
      ensures State() == EnterHook(env, infer, old(file), old(State()), node).0
      ensures findings == old(findings) + EnterHook(env, infer, old(file), old(State()), node).1 && file == old(file)
    {
      var k := node.kind;
      if k.ClassDecl? {
        classStack := classStack + [node];
      } else if k.ClassMethod? {
        if |classStack| > 0 {
          PushFunctionScope(node);
        }
      } else if k.Function? || k.ArrowFunction? || k.Closure? {
        PushFunctionScope(node);
      } else if k.Assign? || k.AssignRef? || k.StaticVar? || k.Catch? || k.Global? || k.MethodCall? || k.StaticCall? || k.FuncCall? || k.Foreach? {
        EnterVariableHook(node);
      } else if k.ElseIf? || k.Else? || k.Ternary? || k.If? || k.BooleanOr? || k.BooleanAnd? {
        EnterScopeHook(node);
      }
    }

    /** One registered check on the node; its findings are appended. */
    method RunCheck(c: Checks.Check, node: Node, inside: Option<Node>, scope: Option<VarView>)
      modifies this`findings
      ensures findings == old(findings) + CheckFindings(env, file, node, inside, scope, c)
    {
      match c {
        case UnreachableCodeCheck =>
          var emitted := UnreachableCode.Run(file, node, inside, scope);
          findings := findings + emitted;
        case External(name, _) =>
          findings := findings + env.externalCheck(name, file, node, inside, scope);
      }
    }

    /** The `namespacedInlineVar` loop of `enterNode`. */
    method RecordInlineVars(node: Node)
      requires Valid()
      modifies this
      ensures State() == old(State()).(scopes := InlineVarsAfter(env, old(scopeStack), node.inlineVars, node.line, 0))
      ensures findings == old(findings) && file == old(file)
    {
      var vars := node.inlineVars;
      var k := 0;
      while k < |vars|
        invariant 0 <= k <= |vars| && |scopeStack| == |old(scopeStack)|
        invariant InlineVarsAfter(env, old(scopeStack), vars, node.line, 0) == InlineVarsAfter(env, scopeStack, vars, node.line, k)
        invariant State() == old(State()).(scopes := scopeStack)
        invariant findings == old(findings) && file == old(file)
        decreases |vars| - k
      {
        var (varName, varType) := vars[k];
        ghost var st0 := scopeStack;
        scopeStack := SetVarType(scopeStack, |scopeStack| - 1, varName, env.constFromInlineDocBlock(varType), node.line);
        assert InlineVarsAfter(env, st0, vars, node.line, k) == InlineVarsAfter(env, scopeStack, vars, node.line, k + 1);
        k := k + 1;
      }
    }

    /** The checks loop of `enterNode`: every check registered for the node's class, in order. */
    method RunChecks(node: Node)
      requires Valid()
      modifies this`findings
      ensures State() == old(State())
      ensures findings == old(findings) + ChecksAfterHook(env, checks, file, State(), node)
    {
      var cs := ChecksFor(checks, TypeOf(node));
      var inside := InsideNode(classStack);
      var scope := Some(ViewAt(scopeStack, |scopeStack| - 1));
      var i := 0;
      while i < |cs|
        invariant 0 <= i <= |cs|
        invariant findings + ChecksFindings(env, file, node, inside, scope, cs, i) == old(findings) + ChecksFindings(env, file, node, inside, scope, cs, 0)
        decreases |cs| - i
      {
        RunCheck(cs[i], node, inside, scope);
        i := i + 1;
      }
    }

    /** `enterNode`; the result says whether the children are to be skipped. */
    method EnterNode(node: Node) returns (skipChildren: bool)
      requires Valid() && CanEnter(State(), node)
      modifies this
      ensures Valid()
      ensures State() == Enter(env, infer, checks, file, old(State()), node).0
      ensures findings == old(findings) + Enter(env, infer, checks, file, old(State()), node).1
      ensures skipChildren == Enter(env, infer, checks, file, old(State()), node).2
      ensures file == old(file)
    {
      if node.kind.TraitDecl? {
        return true;
      }
      ghost var s0 := State();
      if env.useDocBlockForInlineVars && !IsFunctionLike(node) {
        RecordInlineVars(node);
      }
      ghost var s1 := State();
      assert s1 == s0.(scopes := InlineScopes(env, s0, node));
      EnterHookDepth(env, infer, file, s1, node);
      ghost var hook := EnterHook(env, infer, file, s1, node);
      ghost var f0 := findings;
      RunEnterHook(node);
      RunChecks(node);
      ghost var checked := ChecksAfterHook(env, checks, file, hook.0, node);
      assert findings == f0 + (hook.1 + checked);
      assert Enter(env, infer, checks, file, s0, node) == (hook.0, hook.1 + checked, false);
      return false;
    }

    // -------------------------------------------------------------------
    // Leaving a node

    /** `handleUnusedVars`: pop the function scope and report each variable written but never read. */
    method HandleUnusedVars()
      requires |scopeStack| > 1
      modifies this
      ensures State() == old(State()).(scopes := old(scopeStack)[..|old(scopeStack)| - 1])
      ensures |findings| >= |old(findings)| && findings[..|old(findings)|] == old(findings)
      ensures ReportsUnused(findings[|old(findings)|..], file, GetUnusedVars(old(scopeStack)[|old(scopeStack)| - 1]))
      ensures file == old(file)
    {
      var scope := scopeStack[|scopeStack| - 1];
      scopeStack := scopeStack[..|scopeStack| - 1];
      var unused := GetUnusedVars(scope);
      var todo := unused.Keys;
      ghost var names: seq<string> := [];
      while todo != {}
        invariant todo <= unused.Keys
        invariant Enumerates(names, unused.Keys - todo)
        invariant findings == old(findings) + UnusedFindings(file, unused, names)
        invariant State() == old(State()).(scopes := old(scopeStack)[..|old(scopeStack)| - 1]) && file == old(file)
        decreases todo
      {
        var name :| name in todo;
        findings := findings + [UnusedFinding(file, name, unused[name])];
        assert UnusedFindings(file, unused, names + [name]) == UnusedFindings(file, unused, names) + [UnusedFinding(file, name, unused[name])];
        names := names + [name];
        todo := todo - {name};
      }
      assert findings[|old(findings)|..] == UnusedFindings(file, unused, names);
    }

    /** `leaveNode`: a pending merge-on-leave, then the exit hook. */
    method LeaveNode(node: Node)
      requires Valid() && |scopeStack| > PopsOnLeave(State(), node)
      modifies this
      ensures Valid()
      ensures State() == Leave(old(State()), node).0
      ensures |findings| >= |old(findings)| && findings[..|old(findings)|] == old(findings)
      ensures ReportsUnused(findings[|old(findings)|..], file, Leave(old(State()), node).1)
      ensures file == old(file)
    {
      if IsExpr(node) && node.id in mergeOnLeave {
        scopeStack := PopMerge(scopeStack);
      }
      RunLeaveHook(node);
    }

    /** `$this->leaveHooks[$class]($node)`. */
    method RunLeaveHook(node: Node)
      requires |scopeStack| > (if HookPops(State(), node) then 1 else 0)
      modifies this
      ensures Valid()
      ensures State() == LeaveHook(old(State()), node).0
      ensures |findings| >= |old(findings)| && findings[..|old(findings)|] == old(findings)
      ensures ReportsUnused(findings[|old(findings)|..], file, LeaveHook(old(State()), node).1)
      ensures file == old(file)
    {
      var t := |scopeStack| - 1;
      var k := node.kind;
      NothingToReport(file);
      if k.Variable? {
        if k.name.Str? && node.id !in assignmentTargets {
          scopeStack := SetVarUsed(scopeStack, t, k.name.s);
        }
      } else if k.FuncCall? {
        if k.fname.QName? && EqualsIgnoreCase(k.fname.s, "get_defined_vars()") {
          scopeStack := scopeStack[t := MarkAllVarsUsed(scopeStack[t])];
        }
      } else if k.Assign? || k.AssignRef? {
        if IsNamedVariable(k.target) {
          scopeStack := SetVarWritten(scopeStack, t, VariableName(k.target), node.line);
        }
      } else if k.ClassDecl? {
        if |classStack| > 0 {
          classStack := classStack[..|classStack| - 1];
        }
      } else if k.ClassMethod? {
        if |classStack| > 0 {
          HandleUnusedVars();
        }
      } else if k.Function? || k.Closure? {
        HandleUnusedVars();
      } else if k.ArrowFunction? {
        scopeStack := scopeStack[..t];
      } else if k.ElseIf? || k.Else? {
        scopeStack := scopeStack[t := MergePrevious(scopeStack[t])];
      } else if k.If? || k.BooleanOr? || k.BooleanAnd? {
        scopeStack := PopMerge(scopeStack);
      }
    }
  }
}
