/**
 * Properties of the traversal: scope-stack depth, dispatch order, the
 * widening rule, branch narrowing, function-scope seeding, closure
 * captures and the conservative MIXED bindings.
 */
module TraversalProperties {
  import opened Common
  import opened PhpTypes
  import opened Ast
  import opened Scopes
  import opened Collaborators
  import opened TypeInference
  import opened Guards
  import opened Traversal

  // ---------------------------------------------------------------------
  // Depth

  /** How many scopes a node's enter hook pushes (an `elseif` or `else` pops one and pushes one). */
  function EnterDelta(s: AState, node: Node): nat {
    var k := node.kind;
    if k.Function? || k.ArrowFunction? || k.Closure? || (k.ClassMethod? && s.classStack != []) then 1
    else if k.Ternary? then (if k.ifTrue.Some? then 2 else 1)
    else if k.If? || k.BooleanOr? || k.BooleanAnd? then 1
    else 0
  }

  /** Each enter hook pushes exactly `EnterDelta` scopes. */
  lemma EnterHookDepth(env: Env, infer: Inferrer, file: string, s: AState, node: Node)
    requires CanEnter(s, node)
    ensures |EnterHook(env, infer, file, s, node).0.scopes| == |s.scopes| + EnterDelta(s, node)
  {
  }

  /**
   * The ternary hook schedules its false part, and its middle part when
   * there is one, to pop and merge a scope when left; it schedules nothing
   * else, and pushes one scope per scheduled part.
   */
  lemma TernarySchedulesMerges(env: Env, infer: Inferrer, file: string, s: AState, node: Node)
    requires |s.scopes| > 0 && node.kind.Ternary?
    ensures var r := EnterHook(env, infer, file, s, node).0;
            var k := node.kind;
            && k.ifFalse.id in r.mergeOnLeave
            && (k.ifTrue.Some? ==> k.ifTrue.value.id in r.mergeOnLeave)
            && s.mergeOnLeave <= r.mergeOnLeave
            && (forall i :: i in r.mergeOnLeave && i !in s.mergeOnLeave ==> i == k.ifFalse.id || (k.ifTrue.Some? && i == k.ifTrue.value.id))
            && |r.scopes| == |s.scopes| + (if k.ifTrue.Some? then 2 else 1)
            && r.classStack == s.classStack && r.assignmentTargets == s.assignmentTargets
  {
  }

  /** Nothing unused, nothing reported. */
  lemma NothingToReport(file: string)
    ensures ReportsUnused([], file, map[])
  {
    var none: map<string, int> := map[];
    assert Enumerates([], none.Keys) && [] == UnusedFindings(file, none, []);
  }

  // ---------------------------------------------------------------------
  // The widening rule of setScopeType

  /**
   * The type a variable holds after it is assigned `newType` over
   * `oldType`: the same type or a first assignment keeps the new type, a
   * null assignment keeps the old one (and makes it nullable), any other
   * disagreement widens to MIXED.
   */
  function Widened(oldType: string, newType: string): string {
    if oldType == newType || oldType == UNDEFINED then newType
    else if newType == NULL_TYPE then oldType
    else MIXED_TYPE
  }

  /** `setScopeType` follows the widening rule, records the attribute flags and only ever makes a variable nullable. */
  lemma ScopeTypeWidening(st: Stack, name: string, newType: string, line: int, attrs: set<Attr>)
    requires |st| > 0
    ensures var t := |st| - 1;
            var oldType := GetVarType(st, t, name);
            var r := ScopeTypeAfter(st, name, newType, line, attrs);
            GetVarType(r, t, name) == Widened(oldType, newType)
            && (Lookup(r, t, name).Some? <==> Lookup(st, t, name).Some? || oldType != newType)
            && (Lookup(r, t, name).Some? ==> attrs <= Lookup(r, t, name).value.attrs)
            && (oldType != UNDEFINED && oldType != newType && newType == NULL_TYPE ==> GetVarNullability(r, t, name) == Possible)
            && (Lookup(st, t, name).Some? && !(oldType != UNDEFINED && oldType != newType && newType == NULL_TYPE) ==>
                  GetVarNullability(r, t, name) == GetVarNullability(st, t, name))
  {
    var t := |st| - 1;
    var oldType := GetVarType(st, t, name);
    var st1 :=
      if oldType == newType then st
      else if oldType == UNDEFINED then SetVarType(st, t, name, newType, line)
      else if newType == NULL_TYPE then SetVarNull(st, t, name, true)
      else SetVarType(st, t, name, MIXED_TYPE, line);
    if oldType == newType {
    } else if oldType == UNDEFINED {
      SetVarTypeSameName(st, t, name, newType, line);
    } else if newType == NULL_TYPE {
      UpdateSameName(st, t, name, MarkNull(true));
    } else {
      SetVarTypeSameName(st, t, name, MIXED_TYPE, line);
    }
    UpdateSameName(st1, t, name, AddAttrs(attrs));
  }

  /** `setScopeType` changes nothing about any other name, in any scope. */
  lemma ScopeTypeAfterOtherName(st: Stack, name: string, newType: string, line: int, attrs: set<Attr>, j: nat, m: string)
    requires j < |st| && m != name
    ensures Lookup(ScopeTypeAfter(st, name, newType, line, attrs), j, m) == Lookup(st, j, m)
  {
    var t := |st| - 1;
    var oldType := GetVarType(st, t, name);
    var st1 :=
      if oldType == newType then st
      else if oldType == UNDEFINED then SetVarType(st, t, name, newType, line)
      else if newType == NULL_TYPE then SetVarNull(st, t, name, true)
      else SetVarType(st, t, name, MIXED_TYPE, line);
    if oldType == newType {
    } else if oldType == UNDEFINED {
      SetVarTypeOtherName(st, t, name, newType, line, j, m);
    } else if newType == NULL_TYPE {
      UpdateOtherName(st, t, name, MarkNull(true), j, m);
    } else {
      SetVarTypeOtherName(st, t, name, MIXED_TYPE, line, j, m);
    }
    UpdateOtherName(st1, t, name, AddAttrs(attrs), j, m);
  }

  /** `setScopeExpression` records the inferred type by the widening rule, and a possibly-null value as nullable. */
  lemma ScopeExpressionRecordsInference(st: Stack, name: string, inferred: Inferred, line: int)
    requires |st| > 0
    ensures var t := |st| - 1;
            var r := RecordInferred(st, name, inferred, line);
            GetVarType(r, t, name) == Widened(GetVarType(st, t, name), inferred.typ)
            && (Lookup(r, t, name).Some? ==> InferredNullability(inferred.nullability) in Lookup(r, t, name).value.attrs)
            && (inferred.nullability == Possible && Lookup(r, t, name).Some? ==> GetVarNullability(r, t, name) == Possible)
  {
    var st1 := ScopeTypeAfter(st, name, inferred.typ, line, NullabilityAttrs(inferred.nullability));
    ScopeTypeWidening(st, name, inferred.typ, line, NullabilityAttrs(inferred.nullability));
    if inferred.nullability == Possible {
      UpdateSameName(st1, |st| - 1, name, MarkNull(true));
    }
  }

  // ---------------------------------------------------------------------
  // Conservative MIXED bindings

  /** Assigning MIXED makes the variable MIXED, and keeps MIXED every variable that already was. */
  lemma MixedStaysMixed(st: Stack, name: string, line: int, attrs: set<Attr>, m: string)
    requires |st| > 0 && (m == name || GetVarType(st, |st| - 1, m) == MIXED_TYPE)
    ensures GetVarType(ScopeTypeAfter(st, name, MIXED_TYPE, line, attrs), |st| - 1, m) == MIXED_TYPE
  {
    if m == name {
      ScopeTypeWidening(st, name, MIXED_TYPE, line, attrs);
    } else {
      ScopeTypeAfterOtherName(st, name, MIXED_TYPE, line, attrs, |st| - 1, m);
    }
  }

  lemma {:induction false} RefArgsKeepMixed(st: Stack, args: seq<Arg>, refParams: seq<bool>, k: nat, m: string)
    requires |st| > 0 && GetVarType(st, |st| - 1, m) == MIXED_TYPE
    ensures GetVarType(RefArgsMixed(st, args, refParams, k), |st| - 1, m) == MIXED_TYPE
    decreases |args| - k
  {
    if k < |args| {
      var v := args[k].value;
      var st1 := if ByRefPosition(refParams, k) && IsNamedVariable(v) then ScopeTypeAfter(st, VariableName(v), MIXED_TYPE, v.line, {}) else st;
      if ByRefPosition(refParams, k) && IsNamedVariable(v) {
        MixedStaysMixed(st, VariableName(v), v.line, {}, m);
      }
      RefArgsKeepMixed(st1, args, refParams, k + 1, m);
    }
  }

  /**
   * `addReferenceParametersToLocalScope`: every plain variable passed at a
   * by-reference position (or past a by-reference last parameter) is MIXED
   * afterwards.
   */
  lemma {:induction false} RefArgsBecomeMixed(st: Stack, args: seq<Arg>, refParams: seq<bool>, k: nat, j: nat)
    requires |st| > 0 && k <= j < |args| && ByRefPosition(refParams, j) && IsNamedVariable(args[j].value)
    ensures GetVarType(RefArgsMixed(st, args, refParams, k), |st| - 1, VariableName(args[j].value)) == MIXED_TYPE
    decreases |args| - k
  {
    var v := args[k].value;
    var st1 := if ByRefPosition(refParams, k) && IsNamedVariable(v) then ScopeTypeAfter(st, VariableName(v), MIXED_TYPE, v.line, {}) else st;
    if k == j {
      MixedStaysMixed(st, VariableName(v), v.line, {}, VariableName(v));
      RefArgsKeepMixed(st1, args, refParams, k + 1, VariableName(v));
    } else {
      RefArgsBecomeMixed(st1, args, refParams, k + 1, j);
    }
  }

  /** Whether some argument from `k` on binds `m` by reference. */
  predicate BindsByRef(args: seq<Arg>, refParams: seq<bool>, k: nat, m: string) {
    exists j :: k <= j < |args| && ByRefPosition(refParams, j) && IsNamedVariable(args[j].value) && VariableName(args[j].value) == m
  }

  /** ... and no other variable changes. */
  lemma {:induction false} RefArgsOtherNames(st: Stack, args: seq<Arg>, refParams: seq<bool>, k: nat, i: nat, m: string)
    requires i < |st| && !BindsByRef(args, refParams, k, m)
    ensures Lookup(RefArgsMixed(st, args, refParams, k), i, m) == Lookup(st, i, m)
    decreases |args| - k
  {
    if k < |args| {
      var v := args[k].value;
      var st1 := if ByRefPosition(refParams, k) && IsNamedVariable(v) then ScopeTypeAfter(st, VariableName(v), MIXED_TYPE, v.line, {}) else st;
      if ByRefPosition(refParams, k) && IsNamedVariable(v) {
        ScopeTypeAfterOtherName(st, VariableName(v), MIXED_TYPE, v.line, {}, i, m);
      }
      assert !BindsByRef(args, refParams, k + 1, m);
      RefArgsOtherNames(st1, args, refParams, k + 1, i, m);
    }
  }

  lemma {:induction false} GlobalsKeepMixed(st: Stack, vars: seq<Node>, m: string)
    requires |st| > 0 && GetVarType(st, |st| - 1, m) == MIXED_TYPE
    ensures GetVarType(GlobalsMixed(st, vars), |st| - 1, m) == MIXED_TYPE
    decreases |vars|
  {
    if vars != [] {
      var st1 := if IsNamedVariable(vars[0]) then ScopeTypeAfter(st, VariableName(vars[0]), MIXED_TYPE, vars[0].line, {}) else st;
      if IsNamedVariable(vars[0]) {
        MixedStaysMixed(st, VariableName(vars[0]), vars[0].line, {}, m);
      }
      GlobalsKeepMixed(st1, vars[1..], m);
    }
  }

  /** `global $a, $b;` makes every named variable MIXED. */
  lemma {:induction false} GlobalsBecomeMixed(st: Stack, vars: seq<Node>, j: nat)
    requires |st| > 0 && j < |vars| && IsNamedVariable(vars[j])
    ensures GetVarType(GlobalsMixed(st, vars), |st| - 1, VariableName(vars[j])) == MIXED_TYPE
    decreases |vars|
  {
    var st1 := if IsNamedVariable(vars[0]) then ScopeTypeAfter(st, VariableName(vars[0]), MIXED_TYPE, vars[0].line, {}) else st;
    if j == 0 {
      MixedStaysMixed(st, VariableName(vars[0]), vars[0].line, {}, VariableName(vars[0]));
      GlobalsKeepMixed(st1, vars[1..], VariableName(vars[0]));
    } else {
      assert vars[1..][j - 1] == vars[j];
      GlobalsBecomeMixed(st1, vars[1..], j - 1);
    }
  }

  lemma {:induction false} ItemsKeepMixed(st: Stack, items: seq<Option<ArrayItem>>, m: string)
    requires |st| > 0 && GetVarType(st, |st| - 1, m) == MIXED_TYPE
    ensures GetVarType(ItemsMixed(st, items), |st| - 1, m) == MIXED_TYPE
    decreases |items|
  {
    if items != [] {
      var st1 := if KeylessVariableItem(items[0]) then
          ScopeTypeAfter(st, VariableName(items[0].value.value.value), MIXED_TYPE, items[0].value.line, {})
        else st;
      if KeylessVariableItem(items[0]) {
        MixedStaysMixed(st, VariableName(items[0].value.value.value), items[0].value.line, {}, m);
      }
      ItemsKeepMixed(st1, items[1..], m);
    }
  }

  /** Destructuring: every keyless variable item of `list(...)` or `[...]` is MIXED afterwards. */
  lemma {:induction false} ItemsBecomeMixed(st: Stack, items: seq<Option<ArrayItem>>, j: nat)
    requires |st| > 0 && j < |items| && KeylessVariableItem(items[j])
    ensures GetVarType(ItemsMixed(st, items), |st| - 1, VariableName(items[j].value.value.value)) == MIXED_TYPE
    decreases |items|
  {
    var st1 := if KeylessVariableItem(items[0]) then
        ScopeTypeAfter(st, VariableName(items[0].value.value.value), MIXED_TYPE, items[0].value.line, {})
      else st;
    if j == 0 {
      var n := VariableName(items[0].value.value.value);
      MixedStaysMixed(st, n, items[0].value.line, {}, n);
      ItemsKeepMixed(st1, items[1..], n);
    } else {
      assert items[1..][j - 1] == items[j];
      ItemsBecomeMixed(st1, items[1..], j - 1);
    }
  }

  // ---------------------------------------------------------------------
  // Branch narrowing

  /** A pushed clone reads as the scope it was cloned from. */
  lemma PushedCloneReadsAsOriginal(st: Stack, previous: Option<Scope>, m: string)
    requires |st| > 0
    ensures Lookup(st + [GetScopeClone(st, |st| - 1, previous)], |st|, m) == Lookup(st, |st| - 1, m)
  {
  }

  /** Narrowing by a recognised guard: the guarded variable becomes non-null, an `if` turns its NULL type into MIXED, nothing else changes. */
  lemma NarrowGuard(st: Stack, c: Node, nullToMixed: bool)
    requires |st| > 0 && AllOwn(st[|st| - 1]) && !c.kind.Instanceof?
    requires var v := ChecksForNonNullVariable(c); Truthy(v) && Lookup(st, |st| - 1, v).Some?
    ensures var v := ChecksForNonNullVariable(c);
            var t := |st| - 1;
            var r := NarrowTop(st, c, nullToMixed);
            r[..t] == st[..t]
            && GetVarNullability(r, t, v) == Impossible
            && GetVarType(r, t, v) == (if nullToMixed && GetVarType(st, t, v) == NULL_TYPE then MIXED_TYPE else GetVarType(st, t, v))
            && (forall m :: m != v ==> Lookup(r, t, m) == Lookup(st, t, m))
  {
    var t := |st| - 1;
    var v := ChecksForNonNullVariable(c);
    var st2 := SetVarNull(st, t, v, false);
    UpdateSameName(st, t, v, MarkNull(false));
    WritesStayInScope(st, t, v, MarkNull(false), "", 0);
    forall m | m != v ensures Lookup(st2, t, m) == Lookup(st, t, m) {
      UpdateOtherName(st, t, v, MarkNull(false), t, m);
    }
    UpdateSameName(st2, t, v, RetypeOnly(MIXED_TYPE));
    WritesStayInScope(st2, t, v, RetypeOnly(MIXED_TYPE), "", 0);
    forall m | m != v ensures Lookup(SetTypeInPlace(st2, t, v, MIXED_TYPE), t, m) == Lookup(st2, t, m) {
      UpdateOtherName(st2, t, v, RetypeOnly(MIXED_TYPE), t, m);
    }
  }

  /** Narrowing by `$x instanceof C`: `$x` takes the type C and becomes non-null, nothing else changes. */
  lemma NarrowCast(st: Stack, c: Node, nullToMixed: bool)
    requires |st| > 0 && AllOwn(st[|st| - 1])
    requires c.kind.Instanceof? && IsNamedVariable(c.kind.expr) && c.kind.cls.QName? && Truthy(VariableName(c.kind.expr))
    ensures var x := VariableName(c.kind.expr);
            var t := |st| - 1;
            var r := NarrowTop(st, c, nullToMixed);
            r[..t] == st[..t]
            && GetVarNullability(r, t, x) == Impossible
            && GetVarType(r, t, x) == (if nullToMixed && c.kind.cls.s == NULL_TYPE then MIXED_TYPE else c.kind.cls.s)
            && (forall m :: m != x ==> Lookup(r, t, m) == Lookup(st, t, m))
  {
    var t := |st| - 1;
    var x := VariableName(c.kind.expr);
    var st1 := AddCastedType(st, t, c);
    SetVarTypeSameName(st, t, x, c.kind.cls.s, c.kind.expr.line);
    WritesStayInScope(st, t, x, MarkUsed, c.kind.cls.s, c.kind.expr.line);
    forall m | m != x ensures Lookup(st1, t, m) == Lookup(st, t, m) {
      SetVarTypeOtherName(st, t, x, c.kind.cls.s, c.kind.expr.line, t, m);
    }
    assert ChecksForNonNullVariable(c) == x;
    var st2 := SetVarNull(st1, t, x, false);
    UpdateSameName(st1, t, x, MarkNull(false));
    WritesStayInScope(st1, t, x, MarkNull(false), "", 0);
    forall m | m != x ensures Lookup(st2, t, m) == Lookup(st1, t, m) {
      UpdateOtherName(st1, t, x, MarkNull(false), t, m);
    }
    UpdateSameName(st2, t, x, RetypeOnly(MIXED_TYPE));
    WritesStayInScope(st2, t, x, RetypeOnly(MIXED_TYPE), "", 0);
    forall m | m != x ensures Lookup(SetTypeInPlace(st2, t, x, MIXED_TYPE), t, m) == Lookup(st2, t, m) {
      UpdateOtherName(st2, t, x, RetypeOnly(MIXED_TYPE), t, m);
    }
  }

  /**
   * `pushIfScope`: the enclosing scopes stay as they were; the pushed scope
   * reads as the enclosing one except that the variable the condition
   * guards is non-null there, with a NULL type turned into MIXED.
   */
  lemma IfScopeNarrowsGuard(st: Stack, node: Node, previous: Option<Scope>)
    requires |st| > 0 && GetIfCond(node).Some? && !GetIfCond(node).value.kind.Instanceof?
    requires var v := ChecksForNonNullVariable(GetIfCond(node).value); Truthy(v) && Lookup(st, |st| - 1, v).Some?
    ensures var v := ChecksForNonNullVariable(GetIfCond(node).value);
            var t := |st| - 1;
            var r := IfScope(st, node, previous);
            r[..|st|] == st
            && GetVarNullability(r, |st|, v) == Impossible
            && GetVarType(r, |st|, v) == (if GetVarType(st, t, v) == NULL_TYPE then MIXED_TYPE else GetVarType(st, t, v))
            && (forall m :: m != v ==> Lookup(r, |st|, m) == Lookup(st, t, m))
  {
    var t := |st| - 1;
    var c := GetIfCond(node).value;
    var pushed := st + [GetScopeClone(st, t, previous)];
    var v := ChecksForNonNullVariable(c);
    var r := NarrowTop(pushed, c, true);
    assert IfScope(st, node, previous) == r;
    PushedCloneReadsAsOriginal(st, previous, v);
    assert GetVarType(pushed, |st|, v) == GetVarType(st, t, v);
    NarrowGuard(pushed, c, true);
    forall m | m != v ensures Lookup(r, |st|, m) == Lookup(st, t, m) {
      PushedCloneReadsAsOriginal(st, previous, m);
    }
    assert pushed[..|st|] == st;
  }

  /** `pushIfScope` with `$x instanceof C`: `$x` has type C and is non-null in the pushed scope, nothing else differs. */
  lemma IfScopeCasts(st: Stack, node: Node, previous: Option<Scope>)
    requires |st| > 0 && GetIfCond(node).Some?
    requires var c := GetIfCond(node).value;
             c.kind.Instanceof? && IsNamedVariable(c.kind.expr) && c.kind.cls.QName? && Truthy(VariableName(c.kind.expr))
    ensures var c := GetIfCond(node).value;
            var x := VariableName(c.kind.expr);
            var r := IfScope(st, node, previous);
            r[..|st|] == st
            && GetVarNullability(r, |st|, x) == Impossible
            && GetVarType(r, |st|, x) == (if c.kind.cls.s == NULL_TYPE then MIXED_TYPE else c.kind.cls.s)
            && (forall m :: m != x ==> Lookup(r, |st|, m) == Lookup(st, |st| - 1, m))
  {
    var pushed := st + [GetScopeClone(st, |st| - 1, previous)];
    var c := GetIfCond(node).value;
    NarrowCast(pushed, c, true);
    forall m | m != VariableName(c.kind.expr) ensures Lookup(IfScope(st, node, previous), |st|, m) == Lookup(st, |st| - 1, m) {
      PushedCloneReadsAsOriginal(st, previous, m);
    }
    assert pushed[..|st|] == st;
  }

  /** `pushShortCircuitAndScope`: the left operand's guard is non-null on the right, and its type is left alone. */
  lemma AndScopeNarrowsGuard(st: Stack, node: Node)
    requires |st| > 0 && node.kind.BooleanAnd? && !node.kind.left.kind.Instanceof?
    requires var v := ChecksForNonNullVariable(node.kind.left); Truthy(v) && Lookup(st, |st| - 1, v).Some?
    ensures var v := ChecksForNonNullVariable(node.kind.left);
            var t := |st| - 1;
            var r := AndScope(st, node);
            r[..|st|] == st
            && GetVarNullability(r, |st|, v) == Impossible
            && GetVarType(r, |st|, v) == GetVarType(st, t, v)
            && (forall m :: m != v ==> Lookup(r, |st|, m) == Lookup(st, t, m))
  {
    var pushed := st + [GetScopeClone(st, |st| - 1, None)];
    var v := ChecksForNonNullVariable(node.kind.left);
    PushedCloneReadsAsOriginal(st, None, v);
    NarrowGuard(pushed, node.kind.left, false);
    forall m | m != v ensures Lookup(AndScope(st, node), |st|, m) == Lookup(st, |st| - 1, m) {
      PushedCloneReadsAsOriginal(st, None, m);
    }
    assert pushed[..|st|] == st;
  }

  /** `pushShortCircuitOrScope`: the right operand sees the enclosing scope exactly, narrowed by nothing. */
  lemma OrScopeIsPlainClone(st: Stack)
    requires |st| > 0
    ensures var r := OrScope(st);
            r[..|st|] == st && AllOwn(r[|st|])
            && forall m :: Lookup(r, |st|, m) == Lookup(st, |st| - 1, m)
  {
    forall m ensures Lookup(OrScope(st), |st|, m) == Lookup(st, |st| - 1, m) {
      PushedCloneReadsAsOriginal(st, None, m);
    }
  }

  /** Joining a record with itself changes nothing. */
  lemma CombineSelf(a: VarRecord)
    ensures Combine(a, a) == a
  {
    assert MorePermissive(a.nullability, a.nullability) == a.nullability;
    assert LaterWrite(a.writtenAt, a.writtenAt) == a.writtenAt;
  }

  /** One round of the by-reference loop. */
  lemma RefArgsMixedStep(st: Stack, args: seq<Arg>, refParams: seq<bool>, k: nat)
    requires |st| > 0 && k < |args|
    ensures var v := args[k].value;
            RefArgsMixed(st, args, refParams, k)
            == RefArgsMixed(if ByRefPosition(refParams, k) && IsNamedVariable(v) then ScopeTypeAfter(st, VariableName(v), MIXED_TYPE, v.line, {}) else st,
                            args, refParams, k + 1)
  {
  }

  /**
   * Merging into a scope that owns all its records the view of exactly those records changes nothing.
   * This is a fact about this model's `Merge`; `Scope.php` is not part of this model.
   */
  lemma MergeOwnView(s: Scope, v: VarView)
    requires AllOwn(s)
    requires forall m :: m in v <==> m in s.vars
    requires forall m :: m in v ==> v[m] == s.vars[m].rec
    ensures Merge(s, v) == s
  {
    var merged := Merge(s, v);
    assert merged.vars.Keys == s.vars.Keys;
    forall m | m in merged.vars ensures merged.vars[m] == s.vars[m] {
      CombineSelf(s.vars[m].rec);
    }
  }

  /**
   * An `||` whose right operand changes nothing leaves the enclosing scope as it was once its scope is merged back.
   * This is a fact about this model's `PopMerge`; `Scope.php` is not part of this model.
   */
  lemma UntouchedOrScopeMergesBackUnchanged(st: Stack)
    requires |st| > 0 && AllOwn(st[|st| - 1])
    ensures PopMerge(OrScope(st)) == st
  {
    var t := |st| - 1;
    var r := OrScope(st);
    OrScopeIsPlainClone(st);
    var view := ViewAt(r, |st|);
    forall m ensures (m in view <==> m in st[t].vars) && (m in view ==> view[m] == st[t].vars[m].rec) {
      assert Lookup(r, |st|, m) == Lookup(st, t, m);
    }
    MergeOwnView(st[t], view);
    assert r[..|r| - 1] == st;
  }

  // ---------------------------------------------------------------------
  // Function scopes

  /** The record a parameter is seeded with. */
  predicate SeededAs(env: Env, r: VarRecord, p: Param) {
    r.typ == ParamType(env, p) && r.used && r.typeLine == p.line
    && r.nullability == (if p.variadic || (p.hint.Some? && !p.hasDefault) then Impossible else Unknown)
    && (TouchedFunctionParam in r.attrs <==> !p.variadic)
  }

  /**
   * One parameter: a variadic one is a non-null array of its declared type;
   * any other has its declared type, is flagged as a touched parameter and
   * is non-null exactly when typed without a default; every parameter
   * counts as used. Only the new scope changes, and only that name.
   */
  lemma SeedParamSeeds(env: Env, st: Stack, i: nat, p: Param)
    requires i < |st| && AllOwn(st[i]) && p.name !in st[i].vars
    ensures var r := SeedParam(env, st, i, p);
            (forall j :: 0 <= j < |st| && j != i ==> r[j] == st[j]) && AllOwn(r[i])
            && Lookup(r, i, p.name).Some? && SeededAs(env, Lookup(r, i, p.name).value, p)
            && (forall m :: m != p.name ==> Lookup(r, i, m) == Lookup(st, i, m))
  {
    var n := p.name;
    var st0 := SetVarType(st, i, n, ParamType(env, p), p.line);
    WritesStayInScope(st, i, n, MarkUsed, ParamType(env, p), p.line);
    assert Lookup(st0, i, n) == Some(FreshRecord(ParamType(env, p), p.line));
    forall m | m != n ensures Lookup(st0, i, m) == Lookup(st, i, m) {
      SetVarTypeOtherName(st, i, n, ParamType(env, p), p.line, i, m);
    }
    var st1;
    if p.variadic {
      st1 := SetVarNull(st0, i, n, false);
      StepKeeps(st0, i, n, MarkNull(false));
    } else {
      var st2 := SetVarAttributes(st0, i, n, {TouchedFunctionParam});
      StepKeeps(st0, i, n, AddAttrs({TouchedFunctionParam}));
      if p.hint.Some? && !p.hasDefault {
        st1 := SetVarNull(st2, i, n, false);
        StepKeeps(st2, i, n, MarkNull(false));
      } else {
        st1 := st2;
      }
    }
    StepKeeps(st1, i, n, MarkUsed);
  }

  /** One in-place change on a scope owning all its bindings: what it does to the name, and that it touches nothing else. */
  lemma StepKeeps(st: Stack, i: nat, n: string, c: Change)
    requires i < |st| && AllOwn(st[i])
    ensures var r := Update(st, i, n, c);
            (forall j :: 0 <= j < |st| && j != i ==> r[j] == st[j]) && AllOwn(r[i])
            && Lookup(r, i, n) == (match Lookup(st, i, n) case Some(x) => Some(Apply(c, x)) case None => None)
            && (forall m :: m != n ==> Lookup(r, i, m) == Lookup(st, i, m))
  {
    WritesStayInScope(st, i, n, c, "", 0);
    UpdateSameName(st, i, n, c);
    forall m | m != n ensures Lookup(Update(st, i, n, c), i, m) == Lookup(st, i, m) {
      UpdateOtherName(st, i, n, c, i, m);
    }
  }

  /** Whether `m` names one of the parameters. */
  predicate IsParamName(ps: seq<Param>, m: string) {
    exists q :: 0 <= q < |ps| && ps[q].name == m
  }

  predicate DistinctNames(ps: seq<Param>) {
    forall a, b :: 0 <= a < b < |ps| ==> ps[a].name != ps[b].name
  }

  /** After the first parameter is seeded, the remaining ones are still distinct and still absent from the new scope. */
  lemma RestStaysFresh(env: Env, st: Stack, i: nat, ps: seq<Param>)
    requires i < |st| && AllOwn(st[i]) && DistinctNames(ps) && ps != []
    requires forall q :: 0 <= q < |ps| ==> ps[q].name !in st[i].vars
    ensures var st1 := SeedParam(env, st, i, ps[0]);
            AllOwn(st1[i]) && DistinctNames(ps[1..]) && (forall q :: 0 <= q < |ps[1..]| ==> ps[1..][q].name !in st1[i].vars)
            && !IsParamName(ps[1..], ps[0].name)
  {
    var st1 := SeedParam(env, st, i, ps[0]);
    SeedParamSeeds(env, st, i, ps[0]);
    forall q | 0 <= q < |ps[1..]| ensures ps[1..][q].name !in st1[i].vars && ps[1..][q].name != ps[0].name {
      assert ps[1..][q] == ps[q + 1];
      assert Lookup(st1, i, ps[1..][q].name) == Lookup(st, i, ps[1..][q].name);
    }
  }

  /** The parameter loop writes only the new scope, and only the parameters' names. */
  lemma {:induction false} SeedParamsFrame(env: Env, st: Stack, i: nat, ps: seq<Param>)
    requires i < |st| && AllOwn(st[i]) && DistinctNames(ps)
    requires forall q :: 0 <= q < |ps| ==> ps[q].name !in st[i].vars
    ensures var r := SeedParams(env, st, i, ps);
            (forall j :: 0 <= j < |st| && j != i ==> r[j] == st[j]) && AllOwn(r[i])
            && (forall m :: !IsParamName(ps, m) ==> Lookup(r, i, m) == Lookup(st, i, m))
    decreases |ps|
  {
    if ps != [] {
      var st1 := SeedParam(env, st, i, ps[0]);
      SeedParamSeeds(env, st, i, ps[0]);
      RestStaysFresh(env, st, i, ps);
      SeedParamsFrame(env, st1, i, ps[1..]);
      forall m | !IsParamName(ps, m) ensures Lookup(SeedParams(env, st, i, ps), i, m) == Lookup(st, i, m) {
        assert m != ps[0].name;
      }
    }
  }

  /** With distinct parameter names, each parameter ends up seeded as its own declaration says. */
  lemma {:induction false} SeedParamsSeeds(env: Env, st: Stack, i: nat, ps: seq<Param>, k: nat)
    requires i < |st| && AllOwn(st[i]) && DistinctNames(ps) && k < |ps|
    requires forall q :: 0 <= q < |ps| ==> ps[q].name !in st[i].vars
    ensures var r := SeedParams(env, st, i, ps);
            Lookup(r, i, ps[k].name).Some? && SeededAs(env, Lookup(r, i, ps[k].name).value, ps[k])
    decreases |ps|
  {
    var st1 := SeedParam(env, st, i, ps[0]);
    RestStaysFresh(env, st, i, ps);
    if k == 0 {
      SeedParamSeeds(env, st, i, ps[0]);
      SeedParamsFrame(env, st1, i, ps[1..]);
    } else {
      assert ps[1..][k - 1] == ps[k];
      SeedParamsSeeds(env, st1, i, ps[1..], k - 1);
    }
  }

  /**
   * `pushFunctionScope` for a function or method: the enclosing scopes are
   * untouched, nothing is reported, and the new scope holds exactly the
   * parameters, each seeded as its declaration says.
   */
  lemma FunctionScopeHoldsParameters(env: Env, file: string, st: Stack, f: Node)
    requires |st| > 0 && (f.kind.Function? || f.kind.ClassMethod?) && DistinctNames(ParamsOf(f))
    ensures var r := FunctionScope(env, file, st, f);
            r.0[..|st|] == st && r.1 == []
            && (forall k :: 0 <= k < |ParamsOf(f)| ==>
                  Lookup(r.0, |st|, ParamsOf(f)[k].name).Some? && SeededAs(env, Lookup(r.0, |st|, ParamsOf(f)[k].name).value, ParamsOf(f)[k]))
            && (forall m :: !IsParamName(ParamsOf(f), m) ==> Lookup(r.0, |st|, m).None?)
  {
    var i := |st|;
    var ps := ParamsOf(f);
    var ext := st + [Scope(map[], IsStaticFunction(f), false, None)];
    SeedParamsFrame(env, ext, i, ps);
    forall k | 0 <= k < |ps|
      ensures Lookup(SeedParams(env, ext, i, ps), i, ps[k].name).Some? && SeededAs(env, Lookup(SeedParams(env, ext, i, ps), i, ps[k].name).value, ps[k])
    {
      SeedParamsSeeds(env, ext, i, ps, k);
    }
    assert SeedParams(env, ext, i, ps)[..i] == st;
  }

  /** Seeding a fresh top scope keeps the enclosing scopes and leaves a non-parameter name unbound in it. */
  lemma SeededArrowScope(env: Env, st: Stack, f: Node, m: string)
    requires |st| > 0 && DistinctNames(ParamsOf(f)) && !IsParamName(ParamsOf(f), m)
    ensures var s1 := SeedParams(env, st + [Scope(map[], IsStaticFunction(f), false, None)], |st|, ParamsOf(f));
            |s1| == |st| + 1 && s1[..|st|] == st && AllOwn(s1[|st|]) && m !in s1[|st|].vars
  {
    var i := |st|;
    var ext := st + [Scope(map[], IsStaticFunction(f), false, None)];
    var s1 := SeedParams(env, ext, i, ParamsOf(f));
    SeedParamsFrame(env, ext, i, ParamsOf(f));
    assert s1[..i] == st;
    assert Lookup(s1, i, m) == Lookup(ext, i, m) == None;
  }

  /** Merging the enclosing scope's view into a top scope that lacks `m` gives `m` its enclosing record. */
  lemma MergedEnclosingView(s1: Stack, st: Stack, m: string)
    requires |st| > 0 && |s1| == |st| + 1 && s1[..|st|] == st && AllOwn(s1[|st|]) && m !in s1[|st|].vars
    ensures var i := |st|; var r := s1[i := Merge(s1[i], ViewAt(s1, i - 1))];
            r[..i] == st && Lookup(r, i, m) == Lookup(st, i - 1, m)
  {
    var i := |st|;
    HomeBelow(s1, st, i - 1, m);
    MergeAddsAbsent(s1, i, ViewAt(s1, i - 1), m);
    assert s1[i := Merge(s1[i], ViewAt(s1, i - 1))][..i] == s1[..i];
  }

  /** An arrow function sees every variable of the enclosing scope that is not one of its parameters, with the record it has there. */
  lemma ArrowFunctionSeesEnclosingScope(env: Env, file: string, st: Stack, f: Node, m: string)
    requires |st| > 0 && f.kind.ArrowFunction? && DistinctNames(ParamsOf(f)) && !IsParamName(ParamsOf(f), m)
    ensures var r := FunctionScope(env, file, st, f);
            r.0[..|st|] == st && r.1 == [] && Lookup(r.0, |st|, m) == Lookup(st, |st| - 1, m)
  {
    var i := |st|;
    var s1 := SeedParams(env, st + [Scope(map[], IsStaticFunction(f), false, None)], i, ParamsOf(f));
    SeededArrowScope(env, st, f, m);
    MergedEnclosingView(s1, st, m);
    assert FunctionScope(env, file, st, f) == (s1[i := Merge(s1[i], ViewAt(s1, i - 1))], []);
  }

  // ---------------------------------------------------------------------
  // Closure captures

  /** A `use` of a variable the enclosing, non-global scope does not know is reported and binds nothing. */
  lemma UnknownCaptureIsReported(file: string, st: Stack, t: nat, i: nat, u: Node)
    requires t < i < |st| && u.kind.ClosureUse? && IsNamedVariable(u.kind.useVar)
    requires GetVarType(st, t, VariableName(u.kind.useVar)) == UNDEFINED && !st[t].isGlobal
    ensures var r := CaptureUse(file, st, t, i, u);
            r.0 == st && |r.1| == 1 && r.1[0].kind == UnknownVariable && r.1[0].line == u.line
  {
  }

  /** A by-reference `use` makes the closure's name read and write the enclosing scope's record. */
  lemma ByReferenceCaptureShares(file: string, st: Stack, t: nat, i: nat, u: Node)
    requires t < i < |st| && u.kind.ClosureUse? && u.kind.byRef && IsNamedVariable(u.kind.useVar)
    requires GetVarType(st, t, VariableName(u.kind.useVar)) != UNDEFINED || st[t].isGlobal
    ensures var n := VariableName(u.kind.useVar);
            var r := CaptureUse(file, st, t, i, u);
            r.1 == [] && Home(r.0, i, n) == Home(st, t, n) && Lookup(r.0, i, n) == Lookup(st, t, n)
            && (forall j :: 0 <= j < |st| && j != i ==> r.0[j] == st[j])
  {
    SetVarReferenceShares(st, i, VariableName(u.kind.useVar), t);
  }

  /** Through a shared binding, a type written in the closure is the type the enclosing scope sees. */
  lemma WriteThroughSharedBinding(st: Stack, i: nat, t: nat, n: string, typ: string, line: int)
    requires t < i < |st| && Home(st, i, n) == Home(st, t, n) && Home(st, t, n).Some?
    ensures GetVarType(SetVarType(st, i, n, typ, line), t, n) == typ
  {
    var h := Home(st, i, n).value;
    HomeSameName(st, h, n, st[h].vars[n].rec.(typ := typ, typeLine := line), t);
  }

  /**
   * A by-value `use` of a name the closure scope does not hold yet: the
   * closure gets its own record with the enclosing type (MIXED when the
   * global scope does not know it), and the enclosing variable counts as used.
   */
  lemma ByValueCaptureCopies(file: string, st: Stack, t: nat, i: nat, u: Node)
    requires t < i < |st| && u.kind.ClosureUse? && !u.kind.byRef && IsNamedVariable(u.kind.useVar)
    requires var n := VariableName(u.kind.useVar); n !in st[i].vars && (GetVarType(st, t, n) != UNDEFINED || st[t].isGlobal)
    ensures var n := VariableName(u.kind.useVar);
            var typ := GetVarType(st, t, n);
            var r := CaptureUse(file, st, t, i, u);
            r.1 == [] && Home(r.0, i, n) == Some(i)
            && GetVarType(r.0, i, n) == (if typ == UNDEFINED then MIXED_TYPE else typ)
            && (Lookup(st, t, n).Some? ==> Lookup(r.0, t, n).Some? && Lookup(r.0, t, n).value.used)
  {
    var n := VariableName(u.kind.useVar);
    var typ := GetVarType(st, t, n);
    var st1 := SetVarUsed(st, t, n);
    UpdateSameName(st, t, n, MarkUsed);
    assert st1[i] == st[i];
    var r := SetVarType(st1, i, n, if typ == UNDEFINED then MIXED_TYPE else typ, u.line);
    assert r[..t + 1] == st1[..t + 1];
    HomeBelow(r, st1, t, n);
  }

  /** Every finding is an unknown-variable finding of the analyzer. */
  predicate UnknownVariableFindings(fs: seq<Finding>) {
    forall k :: 0 <= k < |fs| ==> fs[k].kind == UnknownVariable && fs[k].source == ANALYZER
  }

  /** Everything the `uses` loop reports is an unknown-variable finding of the analyzer. */
  lemma {:induction false} CapturesReportOnlyUnknownVariables(file: string, st: Stack, t: nat, i: nat, us: seq<Node>)
    requires t < i < |st|
    ensures UnknownVariableFindings(CaptureUses(file, st, t, i, us).1)
    decreases |us|
  {
    if us != [] {
      var r1 := CaptureUse(file, st, t, i, us[0]);
      assert UnknownVariableFindings(r1.1);
      CapturesReportOnlyUnknownVariables(file, r1.0, t, i, us[1..]);
      var rest := CaptureUses(file, r1.0, t, i, us[1..]).1;
      assert CaptureUses(file, st, t, i, us).1 == r1.1 + rest;
    }
  }

  // ---------------------------------------------------------------------
  // Assignments, foreach, catch and assert

  /** `$x = e`: the target is marked as an assignment and takes the inferred type by the widening rule, unless an inline type documents it. */
  lemma AssignmentRecordsTarget(env: Env, infer: Inferrer, inside: Option<string>, st: Stack, node: Node)
    requires |st| > 0 && (node.kind.Assign? || node.kind.AssignRef?) && IsNamedVariable(node.kind.target)
    ensures var n := VariableName(node.kind.target);
            var t := |st| - 1;
            var r := AssignmentAfter(env, infer, inside, st, node);
            var inferred := infer(inside, Some(node.kind.expr), ViewAt(st, t));
            r.1 == {node.kind.target.id}
            && (if env.useDocBlockForInlineVars && HasInlineVar(node, n) then r.0 == st
                else GetVarType(r.0, t, n) == Widened(GetVarType(st, t, n), inferred.typ))
  {
    var n := VariableName(node.kind.target);
    var inferred := infer(inside, Some(node.kind.expr), ViewAt(st, |st| - 1));
    ScopeExpressionRecordsInference(st, n, inferred, node.kind.expr.line);
  }

  /** `$a[..] = e` on a variable not yet known makes it an array. */
  lemma DimAssignmentMakesArray(env: Env, infer: Inferrer, inside: Option<string>, st: Stack, node: Node)
    requires |st| > 0 && (node.kind.Assign? || node.kind.AssignRef?) && node.kind.target.kind.ArrayDimFetch?
    requires var b := DimBase(node.kind.target); IsNamedVariable(b) && GetVarType(st, |st| - 1, VariableName(b)) == UNDEFINED
    ensures var b := DimBase(node.kind.target);
            GetVarType(AssignmentAfter(env, infer, inside, st, node).0, |st| - 1, VariableName(b)) == ARRAY_TYPE
  {
    var b := DimBase(node.kind.target);
    ScopeTypeWidening(st, VariableName(b), ARRAY_TYPE, b.line, {});
  }

  /** The element type of "T[]" is T; of any type not ending in "[]", MIXED. */
  lemma ElementTypeOfArrays(t: string)
    ensures ElementType(t + "[]") == t
    ensures !EndsWithBrackets(t) ==> ElementType(t) == MIXED_TYPE
  {
    assert (t + "[]")[|t|..] == "[]";
    assert (t + "[]")[..|t|] == t;
  }

  /** `foreach ($e as $v)`: the value variable takes the element type of the iterated type, by the widening rule. */
  lemma ForeachValueTakesElementType(st: Stack, node: Node, iterated: string)
    requires |st| > 0 && node.kind.Foreach? && IsNamedVariable(node.kind.valueVar)
    ensures var v := VariableName(node.kind.valueVar);
            var t := |st| - 1;
            GetVarType(ForeachValueAfter(st, node, iterated), t, v) == Widened(GetVarType(st, t, v), ElementType(iterated))
  {
    ScopeTypeWidening(st, VariableName(node.kind.valueVar), ElementType(iterated), node.kind.valueVar.line, {});
  }

  /** `foreach ($e as $k => ...)`: the key variable is MIXED afterwards, unless the value variable reuses its name. */
  lemma ForeachKeyIsMixed(st: Stack, node: Node, iterated: string)
    requires |st| > 0 && node.kind.Foreach? && node.kind.keyVar.Some? && IsNamedVariable(node.kind.keyVar.value)
    requires !(IsNamedVariable(node.kind.valueVar) && VariableName(node.kind.valueVar) == VariableName(node.kind.keyVar.value))
    ensures var key := VariableName(node.kind.keyVar.value);
            GetVarType(ForeachValueAfter(ForeachKeyAfter(st, node), node, iterated), |st| - 1, key) == MIXED_TYPE
  {
    var key := VariableName(node.kind.keyVar.value);
    MixedStaysMixed(st, key, node.kind.keyVar.value.line, {}, key);
    ForeachValueKeepsMixed(ForeachKeyAfter(st, node), node, iterated, key);
  }

  /** The value step of `foreach` keeps a MIXED variable MIXED unless it is the value variable itself. */
  lemma ForeachValueKeepsMixed(st: Stack, node: Node, iterated: string, m: string)
    requires |st| > 0 && node.kind.Foreach? && GetVarType(st, |st| - 1, m) == MIXED_TYPE
    requires !(IsNamedVariable(node.kind.valueVar) && VariableName(node.kind.valueVar) == m)
    ensures GetVarType(ForeachValueAfter(st, node, iterated), |st| - 1, m) == MIXED_TYPE
  {
    var k := node.kind;
    if IsNamedVariable(k.valueVar) {
      ScopeTypeAfterOtherName(st, VariableName(k.valueVar), ElementType(iterated), k.valueVar.line, {}, |st| - 1, m);
    } else if k.valueVar.kind.ListExpr? {
      ItemsKeepMixed(st, k.valueVar.kind.items, m);
    }
  }

  /** `catch (T $e)`: the variable takes the caught type (MIXED for a union) by the widening rule and counts as used. */
  lemma CatchBindsUsedVariable(st: Stack, node: Node)
    requires |st| > 0 && node.kind.Catch?
    ensures var n := node.kind.varName;
            var t := |st| - 1;
            var typ := if |node.kind.types| == 1 then node.kind.types[0] else MIXED_TYPE;
            var r := CatchAfter(st, node);
            GetVarType(r, t, n) == Widened(GetVarType(st, t, n), typ)
            && (Lookup(r, t, n).Some? ==> Lookup(r, t, n).value.used)
  {
    var n := node.kind.varName;
    var typ := if |node.kind.types| == 1 then node.kind.types[0] else MIXED_TYPE;
    ScopeTypeWidening(st, n, typ, node.line, {});
    UpdateSameName(ScopeTypeAfter(st, n, typ, node.line, {}), |st| - 1, n, MarkUsed);
  }

  /** `assert($x instanceof C)`: `$x` has type C and is non-null afterwards. */
  lemma AssertInstanceofNarrows(st: Stack, node: Node)
    requires |st| > 0 && node.kind.FuncCall? && node.kind.fname.QName?
    requires EqualsIgnoreCase(node.kind.fname.s, "assert") && |node.kind.args| == 1
    requires var c := node.kind.args[0].value; c.kind.Instanceof? && IsNamedVariable(c.kind.expr) && c.kind.cls.QName?
    ensures var c := node.kind.args[0].value;
            var x := VariableName(c.kind.expr);
            var r := AssertInstanceofAfter(st, node);
            GetVarType(r, |st| - 1, x) == c.kind.cls.s && GetVarNullability(r, |st| - 1, x) == Impossible
  {
    var c := node.kind.args[0].value;
    var x := VariableName(c.kind.expr);
    SetVarTypeSameName(st, |st| - 1, x, c.kind.cls.s, c.line);
    UpdateSameName(SetVarType(st, |st| - 1, x, c.kind.cls.s, c.line), |st| - 1, x, MarkNull(false));
  }

  // ---------------------------------------------------------------------
  // Leaving nodes

  /** Reading `$n` marks it used, unless the variable node is the target of an assignment. */
  lemma VariableReadMarksUsed(s: AState, node: Node)
    requires |s.scopes| > 0 && node.kind.Variable? && node.kind.name.Str? && !MergesOnLeave(s, node)
    ensures var n := node.kind.name.s;
            var t := |s.scopes| - 1;
            var r := Leave(s, node);
            r.1 == map[]
            && (node.id in s.assignmentTargets ==> r.0 == s)
            && (node.id !in s.assignmentTargets ==>
                  Lookup(r.0.scopes, t, n) == match Lookup(s.scopes, t, n) case Some(x) => Some(x.(used := true)) case None => None)
  {
    UpdateSameName(s.scopes, |s.scopes| - 1, node.kind.name.s, MarkUsed);
  }

  /** Leaving `$x = e` records the line of the write. */
  lemma AssignmentMarksWritten(s: AState, node: Node)
    requires |s.scopes| > 0 && (node.kind.Assign? || node.kind.AssignRef?) && IsNamedVariable(node.kind.target) && !MergesOnLeave(s, node)
    ensures var n := VariableName(node.kind.target);
            var t := |s.scopes| - 1;
            var r := Leave(s, node);
            r.1 == map[]
            && Lookup(r.0.scopes, t, n) == match Lookup(s.scopes, t, n) case Some(x) => Some(x.(writtenAt := Some(node.line))) case None => None
  {
    UpdateSameName(s.scopes, |s.scopes| - 1, VariableName(node.kind.target), MarkWritten(node.line));
  }

  /** No function name without a parenthesis compares equal to "get_defined_vars()". */
  lemma NoParenthesisNoMatch(name: string)
    requires '(' !in name
    ensures !EqualsIgnoreCase(name, "get_defined_vars()")
  {
    var target := "get_defined_vars()";
    if |name| == |target| {
      assert Lower(target)[16] == LowerChar(target[16]) == '(';
      assert Lower(name)[16] == LowerChar(name[16]) != '(';
    }
  }

  /**
   * The exit hook compares the called name with "get_defined_vars()",
   * parentheses included, so a call of `get_defined_vars` (whose name has
   * no parenthesis) leaves the scope as it is.
   */
  lemma GetDefinedVarsHookNeverFires(s: AState, node: Node)
    requires |s.scopes| > 0 && node.kind.FuncCall? && node.kind.fname.QName? && '(' !in node.kind.fname.s && !MergesOnLeave(s, node)
    ensures Leave(s, node) == (s, map[])
  {
    NoParenthesisNoMatch(node.kind.fname.s);
  }

  /**
   * Leaving a branch: a variable only the branch knows is copied into the enclosing scope as the branch had it.
   * This is a fact about this model's `PopMerge`; `Scope.php` is not part of this model.
   */
  lemma PopMergeKeepsBranchVariables(st: Stack, n: string)
    requires |st| > 1 && Lookup(st, |st| - 1, n).Some? && n !in st[|st| - 2].vars
    ensures Lookup(PopMerge(st), |st| - 2, n) == Lookup(st, |st| - 1, n)
  {
    var r := PopMerge(st);
    assert r[|st| - 2].vars[n] == Own(Lookup(st, |st| - 1, n).value);
  }

  /**
   * Leaving a branch: a variable both sides know is joined (types that differ give MIXED, nullability the more permissive).
   * This is a fact about this model's `PopMerge`; `Scope.php` is not part of this model.
   */
  lemma PopMergeJoinsSharedVariables(st: Stack, n: string)
    requires |st| > 1 && Lookup(st, |st| - 1, n).Some? && n in st[|st| - 2].vars && st[|st| - 2].vars[n].Own?
    ensures var a := st[|st| - 2].vars[n].rec;
            var b := Lookup(st, |st| - 1, n).value;
            var r := PopMerge(st);
            Lookup(r, |st| - 2, n).Some?
            && GetVarType(r, |st| - 2, n) == (if a.typ == b.typ then a.typ else MIXED_TYPE)
            && GetVarNullability(r, |st| - 2, n) == MorePermissive(a.nullability, b.nullability)
  {
    var r := PopMerge(st);
    assert r[|st| - 2].vars[n] == Own(Combine(st[|st| - 2].vars[n].rec, Lookup(st, |st| - 1, n).value));
  }

  // ---------------------------------------------------------------------
  // Balance of entering and leaving

  /** Leaving a node pops exactly `PopsOnLeave` scopes. */
  lemma LeaveDepth(s: AState, node: Node)
    requires |s.scopes| > PopsOnLeave(s, node)
    ensures |Leave(s, node).0.scopes| == |s.scopes| - PopsOnLeave(s, node)
  {
  }

  /**
   * Entering and then leaving a node (other than a ternary, whose scopes
   * its operands pop) gives back the depth it started from.
   */
  lemma EnterLeaveBalanced(env: Env, infer: Inferrer, table: map<NodeType, seq<Checks.Check>>, file: string, s: AState, node: Node)
    requires CanEnter(s, node) && !node.kind.Ternary? && node.id !in s.mergeOnLeave
    ensures var s1 := Enter(env, infer, table, file, s, node).0;
            |s1.scopes| > PopsOnLeave(s1, node) && |Leave(s1, node).0.scopes| == |s.scopes|
  {
    if !node.kind.TraitDecl? {
      var s0 := s.(scopes := InlineScopes(env, s, node));
      EnterHookDepth(env, infer, file, s0, node);
      var s1 := EnterHook(env, infer, file, s0, node).0;
      assert Enter(env, infer, table, file, s, node).0 == s1;
      assert !MergesOnLeave(s1, node);
      LeaveDepth(s1, node);
    }
  }

  /** A static call whose method name is an `Identifier` node fails the string-name gate and changes nothing. */
  lemma IdentifierNamedStaticCallIsIgnored(env: Env, st: Stack, node: Node)
    requires |st| > 0 && node.kind.StaticCall? && node.kind.mname.Ident?
    ensures StaticCallAfter(env, st, node) == st
  {
  }
}
