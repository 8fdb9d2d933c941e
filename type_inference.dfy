/**
 * TypeInferrer: a best-known (type, nullability) pair for an expression,
 * given the enclosing class name and the variables of the current scope.
 * Plugins are consulted first; the built-in rules are a case analysis over
 * the expression's kind, and every form they do not resolve yields
 * (MIXED, unknown).
 */
module TypeInference {
  import opened Common
  import opened PhpTypes
  import opened Ast
  import opened Scopes
  import opened Collaborators

  /** TypeInferencePluginInterface::inferNode; None is a falsy answer. */
  type Plugin = (Node, Option<string>, VarView) -> Option<Inferred>

  const Fallback: Inferred := Inferred(MIXED_TYPE, Unknown)

  /** The first truthy plugin answer, consulting plugins in order. */
  function FirstPluginAnswer(plugins: seq<Plugin>, e: Node, inside: Option<string>, scope: VarView): (r: Option<Inferred>)
    ensures r.None? <==> forall k :: 0 <= k < |plugins| ==> plugins[k](e, inside, scope).None?
    ensures r.Some? ==> exists k :: 0 <= k < |plugins| && r == plugins[k](e, inside, scope)
                                   && forall j :: 0 <= j < k ==> plugins[j](e, inside, scope).None?
  {
    if plugins == [] then None
    else match plugins[0](e, inside, scope)
      case Some(a) => Some(a)
      case None =>
        var rest := FirstPluginAnswer(plugins[1..], e, inside, scope);
        assert forall k :: 1 <= k < |plugins| ==> plugins[k] == plugins[1..][k - 1];
        rest
  }

  /** A type inferrer's `inferType($inside, $expr, $scope)`, as a function value. */
  type Inferrer = (Option<string>, Option<Node>, VarView) -> Inferred

  /** `new TypeInferrer($index)`: an inferrer that consults no plugins. */
  function NoPluginInferrer(env: Env): Inferrer {
    (inside, e, scope) => InferType(env, [], inside, e, scope)
  }

  /** `inferType($inside, $expr, $scope)`; a missing expression is (MIXED, unknown). */
  function InferType(env: Env, plugins: seq<Plugin>, inside: Option<string>, e: Option<Node>, scope: VarView): (r: Inferred)
    ensures e.None? ==> r == Fallback
  {
    match e
    case None => Fallback
    case Some(x) => InferNode(env, plugins, inside, x, scope)
  }

  function InferNode(env: Env, plugins: seq<Plugin>, inside: Option<string>, x: Node, scope: VarView): Inferred
    decreases x, 2
  {
    match FirstPluginAnswer(plugins, x, inside, scope)
    case Some(a) => a
    case None => Builtin(env, plugins, inside, x, scope)
  }

  /** `new Name`: `self` and `static` stand for the enclosing class. */
  function NewClassName(name: string, inside: Option<string>): string {
    if EqualsIgnoreCase(name, "self") || EqualsIgnoreCase(name, "static") then
      (if inside.Some? then inside.value else MIXED_TYPE)
    else name
  }

  /** The built-in rules, consulted when no plugin answered. */
  function Builtin(env: Env, plugins: seq<Plugin>, inside: Option<string>, x: Node, scope: VarView): Inferred
    decreases x, 1
  {
    match x.kind
    case AssignOp(_, v) => InferNode(env, plugins, inside, v, scope)
    case Scalar => Inferred(SCALAR_TYPE, Impossible)
    case New(cls) =>
      if cls.QName? then Inferred(NewClassName(cls.s, inside), Impossible) else Fallback
    case Variable(name) =>
      if !name.Str? then Fallback
      else if name.s == "this" && inside.Some? then Inferred(inside.value, Impossible)
      else if name.s in scope && scope[name.s].typ != UNDEFINED then
        Inferred(scope[name.s].typ, scope[name.s].nullability)
      else Fallback
    case Closure(_, _, _, _) => Inferred("Closure", Impossible)
    case FuncCall(fname, _) =>
      if fname.QName? then InferFunctionCall(env, fname.s) else Fallback
    case MethodCall(recv, mname, _) =>
      InferMethodCall(env, plugins, inside, x, scope)
    case PropertyFetch(_, _) => InferPropertyFetch(env, plugins, inside, x, scope)
    case ArrayDimFetch(base, _) =>
      var t := InferNode(env, plugins, inside, base, scope).typ;
      if EndsWithBrackets(t) then Inferred(StripBrackets(t), Unknown) else Fallback
    case CloneExpr(v) => InferNode(env, plugins, inside, v, scope)
    case ConstFetch(c) =>
      if EqualsIgnoreCase(c, "null") then Inferred(NULL_TYPE, Possible)
      else if EqualsIgnoreCase(c, "false") || EqualsIgnoreCase(c, "true") then Inferred(BOOL_TYPE, Impossible)
      else if env.isDefined(c) then Inferred(MIXED_TYPE, Unknown)
      else Fallback
    case Ternary(_, t, f) =>
      var a := if t.Some? then InferNode(env, plugins, inside, t.value, scope) else Fallback;
      var b := InferNode(env, plugins, inside, f, scope);
      Inferred(if a.typ == b.typ then a.typ else MIXED_TYPE,
               if a.nullability == Possible || b.nullability == Possible then Possible else Unknown)
    case Spaceship(_, _) => Inferred(INT_TYPE, Impossible)
    case Coalesce(l, r) =>
      var a := InferNode(env, plugins, inside, l, scope);
      var b := InferNode(env, plugins, inside, r, scope);
      Inferred(if a.typ == b.typ then a.typ else MIXED_TYPE, b.nullability)
    case StaticCall(_, _, _) => InferStaticMethodCall(env, plugins, inside, x, scope)
    case _ => Fallback
  }

  /** A call of a named function: declared return type, else (if configured) the doc-block one. */
  function InferFunctionCall(env: Env, name: string): Inferred {
    match env.functionNamed(name)
    case None => Fallback
    case Some(f) =>
      var declared := env.constFromName(f.returnType);
      if Truthy(declared) then Inferred(declared, Impossible)
      else if env.useDocBlockForReturnValues then
        var doc := env.constFromDocBlock(f.docBlockReturnType, UNDEFINED, UNDEFINED);
        if Truthy(doc) then Inferred(doc, Unknown) else Fallback
      else Fallback
  }

  /** `inferMethodCallInternal($class, $name)`. */
  function InferMethodCallInternal(env: Env, cls: string, name: string): Inferred {
    match env.methodAndHost(cls, name)
    case None => Fallback
    case Some((m, host)) =>
      var declared := env.constFromName(m.returnType);
      if Truthy(declared) then Inferred(declared, Impossible)
      else if env.useDocBlockForReturnValues then
        var doc := env.constFromDocBlock(m.docBlockReturnType, host, cls);
        if Truthy(doc) then Inferred(doc, Unknown) else Fallback
      else Fallback
  }

  /** `inferMethodCall`: only a plain-string method name on a resolvable receiver type is looked up. */
  function InferMethodCall(env: Env, plugins: seq<Plugin>, inside: Option<string>, x: Node, scope: VarView): Inferred
    requires x.kind.MethodCall?
    decreases x, 0
  {
    if x.kind.mname.Str? then
      var cls := InferNode(env, plugins, inside, x.kind.receiver, scope).typ;
      if Resolvable(cls) then InferMethodCallInternal(env, cls, x.kind.mname.s) else Fallback
    else Fallback
  }

  /** `inferStaticMethodCall`: the class is inferred when it is an expression, taken literally otherwise. */
  function InferStaticMethodCall(env: Env, plugins: seq<Plugin>, inside: Option<string>, x: Node, scope: VarView): Inferred
    requires x.kind.StaticCall?
    decreases x, 0
  {
    if x.kind.mname.Str? then
      var cls := match x.kind.cls
        case Dyn(e) => InferNode(env, plugins, inside, e, scope).typ
        case Str(s) => s
        case Ident(s) => s
        case QName(s) => s;
      if Resolvable(cls) then InferMethodCallInternal(env, cls, x.kind.mname.s) else Fallback
    else Fallback
  }

  /** The documented property type with one leading backslash removed. */
  function StripLeadingBackslash(t: string): string
    requires |t| > 0
  {
    if t[0] == '\\' then t[1..] else t
  }

  /** `inferPropertyFetch`: consulted only when doc-block property types are enabled. */
  function InferPropertyFetch(env: Env, plugins: seq<Plugin>, inside: Option<string>, x: Node, scope: VarView): Inferred
    requires x.kind.PropertyFetch?
    decreases x, 0
  {
    if !env.useDocBlockForProperties then Fallback
    else
      var cls := InferNode(env, plugins, inside, x.kind.obj, scope).typ;
      if Resolvable(cls) && x.kind.pname.Str? && x.kind.pname.s != "" then
        match env.propertyAndHost(cls, x.kind.pname.s)
        case None => Fallback
        case Some((p, host)) =>
          if Truthy(p.typ) then Inferred(env.constFromDocBlock(StripLeadingBackslash(p.typ), host, cls), Unknown)
          else Fallback
      else Fallback
  }

  // ---------------------------------------------------------------------
  // Properties of the inferrer

  /** The variable names whose scope entries the built-in rules may consult for `x`. */
  function ReadsVars(x: Node): set<string>
    decreases x
  {
    match x.kind
    case Variable(name) => if name.Str? then {name.s} else {}
    case AssignOp(_, v) => ReadsVars(v)
    case CloneExpr(v) => ReadsVars(v)
    case ArrayDimFetch(base, _) => ReadsVars(base)
    case MethodCall(recv, _, _) => ReadsVars(recv)
    case PropertyFetch(obj, _) => ReadsVars(obj)
    case StaticCall(cls, _, _) => if cls.Dyn? then ReadsVars(cls.expr) else {}
    case Ternary(_, t, f) => (if t.Some? then ReadsVars(t.value) else {}) + ReadsVars(f)
    case Coalesce(l, r) => ReadsVars(l) + ReadsVars(r)
    case _ => {}
  }

  /** Two scopes hold the same entries for every name in `names`. */
  predicate AgreeOn(s1: VarView, s2: VarView, names: set<string>) {
    forall v :: v in names ==> (v in s1 <==> v in s2) && (v in s1 ==> s1[v] == s2[v])
  }

  /**
   * The built-in rules see their sub-expressions only through the answers
   * inference gives for them: two runs whose answers agree on every
   * sub-expression consulted (and, for a variable, on its scope entry)
   * agree on the whole expression.
   */
  ghost predicate ChildrenAgree(env: Env, p1: seq<Plugin>, p2: seq<Plugin>, inside: Option<string>, x: Node, s1: VarView, s2: VarView) {
    match x.kind
    case Variable(name) =>
      name.Str? ==> (name.s in s1 <==> name.s in s2) && (name.s in s1 ==> s1[name.s] == s2[name.s])
    case AssignOp(_, v) => InferNode(env, p1, inside, v, s1) == InferNode(env, p2, inside, v, s2)
    case CloneExpr(v) => InferNode(env, p1, inside, v, s1) == InferNode(env, p2, inside, v, s2)
    case ArrayDimFetch(b, _) => InferNode(env, p1, inside, b, s1) == InferNode(env, p2, inside, b, s2)
    case MethodCall(r, _, _) => InferNode(env, p1, inside, r, s1) == InferNode(env, p2, inside, r, s2)
    case PropertyFetch(o, _) => InferNode(env, p1, inside, o, s1) == InferNode(env, p2, inside, o, s2)
    case StaticCall(c, _, _) =>
      c.Dyn? ==> InferNode(env, p1, inside, c.expr, s1) == InferNode(env, p2, inside, c.expr, s2)
    case Ternary(_, t, f) =>
      (t.Some? ==> InferNode(env, p1, inside, t.value, s1) == InferNode(env, p2, inside, t.value, s2))
      && InferNode(env, p1, inside, f, s1) == InferNode(env, p2, inside, f, s2)
    case Coalesce(l, r) =>
      InferNode(env, p1, inside, l, s1) == InferNode(env, p2, inside, l, s2)
      && InferNode(env, p1, inside, r, s1) == InferNode(env, p2, inside, r, s2)
    case _ => true
  }

  lemma BuiltinCongruence(env: Env, p1: seq<Plugin>, p2: seq<Plugin>, inside: Option<string>, x: Node, s1: VarView, s2: VarView)
    requires ChildrenAgree(env, p1, p2, inside, x, s1, s2)
    ensures Builtin(env, p1, inside, x, s1) == Builtin(env, p2, inside, x, s2)
  {
    if x.kind.MethodCall? {
      assert Builtin(env, p1, inside, x, s1) == InferMethodCall(env, p1, inside, x, s1);
      assert Builtin(env, p2, inside, x, s2) == InferMethodCall(env, p2, inside, x, s2);
    } else if x.kind.StaticCall? {
      assert Builtin(env, p1, inside, x, s1) == InferStaticMethodCall(env, p1, inside, x, s1);
      assert Builtin(env, p2, inside, x, s2) == InferStaticMethodCall(env, p2, inside, x, s2);
    } else if x.kind.PropertyFetch? {
      assert Builtin(env, p1, inside, x, s1) == InferPropertyFetch(env, p1, inside, x, s1);
      assert Builtin(env, p2, inside, x, s2) == InferPropertyFetch(env, p2, inside, x, s2);
    }
  }

  /** Without plugins, inference is the built-in rules, so it agrees wherever their children do. */
  lemma NoPluginCongruence(env: Env, inside: Option<string>, x: Node, s1: VarView, s2: VarView)
    requires ChildrenAgree(env, [], [], inside, x, s1, s2)
    ensures InferNode(env, [], inside, x, s1) == InferNode(env, [], inside, x, s2)
  {
    BuiltinCongruence(env, [], [], inside, x, s1, s2);
  }

  /**
   * Without plugins, inference reads the scope only at the variables the
   * expression names in receiver, operand or branch position: scopes that
   * agree there give the same answer.
   */
  lemma {:induction false} InferReadsOnlyNamedVars(env: Env, inside: Option<string>, x: Node, s1: VarView, s2: VarView)
    requires AgreeOn(s1, s2, ReadsVars(x))
    ensures InferNode(env, [], inside, x, s1) == InferNode(env, [], inside, x, s2)
    decreases x
  {
    var k := x.kind;
    if k.AssignOp? || k.CloneExpr? {
      InferReadsOnlyNamedVars(env, inside, k.expr, s1, s2);
    } else if k.ArrayDimFetch? {
      InferReadsOnlyNamedVars(env, inside, k.base, s1, s2);
    } else if k.MethodCall? {
      InferReadsOnlyNamedVars(env, inside, k.receiver, s1, s2);
    } else if k.PropertyFetch? {
      InferReadsOnlyNamedVars(env, inside, k.obj, s1, s2);
    } else if k.StaticCall? && k.cls.Dyn? {
      InferReadsOnlyNamedVars(env, inside, k.cls.expr, s1, s2);
    } else if k.Ternary? {
      if k.ifTrue.Some? {
        InferReadsOnlyNamedVars(env, inside, k.ifTrue.value, s1, s2);
      }
      InferReadsOnlyNamedVars(env, inside, k.ifFalse, s1, s2);
    } else if k.Coalesce? {
      InferReadsOnlyNamedVars(env, inside, k.left, s1, s2);
      InferReadsOnlyNamedVars(env, inside, k.right, s1, s2);
    }
    NoPluginCongruence(env, inside, x, s1, s2);
  }

  /** The ways an expression can be known to be possibly null: a `null` literal or a possibly-null variable, seen through the forms that pass nullability on. */
  predicate NullSource(x: Node, scope: VarView)
    decreases x
  {
    match x.kind
    case ConstFetch(c) => EqualsIgnoreCase(c, "null")
    case Variable(name) => name.Str? && name.s in scope && scope[name.s].nullability == Possible
    case AssignOp(_, v) => NullSource(v, scope)
    case CloneExpr(v) => NullSource(v, scope)
    case Ternary(_, t, f) => (t.Some? && NullSource(t.value, scope)) || NullSource(f, scope)
    case Coalesce(_, r) => NullSource(r, scope)
    case _ => false
  }

  /** Inference never reports "possibly null" on its own: it comes from a `null` literal or from the scope. */
  lemma {:induction false} PossiblyNullHasASource(env: Env, inside: Option<string>, x: Node, scope: VarView)
    ensures InferNode(env, [], inside, x, scope).nullability == Possible ==> NullSource(x, scope)
    decreases x
  {
    assert InferNode(env, [], inside, x, scope) == Builtin(env, [], inside, x, scope);
    match x.kind
    case AssignOp(_, v) => PossiblyNullHasASource(env, inside, v, scope);
    case CloneExpr(v) => PossiblyNullHasASource(env, inside, v, scope);
    case Ternary(_, t, f) =>
      if t.Some? {
        PossiblyNullHasASource(env, inside, t.value, scope);
      }
      PossiblyNullHasASource(env, inside, f, scope);
    case Coalesce(_, r) => PossiblyNullHasASource(env, inside, r, scope);
    case MethodCall(_, _, _) =>
      assert InferNode(env, [], inside, x, scope) == InferMethodCall(env, [], inside, x, scope);
    case StaticCall(_, _, _) =>
      assert InferNode(env, [], inside, x, scope) == InferStaticMethodCall(env, [], inside, x, scope);
    case PropertyFetch(_, _) =>
      assert InferNode(env, [], inside, x, scope) == InferPropertyFetch(env, [], inside, x, scope);
    case _ =>
  }

  /** A plugin that never answers. */
  ghost predicate Silent(p: Plugin) {
    forall n: Node, inside: Option<string>, scope: VarView :: p(n, inside, scope).None?
  }

  /** Plugins that never answer change nothing: the built-in rules decide, at every depth. */
  lemma {:induction false} SilentPluginsAreTransparent(env: Env, plugins: seq<Plugin>, inside: Option<string>, x: Node, scope: VarView)
    requires forall k :: 0 <= k < |plugins| ==> Silent(plugins[k])
    ensures InferNode(env, plugins, inside, x, scope) == InferNode(env, [], inside, x, scope)
    decreases x
  {
    assert FirstPluginAnswer(plugins, x, inside, scope).None? by {
      forall k | 0 <= k < |plugins|
        ensures plugins[k](x, inside, scope).None?
      {
        assert Silent(plugins[k]);
      }
    }
    var k := x.kind;
    if k.AssignOp? || k.CloneExpr? {
      SilentPluginsAreTransparent(env, plugins, inside, k.expr, scope);
    } else if k.ArrayDimFetch? {
      SilentPluginsAreTransparent(env, plugins, inside, k.base, scope);
    } else if k.MethodCall? {
      SilentPluginsAreTransparent(env, plugins, inside, k.receiver, scope);
    } else if k.PropertyFetch? {
      SilentPluginsAreTransparent(env, plugins, inside, k.obj, scope);
    } else if k.StaticCall? && k.cls.Dyn? {
      SilentPluginsAreTransparent(env, plugins, inside, k.cls.expr, scope);
    } else if k.Ternary? {
      if k.ifTrue.Some? {
        SilentPluginsAreTransparent(env, plugins, inside, k.ifTrue.value, scope);
      }
      SilentPluginsAreTransparent(env, plugins, inside, k.ifFalse, scope);
    } else if k.Coalesce? {
      SilentPluginsAreTransparent(env, plugins, inside, k.left, scope);
      SilentPluginsAreTransparent(env, plugins, inside, k.right, scope);
    }
    BuiltinCongruence(env, plugins, [], inside, x, scope, scope);
  }

  /** The first answering plugin decides, whatever the built-in rules would say. */
  lemma FirstAnsweringPluginDecides(env: Env, plugins: seq<Plugin>, inside: Option<string>, x: Node, scope: VarView, k: nat)
    requires k < |plugins| && plugins[k](x, inside, scope).Some?
    requires forall j :: 0 <= j < k ==> plugins[j](x, inside, scope).None?
    ensures InferNode(env, plugins, inside, x, scope) == plugins[k](x, inside, scope).value
  {
    var r := FirstPluginAnswer(plugins, x, inside, scope);
    assert r.Some?;
    var k' :| 0 <= k' < |plugins| && r == plugins[k'](x, inside, scope)
              && forall j :: 0 <= j < k' ==> plugins[j](x, inside, scope).None?;
    assert k' == k;
  }

  /**
   * Constant fetches: `null`, `true` and `false` in any letter case have fixed
   * answers; any other constant is (MIXED, unknown) whether or not the
   * index defines it.
   */
  lemma ConstantFetchInference(env: Env, inside: Option<string>, x: Node, scope: VarView)
    requires x.kind.ConstFetch?
    ensures var r := InferNode(env, [], inside, x, scope);
      && (EqualsIgnoreCase(x.kind.cname, "null") ==> r == Inferred(NULL_TYPE, Possible))
      && (EqualsIgnoreCase(x.kind.cname, "true") ==> r == Inferred(BOOL_TYPE, Impossible))
      && (EqualsIgnoreCase(x.kind.cname, "false") ==> r == Inferred(BOOL_TYPE, Impossible))
      && ((!EqualsIgnoreCase(x.kind.cname, "null") && !EqualsIgnoreCase(x.kind.cname, "true")
           && !EqualsIgnoreCase(x.kind.cname, "false")) ==> r == Fallback)
      && r == InferNode(env.(isDefined := (c: string) => !env.isDefined(c)), [], inside, x, scope)
  {
    assert InferNode(env, [], inside, x, scope) == Builtin(env, [], inside, x, scope);
    assert Lower("null")[0] == 'n' && Lower("true")[0] == 't' && Lower("false")[0] == 'f';
  }

  /**
   * A variable: `$this` inside a class is that class and never null; a
   * variable the scope knows with a defined type has the scope's answer;
   * anything else is (MIXED, unknown).
   */
  lemma VariableInference(env: Env, inside: Option<string>, x: Node, scope: VarView)
    requires x.kind.Variable?
    ensures var r := InferNode(env, [], inside, x, scope);
      var name := x.kind.name;
      && (name == Str("this") && inside.Some? ==> r == Inferred(inside.value, Impossible))
      && (name.Str? && !(name.s == "this" && inside.Some?) && name.s in scope && scope[name.s].typ != UNDEFINED
          ==> r == Inferred(scope[name.s].typ, scope[name.s].nullability))
      && (!name.Str? || (!(name.s == "this" && inside.Some?) && (name.s !in scope || scope[name.s].typ == UNDEFINED))
          ==> r == Fallback)
  {
  }

  /**
   * A named function call: a declared return type wins and is never null;
   * otherwise the doc-block type is used only when so configured; an
   * unknown function, or a call through an expression, is (MIXED, unknown).
   */
  lemma FunctionCallInference(env: Env, inside: Option<string>, x: Node, scope: VarView)
    requires x.kind.FuncCall?
    ensures var r := InferNode(env, [], inside, x, scope);
      && (!x.kind.fname.QName? ==> r == Fallback)
      && (x.kind.fname.QName? && env.functionNamed(x.kind.fname.s).None? ==> r == Fallback)
      && (x.kind.fname.QName? && env.functionNamed(x.kind.fname.s).Some?
          && Truthy(env.constFromName(env.functionNamed(x.kind.fname.s).value.returnType))
          ==> r == Inferred(env.constFromName(env.functionNamed(x.kind.fname.s).value.returnType), Impossible))
      && (r.nullability == Unknown && r != Fallback ==> env.useDocBlockForReturnValues)
  {
  }

  /**
   * An instance method call is looked up only for a plain-string method name
   * on a receiver whose inferred type is a class name (non-empty, not a
   * `!`-sentinel); otherwise it is (MIXED, unknown).
   */
  lemma MethodCallInference(env: Env, inside: Option<string>, x: Node, scope: VarView)
    requires x.kind.MethodCall?
    ensures var r := InferNode(env, [], inside, x, scope);
      var recv := InferNode(env, [], inside, x.kind.receiver, scope).typ;
      && (!x.kind.mname.Str? || !Resolvable(recv) ==> r == Fallback)
      && (x.kind.mname.Str? && Resolvable(recv) ==> r == InferMethodCallInternal(env, recv, x.kind.mname.s))
  {
    assert InferNode(env, [], inside, x, scope) == InferMethodCall(env, [], inside, x, scope);
  }

  /** With doc-block property types switched off every property fetch is (MIXED, unknown); a found property is never claimed non-null. */
  lemma PropertyFetchInference(env: Env, inside: Option<string>, x: Node, scope: VarView)
    requires x.kind.PropertyFetch?
    ensures var r := InferNode(env, [], inside, x, scope);
      && (!env.useDocBlockForProperties ==> r == Fallback)
      && r.nullability == Unknown
  {
    assert InferNode(env, [], inside, x, scope) == InferPropertyFetch(env, [], inside, x, scope);
  }

  /** An element of an `X[]` value is an `X` of unknown nullability; any other base gives (MIXED, unknown). */
  lemma ArrayElementInference(env: Env, inside: Option<string>, x: Node, scope: VarView)
    requires x.kind.ArrayDimFetch?
    ensures var r := InferNode(env, [], inside, x, scope);
      var base := InferNode(env, [], inside, x.kind.base, scope).typ;
      && (EndsWithBrackets(base) ==> r.typ + "[]" == base && r.nullability == Unknown)
      && (!EndsWithBrackets(base) ==> r == Fallback)
  {
  }

  /** `a ? b : c`: swapping the two arms does not change the answer. */
  lemma JoinsAreSymmetric(env: Env, inside: Option<string>, x: Node, y: Node, scope: VarView)
    requires x.kind.Ternary? && y.kind.Ternary? && x.kind.ifTrue.Some?
    requires y.kind.ifTrue == Some(x.kind.ifFalse) && y.kind.ifFalse == x.kind.ifTrue.value
    ensures InferNode(env, [], inside, x, scope) == InferNode(env, [], inside, y, scope)
  {
  }

  /** The ternary and `??` joins: the type survives only when both sides agree; `??` takes the right side's nullability. */
  lemma JoinInference(env: Env, inside: Option<string>, x: Node, scope: VarView)
    requires x.kind.Ternary? || x.kind.Coalesce?
    ensures var r := InferNode(env, [], inside, x, scope);
      var a := if x.kind.Ternary? then (if x.kind.ifTrue.Some? then InferNode(env, [], inside, x.kind.ifTrue.value, scope) else Fallback)
               else InferNode(env, [], inside, x.kind.left, scope);
      var b := InferNode(env, [], inside, if x.kind.Ternary? then x.kind.ifFalse else x.kind.right, scope);
      && (a.typ == b.typ ==> r.typ == a.typ)
      && (a.typ != b.typ ==> r.typ == MIXED_TYPE)
      && (x.kind.Ternary? ==> (r.nullability == Possible <==> a.nullability == Possible || b.nullability == Possible)
                              && r.nullability != Impossible)
      && (x.kind.Coalesce? ==> r.nullability == b.nullability)
  {
  }

  /** A scalar literal, `<=>` and a closure have fixed answers, none of them null. */
  lemma FixedFormInference(env: Env, inside: Option<string>, x: Node, scope: VarView)
    requires x.kind.Scalar? || x.kind.Spaceship? || x.kind.Closure?
    ensures var r := InferNode(env, [], inside, x, scope);
      && r.nullability == Impossible
      && (x.kind.Scalar? ==> r.typ == SCALAR_TYPE)
      && (x.kind.Spaceship? ==> r.typ == INT_TYPE)
      && (x.kind.Closure? ==> r.typ == "Closure")
  {
  }

  /** `new Name` is never null and has that class, `self` or `static` standing for the enclosing class (MIXED outside one). */
  lemma NewInference(env: Env, inside: Option<string>, x: Node, scope: VarView)
    requires x.kind.New?
    ensures var r := InferNode(env, [], inside, x, scope);
      var c := x.kind.cls;
      && (!c.QName? ==> r == Fallback)
      && (c.QName? ==> r.nullability == Impossible)
      && (c.QName? && !EqualsIgnoreCase(c.s, "self") && !EqualsIgnoreCase(c.s, "static") ==> r.typ == c.s)
      && (c.QName? && (EqualsIgnoreCase(c.s, "self") || EqualsIgnoreCase(c.s, "static")) ==>
            r.typ == if inside.Some? then inside.value else MIXED_TYPE)
  {
  }

  /** A compound assignment and a `clone` have the answer of their inner expression. */
  lemma TransparentFormInference(env: Env, inside: Option<string>, x: Node, scope: VarView)
    requires x.kind.AssignOp? || x.kind.CloneExpr?
    ensures InferNode(env, [], inside, x, scope) == InferNode(env, [], inside, x.kind.expr, scope)
  {
  }

  /** A static call: the class is inferred when it is an expression and taken as written otherwise; only a resolvable class and a plain-string method name are looked up. */
  lemma StaticCallInference(env: Env, inside: Option<string>, x: Node, scope: VarView)
    requires x.kind.StaticCall?
    ensures var r := InferNode(env, [], inside, x, scope);
      var cls := if x.kind.cls.Dyn? then InferNode(env, [], inside, x.kind.cls.expr, scope).typ else x.kind.cls.s;
      && (!x.kind.mname.Str? || !Resolvable(cls) ==> r == Fallback)
      && (x.kind.mname.Str? && Resolvable(cls) ==> r == InferMethodCallInternal(env, cls, x.kind.mname.s))
  {
    assert InferNode(env, [], inside, x, scope) == InferStaticMethodCall(env, [], inside, x, scope);
  }

  /** A method the index resolves: a declared return type wins and is never null; a doc-block type is used only when so configured, with unknown nullability. */
  lemma MethodLookupInference(env: Env, cls: string, name: string)
    ensures var r := InferMethodCallInternal(env, cls, name);
      && (env.methodAndHost(cls, name).None? ==> r == Fallback)
      && (env.methodAndHost(cls, name).Some? && Truthy(env.constFromName(env.methodAndHost(cls, name).value.0.returnType))
          ==> r == Inferred(env.constFromName(env.methodAndHost(cls, name).value.0.returnType), Impossible))
      && (r.nullability == Unknown && r != Fallback ==> env.useDocBlockForReturnValues)
      && r.nullability != Possible
  {
  }

  /** Every expression form the rules do not name is (MIXED, unknown). */
  lemma UnmatchedFormsFallBack(env: Env, inside: Option<string>, x: Node, scope: VarView)
    requires !(x.kind.AssignOp? || x.kind.Scalar? || x.kind.New? || x.kind.Variable? || x.kind.Closure?
               || x.kind.FuncCall? || x.kind.MethodCall? || x.kind.PropertyFetch? || x.kind.ArrayDimFetch?
               || x.kind.CloneExpr? || x.kind.ConstFetch? || x.kind.Ternary? || x.kind.Spaceship?
               || x.kind.Coalesce? || x.kind.StaticCall?)
    ensures InferNode(env, [], inside, x, scope) == Fallback
  {
  }

  /**
   * A method, static-method or property name held as an `Identifier`
   * node (not a plain string) fails the `gettype(...) == "string"` gate:
   * the inference falls back.
   */
  lemma IdentifierNamesFallBack(env: Env, inside: Option<string>, x: Node, scope: VarView)
    requires (x.kind.MethodCall? && x.kind.mname.Ident?) || (x.kind.StaticCall? && x.kind.mname.Ident?)
             || (x.kind.PropertyFetch? && x.kind.pname.Ident?)
    ensures InferNode(env, [], inside, x, scope) == Fallback
  {
    if x.kind.PropertyFetch? {
      assert InferNode(env, [], inside, x, scope) == InferPropertyFetch(env, [], inside, x, scope);
    } else if x.kind.StaticCall? {
      StaticCallInference(env, inside, x, scope);
    } else {
      MethodCallInference(env, inside, x, scope);
    }
  }
}
