/**
 * The syntax tree the analyzer walks, reduced to the node kinds the
 * traversal hooks, the guard recogniser, the type inferrer and the
 * reachability evaluator look at. Every other kind is `Other`.
 *
 * A node carries an id (its identity: the attribute bag the analyzer
 * writes into is keyed by it), its source line, the inline variable
 * types a documentation comment attached to it, and its kind.
 */
module Ast {
  import opened Common

  /**
   * A name slot of a node. The source tests these slots in different
   * ways (a plain PHP string, an Identifier node, a Name node, or an
   * arbitrary expression for a dynamic name) and the model keeps them
   * apart so that every such test reads as written.
   */
  datatype NameRef = Str(s: string) | Ident(s: string) | QName(s: string) | Dyn(expr: Node)

  /** A declared parameter type, with the `?T` wrapper kept apart. */
  datatype TypeHint = Plain(name: string) | NullableHint(inner: string)

  datatype Param = Param(name: string, hint: Option<TypeHint>, hasDefault: bool, variadic: bool, line: int)

  datatype Arg = Arg(value: Node)

  datatype ArrayItem = ArrayItem(key: Option<Node>, value: Option<Node>, line: int)

  /** A switch case; `cond` is None for `default`. */
  datatype Case = Case(cond: Option<Node>, body: seq<Node>)

  datatype Node = Node(id: nat, line: int, inlineVars: seq<(string, string)>, kind: Kind)

  datatype Kind =
    // expressions
    | Variable(name: NameRef)
    | ConstFetch(cname: string)
    | Scalar
    | New(cls: NameRef)
    | Closure(isStatic: bool, params: seq<Param>, uses: seq<Node>, body: seq<Node>)
    | ClosureUse(useVar: Node, byRef: bool)
    | ArrowFunction(isStatic: bool, params: seq<Param>, expr: Node)
    | FuncCall(fname: NameRef, args: seq<Arg>)
    | MethodCall(receiver: Node, mname: NameRef, args: seq<Arg>)
    | StaticCall(cls: NameRef, mname: NameRef, args: seq<Arg>)
    | PropertyFetch(obj: Node, pname: NameRef)
    | ArrayDimFetch(base: Node, dim: Option<Node>)
    | CloneExpr(expr: Node)
    | AssignOp(target: Node, expr: Node)
    | Assign(target: Node, expr: Node)
    | AssignRef(target: Node, expr: Node)
    | Ternary(cond: Node, ifTrue: Option<Node>, ifFalse: Node)
    | Coalesce(left: Node, right: Node)
    | Spaceship(left: Node, right: Node)
    | BooleanOr(left: Node, right: Node)
    | BooleanAnd(left: Node, right: Node)
    | NotEqual(left: Node, right: Node)
    | NotIdentical(left: Node, right: Node)
    | Instanceof(expr: Node, cls: NameRef)
    | Isset(vars: seq<Node>)
    | BooleanNot(expr: Node)
    | Empty(expr: Node)
    | ListExpr(items: seq<Option<ArrayItem>>)
    | ArrayExpr(items: seq<Option<ArrayItem>>)
    | Exit(status: Option<Node>)
    // declarations and statements
    | ClassDecl(namespacedName: string, members: seq<Node>)
    | TraitDecl(traitName: string, members: seq<Node>)
    | ClassMethod(isStatic: bool, params: seq<Param>, stmts: Option<seq<Node>>)
    | Function(params: seq<Param>, body: seq<Node>)
    | StaticVar(varName: string, default: Option<Node>)
    | Catch(types: seq<string>, varName: string, body: seq<Node>)
    | Global(vars: seq<Node>)
    | Foreach(expr: Node, keyVar: Option<Node>, valueVar: Node, body: seq<Node>)
    | If(cond: Node, body: seq<Node>, elseifs: seq<Node>, els: Option<Node>)
    | ElseIf(cond: Node, body: seq<Node>)
    | Else(body: seq<Node>)
    | Switch(subject: Node, cases: seq<Case>)
    | Return(result: Option<Node>)
    | Break
    | Nop
    /** Any other node; `isExpr` says whether its class is an expression class. */
    | Other(className: string, isExpr: bool, children: seq<Node>)

  /** The node's class, the key of the hook and check tables. */
  datatype NodeType =
    | TVariable | TConstFetch | TScalar | TNew | TClosure | TClosureUse | TArrowFunction
    | TFuncCall | TMethodCall | TStaticCall | TPropertyFetch | TArrayDimFetch | TClone
    | TAssignOp | TAssign | TAssignRef | TTernary | TCoalesce | TSpaceship | TBooleanOr
    | TBooleanAnd | TNotEqual | TNotIdentical | TInstanceof | TIsset | TBooleanNot | TEmpty
    | TList | TArray | TExit | TClass | TTrait | TClassMethod | TFunction | TStaticVar
    | TCatch | TGlobal | TForeach | TIf | TElseIf | TElse | TSwitch | TReturn | TBreak
    | TNop | TOther(cls: string)

  /** `get_class($node)`. */
  function TypeOf(n: Node): NodeType {
    match n.kind
    case Variable(_) => TVariable
    case ConstFetch(_) => TConstFetch
    case Scalar => TScalar
    case New(_) => TNew
    case Closure(_, _, _, _) => TClosure
    case ClosureUse(_, _) => TClosureUse
    case ArrowFunction(_, _, _) => TArrowFunction
    case FuncCall(_, _) => TFuncCall
    case MethodCall(_, _, _) => TMethodCall
    case StaticCall(_, _, _) => TStaticCall
    case PropertyFetch(_, _) => TPropertyFetch
    case ArrayDimFetch(_, _) => TArrayDimFetch
    case CloneExpr(_) => TClone
    case AssignOp(_, _) => TAssignOp
    case Assign(_, _) => TAssign
    case AssignRef(_, _) => TAssignRef
    case Ternary(_, _, _) => TTernary
    case Coalesce(_, _) => TCoalesce
    case Spaceship(_, _) => TSpaceship
    case BooleanOr(_, _) => TBooleanOr
    case BooleanAnd(_, _) => TBooleanAnd
    case NotEqual(_, _) => TNotEqual
    case NotIdentical(_, _) => TNotIdentical
    case Instanceof(_, _) => TInstanceof
    case Isset(_) => TIsset
    case BooleanNot(_) => TBooleanNot
    case Empty(_) => TEmpty
    case ListExpr(_) => TList
    case ArrayExpr(_) => TArray
    case Exit(_) => TExit
    case ClassDecl(_, _) => TClass
    case TraitDecl(_, _) => TTrait
    case ClassMethod(_, _, _) => TClassMethod
    case Function(_, _) => TFunction
    case StaticVar(_, _) => TStaticVar
    case Catch(_, _, _) => TCatch
    case Global(_) => TGlobal
    case Foreach(_, _, _, _) => TForeach
    case If(_, _, _, _) => TIf
    case ElseIf(_, _) => TElseIf
    case Else(_) => TElse
    case Switch(_, _) => TSwitch
    case Return(_) => TReturn
    case Break => TBreak
    case Nop => TNop
    case Other(c, _, _) => TOther(c)
  }

  /** `$node instanceof FunctionLike`. */
  predicate IsFunctionLike(n: Node) {
    n.kind.Closure? || n.kind.ArrowFunction? || n.kind.ClassMethod? || n.kind.Function?
  }

  /** `$node instanceof Node\Expr`. */
  predicate IsExpr(n: Node) {
    !(n.kind.ClassDecl? || n.kind.TraitDecl? || n.kind.ClassMethod? || n.kind.Function?
      || n.kind.StaticVar? || n.kind.Catch? || n.kind.Global? || n.kind.Foreach?
      || n.kind.If? || n.kind.ElseIf? || n.kind.Else? || n.kind.Switch? || n.kind.Return?
      || n.kind.Break? || n.kind.Nop? || (n.kind.Other? && !n.kind.isExpr))
  }

  /** The name of a variable node whose name is a plain string (`is_string($v->name)`). */
  predicate IsNamedVariable(n: Node) {
    n.kind.Variable? && n.kind.name.Str?
  }

  function VariableName(n: Node): string
    requires IsNamedVariable(n)
  {
    n.kind.name.s
  }

  /** The statements of an `elseif` or `else` clause (`$clause->stmts`). */
  function ClauseBody(n: Node): seq<Node> {
    match n.kind
    case ElseIf(_, b) => b
    case Else(b) => b
    case _ => []
  }
}
