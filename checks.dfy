/**
 * The check registry built by the analyzer's constructor: for every node
 * type, the checks that asked for it, in registration order.
 */
module Checks {
  import opened Common
  import opened Ast
  import opened Scopes
  import opened Collaborators
  import UnreachableCode

  /** A registered check: the one modelled here, or one whose behaviour is a parameter. */
  datatype Check = UnreachableCodeCheck | External(name: string, nodeTypes: seq<NodeType>)

  /** `getCheckNodeTypes`. */
  function NodeTypesOf(c: Check): seq<NodeType> {
    match c
    case UnreachableCodeCheck => UnreachableCode.CheckNodeTypes()
    case External(_, ts) => ts
  }

  /** `c` repeated `n` times. */
  function Repeat(c: Check, n: nat): (r: seq<Check>)
    ensures |r| == n && forall k :: 0 <= k < n ==> r[k] == c
  {
    if n == 0 then [] else Repeat(c, n - 1) + [c]
  }

  /** How often `t` occurs in `ts`. */
  function Occurrences(ts: seq<NodeType>, t: NodeType): nat {
    if ts == [] then 0 else Occurrences(ts[..|ts| - 1], t) + (if ts[|ts| - 1] == t then 1 else 0)
  }

  /** The checks registered for `t`: each checker, in order, once for every time it lists `t`. */
  function Registered(checkers: seq<Check>, t: NodeType): seq<Check> {
    if checkers == [] then []
    else
      var last := checkers[|checkers| - 1];
      Registered(checkers[..|checkers| - 1], t) + Repeat(last, Occurrences(NodeTypesOf(last), t))
  }

  /** A checker is registered for `t` exactly when it lists `t`. */
  lemma {:induction false} RegisteredIffListed(checkers: seq<Check>, t: NodeType, c: Check)
    ensures c in Registered(checkers, t) <==> exists k :: 0 <= k < |checkers| && checkers[k] == c && t in NodeTypesOf(c)
  {
    if checkers != [] {
      var init := checkers[..|checkers| - 1];
      var last := checkers[|checkers| - 1];
      RegisteredIffListed(init, t, c);
      OccurrencesPositive(NodeTypesOf(last), t);
      if c in Registered(checkers, t) && c !in Registered(init, t) {
        assert c == last;
        assert checkers[|checkers| - 1] == c;
      }
      if exists k :: 0 <= k < |checkers| && checkers[k] == c && t in NodeTypesOf(c) {
        var k :| 0 <= k < |checkers| && checkers[k] == c && t in NodeTypesOf(c);
        if k < |checkers| - 1 {
          assert init[k] == c;
        } else {
          assert Repeat(last, Occurrences(NodeTypesOf(last), t))[0] == c;
        }
      }
    }
  }

  lemma {:induction false} OccurrencesPositive(ts: seq<NodeType>, t: NodeType)
    ensures Occurrences(ts, t) > 0 <==> t in ts
  {
    if ts != [] {
      OccurrencesPositive(ts[..|ts| - 1], t);
      assert ts == ts[..|ts| - 1] + [ts[|ts| - 1]];
    }
  }

  /** What the registry holds under `t` once `checker` has been registered for the node types `ts`. */
  function Expected(table0: map<NodeType, seq<Check>>, checker: Check, ts: seq<NodeType>, t: NodeType): seq<Check> {
    (if t in table0 then table0[t] else []) + Repeat(checker, Occurrences(ts, t))
  }

  lemma OccurrencesStep(types: seq<NodeType>, j: nat, t: NodeType)
    requires j < |types|
    ensures Occurrences(types[..j + 1], t) == Occurrences(types[..j], t) + (if types[j] == t then 1 else 0)
  {
    assert types[..j + 1][..j] == types[..j];
  }

  lemma RepeatStep(c: Check, n: nat)
    ensures Repeat(c, n + 1) == Repeat(c, n) + [c]
  {
  }

  lemma ExpectedStep(table0: map<NodeType, seq<Check>>, checker: Check, types: seq<NodeType>, j: nat, t: NodeType)
    requires j < |types|
    ensures t == types[j] ==> Expected(table0, checker, types[..j + 1], t) == Expected(table0, checker, types[..j], t) + [checker]
    ensures t != types[j] ==> Expected(table0, checker, types[..j + 1], t) == Expected(table0, checker, types[..j], t)
    ensures t !in table0 && t !in types[..j] ==> Expected(table0, checker, types[..j], t) == []
  {
    var n := Occurrences(types[..j], t);
    OccurrencesStep(types, j, t);
    if t == types[j] {
      RepeatStep(checker, n);
    } else {
      assert Occurrences(types[..j + 1], t) == n;
    }
    if t !in table0 && t !in types[..j] {
      OccurrencesPositive(types[..j], t);
      assert Repeat(checker, n) == [];
    }
  }

  /** One round of that loop keeps the registry equal to `Expected` for the node types seen so far. */
  lemma RegisterStep(table0: map<NodeType, seq<Check>>, checker: Check, types: seq<NodeType>, j: nat,
                     before: map<NodeType, seq<Check>>, table: map<NodeType, seq<Check>>)
    requires j < |types|
    requires forall t :: t in before <==> t in table0 || t in types[..j]
    requires forall t :: t in before ==> before[t] == Expected(table0, checker, types[..j], t)
    requires table == if types[j] !in before then before[types[j] := [checker]] else before[types[j] := before[types[j]] + [checker]]
    ensures forall t :: t in table <==> t in table0 || t in types[..j + 1]
    ensures forall t :: t in table ==> table[t] == Expected(table0, checker, types[..j + 1], t)
  {
    assert types[..j + 1] == types[..j] + [types[j]];
    forall t
      ensures t in table <==> t in table0 || t in types[..j + 1]
      ensures t in table ==> table[t] == Expected(table0, checker, types[..j + 1], t)
    {
      ExpectedStep(table0, checker, types, j, t);
    }
  }

  /** The inner loop of the constructor: register `checker` under every node type it lists, in order. */
  method AddChecker(table0: map<NodeType, seq<Check>>, checker: Check) returns (table: map<NodeType, seq<Check>>)
    ensures forall t :: t in table <==> t in table0 || t in NodeTypesOf(checker)
    ensures forall t :: t in table ==> table[t] == Expected(table0, checker, NodeTypesOf(checker), t)
  {
    var types := NodeTypesOf(checker);
    table := table0;
    var j := 0;
    while j < |types|
      invariant 0 <= j <= |types|
      invariant forall t :: t in table <==> t in table0 || t in types[..j]
      invariant forall t :: t in table ==> table[t] == Expected(table0, checker, types[..j], t)
      decreases |types| - j
    {
      var nodeType := types[j];
      ghost var before := table;
      if nodeType !in table {
        table := table[nodeType := [checker]];
      } else {
        table := table[nodeType := table[nodeType] + [checker]];
      }
      RegisterStep(table0, checker, types, j, before, table);
      j := j + 1;
    }
    assert types[..|types|] == types;
  }

  /** The constructor's loops that fill `$this->checks`. */
  method BuildCheckTable(checkers: seq<Check>) returns (table: map<NodeType, seq<Check>>)
    ensures forall t :: t in table <==> Registered(checkers, t) != []
    ensures forall t :: t in table ==> table[t] == Registered(checkers, t)
  {
    table := map[];
    var i := 0;
    while i < |checkers|
      invariant 0 <= i <= |checkers|
      invariant forall t :: t in table <==> Registered(checkers[..i], t) != []
      invariant forall t :: t in table ==> table[t] == Registered(checkers[..i], t)
      decreases |checkers| - i
    {
      table := AddChecker(table, checkers[i]);
      assert checkers[..i + 1][..i] == checkers[..i];
      forall t
        ensures t in table <==> Registered(checkers[..i + 1], t) != []
      {
        OccurrencesPositive(NodeTypesOf(checkers[i]), t);
      }
      i := i + 1;
    }
    assert checkers[..|checkers|] == checkers;
  }

  /** The names of the built-in checks, in the order the analyzer constructs them; `UnreachableCodeCheck` is the 22nd. */
  const BUILTIN_BEFORE: seq<string> := [
    "DocBlockTypesCheck", "UndefinedVariableCheck", "DefinedConstantCheck", "BackTickOperatorCheck",
    "PropertyFetchCheck", "InterfaceCheck", "ParamTypesCheck", "StaticCallCheck", "InstantiationCheck",
    "InstanceOfCheck", "CatchCheck", "ClassConstantCheck", "FunctionCallCheck", "MethodCall", "SwitchCheck",
    "BreakCheck", "ConstructorCheck", "GotoCheck", "ReturnCheck", "StaticPropertyFetchCheck",
    "AccessingSuperGlobalsCheck"]
  const BUILTIN_AFTER: seq<string> := [
    "Psr4Check", "CyclomaticComplexityCheck", "ConditionalAssignmentCheck", "ClassMethodStringCheck",
    "UnusedPrivateMemberVariableCheck", "SplatCheck", "PropertyStoreCheck"]

  /** The checks outside this model, each with the node types it asks for. */
  function Externals(names: seq<string>, typesOf: string -> seq<NodeType>): (r: seq<Check>)
    ensures |r| == |names| && forall k :: 0 <= k < |r| ==> r[k] == External(names[k], typesOf(names[k]))
  {
    seq(|names|, k requires 0 <= k < |names| => External(names[k], typesOf(names[k])))
  }

  /** The constructor's checker list: the built-in checks, then the configured plugins. */
  function CheckerList(typesOf: string -> seq<NodeType>, plugins: seq<Check>): seq<Check> {
    Externals(BUILTIN_BEFORE, typesOf) + [UnreachableCodeCheck] + Externals(BUILTIN_AFTER, typesOf) + plugins
  }

  /** Whatever the other checks ask for, the unreachable-code check runs on every function and class method. */
  lemma UnreachableCodeCheckIsRegistered(typesOf: string -> seq<NodeType>, plugins: seq<Check>)
    ensures UnreachableCodeCheck in Registered(CheckerList(typesOf, plugins), TFunction)
    ensures UnreachableCodeCheck in Registered(CheckerList(typesOf, plugins), TClassMethod)
  {
    var list := CheckerList(typesOf, plugins);
    var k := |BUILTIN_BEFORE|;
    assert list[k] == UnreachableCodeCheck;
    RegisteredIffListed(list, TFunction, UnreachableCodeCheck);
    RegisteredIffListed(list, TClassMethod, UnreachableCodeCheck);
  }
}
