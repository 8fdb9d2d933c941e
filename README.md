# guardrail static analyzer core, in Dafny

This project models the core of guardrail, a static analyzer for PHP. The modelled part is the pass that walks one file's syntax tree and keeps track of variables. It covers:

- **`StaticAnalyzer`** (the node visitor):
  - a stack of enclosing classes and a stack of variable scopes;
  - the *enter* and *leave* hooks that push, narrow, seed, merge and pop those scopes;
  - the per-node-type registry of checks, and the order in which `enterNode` runs inline-variable recording, the hook and the checks;
  - the unused-variable report emitted when a function scope is left.
- **`TypeInferrer`**: the pure, recursive `inferType`, which maps an expression to a pair of type and nullability. Plugins are consulted first.
- **`BranchEvaluator`**: decides whether a statement list always exits (`return`, `exit`, an `if` whose arms all exit, a `switch` whose cases all exit and that has a `default`). It records the statements it reports as unreachable in its `errors` list.
- **`UnreachableCodeCheck`**: runs a fresh evaluator over the body of every function or method that has at least two statements, and emits one finding per recorded statement.

Layout (one module per file):

| file | module | contents |
|---|---|---|
| `common.dfy` | `Common` | `Option`, PHP string truthiness, ASCII case folding, the `[]` suffix of array types |
| `php_types.dfy` | `PhpTypes` | the scope's type sentinels (`UNDEFINED`, `MIXED_TYPE`, `NULL_TYPE`, …) and the nullability values |
| `ast.dfy` | `Ast` | the syntax-tree nodes the core inspects, with unique ids and lines |
| `scopes.dfy` | `Scopes` | variable records, scopes, the scope stack, by-reference bindings, clone, merge, unused variables |
| `collaborators.dfy` | `Collaborators` | the symbol table, the configuration flags and the docblock reader, as uninterpreted functions in `Env`; findings |
| `type_inference.dfy` | `TypeInference` | `inferType` and its lemmas |
| `guards.dfy` | `Guards` | `checksForNonNullVariable`, `getIfCond` and what a recognised guard guarantees |
| `reachability.dfy` | `Reachability` | the exit specification (`Scan`, `StmtVerdict`, …) and the imperative `BranchEvaluator` class |
| `unreachable_check.dfy` | `UnreachableCode` | the check's `run` |
| `checks.dfy` | `Checks` | the checker list of the constructor and the per-node-type registry it builds |
| `traversal.dfy` | `Traversal` | the analyzer's state as a value, and one specification function per hook, plus `Enter` and `Leave` |
| `traversal_props.dfy` | `TraversalProperties` | the lemmas about the hooks |
| `analysis.dfy` | `Analysis` | the `StaticAnalyzer` class, whose methods update the stacks in place and are proved against `Traversal` |

How the model reads the code:

- `StaticAnalyzer` and `BranchEvaluator` mutate fields, so they are classes. Every method ties the new fields to a specification function of the old ones, and `TraversalProperties` proves what those functions promise.
- Loops over parameters, closure uses, list items, globals, by-reference arguments, the checks of a node, statements, `elseif`s and `switch` cases are `while` loops, each with invariants.
- `inferType` is pure, so it is a recursive function.
- A type is a string, as in the source. The source tests it with `==`, `$t[0] != "!"` and a trailing `[]`.
- Nullability is `Impossible | Possible | Unknown`.
- PHP truthiness of strings (`""` and `"0"` are false) is modelled wherever the source writes `if ($s)`.
- A name slot of a node is one of: a plain string, an `Identifier`, a `Name`, or an expression. That keeps every `gettype(...) == "string"` and `instanceof Name` gate as written.

Where the code behaves differently from what its names and comments suggest, the model follows the code:

- **The statement reported as unreachable.** The reported statement is the exiting statement itself, not the statement after it. The skip-`Nop` loop in `statementsAlwaysExit` starts at the statement that exits, so it also reports a lone `return` at the end of a body. See `ScanFindsFirstExitingStatement` and `FlatFunctionReportsFirstExit`.
- **`if` with an `elseif` never counts as exiting.** The `else` is evaluated a second time, and an exiting `else` makes the answer false. See `IfWithElseIfNeverExits`.
- **The `get_defined_vars()` leave hook never fires.** The function name is compared with `"get_defined_vars()"`, parentheses included, so no name matches. See `GetDefinedVarsHookNeverFires`.
- **The `ClosureUse` leave hook never fires.** It tests `is_string($node->var)`, but `var` is always a node.
- **Identifier-named calls and fetches are never resolved.** The same parser gives method-call, static-call and property-fetch names as `Identifier` nodes, and the source itself reads `$node->name->name` for a method call. So these `gettype(...) == "string"` gates never pass:
  - `inferMethodCall`, `inferStaticMethodCall` and `inferPropertyFetch` in `TypeInferrer`, which therefore always give the fallback (see `IdentifierNamesFallBack`);
  - the static-call enter hook, which therefore never marks by-reference arguments MIXED (see `IdentifierNamedStaticCallIsIgnored`).

  The model keeps the gates as written (`NameRef.Str`). The rows for `MethodCallInference`, `StaticCallInference`, `MethodLookupInference`, `PropertyFetchInference` and `StaticCallHook` describe the string-named path, which that parser never produces.
- **`exit;` is not an exit statement.** The parser wraps `exit;` in an expression statement, so the evaluator's `instanceof Exit_` test never matches a statement, and only `return` exits (see `WrappedExitDoesNotExit`). The model keeps an `Exit` statement kind as the evaluator tests it. The `exit` cases of `StatementKinds`, `FlatListWitness` and `FlatFunctionReportsFirstExit` describe that test, not a path the parser produces.
- **A `||` condition yields its left operand's variable**, without the right one guaranteeing it. See `DisjunctionReportsLeftVariable`.
- **`!is_null($x)` is compared case-sensitively.** `!IS_NULL($x)` is therefore not recognised. See `UpperCaseIsNullIsNotRecognised`.
- **A variable that is not in the scope infers as the fallback** (`MIXED_TYPE`, nullability unknown).

## Model

| member | source | states |
|---|---|---|
| Analysis.StaticAnalyzer.constructor | src/NodeVisitors/StaticAnalyzer.php:126-180 | The analyzer starts with one global scope, an empty class stack and no findings, and infers types with the plugin-free inferrer. A node type has a registry entry exactly when some listed checker handles it, and that entry holds exactly those checkers, in list order and with repetitions. |
| Analysis.StaticAnalyzer.SetFile | src/NodeVisitors/StaticAnalyzer.php:189-192 | Setting the file name resets the scope stack to a single empty global scope and keeps the findings. |
| Analysis.StaticAnalyzer.SetScopeType | src/NodeVisitors/StaticAnalyzer.php:851-865 | The innermost scope is updated by the widening rule (proved in `ScopeTypeWidening`); nothing else in the analyzer changes. |
| Analysis.ScopeType | src/NodeVisitors/StaticAnalyzer.php:851-865 | The stack-level `setScopeType` computes the widening rule's stack. |
| Analysis.StaticAnalyzer.SetScopeExpression | src/NodeVisitors/StaticAnalyzer.php:830-838 | The variable takes the inferred type by the widening rule in the enclosing class's context, and a possibly-null value marks it nullable. |
| Analysis.StaticAnalyzer.PushIfScope | src/NodeVisitors/StaticAnalyzer.php:614-635 | Exactly one scope is pushed: a clone of the top scope, recording `previous` for `mergePrevious`, in which the condition's `instanceof` cast and the guarded variable are narrowed. |
| Analysis.StaticAnalyzer.PushShortCircuitAndScope | src/NodeVisitors/StaticAnalyzer.php:642-655 | Pushes a clone narrowed by the left operand of `&&`. The guarded variable becomes non-null with its type kept. |
| Analysis.StaticAnalyzer.PushShortCircuitOrScope | src/NodeVisitors/StaticAnalyzer.php:662-667 | Pushes a plain clone of the top scope. |
| Analysis.StaticAnalyzer.PushFunctionScope | src/NodeVisitors/StaticAnalyzer.php:727-797 | Pushes the seeded function scope and appends the unknown-variable findings for closure `use`s. Everything else is unchanged. |
| Analysis.StaticAnalyzer.FunctionScopeStack | src/NodeVisitors/StaticAnalyzer.php:738-797 | Computes the new stack: parameters are seeded, an arrow function's scope is merged with the enclosing one, and closure uses are captured. |
| Analysis.SeedParameters | src/NodeVisitors/StaticAnalyzer.php:741-764 | The parameter loop yields the seeded stack (see `SeedParamsSeeds`). |
| Analysis.SeedParameter | src/NodeVisitors/StaticAnalyzer.php:742-763 | One parameter gets its declared type (for a variadic, `T[]`, or the array type when untyped), is marked used, is non-null when typed without a default or variadic, and is flagged as a touched parameter unless variadic. |
| Analysis.StaticAnalyzer.CaptureClosureUses | src/NodeVisitors/StaticAnalyzer.php:769-790 | The `use` loop captures each named variable and reports each unknown one, in order. |
| Analysis.StaticAnalyzer.CaptureClosureUse | src/NodeVisitors/StaticAnalyzer.php:770-789 | One `use` is reported if unknown, shared if by reference, or copied if by value. |
| Analysis.StaticAnalyzer.HandleAssignment | src/NodeVisitors/StaticAnalyzer.php:913-951 | An assignment records its target as an assignment target and updates the variable, the list items or the array base as `AssignmentAfter` specifies (see `AssignmentRecordsTarget`, `DimAssignmentMakesArray`). |
| Analysis.StaticAnalyzer.ItemsToMixed | src/NodeVisitors/StaticAnalyzer.php:926-936 | Every keyless variable item of a `list()` becomes MIXED (see `ItemsBecomeMixed`). |
| Analysis.MixListItems | src/NodeVisitors/StaticAnalyzer.php:926-936 | The item loop computes the items rule on the stack. |
| Analysis.StaticAnalyzer.AddReferenceParametersToLocalScope | src/NodeVisitors/StaticAnalyzer.php:1023-1038 | Every named variable passed in a by-reference position becomes MIXED, and no other name changes. |
| Analysis.MixRefArgs | src/NodeVisitors/StaticAnalyzer.php:1023-1038 | The argument loop computes the by-reference rule on the stack. |
| Analysis.StaticAnalyzer.GlobalHook | src/NodeVisitors/StaticAnalyzer.php:343-351 | Every named variable of a `global` statement becomes MIXED. |
| Analysis.MixGlobals | src/NodeVisitors/StaticAnalyzer.php:343-351 | The loop over `global` variables computes the globals rule on the stack. |
| Analysis.StaticAnalyzer.ForeachHook | src/NodeVisitors/StaticAnalyzer.php:401-431 | The key becomes MIXED. The value takes the element type of the iterated expression's inferred array type (MIXED otherwise), and `list()` values become MIXED. |
| Analysis.StaticAnalyzer.ForeachValueHook | src/NodeVisitors/StaticAnalyzer.php:410-429 | The value variable, or the items of a `list()` value, are bound from the iterated type. |
| Analysis.StaticAnalyzer.CatchHook | src/NodeVisitors/StaticAnalyzer.php:338-341 | The caught variable takes the single declared type (MIXED for a multi-catch) and is marked used. |
| Analysis.StaticAnalyzer.MethodCallHook | src/NodeVisitors/StaticAnalyzer.php:353-363 | When the receiver's inferred type resolves to a method, its by-reference arguments become MIXED. |
| Analysis.StaticAnalyzer.StaticCallHook | src/NodeVisitors/StaticAnalyzer.php:365-372 | For a named class and method that resolve, the by-reference arguments become MIXED. |
| Analysis.StaticAnalyzer.FuncCallHook | src/NodeVisitors/StaticAnalyzer.php:374-399 | `assert($x instanceof C)` narrows `$x` to `C`, and the by-reference arguments of a known function become MIXED. |
| Analysis.StaticAnalyzer.TernaryHook | src/NodeVisitors/StaticAnalyzer.php:438-451 | A ternary with a middle part pushes the narrowed true-branch scope. The middle part and the false part are scheduled to merge on leave. |
| Analysis.StaticAnalyzer.EnterScopeHook | src/NodeVisitors/StaticAnalyzer.php:433-468 | The enter hooks of `elseif`, `else`, `?:`, `if`, `||` and `&&` compute the specified state. |
| Analysis.StaticAnalyzer.EnterVariableHook | src/NodeVisitors/StaticAnalyzer.php:326-351 | The enter hooks of assignment, reference assignment, static variable, `catch`, `global`, method call, static call, function call and `foreach` compute the specified state. |
| Analysis.StaticAnalyzer.RunEnterHook | src/NodeVisitors/StaticAnalyzer.php:297-471 | Dispatches on the node type to the one hook that applies, or to none. The result is the specified state and findings. |
| Analysis.StaticAnalyzer.RecordInlineVars | src/NodeVisitors/StaticAnalyzer.php:488-496 | Each inline docblock type overwrites the variable's type in the top scope (no widening), in docblock order. |
| Analysis.StaticAnalyzer.RunCheck | src/NodeVisitors/StaticAnalyzer.php:502-513 | One check appends exactly the findings it produces for the node. |
| Analysis.StaticAnalyzer.RunChecks | src/NodeVisitors/StaticAnalyzer.php:502-513 | The checks registered for the node type run in registry order, with the enclosing class and the top scope, and the analyzer state is unchanged. |
| Analysis.StaticAnalyzer.EnterNode | src/NodeVisitors/StaticAnalyzer.php:483-515 | A trait is skipped. Otherwise the inline variables, then the hook, then the checks run, in that order; the result is `Enter`'s state and findings, and the stack stays non-empty. |
| Analysis.StaticAnalyzer.HandleUnusedVars | src/NodeVisitors/StaticAnalyzer.php:978-993 | Pops the scope and appends one finding per variable that is written but never read, each reported once (in any order). |
| Analysis.StaticAnalyzer.LeaveNode | src/NodeVisitors/StaticAnalyzer.php:960-972 | First pops and merges a scope if the node was scheduled to merge, then runs the leave hook. The result is `Leave`'s state, plus the unused-variable findings. |
| Analysis.StaticAnalyzer.RunLeaveHook | src/NodeVisitors/StaticAnalyzer.php:199-292 | Dispatches to the leave hook for the node type: a read marks used, an assignment marks written, a class is popped, a function scope is popped with its report, and a branch is merged back. |
| Checks.BuildCheckTable | src/NodeVisitors/StaticAnalyzer.php:171-179 | The registry has an entry exactly for the node types some checker handles, each listing those checkers in order. |
| Checks.AddChecker | src/NodeVisitors/StaticAnalyzer.php:172-178 | Adding one checker appends it to the entry of each node type it handles, once per occurrence, and leaves every other entry unchanged. |
| Checks.RegisteredIffListed | src/NodeVisitors/StaticAnalyzer.php:171-179 | A checker is registered for a node type if and only if it is in the list and handles that type. |
| Checks.OccurrencesPositive | src/NodeVisitors/StaticAnalyzer.php:172-178 | A node type is counted if and only if the checker lists it. |
| Checks.Externals | src/NodeVisitors/StaticAnalyzer.php:133-164 | Each named check of the constructor's list is a checker with its own node types, in list order. |
| Checks.UnreachableCodeCheckIsRegistered | src/NodeVisitors/StaticAnalyzer.php:133-179 | The unreachable-code check is registered for functions and class methods. |
| Traversal.Initial | src/NodeVisitors/StaticAnalyzer.php:189-192 | The initial stack is one empty global scope. |
| Traversal.UnusedFindings | src/NodeVisitors/StaticAnalyzer.php:981-992 | One finding per unused name, carrying the line where it was written. |
| Scopes.GetScopeClone | src/NodeVisitors/StaticAnalyzer.php:616-617 | The clone owns a copy of every variable visible at that depth, reads exactly as the original, and keeps `previous`. |
| Scopes.GetUnusedVars | src/NodeVisitors/StaticAnalyzer.php:980-981 | A variable is unused if and only if the scope owns it, it was written, and it was never read. |
| Scopes.SetVarReferenceShares | src/NodeVisitors/StaticAnalyzer.php:777-780 | After a by-reference capture, the closure's name resolves to the same binding as the enclosing scope's. |
| TraversalProperties.EnterHookDepth | src/NodeVisitors/StaticAnalyzer.php:297-471 | Each enter hook pushes exactly the stated number of scopes: one for functions, `if`, `||`, `&&`; two for a ternary with a middle part; none for `elseif`/`else`, which swap. |
| TraversalProperties.ScopeTypeWidening | src/NodeVisitors/StaticAnalyzer.php:851-865 | Same type or first assignment keeps the new type, `null` over a type keeps the old one and makes it nullable, and any other change widens to MIXED. A binding exists afterwards iff it existed or the type changed, the attributes are added, and nullability otherwise stays. |
| TraversalProperties.ScopeTypeAfterOtherName | src/NodeVisitors/StaticAnalyzer.php:851-865 | No other variable, at any depth, changes. |
| TraversalProperties.ScopeExpressionRecordsInference | src/NodeVisitors/StaticAnalyzer.php:830-838 | The inferred type is applied by the widening rule, the inferred nullability is recorded as an attribute, and a possibly-null value makes the variable nullable. |
| TraversalProperties.MixedStaysMixed | src/NodeVisitors/StaticAnalyzer.php:851-865 | Assigning MIXED leaves the variable MIXED and keeps every MIXED variable MIXED. |
| TraversalProperties.RefArgsKeepMixed | src/NodeVisitors/StaticAnalyzer.php:1023-1038 | A MIXED variable stays MIXED. |
| TraversalProperties.RefArgsBecomeMixed | src/NodeVisitors/StaticAnalyzer.php:1023-1038 | Every named variable in a by-reference position (arguments past a by-reference last parameter count too) ends MIXED. |
| TraversalProperties.RefArgsOtherNames | src/NodeVisitors/StaticAnalyzer.php:1023-1038 | A name passed in no by-reference position is untouched, at every depth. |
| TraversalProperties.GlobalsKeepMixed | src/NodeVisitors/StaticAnalyzer.php:343-351 | A MIXED variable stays MIXED through a `global` statement. |
| TraversalProperties.GlobalsBecomeMixed | src/NodeVisitors/StaticAnalyzer.php:343-351 | Every named variable of a `global` statement ends MIXED. |
| TraversalProperties.ItemsKeepMixed | src/NodeVisitors/StaticAnalyzer.php:926-936 | A MIXED variable stays MIXED through a `list()` assignment. |
| TraversalProperties.ItemsBecomeMixed | src/NodeVisitors/StaticAnalyzer.php:926-936 | Every keyless variable item of a `list()` ends MIXED. |
| TraversalProperties.PushedCloneReadsAsOriginal | src/NodeVisitors/StaticAnalyzer.php:614-635 | A pushed clone reads every variable exactly as the scope it was cloned from. |
| TraversalProperties.NarrowGuard | src/NodeVisitors/StaticAnalyzer.php:623-631 | The guarded variable becomes non-null, and a NULL type becomes MIXED. Every other variable and every lower scope is unchanged. |
| TraversalProperties.NarrowCast | src/NodeVisitors/StaticAnalyzer.php:684-688 | `$x instanceof C` gives `$x` the type `C` and makes it non-null. Every other variable and every lower scope is unchanged. |
| TraversalProperties.IfScopeNarrowsGuard | src/NodeVisitors/StaticAnalyzer.php:614-635 | The `if` scope is the old stack plus one scope in which the guarded variable is non-null (NULL becomes MIXED) and everything else reads as before. |
| TraversalProperties.IfScopeCasts | src/NodeVisitors/StaticAnalyzer.php:614-635 | Under `if ($x instanceof C)`, `$x` has type `C` and is non-null in the pushed scope. |
| TraversalProperties.AndScopeNarrowsGuard | src/NodeVisitors/StaticAnalyzer.php:642-655 | The `&&` scope makes the left operand's guarded variable non-null, keeps its type, and changes nothing else. |
| TraversalProperties.OrScopeIsPlainClone | src/NodeVisitors/StaticAnalyzer.php:662-667 | The `\|\|` scope owns its bindings and reads as the original. |
| TraversalProperties.UntouchedOrScopeMergesBackUnchanged | src/NodeVisitors/StaticAnalyzer.php:280-284 | Pushing an `\|\|` scope and merging it back without changes gives the original stack. |
| TraversalProperties.SeedParamSeeds | src/NodeVisitors/StaticAnalyzer.php:742-763 | A seeded parameter has its type, is used, has its line, gets its nullability by the typed, default and variadic rule, and carries the touched-parameter attribute; nothing else changes. |
| TraversalProperties.SeedParamsFrame | src/NodeVisitors/StaticAnalyzer.php:741-764 | Seeding touches only the function's scope, and only the parameter names. |
| TraversalProperties.SeedParamsSeeds | src/NodeVisitors/StaticAnalyzer.php:741-764 | Every parameter is seeded as `SeedParamSeeds` states. |
| TraversalProperties.FunctionScopeHoldsParameters | src/NodeVisitors/StaticAnalyzer.php:727-797 | A function or method scope holds exactly its parameters, seeded, and reports nothing. |
| TraversalProperties.ArrowFunctionSeesEnclosingScope | src/NodeVisitors/StaticAnalyzer.php:765-768 | In an arrow function, every non-parameter name reads as in the enclosing scope. |
| TraversalProperties.UnknownCaptureIsReported | src/NodeVisitors/StaticAnalyzer.php:773-775 | Capturing a variable unknown outside a global scope reports exactly one unknown-variable finding at the `use` line and changes nothing. |
| TraversalProperties.ByReferenceCaptureShares | src/NodeVisitors/StaticAnalyzer.php:777-780 | A by-reference `use` binds the closure's name to the enclosing binding itself, and no other scope changes. |
| TraversalProperties.WriteThroughSharedBinding | src/NodeVisitors/StaticAnalyzer.php:777-780 | A type written through a shared binding is seen by the enclosing scope. |
| TraversalProperties.ByValueCaptureCopies | src/NodeVisitors/StaticAnalyzer.php:782-786 | A by-value `use` gives the closure its own copy of the type (MIXED if undefined) and marks the outer variable used. |
| TraversalProperties.CapturesReportOnlyUnknownVariables | src/NodeVisitors/StaticAnalyzer.php:769-790 | Every finding of the `use` loop is an unknown-variable finding from the analyzer. |
| TraversalProperties.AssignmentRecordsTarget | src/NodeVisitors/StaticAnalyzer.php:913-925 | The target is recorded. Unless an inline docblock type overrides it, the variable takes the inferred type by the widening rule. |
| TraversalProperties.DimAssignmentMakesArray | src/NodeVisitors/StaticAnalyzer.php:937-950 | `$a[...] = ...` on an undefined `$a` makes it an array. |
| TraversalProperties.IdentifierNamedStaticCallIsIgnored | src/NodeVisitors/StaticAnalyzer.php:365-372 | A static call whose method name is an `Identifier` node changes no scope. |
| TraversalProperties.ElementTypeOfArrays | src/NodeVisitors/StaticAnalyzer.php:410-419 | The element type of `T[]` is `T`, and of a non-array type is MIXED. |
| TraversalProperties.ForeachValueTakesElementType | src/NodeVisitors/StaticAnalyzer.php:410-419 | The value variable takes the element type by the widening rule. |
| TraversalProperties.ForeachKeyIsMixed | src/NodeVisitors/StaticAnalyzer.php:404-419 | The key variable ends MIXED. |
| TraversalProperties.ForeachValueKeepsMixed | src/NodeVisitors/StaticAnalyzer.php:410-429 | Binding the value keeps every other MIXED variable MIXED. |
| TraversalProperties.CatchBindsUsedVariable | src/NodeVisitors/StaticAnalyzer.php:338-341 | The caught variable takes the declared type (MIXED for a multi-catch) by the widening rule, and is used. |
| TraversalProperties.AssertInstanceofNarrows | src/NodeVisitors/StaticAnalyzer.php:376-392 | `assert($x instanceof C)`, with any case spelling of `assert`, makes `$x` of type `C` and non-null. |
| TraversalProperties.VariableReadMarksUsed | src/NodeVisitors/StaticAnalyzer.php:201-205 | Leaving a variable read marks it used. An assignment target is left alone. Nothing is reported. |
| TraversalProperties.AssignmentMarksWritten | src/NodeVisitors/StaticAnalyzer.php:222-238 | Leaving an assignment records the write line of its target. |
| TraversalProperties.NoParenthesisNoMatch | src/NodeVisitors/StaticAnalyzer.php:213-220 | A name without `(` never equals `get_defined_vars()`, in any case. |
| TraversalProperties.GetDefinedVarsHookNeverFires | src/NodeVisitors/StaticAnalyzer.php:213-220 | Leaving a call by name changes nothing. |
| TraversalProperties.PopMergeKeepsBranchVariables | src/NodeVisitors/StaticAnalyzer.php:960-972 | A variable first bound inside a branch survives the merge into the enclosing scope. |
| TraversalProperties.PopMergeJoinsSharedVariables | src/NodeVisitors/StaticAnalyzer.php:960-972 | A variable bound on both sides keeps its type if the types agree, becomes MIXED otherwise, and takes the more permissive nullability. |
| TraversalProperties.LeaveDepth | src/NodeVisitors/StaticAnalyzer.php:960-972 | Leaving pops exactly the stated number of scopes. |
| TraversalProperties.EnterLeaveBalanced | src/NodeVisitors/StaticAnalyzer.php:199-471 | Entering then leaving a node (a ternary aside) restores the stack depth. |
| TraversalProperties.TernarySchedulesMerges | src/NodeVisitors/StaticAnalyzer.php:438-451 | Entering a ternary schedules its false part, and its middle part when present, to pop and merge a scope on leave, and schedules nothing else. It pushes one scope per scheduled part and leaves the class stack and assignment targets unchanged. |
| Guards.ChecksForNonNullVariable | src/NodeVisitors/StaticAnalyzer.php:521-604 | The reported variable is empty or one the condition names. |
| Guards.ComparedWithNull | src/NodeVisitors/StaticAnalyzer.php:539-555 | The reported variable is empty or one of the two operands' names. |
| Guards.RecognisedGuardIsSound | src/NodeVisitors/StaticAnalyzer.php:521-604 | Without `\|\|`, a recognised variable is one the condition guarantees to be non-null. |
| Guards.SimpleGuardsAreRecognised | src/NodeVisitors/StaticAnalyzer.php:539-569 | A bare variable, `!= null`, `!== null` and `instanceof` on a variable are recognised, conversely. |
| Guards.UnaryGuardsAreRecognised | src/NodeVisitors/StaticAnalyzer.php:572-602 | `isset($x)`, `!empty($x)` and `!is_null($x)` are recognised. |
| Guards.UpperCaseIsNullIsNotRecognised | src/NodeVisitors/StaticAnalyzer.php:582-592 | `!IS_NULL($a)` guarantees `$a` but is not recognised. |
| Guards.DisjunctionReportsLeftVariable | src/NodeVisitors/StaticAnalyzer.php:522-525 | `$a \|\| $b` reports `a`, which it does not guarantee. |
| Guards.GetIfCond | src/NodeVisitors/StaticAnalyzer.php:808-819 | A condition exists exactly for a ternary, `if` and `elseif`, and is a sub-node of it. |
| TypeInference.InferType | src/TypeInferrer.php:59-62 | A missing (null) expression infers the fallback. |
| TypeInference.FirstPluginAnswer | src/TypeInferrer.php:63-68 | The answer is the first plugin's that answers, and none when no plugin answers. |
| TypeInference.FirstAnsweringPluginDecides | src/TypeInferrer.php:63-68 | The first plugin that answers decides the inferred type. |
| TypeInference.SilentPluginsAreTransparent | src/TypeInferrer.php:59-166 | Plugins that never answer change no inference. |
| TypeInference.InferReadsOnlyNamedVars | src/TypeInferrer.php:59-166 | Without plugins, the inference depends only on the variables the expression names. |
| TypeInference.PossiblyNullHasASource | src/TypeInferrer.php:59-166 | A possibly-null result comes from a `null` constant or a nullable variable. |
| TypeInference.TransparentFormInference | src/TypeInferrer.php:70-71 | `x op= e` and `clone e` infer as their operand. |
| TypeInference.FixedFormInference | src/TypeInferrer.php:72-99 | A scalar literal, `<=>` and a closure have fixed non-null types. |
| TypeInference.NewInference | src/TypeInferrer.php:74-86 | `new C` is a non-null `C`, and `self`/`static` give the enclosing class (MIXED outside a class). |
| TypeInference.VariableInference | src/TypeInferrer.php:87-97 | `$this` is the enclosing class, non-null. A defined variable gives its scope entry. Anything else falls back. |
| TypeInference.FunctionCallInference | src/TypeInferrer.php:100-121 | A known function gives its declared return type, non-null. An unknown one falls back. A docblock type is used only when configured. |
| TypeInference.MethodCallInference | src/TypeInferrer.php:122-123 | A method call resolves through the receiver's inferred type, or falls back. |
| TypeInference.MethodLookupInference | src/TypeInferrer.php:253-278 | A declared return type is non-null, a missing method falls back, the docblock is used only when configured, and the result is never nullable. |
| TypeInference.PropertyFetchInference | src/TypeInferrer.php:193-224 | Property types come only from docblocks when configured, with unknown nullability. |
| TypeInference.ArrayElementInference | src/TypeInferrer.php:126-130 | An element of `T[]` is `T`. Anything else falls back. |
| TypeInference.ConstantFetchInference | src/TypeInferrer.php:134-145 | `null` is NULL and nullable, `true`/`false` are a non-null bool (in any case), others fall back, and the defined-constant test does not matter. |
| TypeInference.JoinInference | src/TypeInferrer.php:146-161 | Both arms of `?:` and `??` join: equal types are kept, unequal ones become MIXED. The ternary's nullability is Possible if either arm's is, otherwise Unknown. `??` takes the right side's nullability. |
| TypeInference.JoinsAreSymmetric | src/TypeInferrer.php:146-152 | Swapping the arms of `?:` does not change the inference. |
| TypeInference.StaticCallInference | src/TypeInferrer.php:162-180 | A static call resolves through the named or inferred class, or falls back. |
| TypeInference.IdentifierNamesFallBack | src/TypeInferrer.php:168-243 | A method-call, static-call or property-fetch name held as an `Identifier` node fails the string gate, and the inference falls back. |
| TypeInference.UnmatchedFormsFallBack | src/TypeInferrer.php:165 | Every other expression form falls back. |
| Reachability.ScanFindsFirstExitingStatement | src/BranchEvaluator.php:23-40 | A list exits if and only if some statement exits, and the last recorded statement is the first that exits. |
| Reachability.NoOpListsDoNotExit | src/BranchEvaluator.php:23-40 | A list of no-ops neither exits nor records anything. |
| Reachability.StatementKinds | src/BranchEvaluator.php:117-129 | `return` and `exit` exit without recording. Anything other than `if`/`switch` does not exit. |
| Reachability.IfWithoutElseNeverExits | src/BranchEvaluator.php:63-66 | An `if` without `else` or `elseif` does not exit. |
| Reachability.IfElseExitsIffBothArmsExit | src/BranchEvaluator.php:63-73 | An `if`/`else` exits if and only if both arms exit. |
| Reachability.IfWithElseIfNeverExits | src/BranchEvaluator.php:74-84 | An `if` with an `elseif` never exits. |
| Reachability.CasesExitIff | src/BranchEvaluator.php:95-111 | The cases exit if and only if there is a default and every case's stripped body exits or is empty. |
| Reachability.SwitchExitsIff | src/BranchEvaluator.php:95-111 | A `switch` exits if and only if it has a `default` and every case exits. |
| Reachability.ReturnThenStatementsWitness | src/BranchEvaluator.php:29-35 | `return; a; b;` records the `return` once and stops. |
| Reachability.StripTrailing | src/BranchEvaluator.php:103-105 | The result is the longest prefix that does not end in `break` or a no-op. |
| Reachability.WrappedExitDoesNotExit | src/BranchEvaluator.php:117-129 | An `exit` node exits, but an expression statement wrapping it does not. |
| Reachability.SkipNops | src/BranchEvaluator.php:30-32 | Advances over exactly the no-ops, to the next real statement or the end. |
| Reachability.StripTrailingBreaks | src/BranchEvaluator.php:103-105 | The loop computes `StripTrailing`. |
| Reachability.BranchEvaluator.constructor | src/BranchEvaluator.php:14 | A new evaluator has no errors. |
| Reachability.BranchEvaluator.Reset | src/BranchEvaluator.php:45-47 | `reset` empties the errors. |
| Reachability.BranchEvaluator.GetErrors | src/BranchEvaluator.php:52-54 | Returns the recorded statements. |
| Reachability.BranchEvaluator.StatementsAlwaysExit | src/BranchEvaluator.php:23-40 | The answer is `Scan`'s, and the statements it records are appended to `errors`. |
| Reachability.BranchEvaluator.StatementAlwaysExits | src/BranchEvaluator.php:117-129 | The answer and the recorded statements for one statement are `StmtVerdict`'s. |
| Reachability.BranchEvaluator.ClauseAlwaysExits | src/BranchEvaluator.php:71-81 | An `else`/`elseif` body is evaluated as its statement list. |
| Reachability.BranchEvaluator.AllElseIfsExit | src/BranchEvaluator.php:75-79 | The `elseif` loop stops at the first body that does not exit. |
| Reachability.BranchEvaluator.AllIfBranchesExit | src/BranchEvaluator.php:63-86 | The answer and the recorded statements are `IfVerdict`'s, including the second evaluation of `else`. |
| Reachability.BranchEvaluator.AllSwitchCasesExit | src/BranchEvaluator.php:95-111 | The answer and the recorded statements are the switch's `StmtVerdict`: it exits if and only if it has a `default` and every case exits (`SwitchExitsIff`). |
| Reachability.BranchEvaluator.CaseAlwaysExits | src/BranchEvaluator.php:101-108 | One case's stripped body exits, or is empty. |
| UnreachableCode.CheckNodeTypes | src/Checks/UnreachableCodeCheck.php:23-25 | The check handles functions and class methods. |
| UnreachableCode.StatementsOf | src/Checks/UnreachableCodeCheck.php:38-45 | A body's statements and their count; a method without a body counts one. |
| UnreachableCode.Run | src/Checks/UnreachableCodeCheck.php:37-54 | One finding per recorded statement, in order, each at that statement's line. |
| UnreachableCode.OnlyLongFunctionBodiesReport | src/Checks/UnreachableCodeCheck.php:38-46 | Only functions and methods with at least two statements report anything. |
| UnreachableCode.FlatListWitness | src/BranchEvaluator.php:23-40 | In a list without nested `if`/`switch`, exactly the first exiting statement is recorded. |
| UnreachableCode.FlatFunctionReportsFirstExit | src/Checks/UnreachableCodeCheck.php:46-51 | A flat body reports at most once, and does so if and only if it holds a `return` or `exit`. The report is exactly the first such statement. |

## Left out

- Timing and counters (`getTimingsAndCounts`, the per-check timers) carry no meaning for the analysis and are not modelled.
- `updateFunctionEmit` is not modelled. It silences the diagnostic kinds named in a function's `@guardrail-ignore` comment while that function is analysed. `findings` lists every `emitError` call, before that filtering.
- The parser and the tree traverser are not modelled. `EnterNode` and `LeaveNode` are the visitor's entry points, and the traversal order is the caller's.
- The plugin manager is not part of this model. Type-inference plugins are a parameter: a sequence of functions from an expression, the enclosing class and the scope to an optional answer.
- The checks other than `UnreachableCodeCheck` are opaque. Each is an external checker with a name, its node types and an uninterpreted function from node, class and scope to findings (`Env.externalCheck`).
- `Scope.php` is not part of this model. Its behaviour is a concrete model: owned records, by-reference aliases resolved through the stack, clone by copying, and merge by joining types and taking the more permissive nullability. A merge does not write through aliases.
- The symbol table, the docblock reader and the configuration are uninterpreted functions and flags in `Env`.
- `ClassStoredAsVariableCheck` and `TypeInferringBaseCheck` are not part of this model. A property is reduced to its type.
- The literal `false` that the source returns as a nullability (for `$this` and closures) is modelled as `Impossible`.
- PHP's loose `==` between type strings is modelled as string equality, since every compared string is a type name or a sentinel.
- Node ids are assumed unique, as object identity is in the source (the merge and assignment-target attributes are keyed by id).
- The `ClosureUse` leave hook is not modelled, because its guard `is_string($node->var)` never holds.
- A closure `use` whose variable has no plain string name is skipped.
- Analysis.StaticAnalyzer.HandleUnusedVars: states which findings are appended, but not their order, because the source iterates a PHP array in insertion order and the model's scope is a map.
- The scope-depth preconditions (`CanEnter`, `PopsOnLeave`) express that the traversal is balanced. The source would fail on an empty stack instead.
- The parameter lemmas assume distinct parameter names, which PHP itself requires.
- `emitError` is modelled by appending to the findings sequence, and output formatting is left out.
- An arrow function's scope is pushed on enter like any function scope. On leave it is only popped: unlike functions, closures and class methods, no unused-variable report is made for it. This matches the source.
- Traversal.RecordInferred: `setScopeExpression` passes the inferred nullability as `setScopeType`'s attribute bitmask and then tests it against `Attributes::NULL_POSSIBLE`. Neither constant's value is part of this model. The model assumes that `Scope`'s nullability values double as `Attributes` flags, that only the possibly-null value carries `NULL_POSSIBLE`, and that `false` sets no flag. The nullability is therefore recorded as an abstract `InferredNullability` attribute, and the test reads as "the nullability is `Possible`".
- TypeInference.PropertyFetchInference: states only the configuration gate and the unknown nullability of a property fetch, not the docblock and parent-class lookup of `inferPropertyFetch`, because properties are opaque here.
