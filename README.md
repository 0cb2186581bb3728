# Call-graph environments of a Halide pipeline

This project models the environment builder of Halide's `FindCalls.cpp`.
Given one pipeline stage (a `Function`), it finds the stages that the
stage's definition calls. There are two modes:

- `find_direct_calls` gives one hop.
- `find_transitive_calls` gives the stage and everything reachable from it.

Both return an environment: a map from stage name to stage.

The model has six modules, plus two helper modules:

- `Ir` (ir.dfy) is the expression tree, reduced to a closed set of node kinds.
  - A `Call` node carries its call type, and a handle (`StageId`) for the stage it targets.
  - `Targets` lists the handles the collector meets in visiting order: a call's arguments come before the call itself, and only `Halide` calls count.
  - `CallsStage` is the independent reference definition ("calls `v` at any depth").
- `Pipeline` (pipeline.dfy) holds the stage definitions in a registry keyed by handle.
  - A stage has a name, output values, reduction definitions and optional extern arguments. Each reduction has values, args and an optional domain of min/extent bounds.
  - Handle equality plays the part of `same_as`.
  - `DependsOn` is the reference definition of "one hop away" through each channel.
- `OneHop` (one_hop.dfy) states, as functions on values, what one collector run produces.
  - `IncludeAll` is the identity-checked accumulation of expression calls.
  - `ExternOverwrite` is the unchecked write of extern stage arguments.
  - `Collect` combines them into the call map of one stage.
- `Closure` (closure.dfy) defines reachability along `Collect`, the reachable set `ReachSet`, and `Consistent`: every collector over a set succeeds and no two of its stages share a name.
- `CallGraph` (find_calls.dfy) is the imperative code.
  - The class `FindCalls` has its mutable `calls` map and `include_function`/`visit` as methods.
  - `populate_environment` is `PopulateEnvironment`, with its channel loops (`ScanChannels`, `ScanReductions`, `ScanExternArgs`) and its descent (`InsertAndDescend`, `PopulateCallees`).
  - The two entry points are `FindDirectCalls` and `FindTransitiveCalls`.
- `Scenarios` (scenarios.dfy) holds concrete pipelines:
  - `out(x) = in_a(x) + in_b(x)`;
  - a histogram updated through `src`;
  - an extern stage over a buffer and a scalar;
  - name clashes;
  - a chain `c → b → a`;
  - two stages that call each other.
- The helper modules `Seqs` (seqs.dfy) and `Wrappers` (wrappers.dfy) hold slicing facts and `Option`.

Each method is proved against the functions of `OneHop` and `Closure`:

- Every collector method's result is `IncludeAll`, `ExternOverwrite` or `Collect` of its input.
- `FindDirectCalls` returns exactly `Collect` of the root.
- `FindTransitiveCalls` succeeds exactly when the reachable set is consistent. It then returns the environment that binds each reachable stage under its name, and nothing else.

The source's `assert` aborts compilation on a name clash. Here each operation returns `ok == false` instead and stops at once. The `env` map that `populate_environment` updates through a reference becomes an input map and a result map.

Where the behaviour described for this component and the code differ, the model follows the code:

- The result of `find_direct_calls(f)` has `f`'s name as a key whenever `f` calls a stage of its own name (`CallGraph.FindDirectCalls`). The value is `f` itself only when `f` calls itself, for example a reduction that reads the stage it updates (`Scenarios.HistCallsSourceAndItself`). Otherwise it is the other stage of that name (`Scenarios.ShadowDirect`).
- Extern stage arguments are written with `calls[name] = g` and skip the same-name identity check. They replace an expression call of the same name without failing (`OneHop.ExternArgumentWins`, `Scenarios.ExternArgumentReplacesCall`).
- Only extern arguments that refer to a stage are read. Expression extern arguments are not scanned for calls.

## Model

| member | source | states |
|---|---|---|
| CallGraph.FindCalls.constructor | src/FindCalls.cpp:13 | a fresh collector holds no calls |
| CallGraph.FindCalls.IncludeFunction | src/FindCalls.cpp:17-25 | a new name gains exactly `name -> f` and nothing else changes; a name already present changes nothing and succeeds iff it is bound to `f` itself |
| CallGraph.FindCalls.Visit | src/FindCalls.cpp:27-35 | visiting an expression succeeds iff including its Halide call targets, in post-order, succeeds, and the new `calls` is that inclusion |
| CallGraph.FindCalls.VisitAll | src/FindCalls.cpp:47-49 | visiting a list of expressions in order, stopping at the first failure, is the inclusion of all their targets in order |
| CallGraph.FindCalls.VisitDomain | src/FindCalls.cpp:62-67 | visiting each bound's min then extent is the inclusion of the domain's targets in that order |
| CallGraph.FindCalls.VisitReduction | src/FindCalls.cpp:53-67 | visiting a reduction's values, args, then its defined domain is the inclusion of the reduction's targets |
| CallGraph.ScanReductions | src/FindCalls.cpp:51-68 | visiting every reduction in turn is the inclusion of all reduction targets, failing iff some inclusion fails |
| CallGraph.ScanExternArgs | src/FindCalls.cpp:70-79 | the calls after the extern loop are the old calls overwritten, argument by argument, by each stage argument under its name; other arguments change nothing |
| CallGraph.ScanChannels | src/FindCalls.cpp:46-79 | one collector over all channels of a stage succeeds iff `Collect` does, and then returns exactly `Collect`'s map |
| CallGraph.PopulateEnvironment | src/FindCalls.cpp:38-91 | a name already in `env` returns `env` unchanged, succeeding iff it is bound to `f`; direct mode gives exactly `Collect(f) + env`, adding only the collected keys and never replacing an entry; transitive mode binds `f` under its name and adds only settled stages of the closed scope, and fails only if that scope is inconsistent; every result stays keyed by name |
| CallGraph.InsertAndDescend | src/FindCalls.cpp:83-90 | inserting `f` and populating each callee binds `f` and leaves every stage added settled and inside the scope; failure means the scope is inconsistent |
| CallGraph.PopulateCallees | src/FindCalls.cpp:86-89 | populating each collected stage, in any order, binds every collected entry unchanged and adds only settled stages of the scope; failure means the scope is inconsistent |
| CallGraph.FindTransitiveCalls | src/FindCalls.cpp:93-97 | succeeds iff no reachable stage's collector fails and no two reachable stages share a name; then the environment is keyed by name, its stages are exactly the reachable set, and the root is bound under its name |
| CallGraph.FindDirectCalls | src/FindCalls.cpp:99-103 | succeeds iff the root's collector does; the result is that call map: every value is a one-hop dependency, every dependency's name is bound, and the root's name is present iff some dependency has it |
| CallGraph.UnseenShrinks | src/FindCalls.cpp:39-44 | inserting a name not yet in the environment strictly shrinks the set of registered names still unvisited, so the recursion terminates on cycles |
| CallGraph.UnseenNoMore | src/FindCalls.cpp:86-89 | a callee's population never enlarges the set of registered names still unvisited |
| CallGraph.GrownTrans | src/FindCalls.cpp:86-89 | the environment growth of successive callee populations composes |
| CallGraph.GrownByInsertion | src/FindCalls.cpp:84-89 | once all of `f`'s calls are bound after inserting `f`, `f` itself is settled in the result |
| CallGraph.InsertionReady | src/FindCalls.cpp:84 | after binding a fresh `f`, the map is keyed by name, `f`'s calls lie in the scope, and fewer names remain to visit |
| Ir.TargetsAreCalls | src/FindCalls.cpp:27-35 | the collector records `v` from an expression iff that expression contains, at any depth, a Halide call to `v` |
| Ir.TargetsOfAllAreCalls | src/FindCalls.cpp:47-49 | the collector records `v` from a list of expressions iff one of them calls `v` |
| Ir.NonHalideCallLooksThrough | src/FindCalls.cpp:28-30 | a call of any other type is not recorded, but the Halide calls in its arguments are |
| Ir.TargetsOfAllConcat | src/FindCalls.cpp:46-49 | reusing one collector over two lists meets the targets of the first, then of the second |
| Pipeline.DomainTargetsAreDeps | src/FindCalls.cpp:62-67 | a domain's collected targets are exactly the stages called from some bound's min or extent |
| Pipeline.ReductionTargetsAreDeps | src/FindCalls.cpp:53-67 | a reduction's collected targets are exactly the stages called from its values, args or defined domain |
| Pipeline.ReductionsTargetsAreDeps | src/FindCalls.cpp:51-68 | the targets of all reductions are exactly the stages some reduction calls |
| Pipeline.ExprTargetsAreDeps | src/FindCalls.cpp:46-68 | the targets of all expression channels are exactly the stages those channels call |
| Pipeline.ExternFuncsAreDeps | src/FindCalls.cpp:70-79 | the extern loop takes exactly the stage-reference arguments; other arguments are skipped |
| OneHop.IncludeAllSpec | src/FindCalls.cpp:17-25 | repeated inclusion succeeds iff no target clashes by name with the map or another target; then it keeps every entry, binds each target under its name and adds nothing else |
| OneHop.IncludeAllConcat | src/FindCalls.cpp:46-68 | including two sequences in turn with one collector is including their concatenation |
| OneHop.IncludeAllFailsWithin | src/FindCalls.cpp:22-23 | once one inclusion fails, the whole run fails |
| OneHop.ExternOverwriteNext | src/FindCalls.cpp:73-77 | one more extern argument writes over its name if it refers to a stage, and changes nothing otherwise |
| OneHop.ExternOverwriteSpec | src/FindCalls.cpp:72-77 | after the extern writes, each argument's name is bound to the last argument of that name whatever was there before, every other entry is kept, and the map stays keyed by name |
| OneHop.CollectFailsOnNameClash | src/FindCalls.cpp:22-23 | a collector fails iff two different stages of one name are called from the expression channels; extern arguments never make it fail |
| OneHop.CollectIsOneHop | src/FindCalls.cpp:46-79 | a successful collector returns only one-hop dependencies, binds the name of every dependency, and binds an expression-called stage under its name unless an extern argument of that name exists |
| OneHop.CollectExact | src/FindCalls.cpp:46-79 | when one-hop names are unique, the collector succeeds and its stages are exactly the one-hop dependencies |
| OneHop.ExternArgumentWins | src/FindCalls.cpp:74-77 | the last extern stage argument of a name is what the collector returns for that name, with no identity check |
| Closure.ReachSetClosed | src/FindCalls.cpp:83-89 | the reachable set contains the root and holds the calls of each of its stages |
| Closure.ReachSetLeast | src/FindCalls.cpp:83-89 | the reachable set is inside every closed set that contains the root |
| Closure.PathStaysIn | src/FindCalls.cpp:86-89 | a walk along calls that starts in a closed set ends in it |
| Closure.SettledEnvClosed | src/FindCalls.cpp:83-89 | an environment whose every stage has all its calls bound is closed under calls |
| Closure.KeyedEnvDeterminedByValues | src/FindCalls.cpp:93-97 | two environments keyed by name that hold the same stages are equal, so the result does not depend on visiting order and repeated runs agree |
| Scenarios.OutCallsBothInputs | src/FindCalls.cpp:46-49 | `out(x) = in_a(x) + in_b(x)` collects exactly `{in_a, in_b}` |
| Scenarios.HistCallsSourceAndItself | src/FindCalls.cpp:51-60 | a histogram update indexed through `src` collects `src` and `hist` itself |
| Scenarios.ExtCallsBufferOnly | src/FindCalls.cpp:70-79 | an extern stage over `buf` and a scalar collects `{buf}` only |
| Scenarios.ExpressionClashFails | src/FindCalls.cpp:17-25 | calling two different stages named `foo` from one expression fails |
| Scenarios.ExternArgumentReplacesCall | src/FindCalls.cpp:74-77 | an extern argument named `foo` replaces an expression call to a different `foo` |
| Scenarios.ForeignCallIsLookedThrough | src/FindCalls.cpp:27-35 | a stage call inside the argument of a foreign call is recorded |
| Scenarios.ChainTransitive | src/FindCalls.cpp:93-97 | the transitive environment of `c` in `c → b → a` is `{c, b, a}` |
| Scenarios.ChainDirect | src/FindCalls.cpp:99-103 | the direct environment of `c` in `c → b → a` is `{b}` |
| Scenarios.ShadowDirect | src/FindCalls.cpp:99-103 | a stage `foo` calling a different stage named `foo` has direct calls `{foo -> that stage}`, so the root's name is bound but not to the root |
| Scenarios.MutualTransitive | src/FindCalls.cpp:39-44 | two stages calling each other terminate with each bound once |
| Scenarios.DeepClashTransitive | src/FindCalls.cpp:39-44 | two different stages named `foo`, both reachable from the root, make the transitive search fail |

## Left out

- test/cpp/vector_math/test.cpp is not part of this model. It is an end-to-end numeric test: it JIT-compiles pipelines over random images, times them and prints the results.
- The generic `IRVisitor` traversal and the internals of `Function`, `ReductionDefinition`, `ReductionDomain` and `ExternFuncArgument` are not part of this model.
  - They are replaced by a closed expression datatype and a stage registry.
  - Only the node kinds `IntImm`, `Variable`, `Cast`, `Binary`, `Select` and `Call` are modelled. The other node kinds are traversed child by child in the same way.
- Handles are registry keys, and the registry is assumed well formed: no dangling handles. In the source a `Function` handle cannot dangle.
- Aborting on a failed `assert` is modelled as `ok == false` with an immediate return. The environment left after a failure is not specified, since the source process stops there.
- Iteration over `calls.calls` in name order is modelled as iteration in any order. The contracts hold for every order.
- Recursion depth and stack use are not modelled.
- CallGraph.PopulateEnvironment: in transitive mode the contract bounds the result by any closed set that holds `f` and `env`'s stages, rather than naming it. The exact result, from an empty environment, is stated by `CallGraph.FindTransitiveCalls`.
- CallGraph.PopulateCallees: on failure the contract says only that the scope is inconsistent, not which stage failed.
- CallGraph.FindTransitiveCalls: reachability follows what each collector returns. A stage shadowed by an extern argument of the same name is therefore not descended into, as in the source. Where one-hop names are unique, these edges are exactly the one-hop dependencies (`OneHop.CollectExact`).
