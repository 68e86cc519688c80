# Verified models of the CRPG engine's core algorithms

A Dafny project that models the hardest self-contained parts of the engine and its tooling and
proves what they promise. Each module follows one component; imperative code is modelled by
methods with loops and classes with fields, and each method is proved against a definition that
does not mention its own steps.

| area | modules |
|---|---|
| ruleset validation and stat evaluation | `Expressions`, `DerivedGraph`, `Rulesets`, `Evaluation`, `Operators`, `StatQueries`, `FormulaValues` |
| action declarations and call budgets | `Declarations`, `ValueBudgets`, `BudgetPointers`, `CallForms` |
| fixed-point numbers and their text | `Numbers`, `FixedPoint`, `Digits`, `FixedText` |
| generational arena | `Arena`, `ArenaGenerations`, `GenerationalArenas` |
| save phase | `Disks`, `SavePhase` |
| random numbers | `RejectionSampling`, `RandomStreams`, `StreamBits` |
| identifiers, pointers, events | `Ulids`, `Pointers`, `PlainPointers`, `EventQueues` |
| tooling | `DependencyLint`, `WaveScheduler`, `WaveProgress` |
| shared mathematics | `Options`, `Collections`, `Texts`, `Sorting`, `Graphs` |

Main results, in short:

- A ruleset is accepted exactly when it is lawful, the derived-stat check accepts exactly the
  acyclic graphs whose longest chain is at most 128, every stat of an accepted ruleset has a value of its
  declared kind or a zero-divisor error, and the memoised evaluator computes that value. A formula
  whose operators never have to round or saturate yields the exact real value of its tree.
- The iterative budget walk finds exactly the first failure of the plain recursive walk: the first
  value in preorder that breaks a limit, under a pointer that leads to it in the JSON form of the call.
- Fixed-point text: the parser accepts exactly the representable decimals, and the printer writes
  the unique shortest accepted text.
- The arena never issues an id twice and never revives one, over all runs, reuse, retirement,
  clears and reloads included. A slot issues its generations one by one and retires after the last.
- Random streams of different names never interfere, bounded draws are exactly uniform, every mixing
  step can be undone, and the golden stream of the repository's tests begins with its published words.
- A save leaves every document in a known state whatever fails, and touches nothing else.
- The wave scheduler respects its caps in every interleaving, crashes of member threads included. It
  can finish from a state exactly when every member still to start fits beside the places that crashed
  members hold for good, and it can finish whatever crashes exactly when its spec is within the caps
  all at once. Every execution without crashes, or with such a spec, does finish once its members end.

## Conventions

- Strings are sequences of Unicode scalar values; `Texts` gives their UTF-8 length and the lexical
  order, and proves that order to be the order of the UTF-8 bytes.
- Rust integers are unbounded integers with explicit clamping, wrapping or range conditions. The
  PCG32 and SplitMix64 code uses bit-vectors, since wrapping is what it is for.
- Panics and error returns are values: `Insert` on a full arena gives `None`, parsers give an error.
- The clock of `Disks.Disk` numbers filesystem calls. `faults` says which call fails, `torn` how
  much of a failing write arrives. Both are arbitrary functions, so results hold for all of them.
- The wave scheduler is a set of steps of one scheduling thread and of the member threads, taken in
  any order.

Code and documentation differ in two places, and the model follows the code:

- `navigate` is documented as taking slash-joined unescaped keys, but it unescapes each token. The key
  `~1` is then not found under its own name (`PlainPointers.TildeOneIsNotFound`); the documented reading
  is right in every document if and only if no key holds a slash, or a `~` followed by `0` or `1`
  (`PlainPointers.PlainKeysNavigate`).
- A wave member over a cap is said to wait for a free place. A member thread that dies of an
  unexpected exception while it gets a slot never gives its place back, so a member can wait forever
  although every started member has ended: two members of one free Zen model, the first of which dies,
  are enough (`WaveProgress.CrashBlocksTwin`). `WaveProgress.FinishIffUnblocked` and
  `WaveProgress.SpecDecides` give the exact conditions.

Limits the documentation states, made exact:

- Sequence numbers of the event queue saturate. They are unique over a run if and only if the counter
  has room for all its pushes (`EventQueues.StampsAreDistinctIff`). At saturation two pushes in a row
  give a queue the loader refuses (`EventQueues.SaturatedPushesCollide`,
  `EventQueues.PushKeepsLoadable`), while a drain between them hides the repetition from it
  (`EventQueues.StampsRepeatAcrossDrains`).
- Rounding and ceiling saturate at the top of the range, to a value that is not an integer.
  `FixedPoint.RoundIsNearest` and `FixedPoint.CeilIsLeastWhole` give the bounds.

## Model

| member | source | states |
|---|---|---|
| `Expressions.ExprNodeCount` | crates/crpg-data/src/combat.rs:1048-1076 | the explicit-stack count is the true size of the tree when size is at most 4096 and height at most 32, and nothing otherwise |
| `Expressions.CheckIffLeaves` | crates/crpg-data/src/combat.rs:1078-1157 | the node check finds nothing if and only if every literal and reference is legal, and otherwise the defect of the first leaf, left to right, that is not |
| `Expressions.KindIffLeaves` | crates/crpg-data/src/combat.rs:1173-1199 | an expression has a kind if and only if all its leaves do and operators combine integers or fixed-point numbers only |
| `Expressions.SortsAgree` | crates/crpg-data/src/combat.rs:1036-1045 | a value and a declared kind agree exactly when they are of one sort and, for enums, of one domain |
| `DerivedGraph.IndexMeans` | crates/crpg-data/src/combat.rs:1317-1325 | a name stands for the last stat declared under it |
| `DerivedGraph.LinkStat` | crates/crpg-data/src/combat.rs:1317-1368 | linking one stat makes both adjacency lists describe the graph with exactly that stat's edges added |
| `DerivedGraph.BuildAdjacency` | crates/crpg-data/src/combat.rs:1317-1368 | the lists describe the dependency graph and each pending count is the number of distinct references |
| `DerivedGraph.Release` | crates/crpg-data/src/combat.rs:1317-1368 | lowering the counts of a processed stat's dependents never underflows and readies exactly those with nothing left to wait for |
| `DerivedGraph.Kahn` | crates/crpg-data/src/combat.rs:1317-1368 | in whatever order ready stats are taken, processed stats have the depth one above their deepest reference, and every stat left over still refers to a stat left over |
| `DerivedGraph.DepthIsLongestChain` | crates/crpg-data/src/combat.rs:1317-1368 | a computed depth is the length of the longest chain from its stat: some chain has that length and none is longer |
| `DerivedGraph.ComputeDepths` | crates/crpg-data/src/combat.rs:1317-1368 | all stats get processed if and only if the graph has no cycle, and then every depth is the longest chain |
| `DerivedGraph.ValidateDerivedGraph` | crates/crpg-data/src/combat.rs:1317-1368 | reports a cycle if and only if there is one; accepts if and only if no chain holds more than 128 stats |
| `Graphs.NoSinkForcesCycle` | crates/crpg-data/src/combat.rs:1317-1368 | a nonempty set of nodes that each have a successor in the set contains a cycle |
| `Graphs.RankedIsAcyclic` | crates/crpg-data/src/combat.rs:1317-1368 | a rank that drops along every edge rules out cycles |
| `Graphs.CyclicHasLongWalk` | crates/crpg-data/src/combat.rs:1317-1368 | a cyclic graph has walks of every length, so a chain bound rules out cycles |
| `Rulesets.CheckEnums` | crates/crpg-data/src/combat.rs:1202-1223 | finds the first enum stat whose id or variants break the rules |
| `Rulesets.CollectDomains` | crates/crpg-data/src/combat.rs:1224-1240 | succeeds if and only if stats sharing an enum id declare the same variants, and then is the table of all domains |
| `Rulesets.CheckHealth` | crates/crpg-data/src/combat.rs:1246-1254 | the first stat with the health name is an int without formula |
| `Rulesets.CheckShapes` | crates/crpg-data/src/combat.rs:1262-1278 | rejects exactly when a formula is too big or too deep, or else when all formulas together exceed 65536 nodes |
| `Rulesets.CheckFormulas` | crates/crpg-data/src/combat.rs:1279-1283 | finds the first formula with a bad literal or an undeclared reference |
| `Rulesets.CheckDeclarations` | crates/crpg-data/src/combat.rs:1202-1261 | the declaration stages find the first broken declaration rule and otherwise hand on the domain table |
| `Rulesets.CheckDerived` | crates/crpg-data/src/combat.rs:1262-1294 | the formula stages find the first broken formula rule |
| `Rulesets.NoDefectMeansLawful` | crates/crpg-data/src/combat.rs:1202-1314 | no rule is broken if and only if the ruleset is lawful, stated rule by rule without order |
| `Rulesets.DeclarationDefectMeans` | crates/crpg-data/src/combat.rs:1202-1261 | each declaration defect is reported exactly when its own rule is broken and every earlier rule holds |
| `Rulesets.FormulaDefectMeans` | crates/crpg-data/src/combat.rs:1262-1294 | each formula defect is reported exactly when its own rule is broken and every earlier rule holds |
| `Rulesets.InitiativeDefectMeans` | crates/crpg-data/src/combat.rs:1295-1312 | each initiative defect is reported exactly when its own rule is broken and every earlier rule holds |
| `Rulesets.ValidateRulesetKernel` | crates/crpg-data/src/combat.rs:1202-1314 | returns the first broken rule in the pinned order; accepts if and only if the ruleset is lawful |
| `Evaluation.ExprIsSound` | crates/crpg-data/src/combat.rs:1101-1199 | a checked expression over sound references yields a value of its computed kind, enum values inside the declared domain, or a zero divisor |
| `Evaluation.StatIsSound` | crates/crpg-data/src/combat.rs:119-173 | every stat whose chains fit the budget is sound |
| `Evaluation.StatIsStable` | crates/crpg-data/src/combat.rs:119-173 | a stat's meaning does not depend on the budget once its chains fit, so evaluation is well defined without one |
| `Evaluation.LawfulStatsHaveMeaning` | crates/crpg-data/src/combat.rs:1202-1294 | for every accepted ruleset and well-kinded bases and modifiers, every stat means a value of its declared kind or a zero divisor, for every budget from 128 up the same |
| `Operators.OperatorsRoundDown` | crates/crpg-rules/src/derived.rs:19-147 | each operator fails exactly on division by zero, and otherwise gives the greatest number of its kind not above the exact real result, or the least of the kind |
| `FixedPoint.IntDivideFloors` | crates/crpg-rules/src/derived.rs:33-47 | integer division is the floor of the quotient held in range, for all signs and for the least integer divided by minus one |
| `StatQueries.ResolvedFormula` | crates/crpg-rules/src/derived.rs:160-203 | evaluating over resolved references agrees with the recursive meaning |
| `StatQueries.FailingFormula` | crates/crpg-rules/src/derived.rs:160-203 | a zero divisor in any reference makes the whole formula a zero divisor, wherever it occurs |
| `StatQueries.FormulaResolves` | crates/crpg-rules/src/modifier.rs:979-1014 | once all references are resolved, the modified formula value is the meaning of the stat |
| `StatQueries.FormulaFails` | crates/crpg-rules/src/modifier.rs:979-1014 | stopping at the first failing reference gives the outcome the full evaluation would give |
| `StatQueries.StatQuery.constructor` | crates/crpg-rules/src/modifier.rs:970-976 | a query starts with no traces |
| `StatQueries.StatQuery.EvalStat` | crates/crpg-rules/src/modifier.rs:979-1014 | the memoised evaluator returns the recursive meaning, terminates, and never changes a trace |
| `StatQueries.StatQuery.ResolveRefs` | crates/crpg-rules/src/modifier.rs:992-1000 | in whatever order references are popped, either all are resolved correctly or the failure is the meaning of the stat itself |
| `FormulaValues.NodeMeaning` | crates/crpg-rules/src/derived.rs:160-203 | a node whose left operand means a and right operand means b is nearest to the exact result of the operator on a and b in this order; a failing operand is the failure of the node, left before right |
| `FormulaValues.NodeEvaluates` | crates/crpg-rules/src/derived.rs:160-203 | the same of the evaluator over resolved references |
| `FormulaValues.TreesAreExact` | crates/crpg-rules/src/derived.rs:160-203 | when every exact intermediate result is representable, a formula yields the exact real value of its tree |
| `FormulaValues.TreesMeanExactly` | crates/crpg-data/src/combat.rs:119-173 | so does its meaning in a query |
| `FormulaValues.BaseStats` | crates/crpg-rules/src/modifier.rs:979-1014 | a base stat is its modified stored value; an undeclared name and a missing base are their errors |
| `FormulaValues.DerivedStats` | crates/crpg-rules/src/modifier.rs:979-1014 | a derived stat is its formula over the modified values it refers to, itself modified, and divides by zero when the formula does |
| `ValueBudgets.TrailPointer` | crates/crpg-data/src/action_signatures.rs:434-460 | following parent links rebuilds the pointer text of the path from the root |
| `ValueBudgets.PointerIsStable` | crates/crpg-data/src/action_signatures.rs:434-460 | appending to the trail changes no pointer already in it |
| `ValueBudgets.VisitDescends` | crates/crpg-data/src/action_signatures.rs:464-539 | pushing a container's frame leaves the rest of the recursive walk still to be done unchanged |
| `ValueBudgets.BudgetWalk.constructor` | crates/crpg-data/src/action_signatures.rs:464-468 | the walk starts with the whole recursive walk of the call still to do |
| `ValueBudgets.BudgetWalk.Visit` | crates/crpg-data/src/action_signatures.rs:469-536 | every turn keeps the stack at no more than 33 frames and the trail at no more than 4096 nodes, leaves exactly the rest of the recursive walk to do, and reports only its failure |
| `ValueBudgets.CheckValueBudgets` | crates/crpg-data/src/action_signatures.rs:462-539 | returns the same limit and pointer as the first failure of the recursive preorder walk, or none |
| `ValueBudgets.WalkAccepts` | crates/crpg-data/src/action_signatures.rs:462-539 | the recursive walk passes if and only if nesting, node count and strings fit, and its total is the node count |
| `ValueBudgets.PassingCalls` | crates/crpg-data/src/action_signatures.rs:462-539 | a call passes if and only if no argument nests deeper than 32, all hold at most 4096 values, and every text and key is at most 4096 bytes |
| `BudgetPointers.CallFindsFirst` | crates/crpg-data/src/action_signatures.rs:462-539 | the error of a call is what is reported for the first value in preorder for which anything is |
| `CallForms.SegmentLeads` | crates/crpg-data/src/action_signatures.rs:454-460 | in the JSON form of a container each rendered segment leads to the form of the child it belongs to |
| `CallForms.FailuresPoint` | crates/crpg-data/src/action_signatures.rs:462-539 | the error points at the first offending value in the JSON form of the call, or at its text when that is too long; the depth limit only at level 33, the node limit only at the 4097th value, the byte limit only at an overlong key or text |
| `CallForms.PassingMeansWithin` | crates/crpg-data/src/action_signatures.rs:462-539 | a call passes if and only if every value, with the values before it, is within the limits |
| `Declarations.CheckNames` | crates/crpg-data/src/action_signatures.rs:383-398 | two passes over sorted names report the lexically first invalid name, else the lexically first repeated one |
| `Declarations.CheckSignature` | crates/crpg-data/src/action_signatures.rs:368-399 | one action's report: the parameter limit, else its names, at the action's pointer |
| `Declarations.CheckSorted` | crates/crpg-data/src/action_signatures.rs:352-400 | on sorted declarations: the id report, else the report of the faulty action with the lexically first id |
| `Declarations.CheckDeclarations` | crates/crpg-data/src/action_signatures.rs:342-401 | returns the report defined on the bundle without regard to its order |
| `Declarations.ReportIsUnique` | crates/crpg-data/src/action_signatures.rs:342-401 | that definition leaves exactly one answer |
| `Declarations.ReportOfPermutation` | crates/crpg-data/src/action_signatures.rs:342-401 | and gives a permuted bundle the same answer |
| `Declarations.AcceptedIffLegal` | crates/crpg-data/src/action_signatures.rs:342-401 | accepted if and only if counts, identifier lengths and uniqueness all hold |
| `Declarations.NewStore` | crates/crpg-data/src/action_signatures.rs:553-564 | a store is built if and only if the bundle is legal, and holds each declaration under its own id and nothing else |
| `Declarations.OrderIsIrrelevant` | crates/crpg-data/src/action_signatures.rs:541-564 | permuting the actions changes neither the error nor the store |
| `Declarations.ErrorsPointAtOffenders` | crates/crpg-data/src/action_signatures.rs:342-401 | the pointer of every error names an offending action list, action, parameter list or parameter |
| `Declarations.IdentifiersInBytes` | crates/crpg-data/src/action_signatures.rs:201-203 | identifiers are exactly the texts of 1 to 128 UTF-8 bytes |
| `Texts.LengthIsBytes` | crates/crpg-data/src/action_signatures.rs:201-203 | the modelled length is the number of bytes of the UTF-8 encoding |
| `Texts.TextOrderIsByteOrder` | crates/crpg-data/src/action_signatures.rs:350-351 | the lexical order used for sorting is the order of the UTF-8 bytes |
| `Numbers.ClampIsNearest` | crates/crpg-core/src/fixed.rs:174-183 | saturation gives the unique closest representable value |
| `FixedPoint.MultiplicationFloors` | crates/crpg-core/src/fixed.rs:132-160 | multiplication is the floor of the exact product: checked when it fits, clamped when saturating |
| `FixedPoint.DivisionFloors` | crates/crpg-core/src/fixed.rs:139-195 | division is the floor of the exact scaled quotient for all signs: checked when it fits, clamped when saturating |
| `FixedPoint.ZeroDivisorSaturates` | crates/crpg-core/src/fixed.rs:139-172 | a zero divisor saturates as every large enough multiple of the numerator does, and the checked form refuses it |
| `FixedPoint.FloorIsGreatestWhole` | crates/crpg-core/src/fixed.rs:63-81 | floor is the greatest whole number not above its argument |
| `FixedPoint.CeilIsLeastWhole` | crates/crpg-core/src/fixed.rs:83-87 | ceiling is not above any whole number that is not below its argument, and is whole if and only if the argument is at most 32767 |
| `FixedPoint.RoundIsNearest` | crates/crpg-core/src/fixed.rs:89-95 | rounding is nearest with halves away from zero, and whole, if and only if the argument is below 32767.5 |
| `FixedText.CutJoined` | crates/crpg-core/src/fixed.rs:298-314 | cutting a text at sign and point undoes joining |
| `FixedText.JoinedCut` | crates/crpg-core/src/fixed.rs:298-314 | joining undoes cutting, for every text |
| `FixedText.FractionIsExact` | crates/crpg-core/src/fixed.rs:323-331 | a decimal fraction is a multiple of 1/65536 if and only if the power of five divides it, and then the quotient shifted is that multiple |
| `FixedText.ParseIsExact` | crates/crpg-core/src/fixed.rs:295-338 | a text parses to a value if and only if it is grammatical and denotes exactly that value in range |
| `FixedText.StripZeros` | crates/crpg-core/src/fixed.rs:277-281 | removing trailing zeros keeps the value, keeps at least one place, and ends on a nonzero digit |
| `FixedText.CanonicalIsShortest` | crates/crpg-core/src/fixed.rs:264-287 | no accepted text of a value is shorter than its canonical one, and none of that length differs |
| `FixedText.Display` | crates/crpg-core/src/fixed.rs:269-287 | the printed text parses back to the value and is its one shortest accepted text |
| `Arena.InsertTakesLowest` | crates/crpg-core/src/entity.rs:225-269 | an insert takes the lowest index that is neither live nor retired, changes no other slot, and fails only when all 2^32 - 1 slots are live or retired |
| `Arena.StepKeepsSpent` | crates/crpg-core/src/entity.rs:238-312 | no step forgets that an id was used up, nor revives a dead one |
| `Arena.StepIssuesFresh` | crates/crpg-core/src/entity.rs:238-269 | an issued id was never used before, is used from then on, has an issuable generation, and resolves to the value |
| `Arena.RunKeepsSpent` | crates/crpg-core/src/entity.rs:238-312 | no run issues a used-up id again or revives a dead one |
| `Arena.IssuedIdsAreDistinct` | crates/crpg-core/src/entity.rs:238-312 | all ids issued in one run are different |
| `ArenaGenerations.StepCounts` | crates/crpg-core/src/entity.rs:238-312 | a step issues exactly the next generation of one slot or nothing, and changes no other slot's count |
| `ArenaGenerations.GenerationsCountUp` | crates/crpg-core/src/entity.rs:238-312 | from any state the ids a run issues at one index have the next generations one after another |
| `ArenaGenerations.NoGenerationIsSkipped` | crates/crpg-core/src/entity.rs:304-312 | from the empty arena they are 1, 2, 3 and so on without a gap, and a slot retires only after all 2^32 - 2 were issued |
| `ArenaGenerations.RemovalReturnsValue` | crates/crpg-core/src/entity.rs:280-289 | a removal returns the value it takes out, and without a match changes nothing |
| `Arena.RemovedIdsStayDead` | crates/crpg-core/src/entity.rs:280-372 | a removed or cleared id never resolves and is never issued again, over every later run |
| `Arena.LiveUntilRemoved` | crates/crpg-core/src/entity.rs:280-372 | an id keeps its value until it is removed or the arena cleared |
| `Arena.RemoveAllIsVacated` | crates/crpg-core/src/entity.rs:280-312 | removing distinct live ids one by one equals vacating them at once |
| `Arena.RemovalOrderIsIrrelevant` | crates/crpg-core/src/entity.rs:280-312 | any two orders of removal give the same arena |
| `Arena.ClearRemovesEverything` | crates/crpg-core/src/entity.rs:363-372 | clearing equals removing all live ids, in any order |
| `Arena.Load` | crates/crpg-core/src/entity.rs:426-481 | accepts if and only if the invariant holds that every operation keeps, and otherwise names the first defect |
| `Arena.FirstDefectMeans` | crates/crpg-core/src/entity.rs:435-481 | the error is the slot count, else a free index that is no slot, else what is wrong with the first bad slot |
| `Arena.ReachableArenasLoad` | crates/crpg-core/src/entity.rs:426-481 | every arena a run can reach is accepted and loads as itself |
| `Arena.ReloadsAreInvisible` | crates/crpg-core/src/entity.rs:426-481 | inserting reloads anywhere in a run changes neither the state nor any issued id |
| `GenerationalArenas.GenerationalArena.constructor` | crates/crpg-core/src/entity.rs:208-215 | a new arena is empty and valid |
| `GenerationalArenas.GenerationalArena.Insert` | crates/crpg-core/src/entity.rs:238-269 | updates slots, free set and length in place as the arena transition does, and returns its id |
| `GenerationalArenas.GenerationalArena.Remove` | crates/crpg-core/src/entity.rs:280-289 | updates in place as the arena transition does, and returns the value |
| `GenerationalArenas.GenerationalArena.RetireOrFree` | crates/crpg-core/src/entity.rs:304-312 | raises one generation and frees the slot below the last issuable generation only; no other slot changes |
| `GenerationalArenas.GenerationalArena.Clear` | crates/crpg-core/src/entity.rs:363-372 | the loop over slots vacates exactly the live ones |
| `GenerationalArenas.GenerationalArena.Iter` | crates/crpg-core/src/entity.rs:375-381 | yields exactly the resolvable entries, strictly ascending by index, as many as the length |
| `DependencyLint.CycleCheck.constructor` | tools/lint/deps.py:205-210 | all nodes start white, with no path and no violations |
| `DependencyLint.CycleCheck.Dfs` | tools/lint/deps.py:212-224 | a visit blackens its node, restores the path, keeps the colour invariant, and only adds violations |
| `DependencyLint.CycleCheck.VisitNeighbours` | tools/lint/deps.py:215-222 | after the neighbours, in any order, each is finished or the edge to it closes a reported cycle |
| `DependencyLint.GrayNeighbourClosesCycle` | tools/lint/deps.py:216-220 | the path from a gray neighbour and the neighbour again form a cycle along edges with no inner repetition |
| `DependencyLint.FinishedAreAcyclic` | tools/lint/deps.py:205-229 | finishing order rules out cycles among the edges that close no report |
| `DependencyLint.CheckCycles` | tools/lint/deps.py:205-229 | violations are reported if and only if the graph has a cycle, each is a real simple cycle, and without the edges that close them no cycle is left, for any order of nodes and neighbours |
| `Disks.Disk.Metadata` | crates/crpg-cli/src/main.rs:1297-1373 | the kind of the entry itself, or the injected fault |
| `Disks.Disk.ReadFile` | crates/crpg-cli/src/main.rs:1297-1373 | what the path reads |
| `Disks.Disk.OpenTruncate` | crates/crpg-cli/src/main.rs:1297-1373 | on success the file, under all its names, is empty; on failure nothing changed |
| `Disks.Disk.WriteAll` | crates/crpg-cli/src/main.rs:1297-1373 | on success the file holds the bytes; on failure some prefix of them |
| `Disks.Disk.SyncAll` | crates/crpg-cli/src/main.rs:1297-1373 | changes no contents |
| `Disks.Disk.SameFile` | crates/crpg-cli/src/main.rs:1297-1373 | whether two paths name one file, or the injected fault |
| `SavePhase.DiskPathIsInjective` | crates/crpg-cli/src/main.rs:1285-1291 | different logical paths have different disk paths |
| `SavePhase.PlanUpdates` | crates/crpg-cli/src/main.rs:1718-1734 | no plan if and only if the document sets differ; the plan is each byte-different file once, in lexical order, and no other |
| `SavePhase.RejectRewriteAliases` | crates/crpg-cli/src/main.rs:1994-2021 | passing means no target shares its file with another observed path; without faults the converse holds and the error is a changed source |
| `SavePhase.LevelDefects` | crates/crpg-cli/src/main.rs:1414-1500 | each error kind says what stands at a level of the path instead of a directory or a file |
| `SavePhase.CheckTarget` | crates/crpg-cli/src/main.rs:1405-1519 | passing means the target is reached through directories and still reads as collected; without faults the converse holds, and the error blames the first level of the path that is wrong, or the changed bytes |
| `SavePhase.RewriteOne` | crates/crpg-cli/src/main.rs:1520-1528 | what each of open, write and sync leaves behind when it fails, and the file rewritten otherwise |
| `SavePhase.ExecuteRewrites` | crates/crpg-cli/src/main.rs:1398-1531 | success rewrites all targets; failure at update k leaves exactly the first k rewritten and the k-th as its operation left it; without faults or changes it succeeds |
| `SavePhase.RewrittenReads` | crates/crpg-cli/src/main.rs:1398-1531 | after k updates each observed path reads its new bytes if it is one of the k targets, else its old ones, hard links notwithstanding |
| `SavePhase.StopLeavesDocuments` | crates/crpg-cli/src/main.rs:1398-1531 | after a failure lexically earlier documents are new, later ones original, and the failing one original, a prefix or new, by operation |
| `SavePhase.StopLeavesOther` | crates/crpg-cli/src/main.rs:1398-1531 | after a failure every observed path that is no document reads as before |
| `SavePhase.Rewrite` | crates/crpg-cli/src/main.rs:1702-1709 | the rewrite of a safe plan ends in the state its outcome names |
| `SavePhase.Save` | crates/crpg-cli/src/main.rs:1689-1710 | every outcome of plan, alias check and rewrite describes the disk exactly; other observed paths are untouched; with nothing in the way it saves |
| `RejectionSampling.ThresholdIsRemainder` | crates/crpg-core/src/rng.rs:74-84 | the wrapping threshold is 2^32 modulo the bound, so a whole number of blocks is accepted |
| `RejectionSampling.DrawsAreUniform` | crates/crpg-core/src/rng.rs:74-84 | each value below the bound comes from exactly floor(2^32 / bound) words, and no other value from any |
| `RejectionSampling.SampleIsRemainder` | crates/crpg-core/src/rng.rs:74-84 | only the lowest 2^32 modulo bound words are rejected, and any other word gives its remainder |
| `RejectionSampling.SignedSampleIsOffset` | crates/crpg-core/src/rng.rs:90-104 | an accepted word gives lo plus its remainder by the size of the range |
| `RejectionSampling.GenRangeU32` | crates/crpg-core/src/rng.rs:74-84 | returns the first accepted word's residue and consumes no word beyond it |
| `RejectionSampling.FlipIsXor` | crates/crpg-core/src/rng.rs:95-103 | the exclusive or of the source on 32-bit words is the integer flip the model uses |
| `RejectionSampling.OffsetsCoverRange` | crates/crpg-core/src/rng.rs:90-104 | the span is hi - lo + 1, up to 2^32; adding an offset never overflows and gives lo plus the offset |
| `RejectionSampling.SignedDrawsAreUniform` | crates/crpg-core/src/rng.rs:90-104 | each integer from lo to hi comes from exactly floor(2^32 / (hi - lo + 1)) words, the full span included |
| `RejectionSampling.GenRangeI32` | crates/crpg-core/src/rng.rs:90-104 | an empty or reversed range returns lo without drawing; otherwise the first accepted word decides |
| `RandomStreams.StreamsDoNotInterfere` | crates/crpg-core/src/rng.rs:54-193 | under any interleaving each name's outputs are a prefix of its own sequence, and its state depends on its own draws only |
| `RandomStreams.OrderOfDrawsIsIrrelevant` | crates/crpg-core/src/rng.rs:54-193 | runs with equal draws per name end in the same state |
| `RandomStreams.StepKeepsGuard` | crates/crpg-core/src/rng.rs:129-148 | no draw or touch leads to a state the loading guard refuses |
| `RandomStreams.RunKeepsGuard` | crates/crpg-core/src/rng.rs:129-148 | every state any run reaches passes the guard |
| `RandomStreams.GuardMeans` | crates/crpg-core/src/rng.rs:129-148 | the guard accepts exactly the states whose increments are those of their seed and name |
| `StreamBits.OutputTurnsRight` | crates/crpg-core/src/rng.rs:54-63 | turning an output left by the top five bits of the state gives back the xorshifted half |
| `StreamBits.AdvanceInverts` | crates/crpg-core/src/rng.rs:54-59 | a draw moves the state along a permutation of all states |
| `StreamBits.DrawsStayApart` | crates/crpg-core/src/rng.rs:54-59 | streams in different states stay in different states |
| `StreamBits.SplitMixInverts` | crates/crpg-core/src/rng.rs:195-206 | the mixing function has an inverse |
| `StreamBits.NamesStartApart` | crates/crpg-core/src/rng.rs:185-193 | names that differ in one byte start in different states |
| `StreamBits.SeedsStartApart` | crates/crpg-core/src/rng.rs:185-193 | different seeds start one name in different states |
| `StreamBits.GoldenWords` | crates/crpg-core/tests/rng.rs:59-67 | the golden stream begins with the words the repository's test lists |
| `RandomStreams.DeterministicRng.constructor` | crates/crpg-core/src/rng.rs:151-156 | starts with the seed and no streams |
| `RandomStreams.DeterministicRng.Stream` | crates/crpg-core/src/rng.rs:167-172 | creates the named stream from seed and name on first use only, and touches no other |
| `RandomStreams.DeterministicRng.NextU32` | crates/crpg-core/src/rng.rs:54-63 | advances the named stream once and outputs from its old state |
| `WaveScheduler.FitsIffCapsHold` | tools/agents/oc.py:972-978 | the cap test passes if and only if one more run keeps one per free Zen model, three free Zen in all and three per other model |
| `WaveScheduler.StepKeepsInv` | tools/agents/oc.py:2264-2352 | every step of the scheduler or a member thread, a crash that keeps its place included, keeps the invariant |
| `WaveScheduler.RunIsSafe` | tools/agents/oc.py:2264-2352 | in every state of every interleaving the caps and the worker bound hold, and the members started are the first ones in order, once each |
| `WaveProgress.StepsUseUpWork` | tools/agents/oc.py:2264-2352 | every step that is not polling uses up remaining work, a crash two units and any other step one |
| `WaveProgress.RunsActBoundedly` | tools/agents/oc.py:2264-2352 | no run acts more than four times per member; only polling can repeat |
| `WaveProgress.NeverStuck` | tools/agents/oc.py:2331-2350 | unless done or aborted some step is possible; with fewer threads alive than slots the scheduler launches the next member exactly when the caps hold with it, and with all members ended only leaked places count |
| `WaveProgress.LeaksOnlyGrow` | tools/agents/oc.py:2264-2317 | only a crash leaks a place, and no step recovers one |
| `WaveProgress.BlockedNeverFinishes` | tools/agents/oc.py:2331-2350 | any steps at all that lead to the end start from an unblocked state |
| `WaveProgress.WaveCanFinish` | tools/agents/oc.py:2331-2350 | from every unblocked state that has not aborted some steps without crashes lead to all members started and ended |
| `WaveProgress.FinishIffUnblocked` | tools/agents/oc.py:2331-2350 | a wave that has not aborted can finish, with or without crashes, if and only if every member not yet reserved fits beside the leaked places alone |
| `WaveProgress.CrashBlocksTwin` | tools/agents/oc.py:2264-2285 | two members of one free Zen model: once the first crashes nothing leads to the end |
| `WaveProgress.SpecDecides` | tools/agents/oc.py:2232-2352 | the wave can finish from every reachable state that has not aborted if and only if the spec holds at most one member per free Zen model, three free Zen in all and three per other model |
| `WaveProgress.WaveFinishes` | tools/agents/oc.py:2331-2350 | an endless execution that is never blocked and whose members all end gets to the end of the wave |
| `WaveProgress.WavesWithoutCrashFinish` | tools/agents/oc.py:2331-2350 | every execution from the start without crashes in which every started member ends gets to the end |
| `WaveProgress.CappedWavesFinish` | tools/agents/oc.py:2331-2350 | so does every execution of a wave whose spec is within the caps, whatever crashes |
| `Pointers.UnescapeEscape` | crates/crpg-data/src/introspection.rs:83-85 | unescaping undoes the escaping of section 4 of RFC 6901, for every token |
| `Pointers.EscapeUnescape` | crates/crpg-data/src/action_signatures.rs:197-199 | escaping undoes unescaping if and only if the text is a well-formed escaped token |
| `Pointers.SubtreeIsPrefix` | crates/crpg-data/src/introspection.rs:115-120 | the text test on rendered pointers holds if and only if one token list is a prefix of the other |
| `Pointers.Navigate` | crates/crpg-data/src/introspection.rs:91-108 | the loop finds what following the pointer's unescaped keys finds |
| `Pointers.NavigateInTwoSteps` | crates/crpg-data/src/introspection.rs:91-108 | navigating a concatenated pointer equals navigating its parts in turn |
| `Pointers.KeysOfRendered` | crates/crpg-data/src/introspection.rs:91-108 | the keys of a rendered pointer are the tokens it was rendered from |
| `Pointers.IndexTokens` | crates/crpg-data/src/introspection.rs:101-104 | a token is an array index exactly when it is a numeral in range, with or without a plus sign |
| `PlainPointers.UnescapeIsIdentity` | crates/crpg-data/src/introspection.rs:83-85 | unescaping leaves a text alone if and only if no tilde in it is followed by 0 or 1 |
| `PlainPointers.KeysOfJoined` | crates/crpg-data/src/introspection.rs:87-108 | keys joined by slashes are read back as they were if and only if all are plain |
| `PlainPointers.PlainKeysNavigate` | crates/crpg-data/src/introspection.rs:87-108 | navigating slash-joined keys equals following them in every document if and only if no key holds a slash or an escape |
| `PlainPointers.TildeOneIsNotFound` | crates/crpg-data/src/introspection.rs:87-108 | the documented reading fails at the key `~1` |
| `Ulids.FirstDigitDecides` | crates/crpg-core/src/ulid.rs:80-82 | a 26-character text stays below 2^128 if and only if its first digit is at most 7 |
| `Ulids.EncodingNames` | crates/crpg-core/src/ulid.rs:52-90 | the 26 digits of every 128-bit value are accepted and denote it |
| `Ulids.SameIdentifier` | crates/crpg-core/src/ulid.rs:111-123 | two texts name one identifier if and only if they differ in case and aliases only |
| `Ulids.DecodeMeans` | crates/crpg-core/src/ulid.rs:111-123 | a character stands for a digit exactly when in capitals it is the digit's own character, O for zero, or I or L for one |
| `Ulids.TextOrderIsNumericOrder` | crates/crpg-core/src/ulid.rs:11-17 | numeric order equals lexical order of the texts |
| `Ulids.PartsRoundTrip` | crates/crpg-core/src/ulid.rs:27-49 | parts are cut to 48 and 80 bits, come back, and make up the whole |
| `Ulids.EarlierTextIsEarlierTime` | crates/crpg-core/src/ulid.rs:11-29 | an earlier time has the earlier text whatever the randomness |
| `Ulids.Display` | crates/crpg-core/src/ulid.rs:52-65 | the text filled from the end is canonical and reads back as the value |
| `Ulids.AppendFits` | crates/crpg-core/src/ulid.rs:83-86 | after a first digit of at most 7 the checked multiply and add never fail |
| `Ulids.FromStr` | crates/crpg-core/src/ulid.rs:67-90 | accepts exactly 26 readable characters with first digit at most 7 and returns the value; each error if and only if its cause, at the first bad character |
| `Sorting.SortSorts` | crates/crpg-core/src/event.rs:125-128 | the sort is ascending and a permutation |
| `Sorting.SortIsStable` | crates/crpg-core/src/event.rs:121-128 | elements that rank equal keep their order |
| `EventQueues.Load` | crates/crpg-core/src/event.rs:68-98 | accepts if and only if stamps are distinct and below an unsaturated counter; an error names the first repeated stamp or the highest one |
| `EventQueues.EventsAreConserved` | crates/crpg-core/src/event.rs:115-128 | over every run, drained and queued events together are exactly the initial and pushed ones |
| `EventQueues.StampsCountUp` | crates/crpg-core/src/event.rs:115-119 | the k-th stamp is the counter plus k, held at the last number |
| `EventQueues.StampsAreDistinctIff` | crates/crpg-core/src/event.rs:109-119 | no number is used twice over a run if and only if the counter has room for all its pushes |
| `EventQueues.StampsRepeatAcrossDrains` | crates/crpg-core/src/event.rs:68-128 | push, drain and push at a saturated counter repeat a number although every queue loads |
| `EventQueues.EachEventOnce` | crates/crpg-core/src/event.rs:115-128 | each of up to 2^64 pushed events is drained or queued exactly once, and has a stamp of its own |
| `EventQueues.DrainsAreSorted` | crates/crpg-core/src/event.rs:125-128 | a drain of a loadable queue is strictly ascending by tick and stamp and complete |
| `EventQueues.DrainsAreStable` | crates/crpg-core/src/event.rs:121-128 | any drain, at saturation too, is ascending, complete, and keeps push order among ties |
| `EventQueues.PushKeepsLoadable` | crates/crpg-core/src/event.rs:109-119 | a push keeps the queue loadable if and only if the counter is unsaturated or its last number is not queued |
| `EventQueues.SaturatedPushesCollide` | crates/crpg-core/src/event.rs:109-119 | two pushes at a saturated counter give a queue the loader refuses |
| `EventQueues.RunsAreOrderly` | crates/crpg-core/src/event.rs:68-128 | up to 2^64 pushes, every queue of every run loads and every batch is strictly ascending |
| `EventQueues.EventQueue.constructor` | crates/crpg-core/src/event.rs:102-107 | a new queue is empty with counter zero |
| `EventQueues.EventQueue.PushEvent` | crates/crpg-core/src/event.rs:115-119 | appends one stamped event and advances the counter, saturating |
| `EventQueues.EventQueue.DrainEvents` | crates/crpg-core/src/event.rs:125-128 | returns the sorted batch and leaves the queue empty with its counter |

## Left out

- JSON reading and writing, serde derives, schema generation and BLAKE3: external libraries. The bundle revision digest and the bundle byte limit of `ActionSignatureStore::new` are not part of this model.
- `validate_call` after its budget stage (argument matching by name and category, canonical byte count): a fixed sequence of lookups.
- Modifier stacking, ordering and scaling in `eval_stat`: a modifier is any function that keeps the kind of a value, so the evaluation results hold for every stacking rule that does.
- The cycle and depth checks of crates/crpg-rules/src/derived.rs, which repeat the ones of combat.rs on interned ids.
- Error message texts, source locations and exit codes.
- StatQueries.StatQuery.EvalStat: returns the outcome without the trace's dependency list and without the location of an error.
- Disks.Disk.ReadFile: does not follow symbolic links; the checks before every read in the save phase exclude them.
- Disks.Disk.SameFile: compares files only; the save phase asks about observed regular paths.
- SavePhase.Save: assumes that nobody else changes the disk during the save, as the source's own comments do; directory walking and campaign loading before it are not modelled.
- RejectionSampling.GenRangeU32: takes the words it may draw as an argument and returns nothing when all are rejected, because the source's loop has no bound to prove.
- RejectionSampling.GenRangeI32: takes the words it may draw as an argument, like `GenRangeU32`.
- RandomStreams.DeterministicRng.NextU32: says nothing about the statistical quality of PCG32 or SplitMix64.
- Declarations.NewStore: does not model the byte limit and the digest of the stored bundle.
- CallForms.FailuresPoint: takes argument names and map keys as distinct, which the source's ordered maps guarantee, and lists as no longer than a machine index; scalars other than text are written by an arbitrary function; only where a value stands in the form matters.
- StreamBits.GoldenWords: the first four of the sixteen listed words.
- Ulids.PartsRoundTrip: shifts and masks are written as division and remainder by powers of two.
- GenerationalArenas.GenerationalArena.Insert: a full arena returns nothing, where the source panics.
- DependencyLint.CheckCycles: takes the internal edges as given, requires that every neighbour is a node as the source's colour lookup does, and lists cycles instead of formatted lines.
- WaveProgress.WavesWithoutCrashFinish: takes it as given that every started member ends; the bounds on a member's own running time are not modelled.
- WaveScheduler.RunIsSafe: slot locks, worker processes, git calls and time are not part of the state; a member holds its place from its reservation to its release, and after a crash for good. Starting a thread and noting it as started are one step.
- Easy parts of the files modelled: `next_u64`, `gen_bool`, `abs`, `signum`, `checked_add`, `checked_sub`, iterators over names, the operator traits.
