# Hash aggregate kernel code generation, modelled in Dafny

`HashAggregateKernel::Impl` generates the C++ code for one grouped-aggregation
stage of a columnar query pipeline. It makes the following decisions:

- **Plan analysis.** It reads an ordered list of *actions* (`action_groupby`,
  `action_sum`, `action_countLiteral_<N>`, ...). Their argument expressions go
  into a *pool* that is deduplicated by rendering. `action_groupby` arguments
  also become the group-by keys.
- **Key strategy.** It picks a hash table for the keys. It builds the key
  directly from a single key, or packs several keys into an `UnsafeRow`.
- **Per-row code.** It emits a prepare block and a process block:
  - each pool entry's one-time snippet is emitted before its first use;
  - the row is routed to a group, with the null group used for an invalid
    single key;
  - every action is called on that group, gated on its first argument's
    validity; a call that returns an error status ends the row.
- **Action registry.** It emits a `PrepareActionList` function that turns
  names and types into accumulators.
- **Finish block.** It emits a finish block that pages the groups out
  10000 at a time. This block keeps an offset, a group high-water mark and a
  stop flag.
- **Result projection.** The constructor decides whether the output needs a
  final projection. None is kept when the result fields and result
  expressions render the same.

The model keeps these decisions and drops the C++ text. Emitted code is a
sequence of structured statements (`CodeIr.Stmt`), and those statements are
given a meaning over one row (`CodeIr.Exec`). That meaning includes the early
return of `RETURN_NOT_OK`: which accumulator calls fail on a row is part of
the row's environment. Expression rendering
(`ToString`) and the expression visitor are function parameters.

Modules:

| module | file | covers |
|---|---|---|
| `AggTypes` | `types.dfy` | types, nodes, status values |
| `ExprPool` | `pool.dfy` | interning by rendering |
| `PlanAnalysis` | `analysis.dfy` | the action loop |
| `CodeIr` | `code_ir.dfy` | emitted statements and their meaning over one row |
| `KeyStrategy` | `key_strategy.dfy` | table choice and key code |
| `Dispatch` | `dispatch.dfy` | action calls and the process block |
| `ActionRegistry` | `registry.dfy` | the generated `PrepareActionList` and `std::stoi` |
| `ResultProjection` | `projection.dfy` | the constructor |
| `FinishCursor` | `finish.dfy` | the finish state machine |
| `HashAggregateKernel` | `kernel.dfy` | `DoCodeGen` and its end-to-end properties |

Behaviour of the code worth noting:

- **Headers are not fully deduplicated.** Only the expression visitor's
  headers are checked for presence before being added. The `UnsafeRow` and
  projector headers are pushed unconditionally.
- **The stop test's comparison is unsigned.** It is `num_groups < offset`,
  with `num_groups` an `int` compared against a `uint64_t`. So `-1` (no group
  seen) converts to 2^64 - 1 and never triggers the test. Unkeyed aggregation
  never raises `num_groups`, so it stops only on an empty page.
- **"Caught up" means past the highest group id.** The mark is the highest
  group id, not a count, so the stage stops once the offset exceeds it.

## Model

| member | source | states |
|---|---|---|
| ExprPool.Lookup | cpp/src/codegen/arrow_compute/ext/hash_aggregate_kernel.cc:139-150 | the search finds the first pool entry whose rendering equals the child's, and finds none exactly when no entry renders that way |
| ExprPool.Intern | cpp/src/codegen/arrow_compute/ext/hash_aggregate_kernel.cc:137-158 | a child is given a slot that renders like it; a render-equal entry is reused and the pool left unchanged, otherwise the child is appended at the end; a duplicate-free pool stays duplicate-free |
| ExprPool.InternAllFacts | cpp/src/codegen/arrow_compute/ext/hash_aggregate_kernel.cc:137-160 | `InternAll`, interning an action's children, keeps the old pool as a prefix, gives the j-th child a slot rendering like it, takes every new slot for some child, and keeps the pool duplicate-free |
| ExprPool.InternAllAppend | cpp/src/codegen/arrow_compute/ext/hash_aggregate_kernel.cc:121-160 | interning the children of consecutive actions one after the other equals interning their concatenation, both for the pool and for the slot lists |
| ExprPool.FirstsKeepRenderings | cpp/src/codegen/arrow_compute/ext/hash_aggregate_kernel.cc:137-158 | keeping only first occurrences loses no rendering of the children |
| ExprPool.InternAllIsFirsts | cpp/src/codegen/arrow_compute/ext/hash_aggregate_kernel.cc:137-158 | interning into an empty pool yields exactly the first occurrence of each rendering, in first-seen order (checked against an independent reference definition) |
| PlanAnalysis.Analyze | cpp/src/codegen/arrow_compute/ext/hash_aggregate_kernel.cc:121-164 | analysis fails exactly when some action lacks the `action_` prefix, and then with Invalid and the fixed message |
| PlanAnalysis.AnalysisSound | cpp/src/codegen/arrow_compute/ext/hash_aggregate_kernel.cc:121-164 | a successful analysis has one entry per action with its name and type (first child's type, else the node's), no slots for countLiteral actions, one slot per child otherwise, each rendering like its child; the keys are exactly the groupby children in order with duplicates, each resolved to a render-equal slot; the pool is duplicate-free and every pool slot is used |
| PlanAnalysis.AnalyzeAction | cpp/src/codegen/arrow_compute/ext/hash_aggregate_kernel.cc:122-163 | one action fails with Invalid and the fixed message exactly when it lacks the `action_` prefix; otherwise it appends one entry with the action's name and type, extends the keys by the children exactly for groupby, and gives countLiteral no slots with the pool untouched and every other action one slot per child |
| PlanAnalysis.SlotsAreLookups | cpp/src/codegen/arrow_compute/ext/hash_aggregate_kernel.cc:139-157 | every recorded argument slot and key slot is the one the pool search returns for that child's rendering |
| PlanAnalysis.PoolIsInternedArgs | cpp/src/codegen/arrow_compute/ext/hash_aggregate_kernel.cc:121-160 | the pool is the interning of all non-countLiteral children in plan order |
| PlanAnalysis.PoolIsFirstSeen | cpp/src/codegen/arrow_compute/ext/hash_aggregate_kernel.cc:133-158 | the pool holds the first occurrence of each rendering among the non-countLiteral children, in first-seen order |
| CodeIr.EmitSnippet | cpp/src/codegen/arrow_compute/ext/hash_aggregate_kernel.cc:278-281 | a slot's snippet is emitted only if it has not been emitted yet, and afterwards counts as emitted |
| CodeIr.Raise | cpp/src/codegen/arrow_compute/ext/hash_aggregate_kernel.cc:311-315 | the group high-water mark becomes the larger of its old value and the row's group id |
| KeyStrategy.ChooseTable | cpp/src/codegen/arrow_compute/ext/hash_aggregate_kernel.cc:166-184 | no table without keys; the string map exactly for several keys or one string key; a sparse map typed by the key exactly for one non-string key |
| KeyStrategy.KeyCode | cpp/src/codegen/arrow_compute/ext/hash_aggregate_kernel.cc:211-252 | the key code emits the snippet of each key slot once and reads no slot before its snippet |
| KeyStrategy.RowFields | cpp/src/codegen/arrow_compute/ext/hash_aggregate_kernel.cc:233-247 | the packing code emits the snippet of each key slot not yet emitted exactly once and reads no slot before its snippet; afterwards exactly the key slots are added to the emitted set |
| KeyStrategy.RowFieldsPack | cpp/src/codegen/arrow_compute/ext/hash_aggregate_kernel.cc:233-247 | packing several keys appends, in key order, key p's value at position p when valid and marks position p null otherwise |
| KeyStrategy.KeyCodeMeaning | cpp/src/codegen/arrow_compute/ext/hash_aggregate_kernel.cc:211-252 | no key: nothing happens; one key: the key validity is that slot's validity; several keys: validity is true, the row is reset and then packed |
| Dispatch.Gate | cpp/src/codegen/arrow_compute/ext/hash_aggregate_kernel.cc:282-297 | an action's call reads exactly its argument slots |
| Dispatch.GateMeaning | cpp/src/codegen/arrow_compute/ext/hash_aggregate_kernel.cc:282-297 | an action call is EvaluateNull exactly when it has arguments and the first is invalid, otherwise Evaluate with all its arguments, on the current group; the row returns exactly when that call fails |
| Dispatch.EmitSnippets | cpp/src/codegen/arrow_compute/ext/hash_aggregate_kernel.cc:278-281 | an action's pending snippets are emitted once each, before its call |
| Dispatch.ActionCode | cpp/src/codegen/arrow_compute/ext/hash_aggregate_kernel.cc:277-299 | the action code emits the snippet of every argument slot not yet emitted exactly once, and no call reads a slot before its snippet |
| Dispatch.ActionCodeMeaning | cpp/src/codegen/arrow_compute/ext/hash_aggregate_kernel.cc:277-299 | running the action code records the reference call of each action, in plan order, up to and including the first call that fails, and nothing after it; the row has returned exactly when some call failed |
| CodeIr.ExecReturned | cpp/src/codegen/arrow_compute/ext/hash_aggregate_kernel.cc:289-295 | once the row has returned on a failed call, no later statement runs |
| Dispatch.ProcessCode | cpp/src/codegen/arrow_compute/ext/hash_aggregate_kernel.cc:300-318 | the process block's frame adds no snippet: it emits exactly the snippets of the action code, each as often |
| Dispatch.ProcessMeaning | cpp/src/codegen/arrow_compute/ext/hash_aggregate_kernel.cc:289-318 | without keys every row uses group 0 and the mark is untouched; with keys the row does GetOrInsert on a valid key and GetOrInsertNull otherwise and uses the group it returns; the calls run until the first failure, and the mark is raised to the group only when no call failed |
| ActionRegistry.Stoi | cpp/src/codegen/arrow_compute/ext/hash_aggregate_kernel.cc:349 | `std::stoi` yields a value within `int` range, or fails with invalid_argument or out_of_range naming the text |
| ActionRegistry.StoiReads | cpp/src/codegen/arrow_compute/ext/hash_aggregate_kernel.cc:349 | text of spaces, an optional sign, digits and then no digit reads as the signed digit value when it fits an `int`, and otherwise fails with out_of_range naming the text |
| ActionRegistry.StoiNoDigits | cpp/src/codegen/arrow_compute/ext/hash_aggregate_kernel.cc:349 | `std::stoi` fails with invalid_argument exactly when no digit follows the leading spaces and optional sign |
| ActionRegistry.StoiRoundTrip | cpp/src/codegen/arrow_compute/ext/hash_aggregate_kernel.cc:347-350 | every `int` printed in decimal is read back by `std::stoi` |
| ActionRegistry.MakeAction | cpp/src/codegen/arrow_compute/ext/hash_aggregate_kernel.cc:330-359 | a built accumulator maps back to the name unless it is countLiteral, carries the given type when it takes one, and a countLiteral one carries what `std::stoi` reads from the suffix; a failure is NotImplemented naming the name or the suffix's `std::stoi` error |
| ActionRegistry.ExactNamesAreNotCountLiterals | cpp/src/codegen/arrow_compute/ext/hash_aggregate_kernel.cc:347-355 | the countLiteral prefix test, placed before the two stddev names, does not capture any exact name |
| ActionRegistry.ExactNameBuilds | cpp/src/codegen/arrow_compute/ext/hash_aggregate_kernel.cc:329-355 | each of the eleven exact names builds its own accumulator with the given type (count takes none) |
| ActionRegistry.ExactNameAction | cpp/src/codegen/arrow_compute/ext/hash_aggregate_kernel.cc:329-355 | an exact name always succeeds, its accumulator maps back to the name, and it carries the given type unless it is count |
| ActionRegistry.CountLiteralAction | cpp/src/codegen/arrow_compute/ext/hash_aggregate_kernel.cc:347-350 | a countLiteral name succeeds exactly when `std::stoi` accepts its suffix, carries the value read, and otherwise fails with stoi's error |
| ActionRegistry.UnknownNameAction | cpp/src/codegen/arrow_compute/ext/hash_aggregate_kernel.cc:356-358 | a name is NotImplemented (naming it) exactly when it is neither an exact name nor countLiteral-prefixed |
| ActionRegistry.NameRoundTrip | cpp/src/codegen/arrow_compute/ext/hash_aggregate_kernel.cc:329-355 | every accumulator is built back from its own name and type |
| ActionRegistry.PrepareActionList | cpp/src/codegen/arrow_compute/ext/hash_aggregate_kernel.cc:325-364 | the list succeeds exactly when every name/type pair builds, then the i-th accumulator is the one built from the i-th name and i-th type; otherwise the first failing pair's error is returned |
| ResultProjection.IsIdentityProjection | cpp/src/codegen/arrow_compute/ext/hash_aggregate_kernel.cc:62-73 | true exactly when the two lists have equal length and render the same position by position |
| ResultProjection.NewKernel | cpp/src/codegen/arrow_compute/ext/hash_aggregate_kernel.cc:50-79 | input fields are recorded; the projection is dropped exactly when the result lists render the same, and otherwise keeps the result fields and expressions; a projection remains exactly when the expression list is non-empty and differs |
| FinishCursor.ToUnsigned | cpp/src/codegen/arrow_compute/ext/hash_aggregate_kernel.cc:386-388 | conversion of `num_groups` to `uint64_t`: unchanged when non-negative, plus 2^64 when negative |
| FinishCursor.Initial | cpp/src/codegen/arrow_compute/ext/hash_aggregate_kernel.cc:265-267 | the state starts not finished, at offset 0, with high-water mark -1 |
| FinishCursor.ObserveGroup | cpp/src/codegen/arrow_compute/ext/hash_aggregate_kernel.cc:311-315 | a row raises the mark to the larger of its old value and the row's group and changes nothing else |
| FinishCursor.FinishStep | cpp/src/codegen/arrow_compute/ext/hash_aggregate_kernel.cc:368-391 | a finish call sets finished, asks every action for 10000 groups at the current offset, advances offset and output length by the first array's length (not at all without output), and stops exactly when the output length is 0 or the unsigned mark is below the new offset |
| FinishCursor.FinishedIsSticky | cpp/src/codegen/arrow_compute/ext/hash_aggregate_kernel.cc:368 | finished is never cleared, and from the initial state holds exactly after some finish call |
| FinishCursor.HighWaterMark | cpp/src/codegen/arrow_compute/ext/hash_aggregate_kernel.cc:311-315 | after rows with group ids `ids`, the mark is their maximum (at least -1), bounds every id and is one of them unless there were none |
| FinishCursor.CompletionCondition | cpp/src/codegen/arrow_compute/ext/hash_aggregate_kernel.cc:368-403 | the stage's completion condition is the finished flag: false initially, true after any finish call whatever its stop test says, and from the initial state true exactly after some finish call |
| FinishCursor.CompletedBeforeDrained | cpp/src/codegen/arrow_compute/ext/hash_aggregate_kernel.cc:368-403 | the stage can be complete while groups remain and the stop flag is clear, as after one page of 20000 groups |
| FinishCursor.NoGroupsStopsOnEmptyOutput | cpp/src/codegen/arrow_compute/ext/hash_aggregate_kernel.cc:386-390 | with no group seen, the stage stops exactly when the output length is 0 |
| FinishCursor.DrainProgress | cpp/src/codegen/arrow_compute/ext/hash_aggregate_kernel.cc:373-390 | after k finish calls over G groups the offset is min(10000 k, G) and the stage has stopped exactly when 10000 k >= G |
| FinishCursor.DrainCallCount | cpp/src/codegen/arrow_compute/ext/hash_aggregate_kernel.cc:373-390 | G groups are paged out in exactly ceil(G / 10000) calls, ending with offset G |
| HashAggregateKernel.AddNew | cpp/src/codegen/arrow_compute/ext/hash_aggregate_kernel.cc:201-206 | a header is appended only when not yet present; earlier headers are kept in place and duplicates never arise |
| HashAggregateKernel.VisitAll | cpp/src/codegen/arrow_compute/ext/hash_aggregate_kernel.cc:189-208 | the visitor runs on every pool entry in order and generation continues exactly when all succeed; otherwise the first failure is returned |
| HashAggregateKernel.Headers | cpp/src/codegen/arrow_compute/ext/hash_aggregate_kernel.cc:96-99 | the two base headers come first; the projector header is present when a projection is kept |
| HashAggregateKernel.Assemble | cpp/src/codegen/arrow_compute/ext/hash_aggregate_kernel.cc:393-401 | a projector over the result schema and expressions is built exactly when result expressions remain, with its header; one registry name, one type and one finish request per action |
| HashAggregateKernel.DoCodeGen | cpp/src/codegen/arrow_compute/ext/hash_aggregate_kernel.cc:89-417 | successful generation starts with the base headers, keeps a projector exactly when result expressions remain, and lists one name, one type and one finish request per action |
| HashAggregateKernel.CodeGenFailures | cpp/src/codegen/arrow_compute/ext/hash_aggregate_kernel.cc:121-208 | generation fails with Invalid when an action lacks the prefix; otherwise it fails exactly when the visitor fails on one of the distinct argument expressions in first-seen order, with the first such failure |
| HashAggregateKernel.SnippetsOnceBeforeUse | cpp/src/codegen/arrow_compute/ext/hash_aggregate_kernel.cc:211-318 | across the prepare and process blocks every pool entry's snippet is emitted exactly once, no other snippet is emitted, and no statement reads a slot before its snippet |
| HashAggregateKernel.RegistryPairs | cpp/src/codegen/arrow_compute/ext/hash_aggregate_kernel.cc:255-274 | the registry lists pair the i-th action's name with its type, and the generated list builds the i-th accumulator from exactly that pair |
| HashAggregateKernel.FinishAsksEveryAction | cpp/src/codegen/arrow_compute/ext/hash_aggregate_kernel.cc:373-378 | every finish call asks each action of the plan, in order, for the page at the current offset |
| HashAggregateKernel.KeyStrategyAgrees | cpp/src/codegen/arrow_compute/ext/hash_aggregate_kernel.cc:166-228 | the table follows the groupby children; a row as wide as the key count is packed only for several keys; the row and table headers are present |
| HashAggregateKernel.HeadersComplete | cpp/src/codegen/arrow_compute/ext/hash_aggregate_kernel.cc:189-224 | every header a pool entry needs is included, and only the row and projector headers can occur twice |
| HashAggregateKernel.RowRouting | cpp/src/codegen/arrow_compute/ext/hash_aggregate_kernel.cc:211-318 | for any row: one lookup with keys (GetOrInsertNull exactly for an invalid single key) and none without; the row's group is the lookup's (0 without keys); the last events are the calls of the actions in plan order on that group up to and including the first failing one; the row returns exactly when a call failed; the mark is raised to the group only with keys and no failed call |
| HashAggregateKernel.RowsMark | cpp/src/codegen/arrow_compute/ext/hash_aggregate_kernel.cc:289-318 | over any sequence of rows the process block moves the group mark exactly as the finish cursor's mark moves when observing the routed group of each row whose calls all succeed; a row that returns early leaves the mark, and without keys it never moves |
| HashAggregateKernel.GroupMarkAgrees | cpp/src/codegen/arrow_compute/ext/hash_aggregate_kernel.cc:289-315 | after generated code runs over any rows from the initial mark -1, the mark the finish block reads is -1 without keys and otherwise the largest group among the rows whose calls all succeeded |

## Left out

- The C++ text is not modelled: formatting, the `level` suffixes and variable names, `GetTypeString` and similar helpers. Statements are structured values instead.
- The expression visitor is a function parameter. It yields the headers an expression needs, or a failure. Its value, validity and prepare snippets are represented by the pool slot.
- The accumulators' own constructors are not modelled. The `Make*Action` calls, their failures and the accumulators' behaviour are outside this file. Each successful name builds a constructor tag.
- The hash maps and `UnsafeRow` internals are left out. The group ids a row receives and the page lengths an action returns are inputs.
- `GandivaProjector` construction and evaluation are left out. The model records only whether a projector is kept, its schema, its expressions and its header.
- The input field list reaches only the expression visitor (line 193), so it is folded into the `visit` parameter. The constructor records it.
- The `MakeResultIterator` and `GetSignature` stubs and the `Make` wrappers are not modelled.
- The finish block's projector evaluation call and `should_stop_ := false` are not modelled as separate steps. The stop flag is recomputed by every finish call.
- `out_length` is the surrounding framework's variable. It is an unbounded integer in the cursor state, and its reset between batches is not modelled.
- `THROW_NOT_OK` and the exceptions of `std::stoi` are modelled as error results, not exceptions.
- The status an accumulator call returns is not modelled beyond failure. Which actions fail on a row is an input, and a failing action fails whichever of `Evaluate` and `EvaluateNull` it is called with. The error value the row function passes on is not recorded.
- The casts to `FieldNode` and `FunctionNode` are assumed to succeed. They are preconditions of `ResultProjection.NewKernel` and structural in `ActionNode`.
- ResultProjection.NewKernel: requires its input nodes, and its result field nodes when a projection is kept, to be column references. The constructor dereferences the casts without checking them.
- FinishCursor.FinishStep: states the new offset only when adding the first array's length does not pass 2^64. The wrapped value is computed but not stated.
- FinishCursor.DrainProgress: limits the group count to 2^31, the range of the `int` high-water mark.
- ActionRegistry.PrepareActionList: requires at least as many types as names. The generated lists are always equally long (HashAggregateKernel.RegistryPairs).
