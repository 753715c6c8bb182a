# Verified model of the operation runtime and its evidence services

This project models the decision-making core of the Fyn backend and proves what it promises, for all
inputs and all runs:

- **The operation language.** Operation files are small declarative workflows. A static checker
  (`Compiler`) admits them against a table of trusted primitives and derives their authority; an
  interpreter (`Interpreter`) runs them with dynamic lookups. `Workflow` holds the language, its typing
  judgement and its semantics. The theorems are type soundness, an exact condition for finishing, the
  authority bound, and a data-flow theorem that describes finished runs without the interpreter.
  `BindingGrammar`, `CompilerRules` and `WorkflowCalls` say what references, the checker's rules and the
  single calls of a run come to, without the checker.
- **The catalog.** A directory of files becomes a snapshot, reloads keep the last good one (`Catalog`,
  `CatalogRuns`), and a text finds operations through an inverted token index that agrees with scoring
  everything (`Tokenizer`, `Discovery`); `Matching` says what is matched and offered, from the texts up.
- **The contract compiler.** JSON Schema definitions become Zod declarations in dependency order
  (`Contracts`, `ContractOrder`, `ContractMeaning`, `ContractBundle`): a meaning-preservation theorem over
  an acyclic reference environment and a full proof of the three-colour search. `ContractReading` is about
  what the browser reads, defaults included, and `ContractReferences` about where references are
  found and which schemas can be expressed.
- **Schema transformations and inverses.** Strict proposal schemas with null padding (`Proposals`), the
  language they accept (`ProposalMeaning`), and route bindings (`Routes`).
- **Protocols.** Durable event replay (`Replay`), keyset paging over a moving list (`Paging`), run
  admission (`Admission`) and the leased enrichment queue with late workers (`Enrichment`), each as a
  state machine whose steps interleave freely with everybody else's.
- **Evidence.** Usage snapshots and their merge algebra (`Usage`) and totals (`UsageTotals`), the pass
  reordering and the stored summary (`Passes`, `PassTotals`), percentiles (`Latency`).

`Prelude`, `Text`, `Ordering` and `JsonSchema` are shared: options and results, Python's string splitting,
the order of strings, and validity of a JSON value under the schema subset the repository uses. `Samples`
holds the smallest operations that compile, from which counterexamples are made.

Code that works step by step is a method or class proved against a specification function; the laws are
lemmas about that function. The primitive table, the invoker, argument coercion, string formats and
patterns, case folding, checksums, clocks and rounding are parameters, so every theorem holds for all of
them. Premises are stated where they are used: a primitive that managed files may use can be executed, an
invoker answers at least the declared output fields, if there are any (only for soundness), publishers
commit events and the row's last sequence together and in order while the run is active, runs go from
active to terminal only, and activity only raises `updated_at`.

## Where a promise needs a condition

For each of these the project has the exact condition and an input or a reachable run on which it fails.

- `collect_definitions` calls its result verified collision-free, but `setdefault` keeps an earlier
  `$defs` body over a different document of the same name. It is collision-free exactly when every `$defs`
  entry for a document's name repeats the document
  (`ContractBundle.CollisionFreeWhenDocumentsKeepTheirNames`, `ContractBundle.UnnoticedCollision`).
- The browser accepts more than the definitions: exactly what the emitter keeps of them
  (`ContractMeaning.CompilationPreservesMeaning`). Closed objects are opened on purpose
  (`ContractMeaning.ClosedObjectsAreOpened`); a required property whose schema has no type may be missing
  (`ContractMeaning.UntypedRequiredPropertyMayBeMissing`).
- Null padding breaks enumerations on objects and arrays (`Proposals.StrictAcceptsPadded`,
  `Proposals.EnumeratedObjectIsNotPaddable`), and cleaning removes nulls at the top level only, so an omitted
  optional property of a nested object does not survive the round trip (`Proposals.ProposalRoundTrip`,
  `Proposals.NestedOmissionIsNotRestored`).
- Reading back a route is refused when the schema enumerates whole inputs and the route carries a part that is
  not listed (`Routes.RouteRoundTrip`, `Routes.PartOfEnumeratedInputIsRefused`).
- The schema subset reads an absent `additionalProperties` as closed, the validator reads it as open, so a
  route can lose undeclared inputs (`Routes.WholeInputComesBack`, `Routes.UndeclaredInputIsLost`).
- A load that made its checks before the first install can change the core ids without a restart
  (`CatalogRuns.CoreIdsFixedExactlyWhenSettled`, `CatalogRuns.CoreIdsCanChange`).
- Cancelling a queued run releases the run behind it while the one in front still runs
  (`Admission.FinishingKeepsExclusiveExactlyInOrder`, `Admission.CancellingInTheMiddleReleases`).
- A failure reported after its lease was taken over reopens a completed enrichment
  (`Enrichment.SettledExactlyWhenOutOfReach`, `Enrichment.CompletedItemIsReopened`).

## Model

| member | source | states |
|---|---|---|
| `References.ResolveComputesMeaning` | backend/app/operations/execution.py:117-136 | For every binding the step validator lets through, the interpreter's regular expression and bounded splits return what the reference grammar says the string means (literal, item, input, field of a step's output), with the matching failure when there is nothing to find |
| `References.CheckerReadsMeaning` | backend/app/operations/catalog.py:240-255 | The static checker's prefix stripping and single split let a binding pass exactly when its meaning is well typed against what the checker has recorded so far, so the two parsers cannot disagree about a reference |
| `BindingGrammar.WrittenIsRead` | backend/app/operations/models.py:17 | Every reference that can be written with a name or step id of the right form passes the validator and means what was written |
| `BindingGrammar.ReadIsWritten` | backend/app/operations/models.py:135-143 | The converse: a binding that passes and opens like a reference is, character for character, its meaning written out |
| `BindingGrammar.AdmittedExactly` | backend/app/operations/models.py:135-143 | So the validator lets through exactly the scalars that do not open like a reference, and the written references |
| `BindingGrammar.NamesGrow` | backend/app/operations/models.py:17 | Names and step ids by their growth: a letter, then letters, digits and underscores, where step ids have no capitals |
| `Compiler.BindingDecided` | backend/app/operations/catalog.py:240-257 | With the recorded outputs of the earlier steps, the string test on one binding decides the typing judgement: the producer is an earlier step without `forEach` whose primitive declares the field |
| `Compiler.CheckStep` | backend/app/operations/catalog.py:212-255 | One round of the checker passes exactly the steps that satisfy the typing judgement (known and permitted primitive, inputs supplied by name or alias, array loops, well-typed bindings) |
| `Compiler.CheckSteps` | backend/app/operations/catalog.py:204-257 | The loop over `seen_steps`, `step_outputs`, `effects` and `permissions` gets through exactly when every step is well typed, and then holds the effects, confirmations and permissions of the steps in order |
| `Compiler.ValidateWorkflow` | backend/app/operations/catalog.py:204-279 | Accepts exactly the workflows whose steps are well typed, whose declared effect is the strongest one and whose declared permissions are the union over the steps; the derived authority is the strongest effect, the strongest confirmation including the declared minimum, and that union |
| `Compiler.CompileOperation` | backend/app/operations/catalog.py:282-301 | A file compiles exactly when it is admissible (document rules, schema subset, routing, workflow); the compiled operation carries the definition, its checksum, its source and the derived authority |
| `CompilerRules.EffectIsDerived` | backend/app/operations/catalog.py:259-275 | A compiled operation mutates when one of its primitives does, drafts when one drafts and none mutates, has no effect otherwise, and that is what its file expects |
| `CompilerRules.ConfirmationIsDerived` | backend/app/operations/catalog.py:260-271 | Confirmation is required when the file or a primitive requires it, conditional when one of them is conditional and none requires it, and otherwise never asked for; a file without effect does not raise it and a mutating one does |
| `CompilerRules.PermissionsAreDerived` | backend/app/operations/catalog.py:216-279 | A permission is derived exactly when some step uses a primitive that needs it, and the file lists just those |
| `CompilerRules.SubsetIsCheckedEverywhere` | backend/app/operations/catalog.py:138-180 | The recursive test of the input schema, by paths: it passes exactly when every node some path of properties and items leads to says what a node must say (known type and format, closed, arrays of one to a hundred) and no path is longer than eight steps |
| `CompilerRules.RoutingIsCheckedExactly` | backend/app/operations/catalog.py:183-199 | Routing is accepted exactly when each binding is written as the whole input or a declared field and has a target its strategy leaves to files, managed files and only they route as managed, and no protocol operation is offered to the model |
| `WorkflowCalls.InputsAreCheckedExactly` | backend/app/operations/catalog.py:217-234 | The test on sets of names lets a step pass exactly when each supplied key is the name or alias of some declared input and each required input is supplied under its name or alias |
| `WorkflowCalls.MissingInputIsRefused` | backend/app/operations/catalog.py:229-234 | A file with a step that leaves out a required input of its primitive is not admissible |
| `WorkflowCalls.UnknownInputIsRefused` | backend/app/operations/catalog.py:217-225 | Nor is one with a step that supplies an input its primitive does not declare |
| `WorkflowCalls.CallsSupplyWhatPrimitivesRequire` | backend/app/operations/catalog.py:217-234 | Over every run of an accepted operation, each call comes from coercing an argument map in which no required input of the primitive is missing and every key is one it declares |
| `Interpreter.ResolveArguments` | backend/app/operations/execution.py:211-214 | The dictionary comprehension over a step's bindings resolves them in order and stops at the first that fails |
| `Interpreter.ExecuteOperationSteps` | backend/app/operations/execution.py:193-223 | The two nested loops compute the run the semantics of the language prescribes: same outputs, same calls in the same order, same fault; the theorems below are about that semantics |
| `WorkflowSoundness.CheckedWorkflowsDoNotGetStuck` | backend/app/operations/catalog.py:204-257 | Type soundness: for every table, every invoker whose answers have at least the output fields their primitive declares (an answer of a primitive that declares none may be anything) and every valid input map, a run of an accepted definition never meets an unknown primitive, a missing step or field, a loop result read as an object, a non-array loop or a malformed reference; the only missing lookup possible is a declared optional input that was left out. A finished run has exactly one output per step, a list with one answer per item for a loop |
| `WorkflowSoundness.FinishesExactlyWhenReady` | backend/app/operations/execution.py:193-223 | Against such a world that also refuses nothing, a run over valid inputs finishes if and only if every loop's array was supplied and every input named by a step that runs at least once was supplied |
| `WorkflowSoundness.RunsFollowTheSchedule` | backend/app/operations/execution.py:206-222 | The order of invocations depends on the file and the inputs alone: a finished run made exactly the scheduled calls, each once and in order, an interrupted one a prefix of them |
| `WorkflowSoundness.ScheduleWithinBudget` | backend/app/operations/catalog.py:171-176 | On valid inputs the schedule has at most one call per plain step and one hundred per `forEach` step |
| `WorkflowCalls.BudgetCounts` | backend/app/operations/catalog.py:171-176 | That budget is the number of plain steps plus a hundred times the number of loops |
| `WorkflowSoundness.DerivedAuthorityBoundsEveryRun` | backend/app/operations/catalog.py:259-279 | Every primitive invoked on any run, in any iteration, on any input and against any invoker, is no stronger in effect and confirmation than derived and needs no permission outside the derived set, and the budget bounds the number of calls |
| `WorkflowCalls.AtMostFiveThousandCalls` | backend/app/operations/models.py:146-158 | No run of a compiled operation makes more than five thousand calls: fifty steps, a hundred items |
| `WorkflowSoundness.ApprovalIsDemanded` | backend/app/operations/models.py:200-208 | `requires_confirmation` is true exactly when the file's minimum or one of its primitives asks for confirmation, and always when some step uses a mutation primitive |
| `WorkflowSoundness.GuardNeverFiresForManaged` | backend/app/operations/execution.py:173-176 | Running a compiled managed operation through the guarded invoker of `execute_operation` is running it through the bare one, fault for fault and call for call |
| `WorkflowCalls.GuardStopsProtectedPrimitives` | backend/app/operations/execution.py:173-176 | For any operation at all: once a guarded run asks for a primitive managed files may not use or cannot execute, that is its last call, and the run stops with the refusal |
| `WorkflowDataflow.FinishedRunsSolveTheFile` | backend/app/operations/execution.py:205-223 | A finished run solves the file read as equations, stated without the interpreter: each call's arguments are what its bindings denote in the final outputs for its item, each output is the reply to its own call or the list of replies of its loop, and nothing is lost, repeated, reordered or attributed to another step |
| `WorkflowDataflow.InterruptedRunsFollowTheFile` | backend/app/operations/execution.py:205-223 | For every interrupted run there is a step it stopped in such that the steps before solve their equations over the outputs collected so far, and every call made in that step has the arguments its bindings denote in those outputs, for the first items in order, all answered except perhaps the last |
| `WorkflowDataflow.ResolvingIsDenoting` | backend/app/operations/execution.py:211-214 | Resolving safe bindings one after another collects exactly the argument map they denote, and fails exactly when one of them denotes nothing |
| `ContractOrder.Visitor.Visit` | backend/scripts/generate_frontend_contracts.py:278-287 | The three-colour recursion over `state` and `ordered`: on success the name is emitted after everything it needs and nothing emitted before has moved; on failure it returns a walk through the graph that meets itself; it terminates because the unvisited names shrink |
| `ContractOrder.DependencyOrder` | backend/scripts/generate_frontend_contracts.py:275-290 | Succeeds if and only if the reference graph has no cycle; the emitted order lists every definition once with all its dependencies before it; a refusal comes with a self-meeting walk |
| `ContractOrder.EmissionOrderMeansAcyclic` | backend/scripts/generate_frontend_contracts.py:272-274 | An order in which everything comes after its dependencies leaves no room for a cycle, which is why cycles have to be refused |
| `ContractOrder.SelfMeetingWalkHasCycle` | backend/scripts/generate_frontend_contracts.py:281-282 | The trail named in the refusal contains a genuine cycle |
| `Ordering.SortedLists` | backend/scripts/generate_frontend_contracts.py:284-289 | `sorted` over a set of names lists each once, in order |
| `ContractMeaning.NamesWithinReferences` | backend/scripts/generate_frontend_contracts.py:254-265 | Every name an emitted expression mentions is among `references_of` its schema |
| `ContractReferences.ReferencesAreEverywhere` | backend/scripts/generate_frontend_contracts.py:254-265 | `references_of` finds a name exactly when some way down the schema, through translated keywords or not, ends at a `$ref` to it |
| `ContractReferences.ExpressedExactly` | backend/scripts/generate_frontend_contracts.py:153-236 | A definition can be expressed exactly when every node on its translated paths is a reference, a literal, a union, untyped, or of a type and string format `zod_expr` knows; keywords it does not look at cannot make it fail |
| `ContractMeaning.NoUseBeforeDeclaration` | backend/scripts/generate_frontend_contracts.py:268-302 | Every defined name used inside an emitted declaration is declared earlier in the file |
| `ContractMeaning.KeptDecides` | backend/scripts/generate_frontend_contracts.py:153-236 | By induction over schema nodes and the acyclic `$ref` environment, and for every translatable schema, the emitted expression accepts exactly the values of the part of the schema it keeps: nothing beside references, literals and unions, open objects, no uniqueness or unknown keywords, and required only what is declared, has no default and cannot be read as absent |
| `ContractMeaning.KeepingWidens` | backend/scripts/generate_frontend_contracts.py:153-236 | Every value of a schema, references included, is a value of the kept part; proved on schemas alone |
| `ContractMeaning.ExpressionAccepts` | backend/scripts/generate_frontend_contracts.py:153-236 | Translation never narrows: every JSON value a translatable schema accepts is accepted by the expression `zod_expr` emits |
| `ContractMeaning.FaithfulExpressionReflects` | backend/scripts/generate_frontend_contracts.py:153-236 | From a faithful schema (nothing said that the emitter drops) that reaches only faithful definitions, the expression accepts nothing more than the schema, whatever else the file contains |
| `ContractMeaning.AbsenceAgrees` | backend/scripts/generate_frontend_contracts.py:186-234 | What the emitted expression does with an absent property is decided by a syntactic reading of the schema: it passes only through a default, optionality or an untyped schema, also behind `$ref` and `anyOf` |
| `ContractMeaning.CompilationPreservesMeaning` | backend/scripts/generate_frontend_contracts.py:268-302 | Whole file, without any condition on the definitions but scalar literals: the declaration of a name accepts exactly the documents valid for the kept part of its definition, hence every document the definition accepts |
| `ContractMeaning.FaithfulDefinitionsAreExact` | backend/scripts/generate_frontend_contracts.py:268-302 | A definition that reaches only faithful definitions means the same in both languages, whatever else is in the file |
| `ContractReading.ReadingFillsIn` | backend/scripts/generate_frontend_contracts.py:153-236 | What the browser reads, not only what it accepts: parsing an accepted value with the emitted expression gives the value with the defaults filled in, as read off the schema |
| `ContractReading.FileReadsFilledDocuments` | backend/scripts/generate_frontend_contracts.py:268-302 | The same for the whole emitted file and every document it accepts |
| `ContractReading.PropertiesReadAsStated` | backend/scripts/generate_frontend_contracts.py:218-231 | Property by property: an absent one reads as the default its definition states, or stays absent without one; a present one reads as its own value under its own schema, an undeclared one unchanged |
| `ContractReading.NothingToFill` | backend/scripts/generate_frontend_contracts.py:226-227 | Where no definition states a default, every document is read as it is |
| `ContractMeaning.ClosedObjectsAreOpened` | backend/scripts/generate_frontend_contracts.py:218-231 | The deliberate widening, for every closed object of every file: add any field under an undeclared name to a document its emitted expression accepts, and the expression goes on accepting while the definition refuses |
| `ContractMeaning.UntypedRequiredPropertyMayBeMissing` | backend/scripts/generate_frontend_contracts.py:218-234 | A concrete schema where the two differ though no keyword is dropped: a required property without a type is not kept as required, so it may be missing for Zod |
| `ContractBundle.CollectDefinitions` | backend/scripts/generate_frontend_contracts.py:239-251 | Fails exactly on the conflicts it looks for (two `$defs` entries that disagree, or an entry against the document that first defined the name); otherwise every definition is traceable to an entry or document and every entry and document is defined |
| `ContractBundle.CollisionFreeWhenDocumentsKeepTheirNames` | backend/scripts/generate_frontend_contracts.py:240-251 | The docstring promises that no name carries two bodies. Once the call has succeeded, that holds if and only if every `$defs` entry for a document's name repeats that document, which `setdefault` does not compare; the dictionary then holds every document under its own name |
| `ContractBundle.EntriesDecideCollisions` | backend/scripts/generate_frontend_contracts.py:240-251 | For every bundle, successful or not: no name carries two bodies if and only if no two `$defs` entries disagree and every entry for a document's name repeats that document |
| `ContractBundle.CollectedIsUnique` | backend/scripts/generate_frontend_contracts.py:239-251 | The bundle determines the collected dictionary, so what is said of some collected dictionary is said of the one returned |
| `ContractBundle.UnnoticedCollision` | backend/scripts/generate_frontend_contracts.py:248-250 | A concrete bundle with a collision that `collect_definitions` accepts: a `$defs` entry first, then a document of that name that differs |
| `ContractBundle.RenderZod` | backend/scripts/generate_frontend_contracts.py:268-302 | Success means collected definitions, an emission order and one declaration per name in that order; each failure means a conflict, a cycle of the collected definitions with a walk through them that meets itself, or a definition that cannot be expressed, respectively |
| `ContractBundle.EmitAll` | backend/scripts/generate_frontend_contracts.py:301-302 | One declaration per name in the given order, unless some definition cannot be expressed, which is then the one reported |
| `Proposals.StrictSchemaRequiresEverything` | backend/app/operations/tools.py:84-102 | Every object node of the strict schema of a checked schema is closed and requires exactly the properties it declares, at every depth |
| `Proposals.NullableAccepts` | backend/app/operations/tools.py:57-70 | For every schema `_nullable` adds null and nothing else; a schema that already is a union keeps its other keywords, and null is added exactly if they accept it |
| `Proposals.StrictAcceptsPadded` | backend/app/operations/tools.py:73-102 | A value valid for the file schema and padded with nulls at every level is accepted by the strict schema if and only if it is paddable: enumerated composites still enumerated, no undeclared properties |
| `ProposalMeaning.StrictAcceptsExactly` | backend/app/operations/tools.py:84-102 | The language of the strict schema, for all values: every object names exactly the declared properties, each null or fitting in turn; enumerations, types, patterns, number and array bounds and the formats providers know stay, string lengths, uniqueness and the money format go |
| `Proposals.ScalarEnumsArePaddable` | backend/app/operations/catalog.py:160-162 | If enumerations stand on scalars only and objects say they are closed, every valid value is paddable, so the strict schema accepts every padded valid value |
| `Proposals.EnumeratedObjectIsNotPaddable` | backend/app/operations/tools.py:84-102 | Where it fails: an enumerated object with an optional property, a value it lists, and the strict schema refusing the padded value |
| `Proposals.PaddedIsValidOnlyIfComplete` | backend/app/operations/tools.py:84-102 | A padded value is valid for the file schema again if and only if no object inside it left out a declared property |
| `Proposals.ProposalRoundTrip` | backend/app/operations/tools.py:105-108 | For every valid input map, complete or not, cleaning its padded form gives it back if and only if nothing inside a supplied input is incomplete and no input was null; the file schema without its `required` accepts the cleaned proposal in the same case |
| `Proposals.StrictToolTakesPartialInputs` | backend/app/operations/tools.py:76-102 | The strict schema accepts the padded form of any valid input map, required inputs left out or not, if and only if it is paddable |
| `Proposals.NestedOmissionIsNotRestored` | backend/app/operations/tools.py:105-108 | Where it fails: an operation that compiles and a valid input whose nested object omits an optional property; the cleaned proposal differs from it and the file schema refuses it |
| `Routes.BindRouteInputs` | backend/app/operations/execution.py:59-79 | Refuses exactly the inputs the schema rejects without its `required`; otherwise each target holds what its binding writes, absent and null fields write nothing, and no other target is written |
| `Routes.InputsFromRoute` | backend/app/operations/execution.py:82-114 | The loop over the bindings, the current request and the final validation compute the read-back the round trip is stated about, including the refusal of a non-object and of invalid inputs |
| `Routes.RouteRoundTrip` | backend/app/operations/execution.py:59-114 | Reading back a bound route never meets a non-object and yields exactly the inputs on the bound fields; it is refused only when the schema enumerates whole inputs and does not list that part. A current request only fills the declared `request` input no binding filled |
| `Routes.CurrentRequestComesBack` | backend/app/operations/execution.py:109-113 | Whenever reading back succeeds with a current message, a declared `request` that no binding brings back is that message, and every other field that comes back is the input it was |
| `Routes.PartOfEnumeratedInputIsRefused` | backend/app/operations/execution.py:110-113 | Where reconstruction fails: an operation that compiles, enumerates its one whole input and routes part of it; that input is valid and binds, and the read-back is refused |
| `Routes.WholeInputComesBack` | backend/app/operations/execution.py:72-74 | When some target binds `${input}`, the whole input map comes back if and only if every supplied field is declared, and always when the schema is closed |
| `Routes.UndeclaredInputIsLost` | backend/app/operations/execution.py:100-105 | Where it fails: an operation that compiles without saying that its inputs are closed, a valid undeclared input, and a route that reads back without it |
| `Routes.BindingOrderIsIrrelevant` | backend/app/operations/execution.py:96-108 | The order in which the file lists its bindings does not change which fields travel |
| `Tokenizer.FindAllSeparated` | backend/app/operations/catalog.py:58 | A character outside tokens separates them: the tokens of both sides, in order |
| `Tokenizer.JoinedTokens` | backend/app/operations/catalog.py:98 | The tokens of the blank-joined documents are the union of the tokens of each document, under any character-wise case folding |
| `Matching.WordsAreFound` | backend/app/operations/catalog.py:58-70 | Three rules that take any text apart: nothing in the empty text, a run of lower-case letters and digits is found whole, and any other character separates |
| `Matching.TokensAreFolded` | backend/app/operations/catalog.py:69-70 | The tokens of a text are what is found in its folding, which is the folding of its characters in order |
| `Discovery.BuildIndex` | backend/app/operations/catalog.py:88-103 | The postings filled by the two loops hold exactly the operations whose joined documents contain the token |
| `Discovery.PositiveScoreSharesToken` | backend/app/operations/catalog.py:73-85 | A positive match score implies a token shared by the query and the indexed documents |
| `Matching.PostedExactly` | backend/app/operations/catalog.py:88-103 | A token is posted for an operation exactly when its title, description, an alias or an example has it |
| `Matching.ScoreBalances` | backend/app/operations/catalog.py:73-85 | The score is the best share of common tokens with the description, an alias or an example, less the best share with a negative example; each best is attained and nothing exceeds it |
| `Matching.OfferedExactly` | backend/app/operations/catalog.py:458-469 | An operation is offered exactly when it is enabled, selectable by the model, managed if that is asked for, and (through the index) scores above zero |
| `Discovery.CandidateIds` | backend/app/operations/catalog.py:453-457 | The ids found are exactly those posted under some token of the text |
| `Discovery.Candidates` | backend/app/operations/catalog.py:451-470 | For every catalog, text, limit and filter the indexed search returns exactly the brute-force ranking: all eligible operations with a positive score, best first and by id, cut at the limit |
| `Discovery.CandidateOperations` | backend/app/operations/catalog.py:472-503 | A catalog of at most `limit` eligible operations is ranked whole, whatever the scores; a larger one is ranked as by `candidates` |
| `Discovery.SortingRanks` | backend/app/operations/catalog.py:470 | Sorting by `(-score, id)` lists the hits once each, best first |
| `Matching.BestAreOffered` | backend/app/operations/catalog.py:470 | Cut at a limit, a ranking leaves out only hits that score less than every hit it offers, or as much under a later id; a negative limit drops that many from the end |
| `Matching.OrderIsLexicographic` | backend/app/operations/catalog.py:470 | Ids are compared at the first place where they differ |
| `Discovery.RankingIsUnique` | backend/app/operations/catalog.py:470 | When ids identify operations there is only one ranking, so results do not depend on set iteration order |
| `Discovery.IndexedCandidatesLeadTheFullList` | backend/app/operations/catalog.py:489-503 | The two branches agree: what the index offers is the beginning of the complete list, and everything behind it scores zero or less |
| `Catalog.CompileFiles` | backend/app/operations/catalog.py:335-351 | The loop over core then managed files succeeds exactly when every file compiles and no two share an id, and then holds exactly those files under their ids |
| `Catalog.CompileFile` | backend/app/operations/catalog.py:345-351 | One round of that loop, including the override and duplicate refusals |
| `Catalog.OperationCatalogManager.Prepare` | backend/app/operations/catalog.py:321-404 | Succeeds exactly when the disk can be loaded and keeps the running core ids; success means ids agree, every operation is admissible with derived authority, core operations use exactly the protected primitives and core metrics are unique |
| `Catalog.OperationCatalogManager.Load` | backend/app/operations/catalog.py:321-440 | Every load installs a servable snapshot one generation on with matching health, or leaves the snapshot alone and records the failure. It installs exactly when the disk can be loaded with the running core ids, and then serves exactly what the files of that disk compile to, under the hash of its instructions and operations; the caller sees an error only on an initial load or with nothing to serve |
| `CatalogRuns.CatalogHoldsTheDisk` | backend/app/operations/catalog.py:335-351 | What is loaded are the files of the disk and nothing else: every core file, every managed file when a managed directory is configured, each under its own id and marked with its source |
| `CatalogRuns.HealthCountsWhatIsServed` | backend/app/operations/catalog.py:415-421 | Coherent health of a served snapshot, field by field: its generation, its hash, and as many core and managed operations as it has ids of that source |
| `Catalog.OperationCatalogManager.constructor` | backend/app/operations/catalog.py:314-319 | A new manager serves nothing and says so |
| `CatalogRuns.SnapshotSeparatesAuthority` | backend/app/operations/catalog.py:340-374 | In a servable snapshot core and managed operations have different ids and share no primitive, and the guard of `execute_operation` never fires for the managed one |
| `CatalogRuns.CoreUsesExactlyTheProtected` | backend/app/operations/catalog.py:353-374 | In a servable snapshot a primitive is protected exactly when some core operation uses it |
| `CatalogRuns.CoreMetricsDiffer` | backend/app/operations/catalog.py:375-385 | And no two core operations report the same metric |
| `CatalogRuns.HistoryKeepsTheLastGoodSnapshot` | backend/app/operations/catalog.py:386-440 | Over any history of good and bad loads the generation counts the installs exactly, health has the generation, hash and counts of the live snapshot, its status is good and its error empty exactly when the last load installed, equal generations mean the same snapshot, and from the first install on the core ids never change |
| `CatalogRuns.OverlappingLoadsStayValid` | backend/app/operations/catalog.py:386-440 | Loads that check, install and fail in any interleaving keep the snapshot servable, health coherent and the generation counting installs; an install leaves good health, and health that is still good means nothing has changed |
| `CatalogRuns.EveryServedSnapshotIsSound` | backend/app/operations/catalog.py:313-440 | From an empty manager, in every state of every interleaving whatever is served separates authority, carries its own index and is described by health, whose status is good exactly while the last install is the last thing that happened apart from checks |
| `CatalogRuns.SettledCoreIdsNeverChange` | backend/app/operations/catalog.py:386-404 | Once every load in progress carries the core ids being served, they are the same in every later state |
| `CatalogRuns.CoreIdsFixedExactlyWhenSettled` | backend/app/operations/catalog.py:386-409 | The core ids are fixed in every continuation if and only if every load in progress already carries them; a load that made its check before the first install is the one that can change them without a restart |
| `CatalogRuns.SecondInstallReplacesTheFirst` | backend/app/operations/catalog.py:386-426 | Where it fails: for any two catalogs that separate authority there is a run from an empty manager in which both loads check before either installs, the first serves the one and the second replaces it by the other |
| `CatalogRuns.CoreIdsCanChange` | backend/app/operations/catalog.py:386-426 | The same with two concrete catalogs whose core ids differ |
| `Replay.ReplayResponse.constructor` | backend/app/api.py:463-478 | The stream opens at the clamped cursor, with the synthetic RUN_STARTED frame exactly when it resumes and one was persisted |
| `Replay.ReplayResponse.Advance` | backend/app/api.py:498-506 | One pass of the polling loop delivers the fetched rows, moves the cursor to the last one and ends when the run is gone or terminal and caught up |
| `Replay.RowsAreTheEventsAbove` | backend/app/api.py:481-491 | The rows of a query are all events above the cursor, no other, in ascending order |
| `Replay.ResumedStreamOpensWithTheStart` | backend/app/api.py:463-478 | In every state of every behaviour: a resumed stream opened with one frame, under the cursor it resumed at, carrying the payload of the started event with the lowest sequence; with none when read from the beginning or when none was persisted |
| `Replay.DeletedRunEndsTheStream` | backend/app/api.py:498-502 | A reader of a deleted run is let go after the rows already fetched |
| `Replay.StepIsExact` | backend/app/api.py:479-506 | Every publisher commit, deletion, fetch or delivery keeps the invariant: what was sent is exactly the committed events above `after` up to the cursor, in order, and what is fetched is a prefix of what follows |
| `Replay.ReplayIsExact` | backend/app/api.py:463-506 | In every interleaving of the reader's two queries with publisher commits and deletion, that invariant holds in every reachable state |
| `Replay.EndedMeansComplete` | backend/app/api.py:502-505 | While the run exists the stream ends only after sending every event above `after` that will ever be committed |
| `Replay.ResumingIsSeamless` | backend/app/api.py:762-774 | Cutting a stream after any number of its events and resuming at the last id received loses and repeats nothing: both parts together are the events above `after` |
| `Replay.PollAfterTheEndEnds` | backend/app/api.py:479-506 | The first poll begun after the run has ended is the last one, and leaves the stream complete |
| `Paging.PageCovers` | backend/app/api.py:347-369 | A page holds distinct listed conversations beyond the cursor; those it leaves out lie below its next cursor, and without a next cursor it leaves out none |
| `Paging.PageIsNewestFirst` | backend/app/api.py:352-369 | Every row of a page is in the table, not archived and as it stands there; rows come newest first and by id among equals, below the cursor, at most as many as asked for, and the next cursor is that of the last row of a full page |
| `Paging.NoConversationTwice` | backend/app/api.py:340-369 | Across any interleaving of page reads with activity that only raises `updated_at`, creation, archiving and restoring, no conversation is returned twice, whatever limit each request chooses |
| `Paging.UntouchedIsReturned` | backend/app/api.py:340-369 | A completed walk returns every conversation that stayed listed and untouched throughout, whatever limit each request chooses |
| `Paging.UntouchedConversationIsReturned` | backend/app/api.py:340-369 | Row by row: a conversation that is never archived nor touched during a completed walk is on one of its pages |
| `Paging.DescendingTail` | backend/app/api.py:357-364 | Dropping the first rows of the ordered list leaves the ordered list of what lies below the last row dropped |
| `Paging.StaticWalkReturnsTheList` | backend/app/api.py:340-369 | On a list that does not move the pages of a completed walk concatenate to the full sorted list, whatever limit each request chooses |
| `Admission.RunTable.RunAgent` | backend/app/api.py:606-712 | Admission replays a known run id or client message id, refuses either when it belongs to another conversation, and otherwise appends one queued run blocked by the newest active run of its conversation |
| `Admission.AdmissionDecides` | backend/app/api.py:608-712 | The run with the requested id decides, failing that the one with the client message: replayed in its own conversation, refused from another, and nothing changes. Exactly when there is neither, one run is appended, active and waiting for the newest active run of its conversation if there is one |
| `Admission.StepKeepsFounded` | backend/app/api.py:676-725 | Admissions and finishing runs keep ids and client message ids unique and every `blocked_by` edge inside its conversation and pointing to an earlier run |
| `Admission.EveryStateIsFounded` | backend/app/api.py:596-725 | So that holds in every state that any sequence of admissions and finishing runs leads to |
| `Admission.SomeRunMayProceed` | backend/app/api.py:676-712 | Whenever a run is active, some active run of its conversation, admitted no later, waits for no active run |
| `Admission.AdmittingAgainReplays` | backend/app/api.py:608-613 | Asking again, however much later and whatever has been appended or finished since, with the same run id or the same client message id, replays that very run and adds none |
| `Admission.AdmissionKeepsSerial` | backend/app/api.py:676-685 | When creation times grow with admission, a new run queues behind the active run admitted last |
| `Admission.SerialIsExclusive` | backend/app/api.py:676-701 | A conversation whose active runs each wait for the one before has at most one run that may proceed |
| `Admission.FinishingKeepsExclusiveExactlyInOrder` | backend/app/services/agui.py:639-664 | Finishing a run keeps the conversation exclusive if and only if it was not itself waiting for an active run while another active run waited for it; cancelling a queued run in the middle releases the one behind it while the one in front still runs |
| `Admission.CancellingInTheMiddleReleases` | backend/app/services/agui.py:639-664 | Where it fails, for a queue of any length: the history of its admissions, then cancelling any run in the middle, after which the run behind it and the first run may both proceed |
| `Admission.OneAtATime` | backend/app/api.py:676-712 | In every history in which creation times grow with admission and runs finish only when they wait for no active run, each conversation has at most one run that may proceed, in every state |
| `Usage.AttemptsOfParts` | backend/app/services/agent_run_metrics.py:145-149 | Deduplicating parts first makes no difference to deduplicating the whole: each attempt id once, where it first occurred, with its last word |
| `Usage.CompleteMeansAllReported` | backend/app/services/agent_run_metrics.py:150-167 | Each id is counted once; coverage is complete exactly when history is not in doubt, something was requested and the last word on every attempt reports input, output and total |
| `Usage.CompleteMeansExact` | backend/app/services/agent_run_metrics.py:152-167 | Complete coverage implies an undoubted history with every request reported and present input, output and total, each the sum over the listed attempts; `UsageTotals` says what those sums are |
| `UsageTotals.TotalsOfFew` | backend/app/services/agent_run_metrics.py:160-167 | No request, nothing counted; one request, and every total is the counter it reported |
| `UsageTotals.NewAttemptIsAdded` | backend/app/services/agent_run_metrics.py:145-163 | The first observation of an attempt adds its counters to the totals, under any doubt |
| `UsageTotals.RepeatedAttemptIsReplaced` | backend/app/services/agent_run_metrics.py:145-163 | A further observation of an attempt takes out what its last one said and adds its own, so nothing is counted twice |
| `UsageTotals.DisjointHistoriesAddUp` | backend/app/services/agent_run_metrics.py:145-163 | Histories of different attempts add up field by field |
| `UsageTotals.MergedTotalsAddUp` | backend/app/services/agent_run_metrics.py:170-177 | Merging recorded metrics of different attempts adds their totals field by field, whatever is in doubt about either |
| `UsageTotals.MergedHistory` | backend/app/services/agent_run_metrics.py:170-177 | A merged history is whole exactly when both sides are (nothing was ever stored, or what is stored says so), and interrupted exactly when one of them was cut off |
| `UsageTotals.InterruptingKeepsNumbers` | backend/app/services/agent_run_metrics.py:180-184 | Interrupting keeps every attempt and every total and claims no whole history |
| `UsageTotals.LastWordsAreListed` | backend/app/services/agent_run_metrics.py:148-149 | A snapshot lists exactly the observations that no later one of the same attempt replaces |
| `UsageTotals.ListedInOrder` | backend/app/services/agent_run_metrics.py:148-149 | And lists them in the order the attempts were first observed |
| `UsageTotals.AbsentExactlyWhenUnreported` | backend/app/services/agent_run_metrics.py:160-163 | A total is absent exactly when no last word gave that counter, except that an undoubted history without requests reports zeros |
| `UsageTotals.ReportedAreCounted` | backend/app/services/agent_run_metrics.py:150-164 | The reported count is of the listed attempts that gave input, output and total |
| `UsageTotals.CoverageIsWhatWasReported` | backend/app/services/agent_run_metrics.py:151-159 | Coverage case by case: interrupted exactly in a lost history, not used exactly without requests and doubt, partial or unavailable by whether any last word reported |
| `Usage.MergeIsGroupingIndependent` | backend/app/services/agent_run_metrics.py:170-177 | Whatever the merge tree, the result is the snapshot of all leaves' attempts under the joined doubt; associativity is the case of three leaves |
| `Usage.MergeIdentityAndIdempotence` | backend/app/services/agent_run_metrics.py:170-177 | Empty metrics are an identity on both sides, and merging a snapshot with itself counts nothing twice |
| `Usage.MergeLosesNothing` | backend/app/services/agent_run_metrics.py:170-177 | A merge keeps the attempts of both sides, adds none, and joins their doubts |
| `Usage.WeighIsJoin` | backend/app/services/agent_run_metrics.py:172-175 | The loop that weighs history uncertainty computes a join: known below unknown below interrupted |
| `Usage.InterruptCommutesWithMerge` | backend/app/services/agent_run_metrics.py:180-184 | Interrupting either side before a merge is interrupting the result |
| `Usage.InterruptedStaysInterrupted` | backend/app/services/agent_run_metrics.py:170-184 | Evidence that was once interrupted never becomes complete, however much is merged around it |
| `Enrichment.EnrichmentRow.constructor` | backend/app/services/agent_enrichment.py:82-92 | A newly enqueued row is pending with no attempts |
| `Enrichment.EnrichmentRow.Claim` | backend/app/services/agent_enrichment.py:95-142 | Claims exactly pending rows that are due and running rows whose lease has run out; a taken-over lease is put on record, an exhausted row fails, any other starts one more attempt |
| `Enrichment.ClaimableExactlyWhenDue` | backend/app/services/agent_enrichment.py:103-119 | In a sound state a free worker can claim exactly when the item is pending and due, or running under a lease that has run out |
| `Enrichment.LeaseIsExclusive` | backend/app/services/agent_enrichment.py:95-142 | On a clock that only moves on: between two claims with no report in between lies at least the length of the lease |
| `Enrichment.RetryWaits` | backend/app/services/agent_enrichment.py:235-249 | After a failure is recorded no claim comes before the retry delay has passed |
| `Enrichment.EnrichmentRow.Complete` | backend/app/services/agent_enrichment.py:202-215 | Settles the row with the outcome, keeps its attempts, and adds the observed evidence to what is on record without losing any |
| `Enrichment.EnrichmentRow.RecordFailure` | backend/app/services/agent_enrichment.py:231-249 | Whatever state the row was in: pending again after the retry delay while attempts remain and the error is not final, failed otherwise; attempts stay, and the observed evidence is added without losing any |
| `Enrichment.StepKeepsSound` | backend/app/services/agent_enrichment.py:95-259 | Every claim, first or second session block, late failure or vanished worker keeps the row invariant and every stored widget |
| `Enrichment.EveryStateIsSound` | backend/app/services/agent_enrichment.py:262-371 | In every reachable state a row is leased exactly while running, stamped finished exactly while terminal, a pending row has attempts left, the answer carries at most one suggestion widget, a completed item's answer carries one, and stored widgets stay in place |
| `Enrichment.SuggestionsAreUnique` | backend/app/services/agent_enrichment.py:262-371 | In every reachable state no two widgets of the answer are suggestions, by type or by the reserved id |
| `Enrichment.StepDecreases` | backend/app/services/agent_enrichment.py:95-259 | Every step, including a failure reported by a worker whose lease was taken over, strictly decreases four times the attempts left plus the workers' weight plus one for an unsettled row |
| `Enrichment.BehavioursAreBounded` | backend/app/services/agent_enrichment.py:262-371 | No interleaving has more than four times the attempt limit plus one steps |
| `Enrichment.ExecutionsAreAttempts` | backend/app/services/agent_enrichment.py:132-142 | The number of times the item was handed to a worker equals its attempts, which never exceed the limit |
| `Enrichment.SettledExactlyWhenOutOfReach` | backend/app/services/agent_enrichment.py:235-249 | When a settled item stays settled: a completed or skipped item keeps its status in every continuation if and only if no worker is outstanding, a failed one also when its attempts are used up |
| `Enrichment.CompletedItemIsReopened` | backend/app/services/agent_enrichment.py:218-249 | It does happen: from an enqueued item, for every lease length and on a clock that only moves on, a worker stalls, another takes over and completes the item, and the failure of the first makes the completed item pending again |
| `Enrichment.LostLeaseIsRemembered` | backend/app/services/agent_enrichment.py:128-129 | Once a lease has been taken over, no later state of the row claims complete usage evidence |
| `Passes.PresentChronologically` | backend/app/services/agent_run_metrics.py:472-493 | The in-place splice at the head of `agent_metric_snapshot` computes the reordering the laws below are about |
| `Passes.ReorderingIsStable` | backend/app/services/agent_run_metrics.py:483-493 | Delegates and other passes each keep their own order |
| `Passes.ReorderingIsIdempotent` | backend/app/services/agent_run_metrics.py:483-493 | Reordering twice is reordering once |
| `Passes.ReorderingConservesTotals` | backend/app/services/agent_run_metrics.py:483-525 | Anything added up over the passes, for every measure, is the same before and after |
| `Passes.ReorderingConservesSummary` | backend/app/services/agent_run_metrics.py:439-525 | So the whole stored summary (counts, tokens, non-overlapping duration, cost, coverage) is that of the recorded passes |
| `Passes.DelegatesFollowTheOperator` | backend/app/services/agent_run_metrics.py:475-493 | Right behind the first operator pass come all delegates in order, and none stands before it |
| `Passes.MergedMetricsAreAccepted` | backend/app/services/agent_run_metrics.py:187-206 | Merged evidence always satisfies the pass, request, duration and cost rules of `AgentRunMetrics`; counts and tokens are the sums of both sides, and an exact cost is claimed exactly when there are passes and every one was priced |
| `PassTotals.NestedDelegatesAddNothing` | backend/app/services/agent_run_metrics.py:439-469 | Wherever a pass stands it adds its duration to the turn, except a delegate beside an operator, which adds nothing |
| `PassTotals.DurationOfOne` | backend/app/services/agent_run_metrics.py:455-466 | A single pass is counted whatever it is, and rounding comes last |
| `PassTotals.DurationMissingExactly` | backend/app/services/agent_run_metrics.py:455-466 | No duration is reported exactly when no pass that counts was timed |
| `PassTotals.EachPassIsSummed` | backend/app/services/agent_run_metrics.py:187-201 | Each pass adds one pass, its requests and each of its counters, delegate or not |
| `PassTotals.EachPassIsPriced` | backend/app/services/agent_run_metrics.py:190-202 | The cost is the sum of the costs, known exactly when every pass is priced |
| `PassTotals.CoverageIsShare` | backend/app/services/agent_run_metrics.py:203 | Each priced pass raises the stored share by one in as many passes as there are |
| `Latency.PercentileIgnoresOrder` | backend/app/services/agent_latency_report.py:65-78 | The percentile does not depend on the order of the samples |
| `Latency.PercentileIsMonotone` | backend/app/services/agent_latency_report.py:65-78 | The percentile grows with the quantile and lies between the rounded least and greatest observation, for any monotone rounding |
| `Latency.PercentileInterpolates` | backend/app/services/agent_latency_report.py:65-78 | At the position `k + f` between the k-th and the next observation the percentile is the rounded value a fraction `f` of the way between them, so the observation itself at either end |
| `Latency.ObservedExactly` | backend/app/services/agent_latency_report.py:67-69 | The samples it is taken from are all that are not negative, each as often as it occurs, in order; there is no percentile exactly when there are none |
| `Latency.MedianIsTheMiddle` | backend/app/services/agent_latency_report.py:65-86 | The reported median of an odd sample is its middle observation |
| `Latency.NineteenOfTwenty` | backend/app/services/agent_latency_report.py:65-87 | And of twenty equal steps the 95th percentile is where nineteen end |
| `Latency.DistributionIsOrdered` | backend/app/services/agent_latency_report.py:81-88 | With at least one non-negative sample, median, 95th percentile and maximum are present and in this order |
| `Latency.CountAndMaximum` | backend/app/services/agent_latency_report.py:81-88 | The count is of all samples and the maximum the rounded greatest of them |

## Left out

- Compiler.CompileOperation: length, count and character limits of the document fields, and that the file is
  valid YAML and its schema valid JSON Schema, are not modelled; a file that breaks them is refused earlier.
  Error codes and texts are collapsed to which check refused. The one lookup in the checker that is not
  guarded, `schema_["properties"]` when a step loops and the schema has no `properties` key, raises a raw
  `KeyError` there; the model refuses the file, as the load does.
- ContractMeaning.CompilationPreservesMeaning: lengths are one shared measure (JSON Schema counts code
  points, Zod UTF-16 units), formats and patterns are shared predicates, Zod's safe-integer limit is not
  modelled, and literals are scalars, as Zod compares anything else by identity.
- Proposals.StrictSchemaRequiresEverything: `normalize` works in place on a private deep copy; the model works
  on values, and titles and descriptions, which it strips or keeps, carry no meaning here.
- Routes.RouteRoundTrip: between binding and reading back a real route is parsed into a typed engine object
  and dumped again; the model reads back the dictionary that was bound.
- Catalog.OperationCatalogManager.Load: parsing, hashing and clocks are parameters; `last_loaded_at` and
  `last_error_at` are not kept; unexpected exceptions are one more failure.
- Discovery.Candidates: scores are rational numbers rather than floating point, so ties are exact.
- Replay.ReplayIsExact: the publisher is modelled by its commit discipline
  (backend/app/services/agui.py:402-496), not by its code; polling delays are not modelled.
- Paging.NoConversationTwice: the text form of the cursor and its parse errors are not modelled; a
  conversation deleted during the walk counts as one no longer listed.
- Admission.RunTable.RunAgent: open interrupts, supersession, attachments and the reserved messages are left
  out; they change the payload of the run, not which run is admitted or what it waits for.
- Admission.AdmissionKeepsSerial: creation times are assumed to grow with admission, which the row lock and a
  clock that moves on between two admissions give.
- Enrichment.EveryStateIsSound: each session block is atomic, as the row lock makes it for claims; deletion of
  the message or conversation, which deletes the work item with it, is not modelled.
- Passes.MergedMetricsAreAccepted: costs and durations are exact numbers before rounding, and rounding is any
  monotone function that keeps zero and one; the server, client and rollout sections are copied, not computed.
- Latency.PercentileIsMonotone: infinities and NaN, which the code filters out, do not exist among real numbers.
- The latency gates, scenario classes and release readiness of the report would add only expressions over the
  percentiles above.
- `prompt_manifest` lists candidates as text, `render_operation_text` substitutes inputs into a message,
  `resolve_current_operation` compares a version and checksum, `missing_required_inputs` filters required names
  and `operation_tool_name` hashes an id; each is one expression over parts proved here.
- TypeScript rendering of the contracts, the text layout of the Zod file, web routing, storage, model calls and
  the services behind the primitives are not part of this model.
