# agenthooks, verified

A Dafny 4.11 model of the agenthooks engine and proofs about it: the stateful pattern decorators, the
dispatch and execution pipeline, contract version ranges, and the accounts that metrics and audit keep.
`dafny verify dfyconfig.toml` checks everything.

## What is modelled

| file | what it holds |
|---|---|
| Contexts.dfy | the immutable hook context, its copying operations and the sealed fields |
| RateLimiter.dfy | the sliding-window limiter as an object, as a run of calls, and against any rival policy |
| Decorators.dfy | the decorator stack as a language, interpreted over a clock, the limiters' state and an environment |
| Retry.dfy | the retry loop, its timing, laws of stacking, and the stack as imperative code |
| Coroutines.dfy | any number of coroutines, each with a stack of its own, over shared limiters: a transition system |
| Contract.dfy | version parsing and printing, clauses, ranges |
| Sorting.dfy | Python's stable sort and its uniqueness |
| Hooks.dfy | what one hook step, a sequential run and a parallel run compute |
| Registry.dfy | registration, filters, dispatch order, tenants |
| Sequential.dfy | which steps of a sequential run matter and when it raises |
| Parallel.dfy | the merge, and exactly when a parallel run equals a sequential one |
| Metrics.dfy | counters, histogram, p95 |
| Audit.dfy | the audit line of an execution |
| Engine.dfy | the engine as imperative code over instruments, audit trail and registries |
| Invariants.dfy | what holds over whole runs and sequences of runs |
| Chains.dfy | hookpoints run one after the other on one engine |

Concurrency is covered in three ways. The limiter never awaits between eviction, test and append, so its
callers are a sequence of atomic calls; every claim about a sequence of calls is a claim about every
interleaving. In the decorator language each `await` consumes one environment step that says when it
returns, what the body did and what everybody else did to the limiters meanwhile; a claim for all scripts
covers all bodies and all interleavings, and a script that runs out is a hook that the executor's timeout
cancels. The coroutine system and the parallel batch let steps happen in any order, and
`SystemRunsTheStacks` proves that each coroutine, whatever its stack, is at every moment where the decorator
language says.

A hook's `fn` is an arbitrary function from the context to one of five outcomes (ok, timeout, blocked, skip,
error) and a duration. It stands for what the hook does in the run at hand, so a claim for all `fn` covers
every hook in every circumstance. `StackHook` turns a decorator stack into such a function.

Clock readings and durations are reals, the rolling window too; `time.monotonic()` is taken at its word, so
the limiter's claims assume a non-decreasing clock where the source relies on it.

## Where the code and its documentation differ

The model follows the code.

* docs/architecture.md line 98 lets `HookBlocked` propagate always. `BlockPropagatesExactly` proves when it
  does: the run is sequential and a hook that is reached blocks. A parallel batch swallows it;
  `BlockIsSwallowed` is the case of a single hook.
* docs/security.md line 64 promises an audit entry for every execution, skips included. `LinesExactly` proves
  which executions have one: those that are not skips and whose input has a readable redaction list.
  `SkipLeavesNoLine` and `UnreadableListLeavesNoLine` exhibit both failures; the second also breaks the
  promise of audit.py line 68 that recording never raises.
* A parallel merge copies the whole metadata of every ok result, so a hook that left an input key alone
  puts the original value back over an earlier hook's change. `OverwriteCanBeRestored` shows it and
  `ParallelEqualsSequentialExactly` says exactly when it cannot happen.
* The redaction list is one of those keys, so the promise of docs/security.md line 52 can fail after a batch:
  `BatchLosesRedaction` and `BatchLeaks` give two hooks after which an audit line shows a value that the
  first of them redacted. `BatchRedactionSurvives` says exactly when a redaction added inside a batch
  survives, and `RedactionPersists` that one made before it always does.
* With neither a positive window nor a positive limit the limiter refuses everything although an empty
  window forbids nothing. `OptimalExactlyWhenEffective` shows that this is the only case in which it can
  be beaten.
* Malformed range clauses make the outcome depend on clause order. `OrderIrrelevantExactly` says exactly when,
  for any number of clauses, and `SwapExample` gives two clauses.
* `@retry` with no attempt allowed fails before an inner tenant check is made;
  `TenantCheckCommutesWithRetry` shows that this is the only case in which the order of the two matters.
* `per="tenant"` isolates a tenant from all callers (`TenantsAreIsolated`) but tenantless sessions that have
  its name (`NamesakeTakesTheSlot`).

## Model

| member | source | states |
|---|---|---|
| Contexts.RedactMarks | src/agenthooks/core/context.py:49-51 | redacting adds exactly the given names to what is redacted, leaves every other metadata key alone, and fails only if the stored list cannot be iterated |
| Contexts.RedactedExactly | src/agenthooks/core/context.py:50 | what the stored list redacts by its kind: the items of a list, the characters of a string, nothing otherwise |
| Contexts.EnrichedExactly | src/agenthooks/core/context.py:41-51 | enriching changes one metadata key only; redacting appends the names to the list as it was |
| Contexts.ReplacedExactly | src/agenthooks/core/context.py:44-47 | replacing raises for exactly the six sealed names, and sets any other attribute so that it is read back, and no more |
| Contexts.OneCallThenTheRest | src/agenthooks/core/context.py:41-51 | a body's calls act one after the other, and one that raises ends it |
| Contexts.ApplyAllKeeps | src/agenthooks/core/context.py:41-51 | any sequence of context operations returns the sealed fields it was given; with ordinary operations nothing loses its redaction |
| Contexts.SealedWriteRaises | src/agenthooks/core/context.py:44-47 | a body that reaches a write to a sealed field raises, whatever comes before or after |
| Contexts.OpsThrow | src/agenthooks/core/context.py:41-51 | context operations never raise a block or a skip, and a body with a sealed write among them always raises |
| RateLimiter.EvictionRefinesFullHistory | src/agenthooks/patterns.py:123-142 | on a non-decreasing clock the pruned lists decide every call as a limiter with the complete admission history would |
| RateLimiter.WindowsStaySmall | src/agenthooks/patterns.py:131-142 | every stored list is ascending, holds nothing from the future and is no longer than the limit |
| RateLimiter.WindowExactly | src/agenthooks/patterns.py:131-142 | after a call its key's list is what of the whole admission history is inside the window, and the call itself if admitted; other lists are untouched |
| RateLimiter.KeysAreIndependent | src/agenthooks/patterns.py:128-142 | deleting all calls of all other keys changes no decision for a key, on any clock |
| RateLimiter.WindowCap | src/agenthooks/patterns.py:129-143 | over every run, key and instant a, at most max(limit, 0) calls are admitted in [a, a + window) |
| RateLimiter.GreedyStaysAhead | src/agenthooks/patterns.py:127-143 | on every prefix of every run no policy that respects the cap has admitted more calls for a key |
| RateLimiter.GreedyIsNeverLater | src/agenthooks/patterns.py:127-143 | the limiter's k-th admission of a key exists and is not later whenever a capped rival's k-th does |
| RateLimiter.GreedyStaysAheadInTotal | src/agenthooks/patterns.py:127-143 | the same for admissions summed over any set of keys |
| RateLimiter.OptimalExactlyWhenEffective | src/agenthooks/patterns.py:131-132 | the limiter is unbeatable if and only if its window or its limit is positive |
| RateLimiter.WhoSharesAWindow | src/agenthooks/patterns.py:128 | exactly which callers share a window, a tenant and a tenantless session of the same name among them |
| RateLimiter.TenantsAreIsolated | src/agenthooks/patterns.py:127-143 | deleting the calls of all other tenants and all tenantless sessions changes no decision for a tenant, on any clock, unless such a session has the tenant's name |
| RateLimiter.NamesakeTakesTheSlot | src/agenthooks/patterns.py:128 | a tenantless session named like a tenant takes its only slot |
| RateLimiter.Admit | src/agenthooks/patterns.py:131-142 | evict, test and append in place are one step of the specified limiter; the limiter object and the imperative stack both use it |
| RateLimiter.Limiter.Enter | src/agenthooks/patterns.py:127-143 | the new windows are one step of the run of all calls so far; a refusal raises or passes through as configured; the run stays capped and agrees with the full history |
| Decorators.BodyPlays | src/agenthooks/patterns.py:53 | an awaited body runs once and ends with its exception or its context |
| Decorators.InjectsOne | src/agenthooks/patterns.py:49-53 | a literal is injected as it is, a callable's value for the current context, and its exception ends the call |
| Decorators.BlockIfDecides | src/agenthooks/patterns.py:68-74 | a true condition raises HookBlocked before the body, a false one lets the call through, its own exception passes |
| Decorators.RedactsFirst | src/agenthooks/patterns.py:95-96 | the body sees the names redacted, and does not run if the list cannot be read |
| Decorators.RateLimitDecides | src/agenthooks/patterns.py:128-143 | with limit or more timestamps less than a window old the call raises HookBlocked or returns its context, and the body does not run; else its timestamp is added and it does |
| Decorators.RequireTenantDecides | src/agenthooks/patterns.py:163-168 | an allowed tenant passes, any other raises HookBlocked |
| Decorators.RetryTurns | src/agenthooks/patterns.py:190-203 | a result, HookBlocked and HookSkip end the loop at once; any other exception ends it at the last attempt and before that is followed by a sleep of backoff * 2^(attempt - 1) ms and one more attempt on the same context |
| Decorators.ExecLeaves | src/agenthooks/patterns.py:45-205 | no stack turns the clock back or acts on anything but what the environment still has to offer |
| Decorators.ExecKeeps | src/agenthooks/patterns.py:45-205 | every stack over every body and in every interleaving keeps the six sealed fields; ordinary stacks keep redactions |
| Decorators.SealedWritersNeverReturn | src/agenthooks/patterns.py:45-205 | a stack around a body that writes a sealed field in every run never returns a context, however often it is retried; a limiter that passes calls through is excluded, since it returns without the body |
| Retries.RetryExact | src/agenthooks/patterns.py:188-204 | the outcome is that of the first attempt on the original context that is not retried, or of the last allowed one; a budget that ends during a sleep cancels; with no attempt allowed it raises |
| Retries.FirstAttemptMayDecide | src/agenthooks/patterns.py:191-194 | a result, a block or a skip of the first attempt is that of the whole stack, world included |
| Retries.RetryTotals | src/agenthooks/patterns.py:190-203 | over any inner stack, nested retries included, n attempts sleep backoff * (2^(n-1) - 1) ms in total besides what the inner stack slept itself, and run at most n times the inner stack's bound of bodies |
| Retries.RetryFreeTotals | src/agenthooks/patterns.py:190-203 | over an inner stack without a retry, n attempts sleep exactly n - 1 times, backoff * (2^(n-1) - 1) ms in total, and run at most n bodies |
| Retries.ExecBodies | src/agenthooks/patterns.py:188-204 | every stack runs at most the product of its nested max_attempts bodies |
| Retries.BoundIsReached | src/agenthooks/patterns.py:188-204 | nested loops around a body that always fails run exactly the product of their max_attempts bodies |
| Retries.AttemptSleeps | src/agenthooks/patterns.py:197-203 | before and after attempt k the total slept is known exactly: what was slept before the loop, the backoff of k - 1 sleeps, and what the inner stack slept itself in its attempts so far |
| Retries.RetryFreeSleeps | src/agenthooks/patterns.py:197-203 | over an inner stack without a retry exactly k - 1 sleeps, delay by delay, were taken before attempt k |
| Retries.AttemptStartsLate | src/agenthooks/patterns.py:197-203 | attempt k cannot start before the total backoff of the earlier ones is over |
| Retries.BudgetBoundsAttempts | src/agenthooks/core/hookpoint.py:56 | an attempt k started within the budget satisfies backoff * (2^(k-1) - 1) <= timeout |
| Retries.TenantCheckCommutesWithRetry | src/agenthooks/patterns.py:158-204 | require_tenant inside and outside retry are the same if and only if an attempt is allowed or the tenant is; with an attempt allowed a foreign tenant is blocked at once without sleep or body |
| Retries.InjectionsFuse | src/agenthooks/patterns.py:47-52 | stacked injections are one injection of both lists, outer first |
| Retries.RedactionsFuse | src/agenthooks/patterns.py:93-95 | stacked redactions are one redaction of both lists |
| Retries.BlockCommutesWithInject | src/agenthooks/patterns.py:47-74 | a condition that ignores the injected keys may be tested before or after the injection, and if it holds nothing runs |
| Retries.Runtime.Run | src/agenthooks/patterns.py:45-205 | the imperative stack computes the result and the world of the stack's semantics |
| Retries.Runtime.RunRetry | src/agenthooks/patterns.py:188-204 | the retry loop computes the recursive retry from attempt 1 |
| Coroutines.StepKeeps | src/agenthooks/patterns.py:45-205 | every step of any coroutine with any stack keeps the invariant of every limiter and every coroutine |
| Coroutines.LimitersStayCapped | src/agenthooks/patterns.py:127-143 | in every reachable state, whatever stacks share them and however they interleave, each limiter respects the cap for every key and window and decides as if it kept the full history |
| Coroutines.SystemRunsTheStacks | src/agenthooks/patterns.py:45-205 | at every moment each coroutine, with any stack and nested loops, has the world that its stack's own semantics gives in the environment it met, and its result if it is over |
| Coroutines.NeverStuck | src/agenthooks/patterns.py:45-205 | in every reachable state a new coroutine may start, a body may end in any way, a sleeper wakes once its time has come, and whoever waits may be cancelled |
| Coroutines.UsesExactly | src/agenthooks/patterns.py:122-123 | the only demand on a stack is that it names each limiter with the one configuration it was declared with |
| Coroutines.StacksStayBounded | src/agenthooks/patterns.py:188-204 | no coroutine has begun more bodies than the product of its stack's max_attempts, or taken less time than its sleeps |
| Coroutines.RetryOverRateLimit | src/agenthooks/patterns.py:127-204 | for any number of coroutines with retry directly over rate_limit, among any others: bodies begun are admitted calls and at most max_attempts each, the cap holds across all attempts of all, a refusal is the last call and the result, no attempt is early |
| Coroutines.OverIsFinal | src/agenthooks/patterns.py:191-204 | a coroutine that is over, by a refusal or otherwise, is never changed again |
| Contracts.ParsePrinted | src/agenthooks/core/contract.py:12-28 | parsing a printed version returns it |
| Contracts.StripExactly | src/agenthooks/core/contract.py:12 | stripping takes white space off both ends, all of it, and nothing else |
| Contracts.ParseExactly | src/agenthooks/core/contract.py:12-16 | exactly two digit runs with a dot between them, in white space, are a version, of the numbers they denote |
| Contracts.DigitsExactly | src/agenthooks/core/contract.py:15-16 | digits denote the decimal number that is printed as these digits, leading zeros aside |
| Contracts.SplitExactly | src/agenthooks/core/contract.py:37 | a string is split into the only list of pieces without commas that joins to it |
| Contracts.ClauseExactly | src/agenthooks/core/contract.py:39-42 | a clause is an operator directly before a version, or a version alone for == |
| Contracts.AbsentStrings | src/agenthooks/core/contract.py:32-36 | nothing required is compatible, something required and nothing given is not, and a malformed given version is an error before the range is read |
| Contracts.OperatorsOnNumbers | src/agenthooks/core/contract.py:19-46 | what each operator accepts on the numbers, major before minor |
| Contracts.JoinIsConjunction | src/agenthooks/core/contract.py:37-47 | joining two ranges with a comma checks the first and then the second, for any strings |
| Contracts.WellFormedVerdict | src/agenthooks/core/contract.py:38-47 | a well-formed range accepts exactly the versions that satisfy all clauses and never fails otherwise than by saying no |
| Contracts.ClauseOrderIsIrrelevant | src/agenthooks/core/contract.py:37-47 | order and repetition of well-formed clauses are irrelevant |
| Contracts.OrderIrrelevantExactly | src/agenthooks/core/contract.py:37-47 | all orders of any number of clauses give the same outcome if and only if no malformed clause stands beside one that says no |
| Contracts.JoinedRange | src/agenthooks/core/contract.py:37-47 | the comma-joined text of a list of clauses is checked as that list |
| Contracts.FirstFailureDecides | src/agenthooks/core/contract.py:38-46 | the first clause that does not accept fixes the outcome |
| Contracts.SwapMatters | src/agenthooks/core/contract.py:38-46 | the case of two clauses: the outcomes differ exactly if one is malformed and the other says no |
| Contracts.SwapExample | src/agenthooks/core/contract.py:38-46 | the range `<1.0,x` says no to version 2.0 while `x,<1.0` is an error |
| Contracts.RangeIsConvex | src/agenthooks/core/contract.py:19-47 | what a range accepts is convex in the lexicographic order |
| Contracts.PrintedRange | src/agenthooks/core/contract.py:31-47 | a printed version pins itself, and an operator before it bounds what is accepted |
| Contracts.OperatorsComplement | src/agenthooks/core/contract.py:19-44 | opposite operators accept opposite versions, == is >= and <=, and < mirrors > |
| Sorting.StableArrangementIsUnique | src/agenthooks/core/registry.py:75 | a sequence is the sorted one if and only if it is ascending and keeps the order among equal keys |
| Registries.DispatchIsStable | src/agenthooks/core/hookpoint.py:31-35 | a list is the dispatch if and only if it ascends in the field order and keeps, among equal orders, registry position and then registration position |
| Registries.ExecutorSortIsNoOp | src/agenthooks/executor/sequential.py:11 | sorting a dispatched list again changes nothing |
| Registries.DispatchedMatch | src/agenthooks/core/registry.py:72-87 | exactly the registrations whose filter the context meets are dispatched: its tenant, its tool name, and for any other key its metadata, where a missing key reads as None |
| Registries.TenantsDoNotInterfere | src/agenthooks/core/registry.py:72-87 | systems that agree after deleting other tenants' registrations dispatch the same hooks and come out alike |
| Registries.DeletingForeignChangesNothing | src/agenthooks/core/hookpoint.py:31-47 | deleting from each registry what was registered for other tenants changes neither selection, nor the parallel choice, nor the outcome |
| Registries.RegistriesKeepModes | src/agenthooks/core/registry.py:52-69 | over every sequence of registrations a hookpoint that holds a single-mode one holds only that |
| Registries.AcceptedExactly | src/agenthooks/core/registry.py:52-69 | exactly when a registration is accepted; a rejected one changes nothing, an accepted one is appended at its hookpoint only |
| Registries.AnswersExactly | src/agenthooks/core/registry.py:53-61 | a malformed contract is a ValueError, an unmet one a contract error, and what else is rejected a conflict |
| Registries.RegistrationsCompose | src/agenthooks/core/registry.py:52-69 | registrations take effect one after the other, each on what the earlier ones left |
| Registries.HookRegistry.Register | src/agenthooks/core/registry.py:52-69 | the imperative registration is one step of the specification, keeps the mode invariant, and a rejection leaves every selection unchanged |
| SequentialRuns.SequentialExactly | src/agenthooks/core/hookpoint.py:50-138 | a run comes out as r if and only if the only path through what the hooks' functions return ends in r, and its log is one record for each hook on the path, of how its function came out |
| SequentialRuns.StoppingHookDecides | src/agenthooks/core/hookpoint.py:79-138 | a skip finishes the run there, a block escapes, and so do a timeout and an error without fallback; no later hook is recorded |
| SequentialRuns.ErasingDegraded | src/agenthooks/core/hookpoint.py:73-138 | deleting a degraded hook leaves the outcome unchanged |
| SequentialRuns.RunIsFoldOfSurvivors | src/agenthooks/core/hookpoint.py:132-138 | a finished run is the fold over its ok steps, and running only those gives the same |
| SequentialRuns.EscapesExactly | src/agenthooks/core/hookpoint.py:132-138 | a run raises exactly what a reached hook raises, unless that is a skip |
| SequentialRuns.EscapesOnlyFor | src/agenthooks/core/hookpoint.py:89-129 | only a block, or a timeout or error of a hook without fallback, leaves a run |
| SequentialRuns.NothingRunsAfterRaise | src/agenthooks/core/hookpoint.py:132-138 | whatever follows a hook that is reached and skips, blocks or fails without fallback is irrelevant to result and log |
| SequentialRuns.BlockPropagatesExactly | src/agenthooks/core/hookpoint.py:43-46 | a block leaves a hookpoint exactly if neither it nor a hook asks for parallel and the function of a hook that is reached blocks |
| SequentialRuns.BlockIsSwallowed | src/agenthooks/core/hookpoint.py:143-147 | one blocking hook stops a sequential hookpoint, while the parallel one finishes with its input |
| SequentialRuns.ModeExactly | src/agenthooks/core/hookpoint.py:39-46 | a hookpoint runs in parallel if and only if it or one of its hooks asks for it, and without hooks does nothing |
| ParallelRuns.ParallelExactly | src/agenthooks/core/hookpoint.py:141-154 | each metadata key has the value of the last hook in list order whose function, called with the input, is ok and has it, or else the input's; attributes are the input's |
| ParallelRuns.BatchRecorded | src/agenthooks/core/hookpoint.py:141-143 | a batch records each hook once, with the input and how its function came out, in completion order |
| ParallelRuns.MergedValue | src/agenthooks/core/hookpoint.py:144-150 | each merged key has the value of the last ok result, in list order, that carries it, or else its old value |
| ParallelRuns.OnlyMetadataIsMerged | src/agenthooks/executor/parallel.py:14-24 | a parallel run changes nothing but metadata, whatever contexts hooks return |
| ParallelRuns.ParallelEqualsSequentialExactly | src/agenthooks/core/hookpoint.py:132-154 | for hooks that write regardless of each other, parallel equals sequential if and only if no overwritten input key is left alone by the last hook that does not degrade |
| ParallelRuns.OverwriteCanBeRestored | src/agenthooks/core/hookpoint.py:149-150 | two hooks for which the two modes differ |
| ParallelRuns.IndependentHooksCommute | src/agenthooks/core/hookpoint.py:132-154 | hooks with fresh, disjoint key sets give the same context in parallel and in sequence, in every order, with degraded ones among them |
| ParallelRuns.OrderIrrelevantExactly | src/agenthooks/core/hookpoint.py:144-150 | the list order of an arbitrary batch is irrelevant to the merged context if and only if all ok results that carry a key agree on its value |
| Metrics.CounterAgreesWithLog | src/agenthooks/observability.py:215-224 | a counter summed over any keys counts the executions that belong there |
| Metrics.AccountingIsConserved | src/agenthooks/observability.py:322-338 | total executions are the log's length and the histogram's count; errors, timeouts and blocks are executions summed over their status |
| Metrics.DerivedCountersByKey | src/agenthooks/observability.py:330-338 | the same key by key, timeouts aggregated per hookpoint |
| Metrics.CountedAs | src/agenthooks/observability.py:322-338 | one execution adds one to the executions of its status and, by how the hook's function came out, one timeout of the hookpoint or one error or block of the implementation, and its duration |
| Metrics.P95IsARank | src/agenthooks/observability.py:249-255 | p95 is an observation with at least r not above it and n - r + 1 not below it, r = max(1, floor(19n/20)), which fixes its value; without observations it is 0 |
| Metrics.P95IgnoresOrder | src/agenthooks/observability.py:249-255 | the recording order plays no part |
| Metrics.Counter.Total | src/agenthooks/observability.py:223-224 | the loop returns the sum of all values |
| Metrics.Instruments.Record | src/agenthooks/observability.py:322-338 | all five instruments keep agreeing with the log of executions |
| Metrics.Instruments.ReportsAgree | src/agenthooks/observability.py:322-338 | what the instruments report obeys the conservation laws, in total and key by key, and the reported p95 has its rank among the log's durations |
| Audit.ScheduledAreAllButSkips | src/agenthooks/core/hookpoint.py:65-126 | scheduled audit entries are the executions minus the skips |
| Audit.LinesExactly | src/agenthooks/audit.py:68-119 | the lines are, one for one and in order, those of the executions that were not skipped and whose input's redaction list is readable |
| Audit.UnreadableListLeavesNoLine | src/agenthooks/audit.py:74-75 | an ok execution on an input whose redaction list is a number leaves no line |
| Audit.SkipLeavesNoLine | src/agenthooks/core/hookpoint.py:106-110 | a skipped execution leaves no line |
| Audit.LineHidesRedacted | src/agenthooks/audit.py:74-102 | a line shows exactly the input's non-internal keys, redacted ones only as redacted, the others as they are |
| Audit.LineSays | src/agenthooks/audit.py:77-104 | a line names hook, implementation, status and duration, and each of five fields of the input under its own name; it has no metadata exactly if no key may be shown |
| Audit.AuditTrail.Record | src/agenthooks/audit.py:58-119 | the log is what the scheduled executions give, and no line is ever removed |
| Engines.Engine.Account | src/agenthooks/core/hookpoint.py:62-126 | metrics, audit and log keep agreeing when one execution is recorded |
| Engines.Engine.RunOne | src/agenthooks/core/hookpoint.py:50-129 | one hook run gives the step's result and records exactly that execution with its input context: the counters of how its function came out, its duration and its audit line |
| Engines.Engine.RunAllSequential | src/agenthooks/core/hookpoint.py:132-138 | the loop computes the sequential run and records its executions in order |
| Engines.Engine.RunSequentialExecutor | src/agenthooks/executor/sequential.py:9-16 | the executor sorts first; on a sorted list it is the hookpoint's own loop |
| Engines.Engine.Gather | src/agenthooks/core/hookpoint.py:142-143 | whatever the completion order, each slot ends with its own hook's result |
| Engines.Engine.RunAllParallel | src/agenthooks/core/hookpoint.py:141-154 | for every completion order the merged context is the same, and the executions are recorded in that order |
| Engines.MergeSlots | src/agenthooks/executor/parallel.py:14-20 | the merge loop over the gathered slots computes the merge in list order |
| Engines.CompletionOrder | src/agenthooks/core/hookpoint.py:143 | tasks finish in some permutation |
| Engines.HookPoint.GetImpls | src/agenthooks/core/hookpoint.py:31-35 | the loop over the registries computes the dispatch |
| Engines.HookPoint.Run | src/agenthooks/core/hookpoint.py:37-47 | the outcome is that of the dispatched hooks in the chosen mode, and exactly their executions are recorded |
| Invariants.StackComesOut | src/agenthooks/core/hookpoint.py:55-129 | a decorated hook's exception decides what it is recorded as and what leaves the execution: blocks and skips as such, timeouts and a spent budget as timeouts, all others as errors, the last two subject to fallback |
| Invariants.SealedWriterIsErased | src/agenthooks/core/hookpoint.py:89-129 | under any decorators and retries but a limiter that passes calls through, a hook with fallback whose body writes a sealed field in every run is as good as absent unless a decorator blocks or skips |
| Invariants.SealedWriteIsErased | src/agenthooks/core/context.py:44-47 | a bare body that writes a sealed field is, with fallback, as good as absent |
| Invariants.InjectionsWrite | src/agenthooks/patterns.py:45-54 | an injection of literals, or of callables that do not read what the other hooks write, around an enriching body is a hook of the kind compared in both modes |
| Invariants.StacksKeepSealed | src/agenthooks/patterns.py:45-205 | every decorator stack, as a hook, keeps the sealed fields |
| Invariants.StagesCompose | src/agenthooks/core/hookpoint.py:37-47 | hookpoint runs compose: later ones go on from what earlier ones returned, and an exception ends them all |
| Invariants.SealedForever | src/agenthooks/core/hookpoint.py:37-47 | over every sequence of hookpoint runs the sealed fields stay what they were, in parallel runs for arbitrary hooks |
| Invariants.LateHooksSeeTheirTenant | src/agenthooks/core/registry.py:77-87 | a hook reached anywhere in a chain sees the tenant its filter names |
| Invariants.OrdinaryStacksKeepRedacted | src/agenthooks/patterns.py:91-97 | ordinary stacks, as hooks, keep redactions |
| Invariants.ParallelRedactions | src/agenthooks/core/hookpoint.py:144-154 | the redactions after a batch are those of the last ok result that has a redaction list |
| Invariants.BatchRedactionSurvives | src/agenthooks/core/hookpoint.py:144-154 | a name that some ok hook of a batch redacts is redacted after it if and only if the last ok result with a redaction list redacts it |
| Invariants.BatchLosesRedaction | src/agenthooks/core/hookpoint.py:149-150 | two hooks after which a key stays redacted in sequence and not in parallel |
| Invariants.BatchLeaks | src/agenthooks/audit.py:97-105 | the audit line of the next execution then shows the key's value |
| Invariants.RedactionPersists | src/agenthooks/core/hookpoint.py:37-47 | over every sequence of runs of any hookpoints over hooks that keep redactions, in both modes and any completion order, a name redacted on entry stays redacted, at the end and in the input of every execution |
| Invariants.TrailHidesRedacted | src/agenthooks/audit.py:74-102 | no line that such a sequence adds to the engine's audit trail shows the value of a name redacted on entry or an internal key |
| Invariants.CompletionOrderKeepsLog | src/agenthooks/core/hookpoint.py:142-143 | every completion order records the same executions |
| Invariants.AccountsIgnoreCompletionOrder | src/agenthooks/observability.py:322-338 | every counter value and p95 are the same for every completion order, whatever is recorded before and after |
| Chains.RunPoint | src/agenthooks/core/hookpoint.py:37-47 | one hookpoint's outcome, and a record that its stage allows |
| Chains.RunChain | src/agenthooks/core/hookpoint.py:37-47 | a chain of hookpoints on one engine gives the result of its stages on what the registries hold and records what these stages record; over hooks that keep redactions every audit line it adds hides what was redacted on entry, and over hooks that keep sealed fields so does its result |

## Left out

- OpenTelemetry branches, spans, log records and `configure_logging`: library plumbing.
- Histogram `sum` and `mean`, the meter's name table and the lazy creation of instruments: easy members.
- Audit file writing, locks, JSON encoding, `ts`, `hook.error`, rounding of durations, `extra` and the
  normalisation of unknown statuses: I/O, or never used on the executor path. Lines are appended in the
  order in which they were scheduled, while the background tasks of the source may write them in another.
- asyncio internals: a cancelled hook is one whose environment script ends; cancellation is prompt.
- Floating point: clock readings and durations are reals and `len(s) * 0.95` is 19n/20 rounded down.
- Non-ASCII digits and white space in version strings; Python's limit on the digits of an integer.
- Nested dict values: a metadata value is a scalar, a list or opaque. So `replace("metadata", ...)` with
  something other than a dict is rejected at once in the model and fails at the next use in the source, and
  a redaction list overwritten with a dict is not modelled.
- Hook code that mutates a metadata dict in place, builds a fresh context or calls `model_copy`: contexts
  are values. For sequential runs the sealed-field claims are about hooks that keep sealed fields, which
  all decorator stacks over context operations do.
- The registration fields that the executor never reads (`on_error`, `retry_max`, `retry_backoff_ms`), the
  hookpoint-level mode, the documented recursion guard and the automatic injection scan.
- `timeout_ms` is not a field of the modelled registration: whether a hook times out is part of what `fn`
  does, and `BudgetBoundsAttempts` takes the budget as a parameter.
- The dataclass variant of the context, which is used without pydantic, has the same three operations and is not
  modelled separately; `ParallelExecutor.run` and `_run_parallel` are the same code and modelled once.
- security/guards.py, store/memory.py, agent/ and the command-line scripts.
- A coroutine that is cancelled before it has run at all has no event in the coroutine system: it has done
  nothing.
- A chain of hookpoints attaches and registers nothing while it runs.
