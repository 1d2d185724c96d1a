/** What one hook execution, a sequential run and a parallel run compute (core/hookpoint.py, executor/). */
module Hooks {
  import opened Prelude
  import opened Contexts

  /** How a hook call under `wait_for` comes out. */
  datatype Outcome = Ok(ctx: Context) | Timeout | Blocked | Skip | Error

  datatype Reply = Reply(outcome: Outcome, ms: real)

  datatype Mode = Single | Multi

  /** The fields of ImplRegistration that the engine reads. `fn` is what the hook does in the run at hand,
      for whatever context it gets. */
  datatype Registration = Registration(
    name: string,
    mode: Mode,
    filter: map<string, Value>,
    order: int,
    fallback: bool,
    parallel: bool,
    fn: Context -> Reply)

  datatype Status = StOk | StTimeout | StBlocked | StSkip | StError

  /** The exceptions that leave `_run_one`. */
  datatype Raise = RaiseTimeout | RaiseBlocked | RaiseSkip | RaiseError

  datatype StepResult = Returned(ctx: Context, status: Status) | Raised(exc: Raise)

  /** One finished execution, as metrics and audit see it. `input` is the context given to the hook. */
  datatype Execution = Execution(hook: string, impl: string, status: Status, ms: real, input: Context)

  function StatusOf(o: Outcome): Status {
    match o
    case Ok(_) => StOk
    case Timeout => StTimeout
    case Blocked => StBlocked
    case Skip => StSkip
    case Error => StError
  }

  /** `_run_one`: timeouts and errors degrade to the input context unless the hook has no fallback. */
  function Step(reg: Registration, c: Context): StepResult {
    match reg.fn(c).outcome
    case Ok(c') => Returned(c', StOk)
    case Timeout => if reg.fallback then Returned(c, StTimeout) else Raised(RaiseTimeout)
    case Blocked => Raised(RaiseBlocked)
    case Skip => Raised(RaiseSkip)
    case Error => if reg.fallback then Returned(c, StError) else Raised(RaiseError)
  }

  function Record(hook: string, reg: Registration, c: Context): Execution {
    var reply := reg.fn(c);
    Execution(hook, reg.name, StatusOf(reply.outcome), reply.ms, c)
  }

  /** A status says how a hook came out. */
  ghost predicate Means(status: Status, o: Outcome) {
    || (status == StOk && o.Ok?)
    || (status == StTimeout && o == Timeout)
    || (status == StBlocked && o == Blocked)
    || (status == StSkip && o == Skip)
    || (status == StError && o == Error)
  }

  /** What one execution of a hook is recorded as, in terms of how its function came out. */
  ghost predicate Describes(e: Execution, hook: string, reg: Registration, c: Context) {
    var o := reg.fn(c).outcome;
    && e.hook == hook && e.impl == reg.name && e.input == c && e.ms == reg.fn(c).ms
    && Means(e.status, o)
  }

  lemma RecordDescribes(hook: string, reg: Registration, c: Context, e: Execution)
    ensures e == Record(hook, reg, c) <==> Describes(e, hook, reg, c)
  {
  }

  datatype RunResult = Finished(ctx: Context) | Escaped(exc: Raise)

  /** `_run_sequential`: the context is threaded through; a skip ends the run, other exceptions escape. */
  function RunSequential(impls: seq<Registration>, c: Context): RunResult {
    if impls == [] then Finished(c)
    else match Step(impls[0], c)
      case Returned(c', _) => RunSequential(impls[1..], c')
      case Raised(exc) => if exc == RaiseSkip then Finished(c) else Escaped(exc)
  }

  /** The executions of a sequential run, in order. */
  function SequentialLog(hook: string, impls: seq<Registration>, c: Context): seq<Execution> {
    if impls == [] then []
    else
      [Record(hook, impls[0], c)] +
      match Step(impls[0], c)
      case Returned(c', _) => SequentialLog(hook, impls[1..], c')
      case Raised(_) => []
  }

  /** What a parallel result contributes: exceptions and degraded results are passed over. */
  function Contribution(r: StepResult): map<string, Value> {
    match r
    case Returned(c', StOk) => c'.metadata
    case _ => map[]
  }

  /** The merge loop, in list order. */
  function MergeResults(merged: map<string, Value>, impls: seq<Registration>, c: Context): map<string, Value>
    decreases |impls|
  {
    if impls == [] then merged
    else MergeResults(merged + Contribution(Step(impls[0], c)), impls[1..], c)
  }

  /** `_run_parallel`: every hook gets the input context; only metadata is merged back. */
  function RunParallel(impls: seq<Registration>, c: Context): Context {
    c.(metadata := MergeResults(c.metadata, impls, c))
  }

  predicate Within(order: seq<nat>, n: nat) {
    forall k | 0 <= k < |order| :: order[k] < n
  }

  /** The executions of a parallel run that completes in the given order. */
  function ParallelLog(hook: string, impls: seq<Registration>, c: Context, order: seq<nat>): (log: seq<Execution>)
    requires Within(order, |impls|)
    ensures |log| == |order|
  {
    seq(|order|, k requires 0 <= k < |order| => Record(hook, impls[order[k]], c))
  }

  predicate GoesParallel(parallel: bool, impls: seq<Registration>) {
    parallel || exists i :: 0 <= i < |impls| && impls[i].parallel
  }

  /** `HookPointDescriptor.run` on the selected implementations. */
  function RunHookpoint(parallel: bool, impls: seq<Registration>, c: Context): RunResult {
    if impls == [] then Finished(c)
    else if GoesParallel(parallel, impls) then Finished(RunParallel(impls, c))
    else RunSequential(impls, c)
  }

  function OrderKey(r: Registration): real {
    r.order as real
  }
}
