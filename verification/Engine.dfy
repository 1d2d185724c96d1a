/** The engine as it runs: `_run_one`, the sequential loop, the parallel batch and the hookpoint, with the
    instruments and the audit trail they feed (core/hookpoint.py, executor/). */
module Engines {
  import opened Prelude
  import opened Contexts
  import opened Hooks
  import opened Registries
  import opened Sorting
  import A = Audit
  import M = Metrics

  class Engine {
    const instruments: M.Instruments
    const audit: A.AuditTrail
    /** Every execution that finished, in the order in which it was recorded. */
    ghost var log: seq<Execution>

    ghost function Parts(): set<object> {
      {this, audit} + instruments.Parts()
    }

    ghost predicate Valid()
      reads Parts()
    {
      && this !in instruments.Parts() && audit !in instruments.Parts()
      && instruments.Valid() && audit.Valid()
      && instruments.log == log
      && audit.scheduled == A.ScheduledOf(log)
    }

    constructor ()
      ensures Valid() && log == [] && fresh(Parts())
    {
      instruments := new M.Instruments();
      audit := new A.AuditTrail();
      log := [];
    }

    /** `record_metric`, and the audit entry unless the hook skipped. */
    method Account(e: Execution)
      requires Valid()
      modifies Parts()
      ensures Valid() && log == old(log) + [e]
    {
      instruments.Record(e);
      if e.status != StSkip {
        audit.Record(e);
      }
      log := log + [e];
      assert log[..|log| - 1] == old(log);
    }

    /** What every counter shows under one key after one execution on top of the log `earlier`, by how the
        hook's function came out: one timeout more of the hookpoint, one error or one block more of the
        implementation, one execution more of that status. */
    ghost predicate CountsOne(earlier: seq<Execution>, hook: string, reg: Registration, c: Context, a: M.Attrs)
      reads Parts()
    {
      var o := reg.fn(c).outcome;
      && instruments.timeouts.Get(a) == M.At(M.CountsOf(earlier, M.TimeoutKey), a) +
           (if o == Timeout && a == M.Attrs(hook, None, None) then 1 else 0)
      && instruments.errors.Get(a) == M.At(M.CountsOf(earlier, M.ErrorKey), a) +
           (if o == Error && a == M.Attrs(hook, Some(reg.name), None) then 1 else 0)
      && instruments.blocked.Get(a) == M.At(M.CountsOf(earlier, M.BlockedKey), a) +
           (if o == Blocked && a == M.Attrs(hook, Some(reg.name), None) then 1 else 0)
      && instruments.executions.Get(a) == M.At(M.CountsOf(earlier, M.ExecutionKey), a) +
           (if a.hook == hook && a.impl == Some(reg.name) && a.status.Some? && Means(a.status.value, o) then 1 else 0)
    }

    /** And so the counters, the histogram and the audit trail. */
    ghost predicate Accounted(earlier: seq<Execution>, hook: string, reg: Registration, c: Context)
      reads Parts()
    {
      && (forall a :: CountsOne(earlier, hook, reg, c, a))
      && instruments.duration.observations == M.Durations(earlier) + [reg.fn(c).ms]
      && Audited(A.LinesOf(A.ScheduledOf(earlier)), audit.lines, hook, reg, c)
    }

    lemma RunCountsOne(earlier: seq<Execution>, hook: string, reg: Registration, c: Context, a: M.Attrs)
      requires Valid() && log == earlier + [Record(hook, reg, c)]
      ensures CountsOne(earlier, hook, reg, c, a)
      ensures instruments.duration.observations == M.Durations(earlier) + [reg.fn(c).ms]
    {
      M.CountedAs(earlier, hook, reg, c, a);
    }

    lemma RunIsAccounted(earlier: seq<Execution>, hook: string, reg: Registration, c: Context)
      requires Valid() && log == earlier + [Record(hook, reg, c)]
      ensures Accounted(earlier, hook, reg, c)
    {
      forall a ensures CountsOne(earlier, hook, reg, c, a) {
        RunCountsOne(earlier, hook, reg, c, a);
      }
      RunCountsOne(earlier, hook, reg, c, M.Attrs(hook, None, None));
      RecordDescribes(hook, reg, c, Record(hook, reg, c));
      LineAdded(earlier, hook, reg, c, Record(hook, reg, c));
    }

    method RunOne(hook: string, reg: Registration, c: Context) returns (r: StepResult)
      requires Valid()
      modifies Parts()
      ensures Valid() && r == Step(reg, c) && log == old(log) + [Record(hook, reg, c)]
      ensures Accounted(old(log), hook, reg, c)
    {
      var reply := reg.fn(c);
      match reply.outcome {
        case Ok(c') =>
          assert Record(hook, reg, c) == Execution(hook, reg.name, StOk, reply.ms, c);
          Account(Execution(hook, reg.name, StOk, reply.ms, c));
          r := Returned(c', StOk);
        case Timeout =>
          assert Record(hook, reg, c) == Execution(hook, reg.name, StTimeout, reply.ms, c);
          Account(Execution(hook, reg.name, StTimeout, reply.ms, c));
          r := if !reg.fallback then Raised(RaiseTimeout) else Returned(c, StTimeout);
        case Blocked =>
          assert Record(hook, reg, c) == Execution(hook, reg.name, StBlocked, reply.ms, c);
          Account(Execution(hook, reg.name, StBlocked, reply.ms, c));
          r := Raised(RaiseBlocked);
        case Skip =>
          assert Record(hook, reg, c) == Execution(hook, reg.name, StSkip, reply.ms, c);
          Account(Execution(hook, reg.name, StSkip, reply.ms, c));
          r := Raised(RaiseSkip);
        case Error =>
          assert Record(hook, reg, c) == Execution(hook, reg.name, StError, reply.ms, c);
          Account(Execution(hook, reg.name, StError, reply.ms, c));
          r := if !reg.fallback then Raised(RaiseError) else Returned(c, StError);
      }
      RunIsAccounted(old(log), hook, reg, c);
    }

    method RunAllSequential(hook: string, impls: seq<Registration>, c: Context) returns (r: RunResult)
      requires Valid()
      modifies Parts()
      ensures Valid() && r == RunSequential(impls, c)
      ensures log == old(log) + SequentialLog(hook, impls, c)
    {
      var current, i := c, 0;
      ghost var outcome, whole := RunSequential(impls, c), log + SequentialLog(hook, impls, c);
      assert impls[0..] == impls;
      while i < |impls|
        invariant 0 <= i <= |impls| && Valid()
        invariant RunSequential(impls[i..], current) == outcome
        invariant log + SequentialLog(hook, impls[i..], current) == whole
      {
        ghost var before := log;
        SequentialStep(hook, impls, i, current, before);
        var step := RunOne(hook, impls[i], current);
        match step {
          case Returned(next, _) => current := next;
          case Raised(exc) =>
            if exc == RaiseSkip {
              break;
            }
            return Escaped(exc);
        }
        i := i + 1;
      }
      r := Finished(current);
    }

    /** `SequentialExecutor.run`, which sorts first. On a dispatched list it is the hookpoint's own loop. */
    method RunSequentialExecutor(hook: string, impls: seq<Registration>, c: Context) returns (r: RunResult)
      requires Valid()
      modifies Parts()
      ensures Valid() && r == RunSequential(SortBy(impls, OrderKey), c)
      ensures log == old(log) + SequentialLog(hook, SortBy(impls, OrderKey), c)
      ensures Sorted(impls, OrderKey) ==>
                r == RunSequential(impls, c) && log == old(log) + SequentialLog(hook, impls, c)
    {
      if Sorted(impls, OrderKey) {
        SortedIsFixed(impls, OrderKey);
      }
      r := RunAllSequential(hook, SortBy(impls, OrderKey), c);
    }

    /** `gather`: the hooks finish in an order that nobody controls, each filling its own slot. */
    method Gather(hook: string, impls: seq<Registration>, c: Context)
      returns (slots: seq<StepResult>, order: seq<nat>)
      requires Valid()
      modifies Parts()
      ensures Valid() && Filled(impls, c, slots, Below(|impls|))
      ensures Permutation(order, |impls|)
      ensures log == old(log) + ParallelLog(hook, impls, c, order)
    {
      order := CompletionOrder(|impls|);
      slots := seq(|impls|, _ => Raised(RaiseSkip));
      ghost var before := log;
      assert before + ParallelLog(hook, impls, c, []) == before;
      var k := 0;
      while k < |order|
        invariant 0 <= k <= |order| && Valid()
        invariant Filled(impls, c, slots, Elements(order[..k]))
        invariant log == before + ParallelLog(hook, impls, c, order[..k])
      {
        CompleteOne(hook, impls, c, order, k, before, slots);
        var result := RunOne(hook, impls[order[k]], c);
        slots := slots[order[k] := result];
        k := k + 1;
      }
      PermutationCovers(order, |impls|);
      assert order[..k] == order;
    }

    method RunAllParallel(hook: string, impls: seq<Registration>, c: Context)
      returns (r: Context, order: seq<nat>)
      requires Valid()
      modifies Parts()
      ensures Valid() && r == RunParallel(impls, c)
      ensures Permutation(order, |impls|) && log == old(log) + ParallelLog(hook, impls, c, order)
    {
      var slots;
      slots, order := Gather(hook, impls, c);
      var merged := MergeSlots(impls, c, slots);
      r := c.(metadata := merged);
    }
  }

  /** One line more, of this hook and how its function came out, unless it skipped or the redaction list of
      its input cannot be read. */
  ghost predicate Audited(before: seq<A.Line>, after: seq<A.Line>, hook: string, reg: Registration, c: Context) {
    if reg.fn(c).outcome == Skip || !A.ReadableList(c.metadata) then after == before
    else
      && |after| == |before| + 1 && before <= after
      && var line := after[|before|];
         line.hook == hook && line.impl == reg.name && Means(line.status, reg.fn(c).outcome)
  }

  lemma LineAdded(log: seq<Execution>, hook: string, reg: Registration, c: Context, e: Execution)
    requires Describes(e, hook, reg, c)
    ensures Audited(A.LinesOf(A.ScheduledOf(log)), A.LinesOf(A.ScheduledOf(log + [e])), hook, reg, c)
  {
    A.LinesSnoc(log, e);
    A.LineExactly(e);
    if A.LeavesLine(e) {
      A.LineSays(e);
    }
  }

  /** The merge loop over the gathered results, in list order. */
  method MergeSlots(impls: seq<Registration>, c: Context, slots: seq<StepResult>) returns (merged: map<string, Value>)
    requires Filled(impls, c, slots, Below(|impls|))
    ensures merged == MergeResults(c.metadata, impls, c)
  {
    merged := c.metadata;
    for i := 0 to |slots|
      invariant MergeResults(c.metadata, impls, c) == MergeResults(merged, impls[i..], c)
    {
      assert i in Below(|impls|);
      match slots[i] {
        case Raised(_) => assert merged + map[] == merged;
        case Returned(ctx, status) =>
          if status == StOk {
            merged := merged + ctx.metadata;
          } else {
            assert merged + map[] == merged;
          }
      }
    }
  }

  /** Some order in which n tasks finish. */
  method CompletionOrder(n: nat) returns (order: seq<nat>)
    ensures Permutation(order, n)
  {
    var pending := Below(n);
    order := [];
    while pending != {}
      invariant pending <= Below(n) && Elements(order) == Below(n) - pending && Distinct(order)
      decreases |pending|
    {
      var i :| i in pending;
      assert i !in Elements(order);
      assert Elements(order + [i]) == Elements(order) + {i};
      pending := pending - {i};
      order := order + [i];
    }
    DistinctFills(order, n);
  }

  /** One step of a sequential run and of its log. */
  lemma SequentialStep(hook: string, impls: seq<Registration>, i: nat, c: Context, log: seq<Execution>)
    requires i < |impls|
    ensures RunSequential(impls[i..], c) ==
            match Step(impls[i], c)
            case Returned(c', _) => RunSequential(impls[i + 1..], c')
            case Raised(exc) => if exc == RaiseSkip then Finished(c) else Escaped(exc)
    ensures log + SequentialLog(hook, impls[i..], c) ==
            match Step(impls[i], c)
            case Returned(c', _) => log + [Record(hook, impls[i], c)] + SequentialLog(hook, impls[i + 1..], c')
            case Raised(_) => log + [Record(hook, impls[i], c)]
  {
    assert impls[i..][1..] == impls[i + 1..];
  }

  /** The slots of the finished hooks hold their results. */
  ghost predicate Filled(impls: seq<Registration>, c: Context, slots: seq<StepResult>, finished: set<nat>) {
    |slots| == |impls| && forall i: nat | i < |impls| && i in finished :: slots[i] == Step(impls[i], c)
  }

  function Below(n: nat): (s: set<nat>)
    ensures forall k: nat :: k in s <==> k < n
  {
    if n == 0 then {} else Below(n - 1) + {n - 1}
  }

  function Elements(order: seq<nat>): set<nat> {
    set x | x in order
  }

  ghost predicate Distinct(order: seq<nat>) {
    forall i, j | 0 <= i < j < |order| :: order[i] != order[j]
  }

  lemma {:induction false} BelowCount(n: nat)
    ensures |Below(n)| == n
  {
    if n == 0 {
    } else {
      BelowCount(n - 1);
    }
  }

  lemma {:induction false} DistinctCount(order: seq<nat>)
    requires Distinct(order)
    ensures |Elements(order)| == |order|
  {
    if order == [] {
    } else {
      var n := |order| - 1;
      DistinctCount(order[..n]);
      assert order == order[..n] + [order[n]];
      assert Elements(order) == Elements(order[..n]) + {order[n]};
      assert order[n] !in order[..n];
    }
  }

  /** Distinct indices that cover everything below n are a permutation. */
  lemma DistinctFills(order: seq<nat>, n: nat)
    requires Elements(order) == Below(n) && Distinct(order)
    ensures Permutation(order, n)
  {
    DistinctCount(order);
    BelowCount(n);
    forall i | 0 <= i < |order| ensures order[i] < n {
      assert order[i] in Elements(order);
    }
    forall k: nat | k < n ensures k in order {
      assert k in Below(n);
    }
  }

  lemma PermutationCovers(order: seq<nat>, n: nat)
    requires Permutation(order, n)
    ensures Elements(order) == Below(n)
  {
    forall k: nat ensures k in Elements(order) <==> k in Below(n) {
      assert k in Below(n) <==> k < n;
    }
  }

  /** One more completion in a parallel batch: one log entry, one slot. */
  lemma CompleteOne(hook: string, impls: seq<Registration>, c: Context, order: seq<nat>, k: nat,
                    log: seq<Execution>, slots: seq<StepResult>)
    requires Permutation(order, |impls|) && k < |order|
    requires Filled(impls, c, slots, Elements(order[..k]))
    ensures Filled(impls, c, slots[order[k] := Step(impls[order[k]], c)], Elements(order[..k + 1]))
    ensures log + ParallelLog(hook, impls, c, order[..k + 1]) ==
            log + ParallelLog(hook, impls, c, order[..k]) + [Record(hook, impls[order[k]], c)]
  {
    assert order[..k + 1] == order[..k] + [order[k]];
    assert Elements(order[..k + 1]) == Elements(order[..k]) + {order[k]};
    var longer := ParallelLog(hook, impls, c, order[..k + 1]);
    assert longer == ParallelLog(hook, impls, c, order[..k]) + [Record(hook, impls[order[k]], c)];
  }

  /** A declared hookpoint with its attached registries. */
  class HookPoint {
    const name: string
    const parallel: bool
    var registries: seq<HookRegistry>

    constructor (name: string, parallel: bool)
      ensures this.name == name && this.parallel == parallel && registries == []
    {
      this.name, this.parallel := name, parallel;
      registries := [];
    }

    method AddRegistry(registry: HookRegistry)
      modifies this
      ensures registries == old(registries) + [registry]
    {
      registries := registries + [registry];
    }

    /** What each attached registry holds for this hookpoint. */
    ghost function Tables(): seq<seq<Registration>>
      reads this, registries
    {
      TablesOf(registries)
    }

    ghost function TablesOf(rs: seq<HookRegistry>): seq<seq<Registration>>
      reads rs
    {
      if rs == [] then [] else [rs[0].Contents().At(name)] + TablesOf(rs[1..])
    }

    method GetImpls(c: Context) returns (impls: seq<Registration>)
      ensures impls == Dispatch(Tables(), c)
    {
      var found: seq<Registration> := [];
      ghost var all := Flatten(SelectEach(Tables(), c));
      assert registries[0..] == registries;
      for i := 0 to |registries|
        invariant found + Flatten(SelectEach(TablesOf(registries[i..]), c)) == all
      {
        assert registries[i..][1..] == registries[i + 1..];
        SelectFirst(registries[i].Contents().At(name), TablesOf(registries[i + 1..]), c, found);
        found := found + registries[i].GetImpls(name, c);
      }
      assert registries[|registries|..] == [];
      assert found + [] == found;
      impls := SortBy(found, OrderKey);
    }

    /** `run`: the outcome is that of the dispatched hooks, and it depends on nothing else. */
    method Run(engine: Engine, c: Context) returns (r: RunResult)
      requires engine.Valid() && this !in engine.Parts()
      requires forall reg | reg in registries :: reg !in engine.Parts()
      modifies engine.Parts()
      ensures engine.Valid()
      ensures r == RunHookpoint(parallel, Dispatch(old(Tables()), c), c)
      ensures var impls := Dispatch(old(Tables()), c);
              if GoesParallel(parallel, impls) && impls != [] then
                exists order :: Permutation(order, |impls|) &&
                  engine.log == old(engine.log) + ParallelLog(name, impls, c, order)
              else engine.log == old(engine.log) + SequentialLog(name, impls, c)
    {
      var impls := GetImpls(c);
      if impls == [] {
        return Finished(c);
      }
      if parallel || exists i :: 0 <= i < |impls| && impls[i].parallel {
        var merged, order := engine.RunAllParallel(name, impls, c);
        r := Finished(merged);
      } else {
        r := engine.RunAllSequential(name, impls, c);
      }
    }
  }

  lemma SelectFirst(table: seq<Registration>, rest: seq<seq<Registration>>, c: Context, found: seq<Registration>)
    ensures found + Flatten(SelectEach([table] + rest, c)) == found + Select(table, c) + Flatten(SelectEach(rest, c))
  {
    assert ([table] + rest)[1..] == rest;
    assert SelectEach([table] + rest, c)[1..] == SelectEach(rest, c);
  }
}
