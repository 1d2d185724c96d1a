/** Whole sequential runs: which steps matter, and when a run raises. */
module SequentialRuns {
  import opened Prelude
  import opened Contexts
  import opened Hooks

  // ----- A run as a path, in terms of what the hooks' functions return -----

  /** The hook passes `after` on: what it returned, or its input if it timed out or failed with fallback. */
  ghost predicate PassesOn(reg: Registration, before: Context, after: Context) {
    match reg.fn(before).outcome
    case Ok(c') => after == c'
    case Timeout => reg.fallback && after == before
    case Error => reg.fallback && after == before
    case Blocked => false
    case Skip => false
  }

  /** The hook passes nothing on: it blocks, skips, or times out or fails without fallback. */
  predicate Stops(reg: Registration, c: Context) {
    var o := reg.fn(c).outcome;
    o == Blocked || o == Skip || (!reg.fallback && (o == Timeout || o == Error))
  }

  /** The contexts that hooks 0, 1, 2 and so on are called with, as far as `at` goes. */
  ghost predicate Path(impls: seq<Registration>, c: Context, at: seq<Context>) {
    && 1 <= |at| <= |impls| + 1 && at[0] == c
    && forall i | 0 <= i < |at| - 1 :: PassesOn(impls[i], at[i], at[i + 1])
  }

  /** The path ends in r: behind the last hook, or at a hook that stops it, where a skip keeps the context
      and anything else is raised. */
  ghost predicate EndsIn(impls: seq<Registration>, at: seq<Context>, r: RunResult)
    requires 1 <= |at| <= |impls| + 1
  {
    var n := |at| - 1;
    if n == |impls| then r == Finished(at[n])
    else
      && Stops(impls[n], at[n])
      && match impls[n].fn(at[n]).outcome
         case Skip => r == Finished(at[n])
         case Blocked => r == Escaped(RaiseBlocked)
         case Timeout => r == Escaped(RaiseTimeout)
         case _ => r == Escaped(RaiseError)
  }

  /** One record for each hook that was called, in order. */
  ghost predicate PathRecorded(hook: string, impls: seq<Registration>, at: seq<Context>, log: seq<Execution>) {
    && |log| == (if |at| <= |impls| then |at| else |impls|)
    && forall i | 0 <= i < |log| :: Describes(log[i], hook, impls[i], at[i])
  }

  lemma PathCons(hook: string, impls: seq<Registration>, c: Context, at: seq<Context>, r: RunResult,
                 log: seq<Execution>)
    requires impls != [] && at != [] && PassesOn(impls[0], c, at[0])
    requires Path(impls[1..], at[0], at) && EndsIn(impls[1..], at, r) && PathRecorded(hook, impls[1..], at, log)
    ensures Path(impls, c, [c] + at) && EndsIn(impls, [c] + at, r)
    ensures PathRecorded(hook, impls, [c] + at, [Record(hook, impls[0], c)] + log)
  {
    RecordDescribes(hook, impls[0], c, Record(hook, impls[0], c));
  }

  /** Every run follows a path, ends in its end, and records it. */
  lemma {:induction false} RunFollowsPath(hook: string, impls: seq<Registration>, c: Context) returns (at: seq<Context>)
    ensures Path(impls, c, at) && EndsIn(impls, at, RunSequential(impls, c))
    ensures PathRecorded(hook, impls, at, SequentialLog(hook, impls, c))
    decreases |impls|
  {
    if impls == [] {
      at := [c];
    } else if Stops(impls[0], c) {
      at := [c];
      RecordDescribes(hook, impls[0], c, Record(hook, impls[0], c));
    } else {
      var c' := Step(impls[0], c).ctx;
      var rest := RunFollowsPath(hook, impls[1..], c');
      PathCons(hook, impls, c, rest, RunSequential(impls[1..], c'), SequentialLog(hook, impls[1..], c'));
      at := [c] + rest;
    }
  }

  /** Two paths of the same hooks agree as far as both go. */
  lemma {:induction false} PathsAgree(impls: seq<Registration>, c: Context, at: seq<Context>, other: seq<Context>,
                                      i: nat)
    requires Path(impls, c, at) && Path(impls, c, other) && i < |at| && i < |other|
    ensures at[i] == other[i]
  {
    if i == 0 {
    } else {
      PathsAgree(impls, c, at, other, i - 1);
      assert PassesOn(impls[i - 1], at[i - 1], at[i]) && PassesOn(impls[i - 1], other[i - 1], other[i]);
    }
  }

  lemma StopsPassNothing(reg: Registration, before: Context, after: Context)
    requires Stops(reg, before)
    ensures !PassesOn(reg, before, after)
  {
  }

  /** A path that ends is the whole path. */
  lemma OneWholePath(impls: seq<Registration>, c: Context, at: seq<Context>, r: RunResult, other: seq<Context>)
    requires Path(impls, c, at) && EndsIn(impls, at, r) && Path(impls, c, other)
    ensures |other| <= |at|
  {
    var n := |at| - 1;
    if |other| > |at| {
      PathsAgree(impls, c, at, other, n);
      StopsPassNothing(impls[n], other[n], other[n + 1]);
      assert false;
    }
  }

  /** A sequential run comes out as r exactly if its path, which there is only one of, ends in r; and its log
      records that path. */
  lemma SequentialExactly(hook: string, impls: seq<Registration>, c: Context, r: RunResult)
    ensures RunSequential(impls, c) == r <==> exists at :: Path(impls, c, at) && EndsIn(impls, at, r)
    ensures forall at | Path(impls, c, at) && EndsIn(impls, at, r) ::
              PathRecorded(hook, impls, at, SequentialLog(hook, impls, c))
  {
    var run := RunFollowsPath(hook, impls, c);
    forall at | Path(impls, c, at) && EndsIn(impls, at, r) ensures at == run {
      OneWholePath(impls, c, at, r, run);
      OneWholePath(impls, c, run, RunSequential(impls, c), at);
      forall i | 0 <= i < |at| ensures at[i] == run[i] {
        PathsAgree(impls, c, at, run, i);
      }
    }
  }

  /** The hook at the end of a path decides, if it stops the run: a skip finishes it there, a block escapes,
      and so do a timeout and an error without fallback. That many executions are recorded. */
  lemma StoppingHookDecides(hook: string, impls: seq<Registration>, c: Context, at: seq<Context>)
    requires Path(impls, c, at) && |at| <= |impls|
    ensures var n := |at| - 1;
            var o, r := impls[n].fn(at[n]).outcome, RunSequential(impls, c);
            && (o == Skip ==> r == Finished(at[n]))
            && (o == Blocked ==> r == Escaped(RaiseBlocked))
            && (o == Timeout && !impls[n].fallback ==> r == Escaped(RaiseTimeout))
            && (o == Error && !impls[n].fallback ==> r == Escaped(RaiseError))
            && (Stops(impls[n], at[n]) ==> |SequentialLog(hook, impls, c)| == n + 1)
  {
    var n := |at| - 1;
    if Stops(impls[n], at[n]) {
      var r := match impls[n].fn(at[n]).outcome
        case Skip => Finished(at[n])
        case Blocked => Escaped(RaiseBlocked)
        case Timeout => Escaped(RaiseTimeout)
        case _ => Escaped(RaiseError);
      assert EndsIn(impls, at, r);
      SequentialExactly(hook, impls, c, r);
    }
  }

  // ----- Which steps matter -----

  /** The context in which hook i is called, or None if the run ends before it. */
  function CtxAt(impls: seq<Registration>, c: Context, i: nat): Option<Context>
    requires i <= |impls|
    decreases i
  {
    if i == 0 then Some(c)
    else match Step(impls[0], c)
      case Returned(c', _) => CtxAt(impls[1..], c', i - 1)
      case Raised(_) => None
  }

  /** Hook i ran and its timeout or error was degraded. */
  predicate DegradedAt(impls: seq<Registration>, c: Context, i: nat)
    requires i < |impls|
  {
    var at := CtxAt(impls, c, i);
    at.Some? && Step(impls[i], at.value).Returned? && Step(impls[i], at.value).status != StOk
  }

  function Without(impls: seq<Registration>, i: nat): seq<Registration>
    requires i < |impls|
  {
    impls[..i] + impls[i + 1..]
  }

  /** Deleting a degraded hook leaves the outcome of the run unchanged. */
  lemma {:induction false} ErasingDegraded(impls: seq<Registration>, c: Context, i: nat)
    requires i < |impls| && DegradedAt(impls, c, i)
    ensures RunSequential(Without(impls, i), c) == RunSequential(impls, c)
    decreases i
  {
    if i == 0 {
      assert Without(impls, 0) == impls[1..];
    } else {
      var c' := Step(impls[0], c).ctx;
      ErasingDegraded(impls[1..], c', i - 1);
      assert Without(impls, i)[0] == impls[0];
      assert impls[1..][..i - 1] == impls[1..i] && impls[1..][i..] == impls[i + 1..];
      assert impls[..i][1..] == impls[1..i];
      assert Without(impls, i)[1..] == Without(impls[1..], i - 1);
    }
  }

  /** The hooks whose step was ok, up to the end of the run. */
  function Survivors(impls: seq<Registration>, c: Context): seq<Registration>
    decreases |impls|
  {
    if impls == [] then []
    else match Step(impls[0], c)
      case Raised(_) => []
      case Returned(c', status) => (if status == StOk then [impls[0]] else []) + Survivors(impls[1..], c')
  }

  /** Applying hooks one after the other, all of which must return a context. */
  function FoldOk(impls: seq<Registration>, c: Context): Option<Context>
    decreases |impls|
  {
    if impls == [] then Some(c)
    else match impls[0].fn(c).outcome
      case Ok(c') => FoldOk(impls[1..], c')
      case _ => None
  }

  /** The run ends at hook i with exception e. */
  predicate RaisesAt(impls: seq<Registration>, c: Context, i: nat, e: Raise)
    requires i < |impls|
  {
    var at := CtxAt(impls, c, i);
    at.Some? && Step(impls[i], at.value) == Raised(e)
  }

  lemma {:induction false} FoldedHooksRun(impls: seq<Registration>, c: Context)
    requires FoldOk(impls, c).Some?
    ensures RunSequential(impls, c) == Finished(FoldOk(impls, c).value)
    decreases |impls|
  {
    if impls == [] {
    } else {
      FoldedHooksRun(impls[1..], impls[0].fn(c).outcome.ctx);
    }
  }

  lemma FoldCons(reg: Registration, rest: seq<Registration>, c: Context)
    requires reg.fn(c).outcome.Ok?
    ensures FoldOk([reg] + rest, c) == FoldOk(rest, reg.fn(c).outcome.ctx)
  {
    assert ([reg] + rest)[1..] == rest;
  }

  lemma {:induction false} SurvivorsFold(impls: seq<Registration>, c: Context)
    ensures FoldOk(Survivors(impls, c), c).Some?
    ensures RunSequential(impls, c).Finished? ==>
              RunSequential(impls, c) == Finished(FoldOk(Survivors(impls, c), c).value)
    decreases |impls|
  {
    if impls == [] {
    } else {
      match Step(impls[0], c)
      case Raised(_) =>
      case Returned(c', status) =>
        var rest := Survivors(impls[1..], c');
        SurvivorsFold(impls[1..], c');
        if status == StOk {
          FoldCons(impls[0], rest, c);
        } else {
          assert Survivors(impls, c) == rest;
        }
    }
  }

  /** A run that finishes is the fold over its ok steps, and running only those gives the same result. */
  lemma RunIsFoldOfSurvivors(impls: seq<Registration>, c: Context)
    ensures FoldOk(Survivors(impls, c), c).Some?
    ensures RunSequential(impls, c).Finished? ==>
              RunSequential(impls, c) == Finished(FoldOk(Survivors(impls, c), c).value)
    ensures RunSequential(Survivors(impls, c), c) == Finished(FoldOk(Survivors(impls, c), c).value)
  {
    SurvivorsFold(impls, c);
    FoldedHooksRun(Survivors(impls, c), c);
  }

  /** A run raises e exactly when some hook that it reaches raises e and e is not a skip. */
  lemma {:induction false} EscapesExactly(impls: seq<Registration>, c: Context, e: Raise)
    ensures RunSequential(impls, c) == Escaped(e) <==>
            e != RaiseSkip && exists i :: 0 <= i < |impls| && RaisesAt(impls, c, i, e)
    decreases |impls|
  {
    if impls == [] {
    } else {
      match Step(impls[0], c)
      case Raised(e') =>
        assert RaisesAt(impls, c, 0, e');
      case Returned(c', _) =>
        EscapesExactly(impls[1..], c', e);
        if i :| 0 <= i < |impls| && RaisesAt(impls, c, i, e) {
          assert i > 0;
          assert RaisesAt(impls[1..], c', i - 1, e);
        }
        if j :| 0 <= j < |impls[1..]| && RaisesAt(impls[1..], c', j, e) {
          assert RaisesAt(impls, c, j + 1, e);
        }
    }
  }

  /** So what escapes is a block, or a timeout or error of a hook without fallback. */
  lemma EscapesOnlyFor(impls: seq<Registration>, c: Context)
    requires RunSequential(impls, c).Escaped?
    ensures exists i :: 0 <= i < |impls| && CtxAt(impls, c, i).Some? &&
              var o := impls[i].fn(CtxAt(impls, c, i).value).outcome;
              match RunSequential(impls, c).exc
              case RaiseBlocked => o == Blocked
              case RaiseTimeout => o == Timeout && !impls[i].fallback
              case RaiseError => o == Error && !impls[i].fallback
              case RaiseSkip => false
  {
    var e := RunSequential(impls, c).exc;
    EscapesExactly(impls, c, e);
    var i :| 0 <= i < |impls| && RaisesAt(impls, c, i, e);
    assert CtxAt(impls, c, i).Some?;
  }

  lemma {:induction false} CutAfterRaise(impls: seq<Registration>, c: Context, i: nat, e: Raise,
                                                 others: seq<Registration>)
    requires i < |impls| && RaisesAt(impls, c, i, e)
    ensures RunSequential(impls[..i + 1] + others, c) == RunSequential(impls, c)
    ensures Survivors(impls[..i + 1] + others, c) == Survivors(impls, c)
    ensures forall hook :: SequentialLog(hook, impls[..i + 1] + others, c) == SequentialLog(hook, impls, c)
    decreases i
  {
    var cut := impls[..i + 1] + others;
    assert cut[0] == impls[0];
    if i == 0 {
    } else {
      CutAfterRaise(impls[1..], Step(impls[0], c).ctx, i - 1, e, others);
      assert cut[1..] == impls[1..][..i] + others;
    }
  }

  lemma {:induction false} PathReaches(impls: seq<Registration>, c: Context, at: seq<Context>, i: nat)
    requires Path(impls, c, at) && i < |at|
    ensures CtxAt(impls, c, i) == Some(at[i])
    decreases i
  {
    if i == 0 {
    } else {
      assert PassesOn(impls[0], at[0], at[1]);
      forall j | 0 <= j < |at| - 2 ensures PassesOn(impls[1..][j], at[1..][j], at[1..][j + 1]) {
        assert PassesOn(impls[j + 1], at[j + 1], at[j + 2]);
      }
      PathReaches(impls[1..], at[1], at[1..], i - 1);
    }
  }

  /** What follows a hook that is reached and skips, blocks, or times out or fails without fallback plays no
      part. */
  lemma NothingRunsAfterRaise(hook: string, impls: seq<Registration>, c: Context, at: seq<Context>,
                              others: seq<Registration>)
    requires Path(impls, c, at) && |at| <= |impls| && Stops(impls[|at| - 1], at[|at| - 1])
    ensures RunSequential(impls[..|at|] + others, c) == RunSequential(impls, c)
    ensures Survivors(impls[..|at|] + others, c) == Survivors(impls, c)
    ensures SequentialLog(hook, impls[..|at|] + others, c) == SequentialLog(hook, impls, c)
  {
    var n := |at| - 1;
    PathReaches(impls, c, at, n);
    CutAfterRaise(impls, c, n, Step(impls[n], at[n]).exc, others);
  }

  lemma {:induction false} PathTo(impls: seq<Registration>, c: Context, i: nat) returns (at: seq<Context>)
    requires i <= |impls| && CtxAt(impls, c, i).Some?
    ensures Path(impls, c, at) && |at| == i + 1 && at[i] == CtxAt(impls, c, i).value
    decreases i
  {
    if i == 0 {
      at := [c];
    } else {
      var rest := PathTo(impls[1..], Step(impls[0], c).ctx, i - 1);
      at := [c] + rest;
    }
  }

  ghost predicate SomeBlocks(impls: seq<Registration>, c: Context) {
    exists at :: Path(impls, c, at) && |at| <= |impls| && impls[|at| - 1].fn(at[|at| - 1]).outcome == Blocked
  }

  /** The documentation lets a block always propagate. It leaves a hookpoint exactly when the run is
      sequential and some hook that is reached blocks: a parallel batch swallows it. */
  lemma BlockPropagatesExactly(parallel: bool, impls: seq<Registration>, c: Context)
    ensures RunHookpoint(parallel, impls, c) == Escaped(RaiseBlocked) <==>
            !parallel && (forall i | 0 <= i < |impls| :: !impls[i].parallel) && SomeBlocks(impls, c)
  {
    EscapesExactly(impls, c, RaiseBlocked);
    if SomeBlocks(impls, c) {
      var at :| Path(impls, c, at) && |at| <= |impls| && impls[|at| - 1].fn(at[|at| - 1]).outcome == Blocked;
      StoppingHookDecides("", impls, c, at);
    }
    if i :| 0 <= i < |impls| && RaisesAt(impls, c, i, RaiseBlocked) {
      var at := PathTo(impls, c, i);
      assert SomeBlocks(impls, c);
    }
  }

  /** A hookpoint runs its hooks in parallel exactly if it or one of them asks for it; without hooks nothing
      happens. */
  lemma ModeExactly(parallel: bool, impls: seq<Registration>, c: Context)
    ensures impls == [] ==> RunHookpoint(parallel, impls, c) == Finished(c)
    ensures impls != [] && (parallel || exists reg :: reg in impls && reg.parallel) ==>
              RunHookpoint(parallel, impls, c) == Finished(RunParallel(impls, c))
    ensures !parallel && (forall reg | reg in impls :: !reg.parallel) ==>
              RunHookpoint(parallel, impls, c) == RunSequential(impls, c)
  {
    if reg :| reg in impls && reg.parallel {
      var i :| 0 <= i < |impls| && impls[i] == reg;
      assert GoesParallel(parallel, impls);
    }
  }

  function BlockingHook(): Registration {
    Registration("block", Multi, map[], 100, true, false, (c: Context) => Reply(Blocked, 0.0))
  }

  /** One hook that blocks: it stops a sequential hookpoint, and a parallel one returns its input. */
  lemma BlockIsSwallowed(c: Context)
    ensures RunHookpoint(false, [BlockingHook()], c) == Escaped(RaiseBlocked)
    ensures RunHookpoint(true, [BlockingHook()], c) == Finished(c)
  {
    var impls := [BlockingHook()];
    assert Step(impls[0], c) == Raised(RaiseBlocked);
    assert impls[1..] == [];
    assert c.metadata + map[] == c.metadata;
    assert MergeResults(c.metadata, impls, c) == MergeResults(c.metadata, [], c);
    assert c.(metadata := c.metadata) == c;
  }
}
