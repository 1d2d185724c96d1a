/** Hookpoints run one after the other on one engine, as an agent's turn does, each on the context that the
    one before it returned. */
module Chains {
  import opened Prelude
  import opened Contexts
  import opened Hooks
  import opened Registries
  import opened Invariants
  import A = Audit
  import E = Engines

  /** A hookpoint and what the attached registries hold for it. */
  datatype Declared = Declared(name: string, parallel: bool, tables: seq<seq<Registration>>)

  function StageOf(d: Declared, c: Context): Stage {
    Stage(d.name, d.parallel, Dispatch(d.tables, c))
  }

  /** What the hookpoints of a chain dispatch, each for the context on which it runs; none runs after an
      exception. */
  function StagesOf(ds: seq<Declared>, c: Context): seq<Stage> {
    if ds == [] then []
    else
      var s := StageOf(ds[0], c);
      var r := RunHookpoint(s.parallel, s.impls, c);
      [s] + (if r.Finished? then StagesOf(ds[1..], r.ctx) else [])
  }

  ghost predicate Declares(point: E.HookPoint, d: Declared)
    reads point, point.registries
  {
    point.name == d.name && point.parallel == d.parallel && point.Tables() == d.tables
  }

  ghost predicate Apart(point: E.HookPoint, engine: E.Engine)
    reads point
  {
    point !in engine.Parts() && forall reg | reg in point.registries :: reg !in engine.Parts()
  }

  lemma Regroup(a: seq<Execution>, b: seq<Execution>, c: seq<Execution>)
    ensures a + b + c == a + (b + c)
  {
  }

  lemma FirstAndRest(ds: seq<Declared>, c: Context, r: RunResult, first: seq<Execution>, later: seq<Execution>)
    requires ds != [] && StageRecords(StageOf(ds[0], c), c, first)
    requires r == RunHookpoint(ds[0].parallel, StageOf(ds[0], c).impls, c)
    requires if r.Finished? then StagesRecord(StagesOf(ds[1..], r.ctx), r.ctx, later) else later == []
    ensures StagesRecord(StagesOf(ds, c), c, first + later)
    ensures RunStages(StagesOf(ds, c), c) ==
            if r.Finished? then RunStages(StagesOf(ds[1..], r.ctx), r.ctx) else r
  {
    var log := first + later;
    var rest := if r.Finished? then StagesOf(ds[1..], r.ctx) else [];
    assert log[..|first|] == first && log[|first|..] == later;
    assert StagesOf(ds, c)[1..] == rest;
  }

  /** Over hooks that keep redactions, the lines added hide what was redacted on entry, and the result still
      redacts it; where sequential hooks keep the sealed fields, so does the result. */
  ghost predicate Guarantees(stages: seq<Stage>, c: Context, r: RunResult, earlier: seq<A.Line>, lines: seq<A.Line>) {
    && ((forall s | s in stages :: AllKeepRedacted(s.impls)) ==>
          && earlier <= lines && (forall i | |earlier| <= i < |lines| :: Hides(c, lines[i]))
          && (r.Finished? ==> KeepsRedactions(c, r.ctx)))
    && ((forall s | s in stages :: GoesParallel(s.parallel, s.impls) || AllKeepSealed(s.impls)) ==>
          r.Finished? ==> SameSealed(c, r.ctx))
  }

  lemma ChainKeeps(engine: E.Engine, earlier: seq<Execution>, stages: seq<Stage>, c: Context, log: seq<Execution>)
    requires engine.Valid() && engine.log == earlier + log && StagesRecord(stages, c, log)
    ensures Guarantees(stages, c, RunStages(stages, c), LinesFor(earlier), engine.audit.lines)
  {
    if forall s | s in stages :: AllKeepRedacted(s.impls) {
      TrailHidesRedacted(engine, earlier, stages, c, log);
      RedactionPersists(stages, c, log);
    }
    if && RunStages(stages, c).Finished?
       && forall s | s in stages :: GoesParallel(s.parallel, s.impls) || AllKeepSealed(s.impls)
    {
      SealedForever(stages, c);
    }
  }

  /** One hookpoint: its outcome, and a record that is one of those its stage allows. */
  method RunPoint(engine: E.Engine, point: E.HookPoint, c: Context, ghost d: Declared)
    returns (r: RunResult, ghost added: seq<Execution>)
    requires engine.Valid() && Apart(point, engine) && Declares(point, d)
    modifies engine.Parts()
    ensures engine.Valid() && engine.log == old(engine.log) + added
    ensures r == RunHookpoint(d.parallel, StageOf(d, c).impls, c) && StageRecords(StageOf(d, c), c, added)
  {
    ghost var before := engine.log;
    r := point.Run(engine, c);
    added := engine.log[|before|..];
    assert StageRecords(StageOf(d, c), c, added);
  }

  /** The whole chain: its outcome, its executions, and what they keep and hide. */
  method RunChain(engine: E.Engine, points: seq<E.HookPoint>, c: Context, ghost ds: seq<Declared>)
    returns (r: RunResult, ghost added: seq<Execution>)
    requires engine.Valid() && |ds| == |points|
    requires forall i | 0 <= i < |points| :: Apart(points[i], engine) && Declares(points[i], ds[i])
    modifies engine.Parts()
    ensures engine.Valid() && engine.log == old(engine.log) + added
    ensures r == RunStages(StagesOf(ds, c), c) && StagesRecord(StagesOf(ds, c), c, added)
    ensures Guarantees(StagesOf(ds, c), c, r, old(engine.audit.lines), engine.audit.lines)
  {
    r, added := RunFrom(engine, points, c, ds);
    ChainKeeps(engine, old(engine.log), StagesOf(ds, c), c, added);
  }

  method RunFrom(engine: E.Engine, points: seq<E.HookPoint>, c: Context, ghost ds: seq<Declared>)
    returns (r: RunResult, ghost added: seq<Execution>)
    requires engine.Valid() && |ds| == |points|
    requires forall i | 0 <= i < |points| :: Apart(points[i], engine) && Declares(points[i], ds[i])
    modifies engine.Parts()
    ensures engine.Valid() && engine.log == old(engine.log) + added
    ensures r == RunStages(StagesOf(ds, c), c) && StagesRecord(StagesOf(ds, c), c, added)
    decreases |points|
  {
    if points == [] {
      return Finished(c), [];
    }
    ghost var later := [];
    var first;
    first, added := RunPoint(engine, points[0], c, ds[0]);
    r := first;
    if first.Finished? {
      r, later := RunFrom(engine, points[1..], first.ctx, ds[1..]);
    }
    ghost var whole := added + later;
    Regroup(old(engine.log), added, later);
    FirstAndRest(ds, c, first, added, later);
    added := whole;
  }
}
