/** What holds along whole runs and sequences of hookpoint runs: sealed fields, tenants, redaction, and
    accounts that do not depend on the order in which parallel hooks finish. */
module Invariants {
  import opened Prelude
  import opened Contexts
  import opened Hooks
  import opened Registries
  import opened SequentialRuns
  import opened ParallelRuns
  import opened Sorting
  import D = Decorators
  import A = Audit
  import M = Metrics
  import E = Engines

  // ----- Decorator stacks as hooks -----

  /** How `_run_one` reads the result of a stack: TimeoutError, its own or that of `wait_for`, is a
      timeout, and every exception other than HookBlocked and HookSkip is an error. */
  function OutcomeOf(r: D.Result): Outcome {
    match r
    case Done(c) => Ok(c)
    case Cancelled => Timeout
    case Raised(TimeoutError) => Timeout
    case Raised(HookBlocked) => Blocked
    case Raised(HookSkip) => Skip
    case Raised(_) => Error
  }

  function StackHook(d: D.Deco, w: D.World): Context -> Reply {
    (c: Context) =>
      var (r, w') := D.Exec(d, c, w);
      Reply(OutcomeOf(r), (w'.clock - w.clock) * 1000.0)
  }

  /** How a decorated hook comes out of one execution, by the exception its stack raises: what is returned,
      what leaves the execution, and what is recorded. The duration is the time the stack took, in ms. */
  lemma StackComesOut(hook: string, reg: Registration, d: D.Deco, w: D.World, c: Context)
    requires reg.fn == StackHook(d, w)
    ensures var (r, w') := D.Exec(d, c, w);
            var e, step := Record(hook, reg, c), Step(reg, c);
            && e.ms == (w'.clock - w.clock) * 1000.0
            && (r.Done? ==> e.status == StOk && step == Returned(r.ctx, StOk))
            && (r == D.Raised(HookBlocked) ==> e.status == StBlocked && step == Raised(RaiseBlocked))
            && (r == D.Raised(HookSkip) ==> e.status == StSkip && step == Raised(RaiseSkip))
            && (r == D.Cancelled || r == D.Raised(TimeoutError) ==>
                  && e.status == StTimeout
                  && step == if reg.fallback then Returned(c, StTimeout) else Raised(RaiseTimeout))
            && (r.Raised? && (r.exc.SecurityError? || r.exc == OtherError) ==>
                  && e.status == StError
                  && step == if reg.fallback then Returned(c, StError) else Raised(RaiseError))
  {
  }

  /** As a hook, a stack over sealed writers is never ok. */
  lemma SealedWriterIsNeverOk(d: D.Deco, w: D.World, c: Context)
    requires D.NoPassThrough(d) && D.AlwaysWritesSealed(w.script)
    ensures !StackHook(d, w)(c).outcome.Ok?
  {
    D.SealedWritersNeverReturn(d, c, w);
  }

  /** A hook with fallback whose body writes a sealed field whenever it runs has no say, however it is
      decorated and retried: unless a decorator blocks or skips, it degrades to its input, and the run goes
      on as if the hook were not there. */
  lemma SealedWriterIsErased(impls: seq<Registration>, c: Context, i: nat, d: D.Deco, w: D.World)
    requires i < |impls| && CtxAt(impls, c, i).Some?
    requires impls[i].fallback && impls[i].fn == StackHook(d, w)
    requires D.NoPassThrough(d) && D.AlwaysWritesSealed(w.script)
    ensures var o := impls[i].fn(CtxAt(impls, c, i).value).outcome;
            || o == Blocked || o == Skip
            || ((o == Timeout || o == Error) && RunSequential(Without(impls, i), c) == RunSequential(impls, c))
  {
    SealedWriterIsNeverOk(d, w, CtxAt(impls, c, i).value);
    if DegradedAt(impls, c, i) {
      ErasingDegraded(impls, c, i);
    }
  }

  /** An undecorated body neither blocks nor skips by writing a sealed field, so it is erased. */
  lemma SealedWriteIsErased(impls: seq<Registration>, c: Context, i: nat, w: D.World)
    requires i < |impls| && CtxAt(impls, c, i).Some?
    requires impls[i].fallback && impls[i].fn == StackHook(D.Body, w)
    requires w.script != [] && WritesSealed(w.script[0].play.ops)
    ensures RunSequential(Without(impls, i), c) == RunSequential(impls, c)
  {
    OpsThrow(w.script[0].play.ops, CtxAt(impls, c, i).value);
    assert DegradedAt(impls, c, i);
    ErasingDegraded(impls, c, i);
  }

  // ----- Injections as writers -----

  /** Every field resolves, and a callable gives the same value whatever stands under the keys of ws. What
      the fields before it have injected it may read. */
  ghost predicate FieldsIgnore(fields: seq<(string, D.Source)>, c: Context, ws: set<string>)
    decreases |fields|
  {
    fields == [] ||
    var v := D.Resolve(fields[0].1, c);
    && v.Got?
    && (forall m | AgreesOutside(m, c.metadata, ws) :: D.Resolve(fields[0].1, c.(metadata := m)) == v)
    && FieldsIgnore(fields[1..], Enrich(c, fields[0].0, v.value), ws)
  }

  /** What an injection that resolves adds to the metadata of c. */
  function InjectedMap(fields: seq<(string, D.Source)>, c: Context): map<string, Value>
    decreases |fields|
  {
    if fields == [] then map[]
    else match D.Resolve(fields[0].1, c)
      case Threw(_) => map[]
      case Got(v) => map[fields[0].0 := v] + InjectedMap(fields[1..], Enrich(c, fields[0].0, v))
  }

  /** What a body adds that only enriches. */
  function EnrichedMap(ops: seq<Op>): map<string, Value> {
    if ops == [] then map[]
    else (if ops[0].Enriching? then map[ops[0].key := ops[0].value] else map[]) + EnrichedMap(ops[1..])
  }

  lemma AddOne(m: map<string, Value>, k: string, v: Value, rest: map<string, Value>)
    ensures m[k := v] + rest == m + (map[k := v] + rest)
  {
  }

  lemma SetBoth(m: map<string, Value>, n: map<string, Value>, ws: set<string>, k: string, v: Value)
    requires AgreesOutside(m, n, ws)
    ensures AgreesOutside(m[k := v], n[k := v], ws)
  {
    forall key | key !in ws
      ensures key in m[k := v] <==> key in n[k := v]
      ensures key in m[k := v] ==> m[k := v][key] == n[k := v][key]
    {
      assert key in m - ws <==> key in n - ws;
      assert key in m ==> (m - ws)[key] == (n - ws)[key];
    }
  }

  /** On every context that differs under ws only, the injection adds what it adds to c. */
  lemma {:induction false} InjectionAdds(fields: seq<(string, D.Source)>, c: Context, ws: set<string>,
                                         m: map<string, Value>)
    requires FieldsIgnore(fields, c, ws) && AgreesOutside(m, c.metadata, ws)
    ensures D.InjectAll(fields, c.(metadata := m)) == Got(c.(metadata := m + InjectedMap(fields, c)))
    decreases |fields|
  {
    if fields == [] {
      assert m + map[] == m;
    } else {
      var k, v := fields[0].0, D.Resolve(fields[0].1, c).value;
      var c1, m1 := Enrich(c, k, v), m[k := v];
      assert D.Resolve(fields[0].1, c.(metadata := m)) == Got(v);
      SetBoth(m, c.metadata, ws, k, v);
      InjectionAdds(fields[1..], c1, ws, m1);
      AddOne(m, k, v, InjectedMap(fields[1..], c1));
      assert Enrich(c.(metadata := m), k, v) == c1.(metadata := m1);
    }
  }

  lemma {:induction false} EnrichingAdds(ops: seq<Op>, c: Context)
    requires forall i | 0 <= i < |ops| :: ops[i].Enriching?
    ensures ApplyAll(ops, c) == Got(c.(metadata := c.metadata + EnrichedMap(ops)))
  {
    if ops == [] {
      assert c.metadata + map[] == c.metadata;
    } else {
      EnrichingAdds(ops[1..], Enrich(c, ops[0].key, ops[0].value));
      AddOne(c.metadata, ops[0].key, ops[0].value, EnrichedMap(ops[1..]));
    }
  }

  lemma EnrichingBody(w: D.World, c: Context)
    requires w.script != [] && w.script[0].play.ending == D.Returns
    requires forall i | 0 <= i < |w.script[0].play.ops| :: w.script[0].play.ops[i].Enriching?
    ensures D.Exec(D.Body, c, w).0 == D.Done(c.(metadata := c.metadata + EnrichedMap(w.script[0].play.ops)))
  {
    EnrichingAdds(w.script[0].play.ops, c);
  }

  lemma InjectedReply(fields: seq<(string, D.Source)>, w: D.World, c: Context, added: map<string, Value>,
                      body: map<string, Value>)
    requires D.InjectAll(fields, c) == Got(c.(metadata := c.metadata + added))
    requires var c' := c.(metadata := c.metadata + added);
             D.Exec(D.Body, c', w).0 == D.Done(c'.(metadata := c'.metadata + body))
    ensures StackHook(D.Inject(fields, D.Body), w)(c).outcome == Ok(c.(metadata := c.metadata + (added + body)))
  {
    assert D.Exec(D.Inject(fields, D.Body), c, w) == D.Exec(D.Body, c.(metadata := c.metadata + added), w);
    assert c.metadata + added + body == c.metadata + (added + body);
  }

  /** An `@inject` of literals, or of callables that do not read what the other hooks write, around a body
      that enriches and returns, is a hook of the kind for which parallel and sequential runs are compared. */
  lemma InjectionsWrite(reg: Registration, fields: seq<(string, D.Source)>, w: D.World, c: Context, ws: set<string>)
    requires reg.fn == StackHook(D.Inject(fields, D.Body), w) && FieldsIgnore(fields, c, ws)
    requires w.script != [] && w.script[0].play.ending == D.Returns
    requires forall i | 0 <= i < |w.script[0].play.ops| :: w.script[0].play.ops[i].Enriching?
    ensures Writes(reg, c, ws, Some(InjectedMap(fields, c) + EnrichedMap(w.script[0].play.ops)))
  {
    var delta := InjectedMap(fields, c) + EnrichedMap(w.script[0].play.ops);
    forall m | AgreesOutside(m, c.metadata, ws)
      ensures reg.fn(c.(metadata := m)).outcome == Ok(c.(metadata := m + delta))
    {
      InjectionAdds(fields, c, ws, m);
      EnrichingBody(w, c.(metadata := m + InjectedMap(fields, c)));
      InjectedReply(fields, w, c.(metadata := m), InjectedMap(fields, c), EnrichedMap(w.script[0].play.ops));
    }
  }

  lemma {:induction false} LiteralsIgnore(fields: seq<(string, D.Source)>, c: Context, ws: set<string>)
    requires forall i | 0 <= i < |fields| :: fields[i].1.Literal?
    ensures FieldsIgnore(fields, c, ws)
    decreases |fields|
  {
    if fields == [] {
    } else {
      LiteralsIgnore(fields[1..], Enrich(c, fields[0].0, fields[0].1.value), ws);
    }
  }

  // ----- Sealed fields -----

  ghost predicate KeepsSealed(reg: Registration) {
    forall c :: reg.fn(c).outcome.Ok? ==> SameSealed(c, reg.fn(c).outcome.ctx)
  }

  ghost predicate AllKeepSealed(impls: seq<Registration>) {
    forall i | 0 <= i < |impls| :: KeepsSealed(impls[i])
  }

  lemma StacksKeepSealed(reg: Registration, d: D.Deco, w: D.World)
    requires reg.fn == StackHook(d, w)
    ensures KeepsSealed(reg)
  {
    forall c | reg.fn(c).outcome.Ok? ensures SameSealed(c, reg.fn(c).outcome.ctx) {
      D.ExecKeeps(d, c, w);
    }
  }

  lemma {:induction false} SealedAlongRun(impls: seq<Registration>, c: Context, i: nat)
    requires i <= |impls| && AllKeepSealed(impls) && CtxAt(impls, c, i).Some?
    ensures SameSealed(c, CtxAt(impls, c, i).value)
    decreases i
  {
    if i == 0 {
    } else {
      assert KeepsSealed(impls[0]);
      SealedAlongRun(impls[1..], Step(impls[0], c).ctx, i - 1);
    }
  }

  lemma {:induction false} SequentialKeepsSealed(impls: seq<Registration>, c: Context)
    requires AllKeepSealed(impls) && RunSequential(impls, c).Finished?
    ensures SameSealed(c, RunSequential(impls, c).ctx)
    decreases |impls|
  {
    if impls == [] {
    } else if Step(impls[0], c).Returned? {
      assert KeepsSealed(impls[0]);
      SequentialKeepsSealed(impls[1..], Step(impls[0], c).ctx);
    }
  }

  /** One hookpoint run: what it is declared and the hooks it dispatches. */
  datatype Stage = Stage(name: string, parallel: bool, impls: seq<Registration>)

  function RunStages(stages: seq<Stage>, c: Context): RunResult
    decreases |stages|
  {
    if stages == [] then Finished(c)
    else match RunHookpoint(stages[0].parallel, stages[0].impls, c)
      case Escaped(e) => Escaped(e)
      case Finished(c') => RunStages(stages[1..], c')
  }

  /** Hookpoint runs compose: the later ones go on from what the earlier ones returned, and an exception ends
      them all. */
  lemma {:induction false} StagesCompose(a: seq<Stage>, b: seq<Stage>, c: Context)
    ensures RunStages(a + b, c) ==
            if RunStages(a, c).Finished? then RunStages(b, RunStages(a, c).ctx) else RunStages(a, c)
    ensures |a| == 1 ==> RunStages(a, c) == RunHookpoint(a[0].parallel, a[0].impls, c)
    decreases |a|
  {
    if a == [] {
      assert a + b == b;
    } else {
      assert (a + b)[0] == a[0] && (a + b)[1..] == a[1..] + b;
      var r := RunHookpoint(a[0].parallel, a[0].impls, c);
      if r.Finished? {
        StagesCompose(a[1..], b, r.ctx);
      }
    }
  }

  /** Over every sequence of hookpoint runs the six sealed fields stay what they were. Hooks of sequential
      runs are decorator stacks, or anything else that keeps them; in a parallel run hooks may return
      whatever they like. */
  lemma {:induction false} SealedForever(stages: seq<Stage>, c: Context)
    requires forall s | s in stages :: GoesParallel(s.parallel, s.impls) || AllKeepSealed(s.impls)
    requires RunStages(stages, c).Finished?
    ensures SameSealed(c, RunStages(stages, c).ctx)
    decreases |stages|
  {
    if stages == [] {
    } else {
      var s := stages[0];
      if s.impls != [] && !GoesParallel(s.parallel, s.impls) {
        SequentialKeepsSealed(s.impls, c);
      }
      SealedForever(stages[1..], RunHookpoint(s.parallel, s.impls, c).ctx);
    }
  }

  /** However late a hook is reached in a dispatched chain, it sees the tenant it was registered for. */
  lemma LateHooksSeeTheirTenant(tables: seq<seq<Registration>>, c: Context, i: nat)
    requires i < |Dispatch(tables, c)| && AllKeepSealed(Dispatch(tables, c))
    requires CtxAt(Dispatch(tables, c), c, i).Some?
    ensures var reg := Dispatch(tables, c)[i];
            "tenant" in reg.filter ==> CtxAt(Dispatch(tables, c), c, i).value.Attr("tenant_id") == reg.filter["tenant"]
  {
    var impls := Dispatch(tables, c);
    DispatchedMatch(tables, c, impls[i]);
    SealedAlongRun(impls, c, i);
    assert "tenant_id" in SEALED_FIELDS;
    if "tenant" in impls[i].filter {
      assert Actual("tenant", c) == impls[i].filter["tenant"];
    }
  }

  // ----- Redaction -----

  ghost predicate KeepsRedacted(reg: Registration) {
    forall c :: reg.fn(c).outcome.Ok? ==> KeepsRedactions(c, reg.fn(c).outcome.ctx)
  }

  ghost predicate AllKeepRedacted(impls: seq<Registration>) {
    forall i | 0 <= i < |impls| :: KeepsRedacted(impls[i])
  }

  lemma OrdinaryStacksKeepRedacted(reg: Registration, d: D.Deco, w: D.World)
    requires reg.fn == StackHook(d, w) && D.OrdinaryDeco(d) && D.OrdinaryScript(w.script)
    ensures KeepsRedacted(reg)
  {
    forall c | reg.fn(c).outcome.Ok? ensures KeepsRedactions(c, reg.fn(c).outcome.ctx) {
      D.ExecKeeps(d, c, w);
    }
  }

  lemma {:induction false} SequentialKeepsRedacted(hook: string, impls: seq<Registration>, c: Context)
    requires AllKeepRedacted(impls)
    ensures RunSequential(impls, c).Finished? ==> KeepsRedactions(c, RunSequential(impls, c).ctx)
    ensures forall e | e in SequentialLog(hook, impls, c) :: KeepsRedactions(c, e.input)
    decreases |impls|
  {
    if impls == [] {
    } else {
      assert KeepsRedacted(impls[0]);
      match Step(impls[0], c)
      case Raised(_) =>
      case Returned(c', _) =>
        SequentialKeepsRedacted(hook, impls[1..], c');
        forall e | e in SequentialLog(hook, impls, c) ensures KeepsRedactions(c, e.input) {
          assert e == Record(hook, impls[0], c) || e in SequentialLog(hook, impls[1..], c');
        }
    }
  }

  /** The redaction list after a parallel run is that of the last ok hook whose result has one. So what
      was redacted on entry stays redacted, but a redaction added by an earlier hook survives exactly if
      the last of them has it too. */
  lemma ParallelRedactions(impls: seq<Registration>, c: Context, name: string)
    ensures forall i: nat | LastCarrier(impls, c, i, REDACTED_KEY) ::
              IsRedacted(RunParallel(impls, c), name) <==> IsRedacted(Step(impls[i], c).ctx, name)
    ensures (forall i: nat :: !LastCarrier(impls, c, i, REDACTED_KEY)) ==>
              (IsRedacted(RunParallel(impls, c), name) <==> IsRedacted(c, name))
  {
    MergedValue(c.metadata, impls, c, REDACTED_KEY);
  }

  /** A name that hook i of a batch redacts is redacted after it exactly if the last ok result that carries a
      redaction list redacts it. */
  lemma BatchRedactionSurvives(impls: seq<Registration>, c: Context, i: nat, name: string)
    requires i < |impls| && Step(impls[i], c).Returned? && Step(impls[i], c).status == StOk
    requires IsRedacted(Step(impls[i], c).ctx, name)
    ensures IsRedacted(RunParallel(impls, c), name) <==>
            exists last: nat :: LastCarrier(impls, c, last, REDACTED_KEY) && IsRedacted(Step(impls[last], c).ctx, name)
  {
    assert Carries(impls, c, i, REDACTED_KEY);
    var last := SomeLastCarrier(impls, c, i, REDACTED_KEY);
    ParallelRedactions(impls, c, name);
  }

  function KeyHider(): Registration {
    Registration("hide", Multi, map[], 1, true, false, (c: Context) =>
      match Redact(Enrich(c, "api_key", Text("secret")), ["api_key"])
      case Threw(_) => Reply(Error, 0.0)
      case Got(c') => Reply(Ok(c'), 0.0))
  }

  function Returner(): Registration {
    Registration("return", Multi, map[], 2, true, false, (c: Context) => Reply(Ok(c), 0.0))
  }

  /** What the first hook returns, and what is left of it after the batch. */
  function Hidden(): map<string, Value> {
    map[REDACTED_KEY := Items([Text("api_key")]), "api_key" := Text("secret")]
  }

  function Shown(): map<string, Value> {
    map[REDACTED_KEY := Items([]), "api_key" := Text("secret")]
  }

  lemma HiderHides(c: Context)
    requires c.metadata == map[REDACTED_KEY := Items([])]
    ensures Step(KeyHider(), c) == Returned(c.(metadata := Hidden()), StOk)
  {
    var added := seq(|["api_key"]|, i requires 0 <= i < |["api_key"]| => Text(["api_key"][i]));
    assert [] + added == [Text("api_key")];
    assert c.metadata["api_key" := Text("secret")][REDACTED_KEY := Items([Text("api_key")])] == Hidden();
  }

  lemma ReturnerReturns(c: Context)
    ensures Step(Returner(), c) == Returned(c, StOk)
  {
  }

  lemma OldListComesBack(m: map<string, Value>)
    requires m == map[REDACTED_KEY := Items([])]
    ensures m + Hidden() + m == Shown()
  {
  }

  lemma HiderThenReturner(c: Context)
    requires c.metadata == map[REDACTED_KEY := Items([])]
    ensures RunSequential([KeyHider(), Returner()], c) == Finished(c.(metadata := Hidden()))
    ensures RunParallel([KeyHider(), Returner()], c) == c.(metadata := Shown())
  {
    var hidden := c.(metadata := Hidden());
    HiderHides(c);
    ReturnerReturns(c);
    ReturnerReturns(hidden);
    TwoOkHooks(KeyHider(), Returner(), c, hidden, hidden, c);
    OldListComesBack(c.metadata);
  }

  lemma ShownNext(e: Execution)
    requires e.status != StSkip && e.input.metadata == Shown()
    ensures |LinesFor([e])| == 1 && LinesFor([e])[0].metadata == Some(map["api_key" := Text("secret")])
  {
    A.LinesSnoc([], e);
    assert [] + [e] == [e];
    assert (set x | x in RedactedList(Shown()).value) == {};
    assert "__" <= REDACTED_KEY;
    assert "api_key"[0] != '_';
    var safe := A.SafeMetadata(Shown(), {});
    assert safe == map["api_key" := Text("secret")];
    assert "api_key" in safe;
  }

  lemma OnlyHiddenIsRedacted(c: Context)
    ensures IsRedacted(c.(metadata := Hidden()), "api_key") && !IsRedacted(c.(metadata := Shown()), "api_key")
  {
    assert RedactedList(Hidden()) == Some([Text("api_key")]);
    assert RedactedList(Shown()) == Some([]);
    assert [Text("api_key")][0] == Text("api_key");
  }

  /** One hook adds a key and redacts it, another returns its input with an empty redaction list: in
      sequence the key stays hidden, in parallel it does not. */
  lemma BatchLosesRedaction(c: Context)
    requires c.metadata == map[REDACTED_KEY := Items([])]
    ensures var sequential := RunSequential([KeyHider(), Returner()], c);
            sequential.Finished? && IsRedacted(sequential.ctx, "api_key")
    ensures !IsRedacted(RunParallel([KeyHider(), Returner()], c), "api_key")
  {
    HiderThenReturner(c);
    OnlyHiddenIsRedacted(c);
  }

  /** Then the audit line of whatever runs next, and is not a skip, shows it. */
  lemma BatchLeaks(c: Context, hook: string, next: Registration)
    requires c.metadata == map[REDACTED_KEY := Items([])]
    ensures var e := Record(hook, next, RunParallel([KeyHider(), Returner()], c));
            e.status != StSkip ==>
              |LinesFor([e])| == 1 && LinesFor([e])[0].metadata == Some(map["api_key" := Text("secret")])
  {
    var e := Record(hook, next, c.(metadata := Shown()));
    HiderThenReturner(c);
    if e.status != StSkip {
      ShownNext(e);
    }
  }

  lemma ParallelKeepsRedacted(impls: seq<Registration>, c: Context)
    requires AllKeepRedacted(impls)
    ensures KeepsRedactions(c, RunParallel(impls, c))
  {
    forall name | IsRedacted(c, name) ensures IsRedacted(RunParallel(impls, c), name) {
      ParallelRedactions(impls, c, name);
      if i: nat :| LastCarrier(impls, c, i, REDACTED_KEY) {
        assert KeepsRedacted(impls[i]);
        assert impls[i].fn(c).outcome.Ok?;
      }
    }
  }

  lemma KeepsTransitive(a: Context, b: Context, c: Context)
    requires KeepsRedactions(a, b) && KeepsRedactions(b, c)
    ensures KeepsRedactions(a, c)
  {
  }

  /** What one hookpoint run records; a parallel batch finishes in any order. */
  ghost predicate StageRecords(s: Stage, c: Context, log: seq<Execution>) {
    if s.impls != [] && GoesParallel(s.parallel, s.impls) then
      exists order :: Permutation(order, |s.impls|) && log == ParallelLog(s.name, s.impls, c, order)
    else log == SequentialLog(s.name, s.impls, c)
  }

  /** What a sequence of hookpoint runs records. */
  ghost predicate StagesRecord(stages: seq<Stage>, c: Context, log: seq<Execution>)
    decreases |stages|
  {
    if stages == [] then log == []
    else
      exists n: nat :: n <= |log| && StageRecords(stages[0], c, log[..n]) &&
        match RunHookpoint(stages[0].parallel, stages[0].impls, c)
        case Escaped(_) => log[n..] == []
        case Finished(c') => StagesRecord(stages[1..], c', log[n..])
  }

  ghost predicate InputsKeep(c: Context, log: seq<Execution>) {
    forall i | 0 <= i < |log| :: KeepsRedactions(c, log[i].input)
  }

  lemma StageKeepsRedacted(s: Stage, c: Context, log: seq<Execution>)
    requires AllKeepRedacted(s.impls) && StageRecords(s, c, log)
    ensures InputsKeep(c, log)
    ensures RunHookpoint(s.parallel, s.impls, c).Finished? ==>
              KeepsRedactions(c, RunHookpoint(s.parallel, s.impls, c).ctx)
  {
    SequentialKeepsRedacted(s.name, s.impls, c);
    ParallelKeepsRedacted(s.impls, c);
    forall i | 0 <= i < |log| ensures KeepsRedactions(c, log[i].input) {
      assert log[i] in log;
    }
  }

  /** Over every sequence of hookpoint runs, sequential or parallel in any completion order, whose hooks only
      enrich ordinary keys, redact, or replace fields: what is redacted on entry is redacted at the end and
      in the input of every execution on the way. */
  lemma {:induction false} RedactionPersists(stages: seq<Stage>, c: Context, log: seq<Execution>)
    requires forall s | s in stages :: AllKeepRedacted(s.impls)
    requires StagesRecord(stages, c, log)
    ensures RunStages(stages, c).Finished? ==> KeepsRedactions(c, RunStages(stages, c).ctx)
    ensures InputsKeep(c, log)
    decreases |stages|
  {
    if stages == [] {
    } else {
      var s := stages[0];
      var r := RunHookpoint(s.parallel, s.impls, c);
      var n: nat :| n <= |log| && StageRecords(s, c, log[..n]) &&
        match r
        case Escaped(_) => log[n..] == []
        case Finished(c') => StagesRecord(stages[1..], c', log[n..]);
      StageKeepsRedacted(s, c, log[..n]);
      if r.Finished? {
        RedactionPersists(stages[1..], r.ctx, log[n..]);
      }
      InputsAppend(c, if r.Finished? then r.ctx else c, log, n);
    }
  }

  lemma InputsAppend(c: Context, c': Context, log: seq<Execution>, n: nat)
    requires n <= |log| && InputsKeep(c, log[..n]) && InputsKeep(c', log[n..])
    requires log[n..] != [] ==> KeepsRedactions(c, c')
    ensures InputsKeep(c, log)
  {
    forall i | 0 <= i < |log| ensures KeepsRedactions(c, log[i].input) {
      if i < n {
        assert log[..n][i] == log[i];
      } else {
        assert log[n..][i - n] == log[i];
        KeepsTransitive(c, c', log[i].input);
      }
    }
  }

  // ----- The audit trail -----

  /** A line never shows the value of a key that is redacted in c, nor any internal key. */
  ghost predicate Hides(c: Context, line: A.Line) {
    line.metadata.Some? ==>
      forall key | key in line.metadata.value ::
        !A.Internal(key) && (IsRedacted(c, key) ==> line.metadata.value[key] == A.REDACTED_TEXT)
  }

  lemma LineHides(c: Context, e: Execution)
    requires KeepsRedactions(c, e.input) && A.LineOf(e).Some?
    ensures Hides(c, A.LineOf(e).value)
  {
    var line := A.LineOf(e).value;
    if line.metadata.Some? {
      forall key | key in line.metadata.value
        ensures !A.Internal(key) && (IsRedacted(c, key) ==> line.metadata.value[key] == A.REDACTED_TEXT)
      {
        A.LineHidesRedacted(e, key);
      }
    }
  }

  function LinesFor(log: seq<Execution>): seq<A.Line> {
    A.LinesOf(A.ScheduledOf(log))
  }

  /** The lines that the executions of a log add to those already there all hide what its inputs redact. */
  lemma {:induction false} NewLinesHide(c: Context, earlier: seq<Execution>, log: seq<Execution>)
    requires InputsKeep(c, log)
    ensures LinesFor(earlier) <= LinesFor(earlier + log)
    ensures forall i | |LinesFor(earlier)| <= i < |LinesFor(earlier + log)| :: Hides(c, LinesFor(earlier + log)[i])
    decreases |log|
  {
    if log == [] {
      assert earlier + log == earlier;
    } else {
      var n := |log| - 1;
      var before, e := log[..n], log[n];
      assert earlier + log == (earlier + before) + [e];
      NewLinesHide(c, earlier, before);
      A.LinesSnoc(earlier + before, e);
      A.LineExactly(e);
      if A.LineOf(e).Some? {
        LineHides(c, e);
      }
    }
  }

  /** After such a sequence of runs, every line that it added to the audit trail of a valid engine hides what
      was redacted on entry. */
  lemma TrailHidesRedacted(engine: E.Engine, earlier: seq<Execution>, stages: seq<Stage>, c: Context,
                           log: seq<Execution>)
    requires engine.Valid() && engine.log == earlier + log
    requires (forall s | s in stages :: AllKeepRedacted(s.impls)) && StagesRecord(stages, c, log)
    ensures LinesFor(earlier) <= engine.audit.lines
    ensures forall i | |LinesFor(earlier)| <= i < |engine.audit.lines| :: Hides(c, engine.audit.lines[i])
  {
    RedactionPersists(stages, c, log);
    NewLinesHide(c, earlier, log);
  }

  // ----- Completion order -----

  lemma {:induction false} DistinctMultiset(order: seq<nat>)
    requires E.Distinct(order)
    ensures multiset(order) == multiset(E.Elements(order))
  {
    if order == [] {
    } else {
      var n := |order| - 1;
      DistinctMultiset(order[..n]);
      assert order == order[..n] + [order[n]];
      assert E.Elements(order) == E.Elements(order[..n]) + {order[n]};
      assert order[n] !in order[..n];
    }
  }

  function Remove<T>(s: seq<T>, j: nat): seq<T>
    requires j < |s|
  {
    s[..j] + s[j + 1..]
  }

  lemma RemoveFrom<T>(s: seq<T>, j: nat)
    requires j < |s|
    ensures multiset(s) == multiset{s[j]} + multiset(Remove(s, j))
  {
    assert s == s[..j] + [s[j]] + s[j + 1..];
  }

  /** Rearranged sequences are still rearranged after taking the same element out of both. */
  lemma FindHead<T>(a: seq<T>, b: seq<T>) returns (j: nat)
    requires a != [] && multiset(a) == multiset(b)
    ensures j < |b| && b[j] == a[0] && multiset(Remove(a, 0)) == multiset(Remove(b, j))
  {
    assert a[0] in multiset(b);
    j :| 0 <= j < |b| && b[j] == a[0];
    RemoveFrom(a, 0);
    RemoveFrom(b, j);
    assert multiset(Remove(a, 0)) == multiset(a) - multiset{a[0]};
    assert multiset(Remove(b, j)) == multiset(b) - multiset{b[j]};
  }

  lemma NoneLeft<T>(b: seq<T>)
    requires multiset([]) == multiset(b)
    ensures b == []
  {
    assert |multiset(b)| == 0;
  }

  lemma LogRemove(hook: string, impls: seq<Registration>, c: Context, a: seq<nat>, j: nat)
    requires j < |a| && Within(a, |impls|)
    ensures Within(Remove(a, j), |impls|)
    ensures multiset(ParallelLog(hook, impls, c, a)) ==
            multiset{Record(hook, impls[a[j]], c)} + multiset(ParallelLog(hook, impls, c, Remove(a, j)))
  {
    var log := ParallelLog(hook, impls, c, a);
    assert ParallelLog(hook, impls, c, Remove(a, j)) == Remove(log, j);
    RemoveFrom(log, j);
  }

  lemma {:induction false} LogMultiset(hook: string, impls: seq<Registration>, c: Context, a: seq<nat>, b: seq<nat>)
    requires Within(a, |impls|) && Within(b, |impls|)
    requires multiset(a) == multiset(b)
    ensures multiset(ParallelLog(hook, impls, c, a)) == multiset(ParallelLog(hook, impls, c, b))
    decreases |a|
  {
    if a == [] {
      NoneLeft(b);
    } else {
      var j := FindHead(a, b);
      LogRemove(hook, impls, c, a, 0);
      LogRemove(hook, impls, c, b, j);
      LogMultiset(hook, impls, c, Remove(a, 0), Remove(b, j));
    }
  }

  /** Whatever order parallel hooks finish in, the same executions are recorded. */
  lemma CompletionOrderKeepsLog(hook: string, impls: seq<Registration>, c: Context, p: seq<nat>, q: seq<nat>)
    requires Permutation(p, |impls|) && Permutation(q, |impls|)
    ensures multiset(ParallelLog(hook, impls, c, p)) == multiset(ParallelLog(hook, impls, c, q))
  {
    DistinctMultiset(p);
    DistinctMultiset(q);
    assert E.Elements(p) == E.Elements(q) by {
      E.PermutationCovers(p, |impls|);
      E.PermutationCovers(q, |impls|);
    }
    LogMultiset(hook, impls, c, p, q);
  }

  lemma {:induction false} CountAppend(a: seq<Execution>, b: seq<Execution>, key: M.KeyFn, p: M.Attrs -> bool)
    ensures M.CountWhere(a + b, key, p) == M.CountWhere(a, key, p) + M.CountWhere(b, key, p)
  {
    if b == [] {
      assert a + b == a;
    } else {
      var n := |b| - 1;
      assert (a + b)[..|a + b| - 1] == a + b[..n];
      CountAppend(a, b[..n], key, p);
    }
  }

  lemma CountMiddle(before: seq<Execution>, e: Execution, after: seq<Execution>, key: M.KeyFn, p: M.Attrs -> bool)
    ensures M.CountWhere(before + ([e] + after), key, p) ==
            M.CountWhere(before + after, key, p) + M.CountWhere([e], key, p)
  {
    CountAppend(before, [e] + after, key, p);
    CountAppend([e], after, key, p);
    CountAppend(before, after, key, p);
  }

  lemma Split<T>(s: seq<T>, j: nat) returns (before: seq<T>, after: seq<T>)
    requires j < |s|
    ensures s == before + ([s[j]] + after) && Remove(s, j) == before + after
  {
    before, after := s[..j], s[j + 1..];
  }

  lemma {:induction false} CountIgnoresOrder(a: seq<Execution>, b: seq<Execution>, key: M.KeyFn, p: M.Attrs -> bool)
    requires multiset(a) == multiset(b)
    ensures M.CountWhere(a, key, p) == M.CountWhere(b, key, p)
    decreases |a|
  {
    if a == [] {
      NoneLeft(b);
    } else {
      var j := FindHead(a, b);
      CountIgnoresOrder(Remove(a, 0), Remove(b, j), key, p);
      var a1, a2 := Split(a, 0);
      var b1, b2 := Split(b, j);
      CountMiddle(a1, a[0], a2, key, p);
      CountMiddle(b1, b[j], b2, key, p);
    }
  }

  lemma DurationsRemove(b: seq<Execution>, j: nat)
    requires j < |b|
    ensures multiset(M.Durations(b)) == multiset{b[j].ms} + multiset(M.Durations(Remove(b, j)))
  {
    assert M.Durations(Remove(b, j)) == Remove(M.Durations(b), j);
    RemoveFrom(M.Durations(b), j);
  }

  lemma {:induction false} DurationsIgnoreOrder(a: seq<Execution>, b: seq<Execution>)
    requires multiset(a) == multiset(b)
    ensures multiset(M.Durations(a)) == multiset(M.Durations(b))
    decreases |a|
  {
    if a == [] {
      NoneLeft(b);
    } else {
      var j := FindHead(a, b);
      DurationsRemove(a, 0);
      DurationsRemove(b, j);
      DurationsIgnoreOrder(Remove(a, 0), Remove(b, j));
    }
  }

  /** Every counter value and the 95th percentile come out the same for every completion order, whatever
      was recorded before and after. */
  lemma AccountsIgnoreCompletionOrder(log: seq<Execution>, later: seq<Execution>, hook: string,
                                      impls: seq<Registration>, c: Context, p: seq<nat>, q: seq<nat>,
                                      key: M.KeyFn, a: M.Attrs)
    requires Permutation(p, |impls|) && Permutation(q, |impls|)
    ensures var lp := log + ParallelLog(hook, impls, c, p) + later;
            var lq := log + ParallelLog(hook, impls, c, q) + later;
            && M.At(M.CountsOf(lp, key), a) == M.At(M.CountsOf(lq, key), a)
            && M.P95(M.Durations(lp)) == M.P95(M.Durations(lq))
  {
    var lp := log + ParallelLog(hook, impls, c, p) + later;
    var lq := log + ParallelLog(hook, impls, c, q) + later;
    CompletionOrderKeepsLog(hook, impls, c, p, q);
    assert multiset(lp) == multiset(lq);
    var at := (x: M.Attrs) => x == a;
    M.CounterAtKey(lp, key, a);
    M.CounterAtKey(lq, key, a);
    CountIgnoresOrder(lp, lq, key, at);
    DurationsIgnoreOrder(lp, lq);
    M.P95IgnoresOrder(M.Durations(lp), M.Durations(lq));
  }
}
