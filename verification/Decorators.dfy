/** The decorator stack of patterns.py, as a language with a semantics over a clock, the limiters' state
    and an environment. An environment step describes one `await`: how late it returns, what every other
    coroutine meanwhile did to the limiters, and, for a hook body, what the body did. So a claim for all
    scripts is a claim for all bodies and all interleavings. */
module Decorators {
  import opened Prelude
  import opened Contexts
  import RL = RateLimiter

  /** A literal or a callable of the context, which may raise. */
  datatype Source = Literal(value: Value) | Computed(f: Context -> Attempt<Value>)

  datatype Deco =
    | Body
    | Inject(fields: seq<(string, Source)>, inner: Deco)
    | BlockIf(condition: Context -> Attempt<bool>, inner: Deco)
    | Redacted(names: seq<string>, inner: Deco)
    | RateLimit(id: nat, cfg: RL.Config, perTenant: bool, blocking: bool, inner: Deco)
    | RequireTenant(allowed: set<string>, inner: Deco)
    | Retry(maxAttempts: int, backoffMs: int, inner: Deco)

  /** How a body ends after its context operations. */
  datatype Ending = Returns | Raises(exc: Exc)

  datatype Play = Play(ops: seq<Op>, ending: Ending)

  type Store = map<nat, RL.Windows>

  datatype EnvStep = EnvStep(clock: real, store: Store, play: Play)

  /** `naps` records, in ms, every delay handed to `asyncio.sleep`; `bodies` counts body runs. */
  datatype World = World(clock: real, store: Store, script: seq<EnvStep>, naps: seq<int>, bodies: nat)

  /** `Cancelled`: an await never returned within the executor's budget. */
  datatype Result = Done(ctx: Context) | Raised(exc: Exc) | Cancelled

  function MaxReal(a: real, b: real): real {
    if a < b then b else a
  }

  function PlayOn(play: Play, c: Context): Result {
    match ApplyAll(play.ops, c)
    case Threw(e) => Raised(e)
    case Got(c') => match play.ending
      case Returns => Done(c')
      case Raises(e) => Raised(e)
  }

  /** One await that returns no earlier than `until`. */
  function Await(w: World, until: real): World
    requires w.script != []
  {
    w.(clock := MaxReal(w.script[0].clock, until), store := w.script[0].store, script := w.script[1..])
  }

  function Pow2(n: nat): nat {
    if n == 0 then 1 else 2 * Pow2(n - 1)
  }

  /** `backoff_ms * 2 ** (attempt - 1)`; `sleep` returns at once for a delay that is not positive. */
  function DelayMs(backoffMs: int, attempt: nat): int
    requires attempt >= 1
  {
    backoffMs * Pow2(attempt - 1)
  }

  function Seconds(ms: int): real {
    if ms <= 0 then 0.0 else ms as real / 1000.0
  }

  function Sleep(w: World, ms: int): World
    requires w.script != []
  {
    Await(w, w.clock + Seconds(ms)).(naps := w.naps + [ms])
  }

  /** HookBlocked and HookSkip propagate; every other exception is retried. */
  predicate Retryable(r: Result) {
    r.Raised? && r.exc != HookBlocked && r.exc != HookSkip
  }

  function InjectAll(fields: seq<(string, Source)>, c: Context): Attempt<Context> {
    if fields == [] then Got(c)
    else
      var resolved := Resolve(fields[0].1, c);
      match resolved
      case Threw(e) => Threw(e)
      case Got(v) => InjectAll(fields[1..], Enrich(c, fields[0].0, v))
  }

  function Resolve(source: Source, c: Context): Attempt<Value> {
    match source
    case Literal(v) => Got(v)
    case Computed(f) => f(c)
  }

  function LimiterStep(id: nat, cfg: RL.Config, call: RL.Call, store: Store): (Store, bool) {
    var (windows, admitted) := RL.Step(cfg, if id in store then store[id] else map[], call);
    (store[id := windows], admitted)
  }

  predicate Allows(allowed: set<string>, c: Context) {
    c.Attr("tenant_id").Text? && c.Attr("tenant_id").s in allowed
  }

  function Exec(d: Deco, c: Context, w: World): (Result, World)
    decreases d, 0
  {
    match d
    case Body =>
      if w.script == [] then (Cancelled, w)
      else (PlayOn(w.script[0].play, c), Await(w, w.clock).(bodies := w.bodies + 1))
    case Inject(fields, inner) => (
      match InjectAll(fields, c)
      case Threw(e) => (Raised(e), w)
      case Got(c') => Exec(inner, c', w))
    case BlockIf(condition, inner) => (
      match condition(c)
      case Threw(e) => (Raised(e), w)
      case Got(blocked) => if blocked then (Raised(HookBlocked), w) else Exec(inner, c, w))
    case Redacted(names, inner) => (
      match Redact(c, names)
      case Threw(e) => (Raised(e), w)
      case Got(c') => Exec(inner, c', w))
    case RateLimit(id, cfg, perTenant, blocking, inner) =>
      var (store, admitted) := LimiterStep(id, cfg, RL.Call(RL.KeyOf(perTenant, c), w.clock), w.store);
      var w' := w.(store := store);
      if admitted then Exec(inner, c, w')
      else if blocking then (Raised(HookBlocked), w')
      else (Done(c), w')
    case RequireTenant(allowed, inner) =>
      if Allows(allowed, c) then Exec(inner, c, w) else (Raised(HookBlocked), w)
    case Retry(maxAttempts, backoffMs, inner) =>
      ExecRetry(maxAttempts, backoffMs, inner, c, w, 1)
  }

  /** The retry loop from a given attempt on. With no attempt allowed, `raise last_exc` raises a
      TypeError, since `last_exc` is still None. */
  function ExecRetry(maxAttempts: int, backoffMs: int, inner: Deco, c: Context, w: World, attempt: nat): (Result, World)
    requires attempt >= 1
    decreases inner, if maxAttempts < attempt then 1 else maxAttempts - attempt + 2
  {
    if attempt > maxAttempts then (Raised(OtherError), w)
    else
      var (r, w') := Exec(inner, c, w);
      if Retryable(r) && attempt < maxAttempts then
        if w'.script == [] then (Cancelled, w')
        else ExecRetry(maxAttempts, backoffMs, inner, c, Sleep(w', DelayMs(backoffMs, attempt)), attempt + 1)
      else (r, w')
  }

  // ----- What each wrapper does -----

  /** A body that is awaited runs once, on what it is given, and ends as its operations and its ending say. */
  lemma BodyPlays(c: Context, w: World)
    requires w.script != []
    ensures var (r, w') := Exec(Body, c, w);
            var play := w.script[0].play;
            && w'.bodies == w.bodies + 1 && w'.naps == w.naps && w'.script == w.script[1..]
            && w'.store == w.script[0].store
            && w'.clock == (if w.clock < w.script[0].clock then w.script[0].clock else w.clock)
            && (ApplyAll(play.ops, c).Threw? ==> r == Raised(ApplyAll(play.ops, c).exc))
            && (ApplyAll(play.ops, c).Got? && play.ending == Returns ==> r == Done(ApplyAll(play.ops, c).value))
            && (forall e | ApplyAll(play.ops, c).Got? && play.ending == Raises(e) :: r == Raised(e))
  {
  }

  /** One injected field: a literal as it is, a callable called with the current context, whose exception
      ends the call before the body. */
  lemma InjectsOne(key: string, source: Source, inner: Deco, c: Context, w: World)
    ensures var d := Inject([(key, source)], inner);
            && (source.Literal? ==> Exec(d, c, w) == Exec(inner, Enrich(c, key, source.value), w))
            && (source.Computed? && source.f(c).Got? ==>
                  Exec(d, c, w) == Exec(inner, Enrich(c, key, source.f(c).value), w))
            && (source.Computed? && source.f(c).Threw? ==> Exec(d, c, w) == (Raised(source.f(c).exc), w))
    ensures Exec(Inject([], inner), c, w) == Exec(inner, c, w)
  {
    var fields := [(key, source)];
    assert fields[1..] == [];
    if Resolve(source, c).Got? {
      var c' := Enrich(c, key, Resolve(source, c).value);
      assert InjectAll(fields, c) == InjectAll([], c') == Got(c');
    }
  }

  /** A true condition blocks before the body, a false one lets the call through, and one that raises raises. */
  lemma BlockIfDecides(condition: Context -> Attempt<bool>, inner: Deco, c: Context, w: World)
    ensures condition(c) == Got(true) ==> Exec(BlockIf(condition, inner), c, w) == (Raised(HookBlocked), w)
    ensures condition(c) == Got(false) ==> Exec(BlockIf(condition, inner), c, w) == Exec(inner, c, w)
    ensures forall e | condition(c) == Threw(e) :: Exec(BlockIf(condition, inner), c, w) == (Raised(e), w)
  {
  }

  /** The names are on the redaction list when the body runs; it does not run if the list cannot be read. */
  lemma RedactsFirst(names: seq<string>, inner: Deco, c: Context, w: World)
    ensures RedactedList(c.metadata).None? ==> Exec(Redacted(names, inner), c, w) == (Raised(OtherError), w)
    ensures RedactedList(c.metadata).Some? ==>
              exists c' ::
                && Exec(Redacted(names, inner), c, w) == Exec(inner, c', w)
                && c'.attrs == c.attrs
                && forall name :: IsRedacted(c', name) <==> IsRedacted(c, name) || name in names
  {
    RedactMarks(c, names);
    if RedactedList(c.metadata).Some? {
      var c' := Redact(c, names).value;
      assert Exec(Redacted(names, inner), c, w) == Exec(inner, c', w);
    }
  }

  /** The limiter keeps the timestamps less than a window old. With `limit` of them or more the body does not
      run, and the call blocks or hands back its context; else its own timestamp is added and the body runs. */
  lemma RateLimitDecides(id: nat, cfg: RL.Config, perTenant: bool, blocking: bool, inner: Deco, c: Context, w: World)
    ensures var windows := if id in w.store then w.store[id] else map[];
            var key := if perTenant && c.Attr("tenant_id") !in {Null, Text("")} then c.Attr("tenant_id")
                       else c.Attr("session_id");
            var live := RL.Live(if key in windows then windows[key] else [], w.clock, cfg.window);
            Exec(RateLimit(id, cfg, perTenant, blocking, inner), c, w) ==
            if |live| >= cfg.limit then
              (if blocking then Raised(HookBlocked) else Done(c), w.(store := w.store[id := windows[key := live]]))
            else Exec(inner, c, w.(store := w.store[id := windows[key := live + [w.clock]]]))
  {
  }

  lemma RequireTenantDecides(allowed: set<string>, inner: Deco, c: Context, w: World)
    ensures (exists t :: t in allowed && c.Attr("tenant_id") == Text(t)) ==>
              Exec(RequireTenant(allowed, inner), c, w) == Exec(inner, c, w)
    ensures (forall t | t in allowed :: c.Attr("tenant_id") != Text(t)) ==>
              Exec(RequireTenant(allowed, inner), c, w) == (Raised(HookBlocked), w)
  {
  }

  /** One turn of the loop at a given attempt: a result, a block and a skip end it at once, as a budget that
      ran out does. Any other exception ends it at the last attempt; before that the loop sleeps, for
      backoff * 2^(attempt - 1) ms or not at all if that is negative, and makes one more attempt on the same
      context. */
  lemma RetryTurns(maxAttempts: int, backoffMs: int, inner: Deco, c: Context, w: World, attempt: nat)
    returns (woken: World)
    requires 1 <= attempt <= maxAttempts
    ensures var (r, w') := Exec(inner, c, w);
            var loop := ExecRetry(maxAttempts, backoffMs, inner, c, w, attempt);
            if r.Done? || r == Cancelled || r == Raised(HookBlocked) || r == Raised(HookSkip) then loop == (r, w')
            else if attempt == maxAttempts then loop == (r, w')
            else if w'.script == [] then loop == (Cancelled, w')
            else
              && loop == ExecRetry(maxAttempts, backoffMs, inner, c, woken, attempt + 1)
              && SleptMs(w', woken, backoffMs * Pow2(attempt - 1))
  {
    var w' := Exec(inner, c, w).1;
    woken := if w'.script == [] then w' else Sleep(w', DelayMs(backoffMs, attempt));
  }

  /** `after` is `before` after one sleep of so many ms, which returns when that time is over or, if the
      environment takes longer, when it does. */
  ghost predicate SleptMs(before: World, after: World, ms: int) {
    before.script != [] &&
    var due := before.clock + (if ms > 0 then ms as real * 0.001 else 0.0);
    && after.clock == (if due < before.script[0].clock then before.script[0].clock else due)
    && after.store == before.script[0].store && after.script == before.script[1..]
    && after.naps == before.naps + [ms] && after.bodies == before.bodies
  }

  // ----- What every stack keeps -----

  ghost predicate OrdinaryDeco(d: Deco) {
    match d
    case Body => true
    case Inject(fields, inner) => (forall f | f in fields :: f.0 != REDACTED_KEY) && OrdinaryDeco(inner)
    case BlockIf(_, inner) => OrdinaryDeco(inner)
    case Redacted(_, inner) => OrdinaryDeco(inner)
    case RateLimit(_, _, _, _, inner) => OrdinaryDeco(inner)
    case RequireTenant(_, inner) => OrdinaryDeco(inner)
    case Retry(_, _, inner) => OrdinaryDeco(inner)
  }

  ghost predicate OrdinaryScript(script: seq<EnvStep>) {
    forall e, op | e in script && op in e.play.ops :: Ordinary(op)
  }

  lemma {:induction false} InjectKeeps(fields: seq<(string, Source)>, c: Context)
    requires InjectAll(fields, c).Got?
    ensures SameSealed(c, InjectAll(fields, c).value)
    ensures (forall f | f in fields :: f.0 != REDACTED_KEY) ==> KeepsRedactions(c, InjectAll(fields, c).value)
  {
    if fields == [] {
    } else {
      InjectKeeps(fields[1..], Enrich(c, fields[0].0, Resolve(fields[0].1, c).value));
    }
  }

  /** Time goes on, and every environment step still to come was already to come before. */
  ghost predicate Leaves(w: World, w': World) {
    w.clock <= w'.clock && forall e | e in w'.script :: e in w.script
  }

  lemma {:induction false} ExecLeaves(d: Deco, c: Context, w: World)
    ensures Leaves(w, Exec(d, c, w).1)
    decreases d, 0
  {
    match d
    case Body =>
    case Inject(fields, inner) =>
      if InjectAll(fields, c).Got? { ExecLeaves(inner, InjectAll(fields, c).value, w); }
    case BlockIf(_, inner) => ExecLeaves(inner, c, w);
    case Redacted(names, inner) =>
      if Redact(c, names).Got? { ExecLeaves(inner, Redact(c, names).value, w); }
    case RateLimit(id, cfg, perTenant, _, inner) =>
      ExecLeaves(inner, c, w.(store := LimiterStep(id, cfg, RL.Call(RL.KeyOf(perTenant, c), w.clock), w.store).0));
    case RequireTenant(_, inner) => ExecLeaves(inner, c, w);
    case Retry(maxAttempts, backoffMs, inner) => ExecRetryLeaves(maxAttempts, backoffMs, inner, c, w, 1);
  }

  lemma {:induction false} ExecRetryLeaves(maxAttempts: int, backoffMs: int, inner: Deco, c: Context, w: World,
                                           attempt: nat)
    requires attempt >= 1
    ensures Leaves(w, ExecRetry(maxAttempts, backoffMs, inner, c, w, attempt).1)
    decreases inner, if maxAttempts < attempt then 1 else maxAttempts - attempt + 2
  {
    if attempt > maxAttempts {
    } else {
      ExecLeaves(inner, c, w);
      var (r, w') := Exec(inner, c, w);
      if Retryable(r) && attempt < maxAttempts && w'.script != [] {
        ExecRetryLeaves(maxAttempts, backoffMs, inner, c, Sleep(w', DelayMs(backoffMs, attempt)), attempt + 1);
      }
    }
  }

  /** Every decorator stack, over every body built from context operations and in every interleaving,
      returns a context with the sealed fields it was given; if injected keys and body operations are
      ordinary, nothing that was redacted loses its redaction. */
  lemma {:induction false} ExecKeeps(d: Deco, c: Context, w: World)
    requires Exec(d, c, w).0.Done?
    ensures SameSealed(c, Exec(d, c, w).0.ctx)
    ensures OrdinaryDeco(d) && OrdinaryScript(w.script) ==> KeepsRedactions(c, Exec(d, c, w).0.ctx)
    decreases d, 0
  {
    match d
    case Body =>
      ApplyAllKeeps(w.script[0].play.ops, c);
      assert w.script[0] in w.script;
    case Inject(fields, inner) =>
      InjectKeeps(fields, c);
      ExecKeeps(inner, InjectAll(fields, c).value, w);
    case BlockIf(_, inner) => ExecKeeps(inner, c, w);
    case Redacted(names, inner) =>
      RedactMarks(c, names);
      ExecKeeps(inner, Redact(c, names).value, w);
    case RateLimit(id, cfg, perTenant, _, inner) =>
      var (store, admitted) := LimiterStep(id, cfg, RL.Call(RL.KeyOf(perTenant, c), w.clock), w.store);
      if admitted {
        ExecKeeps(inner, c, w.(store := store));
      }
    case RequireTenant(_, inner) => ExecKeeps(inner, c, w);
    case Retry(maxAttempts, backoffMs, inner) => ExecRetryKeeps(maxAttempts, backoffMs, inner, c, w, 1);
  }

  lemma {:induction false} ExecRetryKeeps(maxAttempts: int, backoffMs: int, inner: Deco, c: Context, w: World,
                                          attempt: nat)
    requires attempt >= 1
    requires ExecRetry(maxAttempts, backoffMs, inner, c, w, attempt).0.Done?
    ensures SameSealed(c, ExecRetry(maxAttempts, backoffMs, inner, c, w, attempt).0.ctx)
    ensures OrdinaryDeco(inner) && OrdinaryScript(w.script) ==>
              KeepsRedactions(c, ExecRetry(maxAttempts, backoffMs, inner, c, w, attempt).0.ctx)
    decreases inner, if maxAttempts < attempt then 1 else maxAttempts - attempt + 2
  {
    var (r, w') := Exec(inner, c, w);
    if Retryable(r) && attempt < maxAttempts {
      ExecLeaves(inner, c, w);
      ExecRetryKeeps(maxAttempts, backoffMs, inner, c, Sleep(w', DelayMs(backoffMs, attempt)), attempt + 1);
    } else {
      ExecKeeps(inner, c, w);
    }
  }

  // ----- Bodies that write sealed fields -----

  /** No limiter in the stack lets a refused call return its context. */
  predicate NoPassThrough(d: Deco) {
    match d
    case Body => true
    case Inject(_, inner) => NoPassThrough(inner)
    case BlockIf(_, inner) => NoPassThrough(inner)
    case Redacted(_, inner) => NoPassThrough(inner)
    case RateLimit(_, _, _, blocking, inner) => blocking && NoPassThrough(inner)
    case RequireTenant(_, inner) => NoPassThrough(inner)
    case Retry(_, _, inner) => NoPassThrough(inner)
  }

  ghost predicate AlwaysWritesSealed(script: seq<EnvStep>) {
    forall e | e in script :: WritesSealed(e.play.ops)
  }

  /** A stack around a body that writes a sealed field in every run of it never returns a context, however
      often it is retried and whatever else the body does. */
  lemma {:induction false} SealedWritersNeverReturn(d: Deco, c: Context, w: World)
    requires NoPassThrough(d) && AlwaysWritesSealed(w.script)
    ensures !Exec(d, c, w).0.Done?
    decreases d, 0
  {
    match d
    case Body =>
      if w.script == [] {
      } else {
        assert w.script[0] in w.script;
        OpsThrow(w.script[0].play.ops, c);
      }
    case Inject(fields, inner) =>
      if InjectAll(fields, c).Got? { SealedWritersNeverReturn(inner, InjectAll(fields, c).value, w); }
    case BlockIf(_, inner) => SealedWritersNeverReturn(inner, c, w);
    case Redacted(names, inner) =>
      if Redact(c, names).Got? { SealedWritersNeverReturn(inner, Redact(c, names).value, w); }
    case RateLimit(id, cfg, perTenant, _, inner) =>
      var store := LimiterStep(id, cfg, RL.Call(RL.KeyOf(perTenant, c), w.clock), w.store).0;
      SealedWritersNeverReturn(inner, c, w.(store := store));
    case RequireTenant(_, inner) => SealedWritersNeverReturn(inner, c, w);
    case Retry(maxAttempts, backoffMs, inner) =>
      SealedRetriesNeverReturn(maxAttempts, backoffMs, inner, c, w, 1);
  }

  lemma {:induction false} SealedRetriesNeverReturn(maxAttempts: int, backoffMs: int, inner: Deco, c: Context, w: World,
                                                    attempt: nat)
    requires attempt >= 1 && NoPassThrough(inner) && AlwaysWritesSealed(w.script)
    ensures !ExecRetry(maxAttempts, backoffMs, inner, c, w, attempt).0.Done?
    decreases inner, if maxAttempts < attempt then 1 else maxAttempts - attempt + 2
  {
    if attempt > maxAttempts {
    } else {
      SealedWritersNeverReturn(inner, c, w);
      ExecLeaves(inner, c, w);
      var (r, w') := Exec(inner, c, w);
      if Retryable(r) && attempt < maxAttempts && w'.script != [] {
        var woken := Sleep(w', DelayMs(backoffMs, attempt));
        SealedRetriesNeverReturn(maxAttempts, backoffMs, inner, c, woken, attempt + 1);
      }
    }
  }
}
