/** The retry loop of patterns.py: which attempt decides, how long it sleeps, what the budget allows; and
    the decorator stack as it runs, statement by statement. */
module Retries {
  import opened Prelude
  import opened Contexts
  import opened Decorators
  import RL = RateLimiter

  /** One attempt: its result and the world before and after it. */
  datatype Tried = Tried(result: Result, before: World, after: World)

  /** The k-th attempt, always on the original context; it exists if all earlier ones were retried and
      the sleep before it returned in time. */
  function AttemptAt(inner: Deco, backoffMs: int, c: Context, w: World, k: nat): Option<Tried>
    requires k >= 1
  {
    if k == 1 then
      var (r, after) := Exec(inner, c, w);
      Some(Tried(r, w, after))
    else match AttemptAt(inner, backoffMs, c, w, k - 1)
      case None => None
      case Some(t) =>
        if Retryable(t.result) && t.after.script != [] then
          var before := Sleep(t.after, DelayMs(backoffMs, k - 1));
          var (r, after) := Exec(inner, c, before);
          Some(Tried(r, before, after))
        else None
  }

  ghost predicate Retried(inner: Deco, backoffMs: int, c: Context, w: World, k: nat)
    requires k >= 1
  {
    var t := AttemptAt(inner, backoffMs, c, w, k);
    t.Some? && Retryable(t.value.result)
  }

  /** Attempt n decides the outcome: everything before it was retried, and it either ends the loop with
      its own result or is followed by a sleep that the budget cuts off. */
  ghost predicate Decides(maxAttempts: int, backoffMs: int, inner: Deco, c: Context, w: World,
                          n: nat, r: (Result, World)) {
    && 1 <= n <= maxAttempts
    && (forall k | 1 <= k < n :: Retried(inner, backoffMs, c, w, k))
    && AttemptAt(inner, backoffMs, c, w, n).Some?
    && var t := AttemptAt(inner, backoffMs, c, w, n).value;
       if Retryable(t.result) && n < maxAttempts then t.after.script == [] && r == (Cancelled, t.after)
       else r == (t.result, t.after)
  }

  /** One turn of the loop at attempt n. */
  lemma OneTurn(maxAttempts: int, backoffMs: int, inner: Deco, c: Context, w: World, n: nat, t: Tried)
    requires 1 <= n <= maxAttempts && AttemptAt(inner, backoffMs, c, w, n) == Some(t)
    ensures Retryable(t.result) && n < maxAttempts && t.after.script != [] ==>
              var next := AttemptAt(inner, backoffMs, c, w, n + 1);
              && next.Some?
              && ExecRetry(maxAttempts, backoffMs, inner, c, t.before, n) ==
                 ExecRetry(maxAttempts, backoffMs, inner, c, next.value.before, n + 1)
    ensures Retryable(t.result) && n < maxAttempts && t.after.script == [] ==>
              ExecRetry(maxAttempts, backoffMs, inner, c, t.before, n) == (Cancelled, t.after)
    ensures !Retryable(t.result) || n == maxAttempts ==>
              ExecRetry(maxAttempts, backoffMs, inner, c, t.before, n) == (t.result, t.after)
  {
    assert (t.result, t.after) == Exec(inner, c, t.before);
  }

  lemma {:induction false} LoopDecides(maxAttempts: int, backoffMs: int, inner: Deco, c: Context, w: World,
                                       n: nat) returns (m: nat)
    requires 1 <= n <= maxAttempts
    requires forall k | 1 <= k < n :: Retried(inner, backoffMs, c, w, k)
    requires AttemptAt(inner, backoffMs, c, w, n).Some?
    ensures Decides(maxAttempts, backoffMs, inner, c, w, m,
              ExecRetry(maxAttempts, backoffMs, inner, c, AttemptAt(inner, backoffMs, c, w, n).value.before, n))
    decreases maxAttempts - n
  {
    var t := AttemptAt(inner, backoffMs, c, w, n).value;
    OneTurn(maxAttempts, backoffMs, inner, c, w, n, t);
    if Retryable(t.result) && n < maxAttempts && t.after.script != [] {
      assert Retried(inner, backoffMs, c, w, n);
      m := LoopDecides(maxAttempts, backoffMs, inner, c, w, n + 1);
    } else {
      m := n;
    }
  }

  /** Retrying gives the result of the first attempt that is not retried, on the original context, or of
      the last one allowed; with none allowed it raises without running the body. */
  lemma RetryExact(maxAttempts: int, backoffMs: int, inner: Deco, c: Context, w: World)
    ensures maxAttempts >= 1 ==>
              exists n ::
                Decides(maxAttempts, backoffMs, inner, c, w, n, Exec(Retry(maxAttempts, backoffMs, inner), c, w))
    ensures maxAttempts < 1 ==> Exec(Retry(maxAttempts, backoffMs, inner), c, w) == (Raised(OtherError), w)
  {
    if maxAttempts >= 1 {
      var n := LoopDecides(maxAttempts, backoffMs, inner, c, w, 1);
      assert AttemptAt(inner, backoffMs, c, w, 1).value.before == w;
      assert Exec(Retry(maxAttempts, backoffMs, inner), c, w) == ExecRetry(maxAttempts, backoffMs, inner, c, w, 1);
    }
  }

  /** So a result, a block and a skip of the first attempt are those of the whole stack, after that one
      attempt. */
  lemma FirstAttemptMayDecide(maxAttempts: int, backoffMs: int, inner: Deco, c: Context, w: World)
    requires maxAttempts >= 1
    ensures Exec(inner, c, w).0 in {Raised(HookBlocked), Raised(HookSkip), Cancelled} || Exec(inner, c, w).0.Done? ==>
              Exec(Retry(maxAttempts, backoffMs, inner), c, w) == Exec(inner, c, w)
  {
    var _ := RetryTurns(maxAttempts, backoffMs, inner, c, w, 1);
  }

  // ----- How many bodies -----

  /** The most body runs that one call of a stack can cause: nested retries multiply. */
  function BodyBound(d: Deco): nat {
    match d
    case Body => 1
    case Inject(_, inner) => BodyBound(inner)
    case BlockIf(_, inner) => BodyBound(inner)
    case Redacted(_, inner) => BodyBound(inner)
    case RateLimit(_, _, _, _, inner) => BodyBound(inner)
    case RequireTenant(_, inner) => BodyBound(inner)
    case Retry(maxAttempts, _, inner) => RL.Max0(maxAttempts) * BodyBound(inner)
  }

  /** Every stack, nested retries included, runs at most that many bodies. */
  lemma {:induction false} ExecBodies(d: Deco, c: Context, w: World)
    ensures w.bodies <= Exec(d, c, w).1.bodies <= w.bodies + BodyBound(d)
    decreases d, 0
  {
    match d
    case Body =>
    case Inject(fields, inner) =>
      if InjectAll(fields, c).Got? { ExecBodies(inner, InjectAll(fields, c).value, w); }
    case BlockIf(_, inner) => ExecBodies(inner, c, w);
    case Redacted(names, inner) =>
      if Redact(c, names).Got? { ExecBodies(inner, Redact(c, names).value, w); }
    case RateLimit(id, cfg, perTenant, _, inner) =>
      ExecBodies(inner, c, w.(store := LimiterStep(id, cfg, RL.Call(RL.KeyOf(perTenant, c), w.clock), w.store).0));
    case RequireTenant(_, inner) => ExecBodies(inner, c, w);
    case Retry(maxAttempts, backoffMs, inner) => ExecRetryBodies(maxAttempts, backoffMs, inner, c, w, 1);
  }

  lemma {:induction false} ExecRetryBodies(maxAttempts: int, backoffMs: int, inner: Deco, c: Context, w: World,
                                           attempt: nat)
    requires attempt >= 1
    ensures w.bodies <= ExecRetry(maxAttempts, backoffMs, inner, c, w, attempt).1.bodies
    ensures ExecRetry(maxAttempts, backoffMs, inner, c, w, attempt).1.bodies
            <= w.bodies + RL.Max0(maxAttempts - attempt + 1) * BodyBound(inner)
    decreases inner, if maxAttempts < attempt then 1 else maxAttempts - attempt + 2
  {
    if attempt > maxAttempts {
    } else {
      OneMore(RL.Max0(maxAttempts - attempt), BodyBound(inner));
      ExecBodies(inner, c, w);
      var (r, w') := Exec(inner, c, w);
      if Retryable(r) && attempt < maxAttempts && w'.script != [] {
        ExecRetryBodies(maxAttempts, backoffMs, inner, c, Sleep(w', DelayMs(backoffMs, attempt)), attempt + 1);
      }
    }
  }

  lemma OneMore(n: nat, bound: nat)
    ensures (n + 1) * bound == n * bound + bound
    ensures n * bound >= 0
  {
  }

  /** Nothing but loops, each with at least one attempt, around the body. */
  predicate OnlyLoops(d: Deco) {
    d.Body? || (d.Retry? && d.maxAttempts >= 1 && OnlyLoops(d.inner))
  }

  /** How often such a stack awaits something when every body fails: bodies, and sleeps between attempts. */
  function Awaits(d: Deco): nat
    requires OnlyLoops(d)
  {
    if d.Body? then 1 else AwaitsOf(d.maxAttempts, Awaits(d.inner))
  }

  function AwaitsOf(attempts: nat, each: nat): nat {
    if attempts == 0 then 0 else if attempts == 1 then each else each + 1 + AwaitsOf(attempts - 1, each)
  }

  ghost predicate AlwaysFails(script: seq<EnvStep>) {
    forall i | 0 <= i < |script| :: script[i].play == Play([], Raises(OtherError))
  }

  ghost predicate FailsThrough(w: World, r: (Result, World), awaits: nat, bodies: nat) {
    && r.0 == Raised(OtherError) && r.1.bodies == w.bodies + bodies
    && awaits <= |w.script| && r.1.script == w.script[awaits..]
  }

  /** Where every body fails, nested loops run exactly as many bodies as their bound says. */
  lemma {:induction false} BoundIsReached(d: Deco, c: Context, w: World)
    requires OnlyLoops(d) && AlwaysFails(w.script) && |w.script| >= Awaits(d)
    ensures FailsThrough(w, Exec(d, c, w), Awaits(d), BodyBound(d))
    decreases d, 0
  {
    if d.Body? {
    } else {
      LoopReachesBound(d.maxAttempts, d.backoffMs, d.inner, c, w, 1);
    }
  }

  lemma FailsOnAfterSleep(w: World, failed: (Result, World), ms: int, last: (Result, World), each: nat, bodies: nat,
                          awaits: nat, more: nat)
    requires FailsThrough(w, failed, each, bodies) && each < |w.script|
    requires failed.1.script != [] && FailsThrough(Sleep(failed.1, ms), last, awaits, more)
    ensures FailsThrough(w, last, each + 1 + awaits, bodies + more)
  {
    assert w.script[each..][1..] == w.script[each + 1..];
    assert w.script[each + 1..][awaits..] == w.script[each + 1 + awaits..];
  }

  lemma {:induction false} LoopReachesBound(maxAttempts: nat, backoffMs: int, inner: Deco, c: Context, w: World,
                                            attempt: nat)
    requires 1 <= attempt <= maxAttempts && OnlyLoops(inner) && AlwaysFails(w.script)
    requires |w.script| >= AwaitsOf(maxAttempts - attempt + 1, Awaits(inner))
    ensures FailsThrough(w, ExecRetry(maxAttempts, backoffMs, inner, c, w, attempt),
                         AwaitsOf(maxAttempts - attempt + 1, Awaits(inner)),
                         (maxAttempts - attempt + 1) * BodyBound(inner))
    decreases inner, maxAttempts - attempt + 1
  {
    var each, bound, left := Awaits(inner), BodyBound(inner), maxAttempts - attempt;
    BoundIsReached(inner, c, w);
    OneMore(left, bound);
    if left == 0 {
    } else {
      var failed := Exec(inner, c, w);
      var woken := Sleep(failed.1, DelayMs(backoffMs, attempt));
      assert woken.script == w.script[each + 1..];
      LoopReachesBound(maxAttempts, backoffMs, inner, c, woken, attempt + 1);
      var last := ExecRetry(maxAttempts, backoffMs, inner, c, woken, attempt + 1);
      FailsOnAfterSleep(w, failed, DelayMs(backoffMs, attempt), last, each, bound, AwaitsOf(left, each), left * bound);
    }
  }

  // ----- How long it takes -----

  predicate RetryFree(d: Deco) {
    match d
    case Body => true
    case Inject(_, inner) => RetryFree(inner)
    case BlockIf(_, inner) => RetryFree(inner)
    case Redacted(_, inner) => RetryFree(inner)
    case RateLimit(_, _, _, _, inner) => RetryFree(inner)
    case RequireTenant(_, inner) => RetryFree(inner)
    case Retry(_, _, _) => false
  }

  /** A stack without retry sleeps not at all and runs at most one body. */
  lemma {:induction false} RetryFreeRuns(d: Deco, c: Context, w: World)
    requires RetryFree(d)
    ensures Exec(d, c, w).1.naps == w.naps
    ensures BodyBound(d) == 1
  {
    match d
    case Body =>
    case Inject(fields, inner) =>
      RetryFreeRuns(inner, if InjectAll(fields, c).Got? then InjectAll(fields, c).value else c, w);
    case BlockIf(_, inner) => RetryFreeRuns(inner, c, w);
    case Redacted(names, inner) =>
      RetryFreeRuns(inner, if Redact(c, names).Got? then Redact(c, names).value else c, w);
    case RateLimit(id, cfg, perTenant, _, inner) =>
      RetryFreeRuns(inner, c, w.(store := LimiterStep(id, cfg, RL.Call(RL.KeyOf(perTenant, c), w.clock), w.store).0));
    case RequireTenant(_, inner) => RetryFreeRuns(inner, c, w);
  }

  function Naps(backoffMs: int, n: nat): seq<int> {
    if n == 0 then [] else Naps(backoffMs, n - 1) + [DelayMs(backoffMs, n)]
  }

  function Sum(xs: seq<int>): int {
    if xs == [] then 0 else Sum(xs[..|xs| - 1]) + xs[|xs| - 1]
  }

  lemma BackoffGrows(backoffMs: int, n: nat)
    ensures backoffMs * (Pow2(n + 1) - 1) == backoffMs * (Pow2(n) - 1) + DelayMs(backoffMs, n + 1)
  {
    var p: int := Pow2(n);
    assert backoffMs * (2 * p - 1) == backoffMs * (p - 1) + backoffMs * p;
  }

  /** The delays of n retries add up to a closed form. */
  lemma {:induction false} NapsAddUp(backoffMs: int, n: nat)
    ensures Sum(Naps(backoffMs, n)) == backoffMs * (Pow2(n) - 1)
  {
    if n == 0 {
    } else {
      NapsAddUp(backoffMs, n - 1);
      BackoffGrows(backoffMs, n - 1);
      assert Naps(backoffMs, n)[..n - 1] == Naps(backoffMs, n - 1) by { NapsCount(backoffMs, n - 1); }
      NapsCount(backoffMs, n);
    }
  }

  lemma {:induction false} NapsCount(backoffMs: int, n: nat)
    ensures |Naps(backoffMs, n)| == n
  {
    if n == 0 {
    } else {
      NapsCount(backoffMs, n - 1);
    }
  }

  /** What an attempt does to its world, and how it begins where the one before it left off. */
  lemma AttemptEffect(inner: Deco, backoffMs: int, c: Context, w: World, k: nat, t: Tried)
    requires k >= 1 && AttemptAt(inner, backoffMs, c, w, k) == Some(t)
    ensures t.before.clock <= t.after.clock
    ensures t.before.bodies <= t.after.bodies <= t.before.bodies + BodyBound(inner)
    ensures RetryFree(inner) ==> t.after.naps == t.before.naps && BodyBound(inner) == 1
    ensures k == 1 ==> t.before == w
  {
    assert (t.result, t.after) == Exec(inner, c, t.before);
    ExecLeaves(inner, c, t.before);
    ExecBodies(inner, c, t.before);
    if RetryFree(inner) {
      RetryFreeRuns(inner, c, t.before);
    }
  }

  lemma AttemptFollows(inner: Deco, backoffMs: int, c: Context, w: World, k: nat, t: Tried) returns (prev: Tried)
    requires k > 1 && AttemptAt(inner, backoffMs, c, w, k) == Some(t)
    ensures AttemptAt(inner, backoffMs, c, w, k - 1) == Some(prev)
    ensures t.before.naps == prev.after.naps + [DelayMs(backoffMs, k - 1)]
    ensures t.before.bodies == prev.after.bodies
    ensures t.before.clock >= prev.after.clock + Seconds(DelayMs(backoffMs, k - 1))
  {
    prev := AttemptAt(inner, backoffMs, c, w, k - 1).value;
    assert t.before == Sleep(prev.after, DelayMs(backoffMs, k - 1));
  }

  lemma AttemptIsLater(inner: Deco, backoffMs: int, c: Context, w: World, k: nat, t: Tried) returns (prev: Tried)
    requires k > 1 && AttemptAt(inner, backoffMs, c, w, k) == Some(t)
    ensures AttemptAt(inner, backoffMs, c, w, k - 1) == Some(prev)
    ensures t.before.clock >= prev.before.clock + Seconds(DelayMs(backoffMs, k - 1))
  {
    prev := AttemptFollows(inner, backoffMs, c, w, k, t);
    AttemptEffect(inner, backoffMs, c, w, k - 1, prev);
  }

  lemma SumSnoc(xs: seq<int>, x: int)
    ensures Sum(xs + [x]) == Sum(xs) + x
  {
    assert (xs + [x])[..|xs|] == xs;
  }

  /** What the inner stack itself slept, through retries of its own, in the attempts 1 to k. */
  function InnerSleep(inner: Deco, backoffMs: int, c: Context, w: World, k: nat): int {
    if k == 0 then 0
    else
      InnerSleep(inner, backoffMs, c, w, k - 1) +
      match AttemptAt(inner, backoffMs, c, w, k)
      case None => 0
      case Some(t) => Sum(t.after.naps) - Sum(t.before.naps)
  }

  /** At most k - 1 times the inner stack's bound of bodies have run before attempt k. */
  lemma {:induction false} AttemptBodies(inner: Deco, backoffMs: int, c: Context, w: World, k: nat, t: Tried)
    requires k >= 1 && AttemptAt(inner, backoffMs, c, w, k) == Some(t)
    ensures t.before.bodies <= w.bodies + (k - 1) * BodyBound(inner)
    ensures t.after.bodies <= w.bodies + k * BodyBound(inner)
  {
    OneMore(k - 1, BodyBound(inner));
    AttemptEffect(inner, backoffMs, c, w, k, t);
    if k == 1 {
    } else {
      var prev := AttemptFollows(inner, backoffMs, c, w, k, t);
      AttemptBodies(inner, backoffMs, c, w, k - 1, prev);
    }
  }

  /** What is slept before attempt k, and by its end, over and above what was slept before the loop. */
  function SleptBefore(inner: Deco, backoffMs: int, c: Context, w: World, k: nat): int
    requires k >= 1
  {
    backoffMs * (Pow2(k - 1) - 1) + InnerSleep(inner, backoffMs, c, w, k - 1)
  }

  function SleptAfter(inner: Deco, backoffMs: int, c: Context, w: World, k: nat): int
    requires k >= 1
  {
    backoffMs * (Pow2(k - 1) - 1) + InnerSleep(inner, backoffMs, c, w, k)
  }

  lemma SleepsBetween(inner: Deco, backoffMs: int, c: Context, w: World, k: nat)
    requires k > 1
    ensures SleptBefore(inner, backoffMs, c, w, k) ==
            SleptAfter(inner, backoffMs, c, w, k - 1) + DelayMs(backoffMs, k - 1)
  {
    BackoffGrows(backoffMs, k - 2);
  }

  lemma SleepsDuring(inner: Deco, backoffMs: int, c: Context, w: World, k: nat, t: Tried)
    requires k >= 1 && AttemptAt(inner, backoffMs, c, w, k) == Some(t)
    ensures SleptAfter(inner, backoffMs, c, w, k) ==
            SleptBefore(inner, backoffMs, c, w, k) + Sum(t.after.naps) - Sum(t.before.naps)
  {
  }

  /** Before attempt k this loop has slept k - 1 times, backoff * (2^(k-1) - 1) ms in all, besides what the
      inner stack slept itself. */
  lemma {:induction false} AttemptSleeps(inner: Deco, backoffMs: int, c: Context, w: World, k: nat, t: Tried)
    requires k >= 1 && AttemptAt(inner, backoffMs, c, w, k) == Some(t)
    ensures Sum(t.before.naps) == Sum(w.naps) + SleptBefore(inner, backoffMs, c, w, k)
    ensures Sum(t.after.naps) == Sum(w.naps) + SleptAfter(inner, backoffMs, c, w, k)
  {
    SleepsDuring(inner, backoffMs, c, w, k, t);
    if k == 1 {
      AttemptEffect(inner, backoffMs, c, w, k, t);
      assert InnerSleep(inner, backoffMs, c, w, 0) == 0 && Pow2(0) == 1;
    } else {
      var prev := AttemptFollows(inner, backoffMs, c, w, k, t);
      AttemptSleeps(inner, backoffMs, c, w, k - 1, prev);
      SleepsBetween(inner, backoffMs, c, w, k);
      SumSnoc(prev.after.naps, DelayMs(backoffMs, k - 1));
    }
  }

  lemma NapsSnoc(naps: seq<int>, backoffMs: int, n: nat)
    ensures naps + Naps(backoffMs, n) + [DelayMs(backoffMs, n + 1)] == naps + Naps(backoffMs, n + 1)
  {
  }

  /** Over a retry-free inner stack these k - 1 sleeps are the only ones. */
  lemma {:induction false} RetryFreeSleeps(inner: Deco, backoffMs: int, c: Context, w: World, k: nat, t: Tried)
    requires k >= 1 && RetryFree(inner) && AttemptAt(inner, backoffMs, c, w, k) == Some(t)
    ensures t.before.naps == t.after.naps == w.naps + Naps(backoffMs, k - 1)
  {
    AttemptEffect(inner, backoffMs, c, w, k, t);
    if k == 1 {
      assert w.naps + [] == w.naps;
    } else {
      var prev := AttemptFollows(inner, backoffMs, c, w, k, t);
      RetryFreeSleeps(inner, backoffMs, c, w, k - 1, prev);
      NapsSnoc(w.naps, backoffMs, k - 2);
    }
  }

  lemma SecondsAdd(a: int, b: int)
    requires (a >= 0 && b >= 0) || (a <= 0 && b <= 0)
    ensures Seconds(a) + Seconds(b) == Seconds(a + b)
  {
  }

  lemma SameSign(backoffMs: int, n: nat)
    ensures Pow2(n) >= 1
    ensures backoffMs >= 0 ==> backoffMs * (Pow2(n) - 1) >= 0 && DelayMs(backoffMs, n + 1) >= 0
    ensures backoffMs <= 0 ==> backoffMs * (Pow2(n) - 1) <= 0 && DelayMs(backoffMs, n + 1) <= 0
  {
    if n == 0 {
    } else {
      SameSign(backoffMs, n - 1);
    }
  }

  /** The earliest start of attempt k, sleep by sleep. */
  function EarliestStart(start: real, backoffMs: int, k: nat): real
    requires k >= 1
  {
    if k == 1 then start else EarliestStart(start, backoffMs, k - 1) + Seconds(DelayMs(backoffMs, k - 1))
  }

  lemma {:induction false} EarliestStartClosed(start: real, backoffMs: int, k: nat)
    requires k >= 1
    ensures EarliestStart(start, backoffMs, k) == start + Seconds(backoffMs * (Pow2(k - 1) - 1))
  {
    if k == 1 {
      assert Pow2(0) == 1;
    } else {
      EarliestStartClosed(start, backoffMs, k - 1);
      BackoffGrows(backoffMs, k - 2);
      SameSign(backoffMs, k - 2);
      SecondsAdd(backoffMs * (Pow2(k - 2) - 1), DelayMs(backoffMs, k - 1));
    }
  }

  lemma {:induction false} NeverBeforeEarliest(inner: Deco, backoffMs: int, c: Context, w: World, k: nat, t: Tried)
    requires k >= 1 && AttemptAt(inner, backoffMs, c, w, k) == Some(t)
    ensures t.before.clock >= EarliestStart(w.clock, backoffMs, k)
  {
    if k == 1 {
      AttemptEffect(inner, backoffMs, c, w, k, t);
    } else {
      var prev := AttemptIsLater(inner, backoffMs, c, w, k, t);
      NeverBeforeEarliest(inner, backoffMs, c, w, k - 1, prev);
    }
  }

  /** Attempt k cannot start before all its sleeps are over, whatever the inner stack is. */
  lemma AttemptStartsLate(inner: Deco, backoffMs: int, c: Context, w: World, k: nat, t: Tried)
    requires k >= 1 && AttemptAt(inner, backoffMs, c, w, k) == Some(t)
    ensures t.before.clock >= w.clock + Seconds(backoffMs * (Pow2(k - 1) - 1))
  {
    NeverBeforeEarliest(inner, backoffMs, c, w, k, t);
    EarliestStartClosed(w.clock, backoffMs, k);
  }

  /** An attempt started within the executor's budget obeys the closed bound. */
  lemma BudgetBoundsAttempts(inner: Deco, backoffMs: int, c: Context, w: World, k: nat, timeoutMs: nat, t: Tried)
    requires k >= 1 && AttemptAt(inner, backoffMs, c, w, k) == Some(t)
    requires t.before.clock <= w.clock + Seconds(timeoutMs)
    ensures backoffMs * (Pow2(k - 1) - 1) <= timeoutMs
  {
    AttemptStartsLate(inner, backoffMs, c, w, k, t);
  }

  /** The whole loop over any stack, with n the attempt that decides it: n - 1 sleeps of its own, of known
      total, besides those of the inner stack, and at most n times the inner stack's bound of bodies. */
  lemma RetryTotals(maxAttempts: int, backoffMs: int, inner: Deco, c: Context, w: World, n: nat, r: (Result, World))
    requires Decides(maxAttempts, backoffMs, inner, c, w, n, r)
    ensures Sum(r.1.naps) == Sum(w.naps) + backoffMs * (Pow2(n - 1) - 1) + InnerSleep(inner, backoffMs, c, w, n)
    ensures r.1.bodies <= w.bodies + n * BodyBound(inner)
  {
    var t := AttemptAt(inner, backoffMs, c, w, n).value;
    AttemptSleeps(inner, backoffMs, c, w, n, t);
    AttemptBodies(inner, backoffMs, c, w, n, t);
  }

  /** Over a retry-free stack: exactly these n - 1 sleeps, and at most n bodies. */
  lemma RetryFreeTotals(maxAttempts: int, backoffMs: int, inner: Deco, c: Context, w: World, n: nat, r: (Result, World))
    requires Decides(maxAttempts, backoffMs, inner, c, w, n, r) && RetryFree(inner)
    ensures r.1.naps == w.naps + Naps(backoffMs, n - 1)
    ensures Sum(Naps(backoffMs, n - 1)) == backoffMs * (Pow2(n - 1) - 1)
    ensures r.1.bodies <= w.bodies + n <= w.bodies + maxAttempts
  {
    var t := AttemptAt(inner, backoffMs, c, w, n).value;
    RetryFreeSleeps(inner, backoffMs, c, w, n, t);
    AttemptBodies(inner, backoffMs, c, w, n, t);
    AttemptEffect(inner, backoffMs, c, w, n, t);
    NapsAddUp(backoffMs, n - 1);
  }

  // ----- Laws of stacking -----

  lemma {:induction false} TenantInsideRetry(maxAttempts: int, backoffMs: int, allowed: set<string>, inner: Deco,
                                             c: Context, w: World, attempt: nat)
    requires attempt >= 1 && Allows(allowed, c)
    ensures ExecRetry(maxAttempts, backoffMs, RequireTenant(allowed, inner), c, w, attempt) ==
            ExecRetry(maxAttempts, backoffMs, inner, c, w, attempt)
    decreases maxAttempts - attempt
  {
    if attempt > maxAttempts {
    } else {
      var (r, w') := Exec(inner, c, w);
      assert Exec(RequireTenant(allowed, inner), c, w) == (r, w');
      if Retryable(r) && attempt < maxAttempts && w'.script != [] {
        var woken := Sleep(w', DelayMs(backoffMs, attempt));
        TenantInsideRetry(maxAttempts, backoffMs, allowed, inner, c, woken, attempt + 1);
      }
    }
  }

  /** A tenant check costs the same inside and outside a retry: a foreign tenant is blocked at once, with
      no body run and no sleep, and the right tenant is checked in vain. Only a loop that allows no attempt
      tells the difference, for a foreign tenant: its own failure comes before the check. */
  lemma TenantCheckCommutesWithRetry(maxAttempts: int, backoffMs: int, allowed: set<string>, inner: Deco,
                                     c: Context, w: World)
    ensures Exec(Retry(maxAttempts, backoffMs, RequireTenant(allowed, inner)), c, w) ==
            Exec(RequireTenant(allowed, Retry(maxAttempts, backoffMs, inner)), c, w) <==>
            maxAttempts >= 1 || exists t :: t in allowed && c.Attr("tenant_id") == Text(t)
    ensures maxAttempts >= 1 && (forall t | t in allowed :: c.Attr("tenant_id") != Text(t)) ==>
              Exec(Retry(maxAttempts, backoffMs, RequireTenant(allowed, inner)), c, w) == (Raised(HookBlocked), w)
    ensures forall t | t in allowed :: c.Attr("tenant_id") == Text(t) ==>
              Exec(Retry(maxAttempts, backoffMs, RequireTenant(allowed, inner)), c, w) ==
              Exec(Retry(maxAttempts, backoffMs, inner), c, w)
  {
    if Allows(allowed, c) {
      TenantInsideRetry(maxAttempts, backoffMs, allowed, inner, c, w, 1);
    } else {
      assert Exec(RequireTenant(allowed, inner), c, w) == (Raised(HookBlocked), w);
    }
  }

  lemma {:induction false} InjectAppend(f: seq<(string, Source)>, g: seq<(string, Source)>, c: Context)
    ensures InjectAll(f + g, c) ==
            match InjectAll(f, c)
            case Threw(e) => Threw(e)
            case Got(c') => InjectAll(g, c')
    decreases |f|
  {
    if f == [] {
      assert f + g == g;
    } else {
      assert (f + g)[0] == f[0] && (f + g)[1..] == f[1..] + g;
      var v := Resolve(f[0].1, c);
      if v.Got? {
        InjectAppend(f[1..], g, Enrich(c, f[0].0, v.value));
      }
    }
  }

  /** Stacked injections run from the outside in: they are one injection of both field lists. */
  lemma InjectionsFuse(f: seq<(string, Source)>, g: seq<(string, Source)>, inner: Deco, c: Context, w: World)
    ensures Exec(Inject(f, Inject(g, inner)), c, w) == Exec(Inject(f + g, inner), c, w)
  {
    InjectAppend(f, g, c);
  }

  lemma RedactTwice(m: seq<string>, n: seq<string>, c: Context)
    ensures Redact(c, m + n) ==
            match Redact(c, m)
            case Threw(e) => Threw(e)
            case Got(c') => Redact(c', n)
  {
    match RedactedList(c.metadata)
    case None =>
    case Some(existing) =>
      var c' := Redact(c, m).value;
      var one := seq(|m|, i requires 0 <= i < |m| => Text(m[i]));
      var two := seq(|n|, i requires 0 <= i < |n| => Text(n[i]));
      var both := seq(|m + n|, i requires 0 <= i < |m + n| => Text((m + n)[i]));
      assert both == one + two;
      assert existing + both == existing + one + two;
      assert RedactedList(c'.metadata) == Some(existing + one);
      var xs, ys := Items(existing + one), Items(existing + one + two);
      assert c.metadata[REDACTED_KEY := xs][REDACTED_KEY := ys] == c.metadata[REDACTED_KEY := ys];
  }

  /** So are stacked redactions. */
  lemma RedactionsFuse(m: seq<string>, n: seq<string>, inner: Deco, c: Context, w: World)
    ensures Exec(Redacted(m, Redacted(n, inner)), c, w) == Exec(Redacted(m + n, inner), c, w)
  {
    RedactTwice(m, n, c);
  }

  function FieldKeys(fields: seq<(string, Source)>): set<string>
    decreases |fields|
  {
    if fields == [] then {} else {fields[0].0} + FieldKeys(fields[1..])
  }

  /** A condition gives one answer for all contexts that differ in metadata under the given keys only. */
  ghost predicate Ignores(condition: Context -> Attempt<bool>, keys: set<string>) {
    forall a: Context, b: Context | a.attrs == b.attrs && a.metadata - keys == b.metadata - keys ::
      condition(a) == condition(b)
  }

  /** An injection touches nothing but its own keys. */
  lemma {:induction false} InjectTouches(fields: seq<(string, Source)>, c: Context)
    requires InjectAll(fields, c).Got?
    ensures InjectAll(fields, c).value.attrs == c.attrs
    ensures InjectAll(fields, c).value.metadata - FieldKeys(fields) == c.metadata - FieldKeys(fields)
    decreases |fields|
  {
    if fields == [] {
    } else {
      var c1 := Enrich(c, fields[0].0, Resolve(fields[0].1, c).value);
      var m := InjectAll(fields[1..], c1).value.metadata;
      InjectTouches(fields[1..], c1);
      WithoutMore(m, c1.metadata, FieldKeys(fields[1..]), {fields[0].0});
      assert c1.metadata - FieldKeys(fields) == c.metadata - FieldKeys(fields);
    }
  }

  lemma WithoutMore(m: map<string, Value>, n: map<string, Value>, keys: set<string>, more: set<string>)
    requires m - keys == n - keys
    ensures m - (more + keys) == n - (more + keys)
  {
    assert m - (more + keys) == m - keys - more;
    assert n - (more + keys) == n - keys - more;
  }

  /** A condition that ignores the injected keys may be tested before or after the injection; if it holds,
      nothing runs. */
  lemma BlockCommutesWithInject(fields: seq<(string, Source)>, condition: Context -> Attempt<bool>, inner: Deco,
                                c: Context, w: World)
    requires InjectAll(fields, c).Got? && Ignores(condition, FieldKeys(fields))
    ensures Exec(BlockIf(condition, Inject(fields, inner)), c, w) ==
            Exec(Inject(fields, BlockIf(condition, inner)), c, w)
    ensures condition(c) == Got(true) ==>
              Exec(BlockIf(condition, Inject(fields, inner)), c, w) == (Raised(HookBlocked), w)
  {
    var c' := InjectAll(fields, c).value;
    InjectTouches(fields, c);
    assert condition(c') == condition(c);
    assert Exec(Inject(fields, BlockIf(condition, inner)), c, w) == Exec(BlockIf(condition, inner), c', w);
  }

  // ----- The stack as it runs -----

  /** A coroutine running through a decorator stack. */
  class Runtime {
    var world: World

    constructor (world: World)
      ensures this.world == world
    {
      this.world := world;
    }

    method Run(d: Deco, c: Context) returns (r: Result)
      modifies this
      ensures (r, world) == Exec(d, c, old(world))
      decreases d, 0
    {
      match d
      case Body =>
        if world.script == [] {
          return Cancelled;
        }
        r := PlayOn(world.script[0].play, c);
        world := Await(world, world.clock).(bodies := world.bodies + 1);
      case Inject(fields, inner) =>
        var current := c;
        for i := 0 to |fields|
          invariant world == old(world)
          invariant InjectAll(fields, c) == InjectAll(fields[i..], current)
        {
          var resolved := Resolve(fields[i].1, current);
          match resolved
          case Threw(e) => return Raised(e);
          case Got(v) => current := Enrich(current, fields[i].0, v);
        }
        r := Run(inner, current);
      case BlockIf(condition, inner) =>
        match condition(c) {
          case Threw(e) => return Raised(e);
          case Got(blocked) =>
            if blocked {
              return Raised(HookBlocked);
            }
            r := Run(inner, c);
        }
      case Redacted(names, inner) =>
        match Redact(c, names) {
          case Threw(e) => return Raised(e);
          case Got(c') => r := Run(inner, c');
        }
      case RateLimit(id, cfg, perTenant, blocking, inner) =>
        var had := if id in world.store then world.store[id] else map[];
        var windows, admitted := RL.Admit(cfg, had, RL.KeyOf(perTenant, c), world.clock);
        world := world.(store := world.store[id := windows]);
        if admitted {
          r := Run(inner, c);
        } else {
          r := if blocking then Raised(HookBlocked) else Done(c);
        }
      case RequireTenant(allowed, inner) =>
        if !Allows(allowed, c) {
          return Raised(HookBlocked);
        }
        r := Run(inner, c);
      case Retry(maxAttempts, backoffMs, inner) =>
        r := RunRetry(maxAttempts, backoffMs, inner, c);
    }

    method RunRetry(maxAttempts: int, backoffMs: int, inner: Deco, c: Context) returns (r: Result)
      modifies this
      ensures (r, world) == ExecRetry(maxAttempts, backoffMs, inner, c, old(world), 1)
      decreases inner, 1
    {
      r := Raised(OtherError);
      var attempt := 1;
      while attempt <= maxAttempts
        invariant 1 <= attempt
        invariant attempt > 1 ==> attempt <= maxAttempts + 1
        invariant attempt > 1 && attempt > maxAttempts ==>
                    (r, world) == ExecRetry(maxAttempts, backoffMs, inner, c, old(world), 1)
        invariant attempt == 1 || attempt <= maxAttempts ==>
                    ExecRetry(maxAttempts, backoffMs, inner, c, world, attempt) ==
                    ExecRetry(maxAttempts, backoffMs, inner, c, old(world), 1)
        invariant attempt == 1 ==> r == Raised(OtherError) && world == old(world)
      {
        r := Run(inner, c);
        if !Retryable(r) {
          return;
        }
        if attempt < maxAttempts {
          if world.script == [] {
            return Cancelled;
          }
          world := Sleep(world, DelayMs(backoffMs, attempt));
        }
        attempt := attempt + 1;
      }
    }
  }
}
