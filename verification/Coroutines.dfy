/** Any number of coroutines at once, each running a decorator stack of its own, over shared limiters: a
    transition system whose steps are what runs between two awaits, in any order, on a non-decreasing clock. */
module Coroutines {
  import opened Prelude
  import opened Contexts
  import opened Decorators
  import R = Retries
  import RL = RateLimiter

  /** One retry loop that is being run, after so many failed attempts; every attempt gets the same context. */
  datatype Frame = Frame(maxAttempts: int, backoffMs: int, inner: Deco, ctx: Context, failed: nat)

  /** What a coroutine awaits: its body, or the sleep of its innermost loop. `Over` awaits nothing. */
  datatype Control = InBody(ctx: Context) | Sleeping(until: real) | Over(result: Result)

  /** Where a coroutine is, with its loops from the inside out. */
  datatype Point = Point(control: Control, frames: seq<Frame>)

  /** All calls of one limiter so far and who made them. */
  datatype Past = Past(calls: seq<RL.Call>, who: seq<nat>)

  datatype Shared = Shared(clock: real, store: Store, past: map<nat, Past>)

  /** One coroutine. `runs` counts bodies begun. `first`, `script` and `now` are history: the world in which
      it started, what its awaits brought, and the world as of its own last step, in the terms of the
      stack's semantics. */
  datatype Caller = Caller(deco: Deco, ctx: Context, point: Point, runs: nat,
                           first: World, script: seq<EnvStep>, now: World)

  datatype State = State(shared: Shared, callers: map<nat, Caller>)

  datatype Event =
    | Tick(to: real)
    | Start(id: nat, deco: Deco, ctx: Context)
    | Finish(id: nat, play: Play)
    | Wake(id: nat)
    | Cancel(id: nat)

  /** Which configuration each limiter was declared with. */
  type Limiters = nat -> RL.Config

  /** A stack names every limiter with the configuration it was declared with. */
  predicate Uses(d: Deco, cfgs: Limiters) {
    match d
    case Body => true
    case Inject(_, inner) => Uses(inner, cfgs)
    case BlockIf(_, inner) => Uses(inner, cfgs)
    case Redacted(_, inner) => Uses(inner, cfgs)
    case RateLimit(id, cfg, _, _, inner) => cfg == cfgs(id) && Uses(inner, cfgs)
    case RequireTenant(_, inner) => Uses(inner, cfgs)
    case Retry(_, _, inner) => Uses(inner, cfgs)
  }

  /** The limiters that a stack names, with the configurations it names them with. */
  function NamedBy(d: Deco): set<(nat, RL.Config)> {
    match d
    case Body => {}
    case Inject(_, inner) => NamedBy(inner)
    case BlockIf(_, inner) => NamedBy(inner)
    case Redacted(_, inner) => NamedBy(inner)
    case RateLimit(id, cfg, _, _, inner) => {(id, cfg)} + NamedBy(inner)
    case RequireTenant(_, inner) => NamedBy(inner)
    case Retry(_, _, inner) => NamedBy(inner)
  }

  lemma {:induction false} UsesExactly(d: Deco, cfgs: Limiters)
    ensures Uses(d, cfgs) <==> forall l | l in NamedBy(d) :: l.1 == cfgs(l.0)
  {
    if d.Body? {
    } else {
      UsesExactly(d.inner, cfgs);
      if d.RateLimit? {
        assert (d.id, d.cfg) in NamedBy(d);
        assert forall l :: l in NamedBy(d) <==> l == (d.id, d.cfg) || l in NamedBy(d.inner);
      } else {
        assert NamedBy(d) == NamedBy(d.inner);
      }
    }
  }

  function PastOf(s: Shared, limiter: nat): Past {
    if limiter in s.past then s.past[limiter] else Past([], [])
  }

  function WindowsOf(s: Shared, limiter: nat): RL.Windows {
    if limiter in s.store then s.store[limiter] else map[]
  }

  /** One atomic limiter call: evict, test, append. */
  function CallLimiter(me: nat, limiter: nat, cfg: RL.Config, key: Value, s: Shared): (Shared, bool) {
    var call := RL.Call(key, s.clock);
    var (store, admitted) := LimiterStep(limiter, cfg, call, s.store);
    var past := PastOf(s, limiter);
    (s.(store := store, past := s.past[limiter := Past(past.calls + [call], past.who + [me])]), admitted)
  }

  /** What the enclosing loops do with a result: the innermost that still may retries it, after a sleep. */
  function Unwind(r: Result, clock: real, frames: seq<Frame>): Point {
    if frames == [] then Point(Over(r), [])
    else
      var f := frames[0];
      if Retryable(r) && f.failed + 1 < f.maxAttempts then
        Point(Sleeping(clock + Seconds(DelayMs(f.backoffMs, f.failed + 1))), frames)
      else Unwind(r, clock, frames[1..])
  }

  /** From the entry of a stack to the next await, all of it without interruption. */
  function Descend(me: nat, d: Deco, c: Context, s: Shared, frames: seq<Frame>): (Point, Shared) {
    match d
    case Body => (Point(InBody(c), frames), s)
    case Inject(fields, inner) => (
      match InjectAll(fields, c)
      case Threw(e) => (Unwind(Raised(e), s.clock, frames), s)
      case Got(c') => Descend(me, inner, c', s, frames))
    case BlockIf(condition, inner) => (
      match condition(c)
      case Threw(e) => (Unwind(Raised(e), s.clock, frames), s)
      case Got(blocked) =>
        if blocked then (Unwind(Raised(HookBlocked), s.clock, frames), s) else Descend(me, inner, c, s, frames))
    case Redacted(names, inner) => (
      match Redact(c, names)
      case Threw(e) => (Unwind(Raised(e), s.clock, frames), s)
      case Got(c') => Descend(me, inner, c', s, frames))
    case RateLimit(limiter, cfg, perTenant, blocking, inner) =>
      var (s', admitted) := CallLimiter(me, limiter, cfg, RL.KeyOf(perTenant, c), s);
      if admitted then Descend(me, inner, c, s', frames)
      else (Unwind(Refusal(blocking, c), s.clock, frames), s')
    case RequireTenant(allowed, inner) =>
      if Allows(allowed, c) then Descend(me, inner, c, s, frames)
      else (Unwind(Raised(HookBlocked), s.clock, frames), s)
    case Retry(maxAttempts, backoffMs, inner) =>
      if maxAttempts < 1 then (Unwind(Raised(OtherError), s.clock, frames), s)
      else Descend(me, inner, c, s, [Frame(maxAttempts, backoffMs, inner, c, 0)] + frames)
  }

  function Refusal(blocking: bool, c: Context): Result {
    if blocking then Raised(HookBlocked) else Done(c)
  }

  function Init(clock: real): State {
    State(Shared(clock, map[], map[]), map[])
  }

  /** The world as a coroutine finds it. */
  function Here(s: Shared): World {
    World(s.clock, s.store, [], [], 0)
  }

  /** What an await that returns now brings. */
  function Brings(s: Shared, play: Play): EnvStep {
    EnvStep(s.clock, s.store, play)
  }

  /** The coroutine has come to its next await, or its end. */
  function Arrived(c: Caller, point: Point, now: World): Caller {
    c.(point := point, now := now, runs := c.runs + (if point.control.InBody? then 1 else 0))
  }

  function Begin(s: Shared, id: nat, deco: Deco, ctx: Context): (Caller, Shared) {
    var (point, s') := Descend(id, deco, ctx, s, []);
    var w := Here(s);
    (Arrived(Caller(deco, ctx, point, 0, w, [], w), point, w.(store := s'.store)), s')
  }

  /** The body ends. */
  function EndBody(s: Shared, c: Caller, play: Play): Caller
    requires c.point.control.InBody?
  {
    var step := Brings(s, play);
    var now := Await(c.now.(script := [step]), c.now.clock).(bodies := c.now.bodies + 1);
    Arrived(c.(script := c.script + [step]),
            Unwind(PlayOn(play, c.point.control.ctx), s.clock, c.point.frames), now)
  }

  function Failed(f: Frame): Frame {
    f.(failed := f.failed + 1)
  }

  /** The sleep is over and the innermost loop makes its next attempt. */
  function EndSleep(s: Shared, id: nat, c: Caller): (Caller, Shared)
    requires c.point.frames != []
  {
    var step, f := Brings(s, Play([], Returns)), c.point.frames[0];
    var woken := Sleep(c.now.(script := [step]), DelayMs(f.backoffMs, f.failed + 1));
    var (point, s') := Descend(id, f.inner, f.ctx, s, [Failed(f)] + c.point.frames[1..]);
    (Arrived(c.(script := c.script + [step]), point, woken.(store := s'.store)), s')
  }

  predicate Awake(s: Shared, c: Caller) {
    c.point.control.Sleeping? && c.point.control.until <= s.clock && c.point.frames != []
  }

  /** The state after an event, or None if the event cannot happen now. */
  function Next(cfgs: Limiters, s: State, e: Event): Option<State> {
    match e
    case Tick(to) => if s.shared.clock <= to then Some(s.(shared := s.shared.(clock := to))) else None
    case Start(id, deco, ctx) =>
      if id in s.callers || !Uses(deco, cfgs) then None
      else
        var (c, shared) := Begin(s.shared, id, deco, ctx);
        Some(State(shared, s.callers[id := c]))
    case Finish(id, play) =>
      if id in s.callers && s.callers[id].point.control.InBody? then
        Some(s.(callers := s.callers[id := EndBody(s.shared, s.callers[id], play)]))
      else None
    case Wake(id) =>
      if id in s.callers && Awake(s.shared, s.callers[id]) then
        var (c, shared) := EndSleep(s.shared, id, s.callers[id]);
        Some(State(shared, s.callers[id := c]))
      else None
    case Cancel(id) =>
      if id in s.callers && !s.callers[id].point.control.Over? then
        Some(s.(callers := s.callers[id := s.callers[id].(point := Point(Over(Cancelled), []))]))
      else None
  }

  function Run(cfgs: Limiters, clock: real, events: seq<Event>): Option<State> {
    if events == [] then Some(Init(clock))
    else match Run(cfgs, clock, events[..|events| - 1])
      case None => None
      case Some(s) => Next(cfgs, s, events[|events| - 1])
  }

  /** Once a coroutine is over no event changes it: a refusal is final. */
  lemma OverIsFinal(cfgs: Limiters, s: State, e: Event, id: nat)
    requires Next(cfgs, s, e).Some? && id in s.callers && s.callers[id].point.control.Over?
    ensures id in Next(cfgs, s, e).value.callers && Next(cfgs, s, e).value.callers[id] == s.callers[id]
  {
  }

  // ----- Every limiter -----

  /** One limiter: its windows are the outcome of all calls ever made of it, in the order of the clock. */
  ghost predicate LimiterInv(cfgs: Limiters, s: Shared, limiter: nat) {
    var past := PastOf(s, limiter);
    && |past.who| == |past.calls|
    && WindowsOf(s, limiter) == RL.Run(cfgs(limiter), past.calls).0
    && RL.Monotone(past.calls)
    && forall i | 0 <= i < |past.calls| :: past.calls[i].at <= s.clock
  }

  ghost predicate LimitersInv(cfgs: Limiters, s: Shared) {
    forall limiter: nat :: LimiterInv(cfgs, s, limiter)
  }

  /** The loops that are being run name their limiters correctly too. */
  ghost predicate FramesUse(cfgs: Limiters, frames: seq<Frame>) {
    forall i | 0 <= i < |frames| :: Uses(frames[i].inner, cfgs)
  }

  function CallsBy(who: seq<nat>, id: nat): nat {
    if who == [] then 0
    else CallsBy(who[..|who| - 1], id) + (if who[|who| - 1] == id then 1 else 0)
  }

  function AdmittedBy(who: seq<nat>, decisions: seq<bool>, id: nat): nat
    requires |who| == |decisions|
  {
    if who == [] then 0
    else
      var n := |who| - 1;
      AdmittedBy(who[..n], decisions[..n], id) + (if who[n] == id && decisions[n] then 1 else 0)
  }

  lemma CountsSnoc(who: seq<nat>, decisions: seq<bool>, id: nat, d: bool, other: nat)
    requires |who| == |decisions|
    ensures CallsBy(who + [id], other) == CallsBy(who, other) + (if id == other then 1 else 0)
    ensures AdmittedBy(who + [id], decisions + [d], other) ==
            AdmittedBy(who, decisions, other) + (if id == other && d then 1 else 0)
  {
    assert (who + [id])[..|who|] == who;
    assert (decisions + [d])[..|decisions|] == decisions;
  }

  /** Calls that one coroutine made of one limiter, and those of them that were admitted. */
  function Calls(s: Shared, limiter: nat, id: nat): nat {
    CallsBy(PastOf(s, limiter).who, id)
  }

  function Admissions(cfgs: Limiters, s: Shared, limiter: nat, id: nat): nat
    requires LimiterInv(cfgs, s, limiter)
  {
    AdmittedBy(PastOf(s, limiter).who, RL.Decisions(cfgs(limiter), PastOf(s, limiter).calls), id)
  }

  /** Nobody but `me` has made a call in between. */
  ghost predicate CountsKept(cfgs: Limiters, s: Shared, s': Shared, me: nat)
    requires LimitersInv(cfgs, s) && LimitersInv(cfgs, s')
  {
    forall l: nat, id: nat | id != me ::
      Calls(s', l, id) == Calls(s, l, id) && Admissions(cfgs, s', l, id) == Admissions(cfgs, s, l, id)
  }

  /** A step of coroutine `me` takes no time, keeps every limiter and makes no call for anybody else. */
  ghost predicate SharedKept(cfgs: Limiters, s: Shared, s': Shared, me: nat)
    requires LimitersInv(cfgs, s)
  {
    s'.clock == s.clock && LimitersInv(cfgs, s') && CountsKept(cfgs, s, s', me)
  }

  lemma CalledIsRun(cfgs: Limiters, me: nat, limiter: nat, key: Value, s: Shared)
    requires LimiterInv(cfgs, s, limiter)
    ensures var (s', admitted) := CallLimiter(me, limiter, cfgs(limiter), key, s);
            var past, past' := PastOf(s, limiter), PastOf(s', limiter);
            && LimiterInv(cfgs, s', limiter)
            && past'.who == past.who + [me]
            && RL.Decisions(cfgs(limiter), past'.calls) == RL.Decisions(cfgs(limiter), past.calls) + [admitted]
  {
    RL.RunSnoc(cfgs(limiter), PastOf(s, limiter).calls, RL.Call(key, s.clock));
  }

  /** The limiter that is called: the call counts for its caller only. */
  lemma CalledCounts(cfgs: Limiters, me: nat, limiter: nat, key: Value, s: Shared, id: nat)
    requires LimiterInv(cfgs, s, limiter)
    ensures var (s', admitted) := CallLimiter(me, limiter, cfgs(limiter), key, s);
            && LimiterInv(cfgs, s', limiter)
            && Calls(s', limiter, id) == Calls(s, limiter, id) + (if id == me then 1 else 0)
            && Admissions(cfgs, s', limiter, id) ==
               Admissions(cfgs, s, limiter, id) + (if id == me && admitted then 1 else 0)
  {
    var admitted := CallLimiter(me, limiter, cfgs(limiter), key, s).1;
    var past := PastOf(s, limiter);
    CalledIsRun(cfgs, me, limiter, key, s);
    CountsSnoc(past.who, RL.Decisions(cfgs(limiter), past.calls), me, admitted, id);
  }

  /** Any other limiter. */
  lemma OthersKeep(cfgs: Limiters, me: nat, limiter: nat, key: Value, s: Shared, other: nat)
    requires other != limiter && LimiterInv(cfgs, s, other)
    ensures var s' := CallLimiter(me, limiter, cfgs(limiter), key, s).0;
            && LimiterInv(cfgs, s', other)
            && PastOf(s', other) == PastOf(s, other)
  {
  }

  /** A call keeps every limiter's invariant, and counts for its caller only. */
  lemma CallKeeps(cfgs: Limiters, me: nat, limiter: nat, key: Value, s: Shared)
    requires LimitersInv(cfgs, s)
    ensures var (s', admitted) := CallLimiter(me, limiter, cfgs(limiter), key, s);
            && SharedKept(cfgs, s, s', me)
            && Calls(s', limiter, me) == Calls(s, limiter, me) + 1
            && Admissions(cfgs, s', limiter, me) == Admissions(cfgs, s, limiter, me) + (if admitted then 1 else 0)
  {
    var s' := CallLimiter(me, limiter, cfgs(limiter), key, s).0;
    forall other: nat ensures LimiterInv(cfgs, s', other) {
      assert LimiterInv(cfgs, s, other);
      if other == limiter {
        CalledIsRun(cfgs, me, limiter, key, s);
      } else {
        OthersKeep(cfgs, me, limiter, key, s, other);
      }
    }
    CalledCounts(cfgs, me, limiter, key, s, me);
    forall l: nat, id: nat | id != me
      ensures Calls(s', l, id) == Calls(s, l, id) && Admissions(cfgs, s', l, id) == Admissions(cfgs, s, l, id)
    {
      assert LimiterInv(cfgs, s, l);
      if l == limiter {
        CalledCounts(cfgs, me, limiter, key, s, id);
      } else {
        OthersKeep(cfgs, me, limiter, key, s, l);
      }
    }
  }

  /** A sleeper has a loop to go back to, with an attempt left. */
  ghost predicate Rests(p: Point, clock: real) {
    p.control.Sleeping? ==>
      && p.frames != []
      && var f := p.frames[0];
         f.failed + 1 < f.maxAttempts && p.control.until == clock + Seconds(DelayMs(f.backoffMs, f.failed + 1))
  }

  lemma {:induction false} UnwindKeeps(cfgs: Limiters, r: Result, clock: real, frames: seq<Frame>)
    requires FramesUse(cfgs, frames)
    ensures FramesUse(cfgs, Unwind(r, clock, frames).frames) && Rests(Unwind(r, clock, frames), clock)
  {
    if frames == [] {
    } else {
      UnwindKeeps(cfgs, r, clock, frames[1..]);
    }
  }

  lemma {:induction false} DescendRests(cfgs: Limiters, me: nat, d: Deco, c: Context, s: Shared, frames: seq<Frame>)
    requires Uses(d, cfgs) && FramesUse(cfgs, frames)
    ensures var p := Descend(me, d, c, s, frames).0; FramesUse(cfgs, p.frames) && Rests(p, s.clock)
  {
    forall r: Result
      ensures FramesUse(cfgs, Unwind(r, s.clock, frames).frames) && Rests(Unwind(r, s.clock, frames), s.clock)
    {
      UnwindKeeps(cfgs, r, s.clock, frames);
    }
    match d
    case Body =>
    case Inject(fields, inner) =>
      if InjectAll(fields, c).Got? { DescendRests(cfgs, me, inner, InjectAll(fields, c).value, s, frames); }
    case BlockIf(_, inner) => DescendRests(cfgs, me, inner, c, s, frames);
    case Redacted(names, inner) =>
      if Redact(c, names).Got? { DescendRests(cfgs, me, inner, Redact(c, names).value, s, frames); }
    case RateLimit(limiter, cfg, perTenant, _, inner) =>
      DescendRests(cfgs, me, inner, c, CallLimiter(me, limiter, cfg, RL.KeyOf(perTenant, c), s).0, frames);
    case RequireTenant(_, inner) => DescendRests(cfgs, me, inner, c, s, frames);
    case Retry(maxAttempts, backoffMs, inner) =>
      DescendRests(cfgs, me, inner, c, s, [Frame(maxAttempts, backoffMs, inner, c, 0)] + frames);
  }

  lemma KeptTwice(cfgs: Limiters, s: Shared, s1: Shared, s2: Shared, me: nat)
    requires LimitersInv(cfgs, s) && SharedKept(cfgs, s, s1, me) && SharedKept(cfgs, s1, s2, me)
    ensures SharedKept(cfgs, s, s2, me)
  {
  }

  lemma {:induction false} DescendKeeps(cfgs: Limiters, me: nat, d: Deco, c: Context, s: Shared, frames: seq<Frame>)
    requires LimitersInv(cfgs, s) && Uses(d, cfgs)
    ensures SharedKept(cfgs, s, Descend(me, d, c, s, frames).1, me)
  {
    match d
    case Body =>
    case Inject(fields, inner) =>
      if InjectAll(fields, c).Got? { DescendKeeps(cfgs, me, inner, InjectAll(fields, c).value, s, frames); }
    case BlockIf(_, inner) => DescendKeeps(cfgs, me, inner, c, s, frames);
    case Redacted(names, inner) =>
      if Redact(c, names).Got? { DescendKeeps(cfgs, me, inner, Redact(c, names).value, s, frames); }
    case RateLimit(limiter, cfg, perTenant, _, inner) =>
      var s' := CallLimiter(me, limiter, cfg, RL.KeyOf(perTenant, c), s).0;
      CallKeeps(cfgs, me, limiter, RL.KeyOf(perTenant, c), s);
      DescendKeeps(cfgs, me, inner, c, s', frames);
      KeptTwice(cfgs, s, s', Descend(me, inner, c, s', frames).1, me);
    case RequireTenant(_, inner) => DescendKeeps(cfgs, me, inner, c, s, frames);
    case Retry(maxAttempts, backoffMs, inner) =>
      DescendKeeps(cfgs, me, inner, c, s, [Frame(maxAttempts, backoffMs, inner, c, 0)] + frames);
  }

  // ----- Every coroutine runs its stack -----

  /** A loop from the failure of an attempt on. */
  function AfterFailure(f: Frame, w: World): (Result, World) {
    if w.script == [] then (Cancelled, w)
    else
      ExecRetry(f.maxAttempts, f.backoffMs, f.inner, f.ctx, Sleep(w, DelayMs(f.backoffMs, f.failed + 1)), f.failed + 2)
  }

  /** What is left to do with a result in the enclosing loops. */
  function Resume(r: Result, w: World, frames: seq<Frame>): (Result, World)
    decreases |frames|
  {
    if frames == [] then (r, w)
    else
      var f := frames[0];
      var (r', w') := if Retryable(r) && f.failed + 1 < f.maxAttempts then AfterFailure(f, w) else (r, w);
      Resume(r', w', frames[1..])
  }

  /** What is left to do from a point on. */
  function Continue(p: Point, w: World): (Result, World) {
    match p.control
    case InBody(c) =>
      var (r, w') := Exec(Body, c, w);
      Resume(r, w', p.frames)
    case Sleeping(_) =>
      if p.frames == [] then (Cancelled, w)
      else
        var (r, w') := AfterFailure(p.frames[0], w);
        Resume(r, w', p.frames[1..])
    case Over(r) => (r, w)
  }

  lemma {:induction false} CancelledStays(w: World, frames: seq<Frame>)
    ensures Resume(Cancelled, w, frames) == (Cancelled, w)
  {
    if frames == [] {
    } else {
      CancelledStays(w, frames[1..]);
    }
  }

  lemma {:induction false} UnwindAgrees(r: Result, w: World, frames: seq<Frame>)
    ensures Continue(Unwind(r, w.clock, frames), w) == Resume(r, w, frames)
  {
    if frames == [] {
    } else {
      UnwindAgrees(r, w, frames[1..]);
    }
  }

  /** An attempt of a loop is its inner stack run inside one more frame. */
  lemma AttemptInFrame(f: Frame, w: World, frames: seq<Frame>)
    requires f.failed < f.maxAttempts
    ensures var (r, w') := ExecRetry(f.maxAttempts, f.backoffMs, f.inner, f.ctx, w, f.failed + 1);
            var (ri, wi) := Exec(f.inner, f.ctx, w);
            Resume(r, w', frames) == Resume(ri, wi, [f] + frames)
  {
    assert ([f] + frames)[1..] == frames;
  }

  /** Entering a stack is where its semantics goes on. */
  lemma {:induction false} DescendAgrees(me: nat, d: Deco, c: Context, s: Shared, frames: seq<Frame>, w: World)
    requires w.clock == s.clock && w.store == s.store
    ensures var (p, s') := Descend(me, d, c, s, frames);
            var (r, w') := Exec(d, c, w);
            Continue(p, w.(store := s'.store)) == Resume(r, w', frames)
  {
    forall r: Result ensures Continue(Unwind(r, s.clock, frames), w) == Resume(r, w, frames) {
      UnwindAgrees(r, w, frames);
    }
    match d
    case Body =>
    case Inject(fields, inner) =>
      if InjectAll(fields, c).Got? { DescendAgrees(me, inner, InjectAll(fields, c).value, s, frames, w); }
    case BlockIf(_, inner) => DescendAgrees(me, inner, c, s, frames, w);
    case Redacted(names, inner) =>
      if Redact(c, names).Got? { DescendAgrees(me, inner, Redact(c, names).value, s, frames, w); }
    case RateLimit(limiter, cfg, perTenant, blocking, inner) =>
      var s' := CallLimiter(me, limiter, cfg, RL.KeyOf(perTenant, c), s).0;
      DescendAgrees(me, inner, c, s', frames, w.(store := s'.store));
      UnwindAgrees(Refusal(blocking, c), w.(store := s'.store), frames);
    case RequireTenant(_, inner) => DescendAgrees(me, inner, c, s, frames, w);
    case Retry(maxAttempts, backoffMs, inner) =>
      if maxAttempts >= 1 {
        var f := Frame(maxAttempts, backoffMs, inner, c, 0);
        DescendAgrees(me, inner, c, s, [f] + frames, w);
        AttemptInFrame(f, w, frames);
      }
  }

  /** What the stack does in the world a coroutine met, if its script went on with `rest`. */
  function Replayed(c: Caller, rest: seq<EnvStep>): (Result, World) {
    Exec(c.deco, c.ctx, c.first.(script := c.script + rest))
  }

  ghost predicate AgreesOn(c: Caller, rest: seq<EnvStep>) {
    Replayed(c, rest) == Continue(c.point, c.now.(script := rest))
  }

  /** However its script goes on, the stack's semantics is where the coroutine is; one that was cancelled has
      no further script. */
  ghost predicate Agrees(c: Caller) {
    && c.now.script == []
    && AgreesOn(c, [])
    && (c.point.control != Over(Cancelled) ==> forall rest :: AgreesOn(c, rest))
  }

  lemma BeginAgrees(s: Shared, id: nat, deco: Deco, ctx: Context)
    ensures Agrees(Begin(s, id, deco, ctx).0)
  {
    var c := Begin(s, id, deco, ctx).0;
    forall rest ensures AgreesOn(c, rest) {
      assert [] + rest == rest;
      DescendAgrees(id, deco, ctx, s, [], Here(s).(script := rest));
    }
  }

  lemma ScriptGoesOn(c: Caller, c': Caller, step: EnvStep, rest: seq<EnvStep>)
    requires c'.deco == c.deco && c'.ctx == c.ctx && c'.first == c.first && c'.script == c.script + [step]
    ensures Replayed(c', rest) == Replayed(c, [step] + rest)
  {
    assert c.script + ([step] + rest) == c'.script + rest;
  }

  lemma EndBodyAgrees(s: Shared, c: Caller, play: Play)
    requires Agrees(c) && c.point.control.InBody? && c.now.clock <= s.clock
    ensures Agrees(EndBody(s, c, play))
  {
    var c' := EndBody(s, c, play);
    var step, r := Brings(s, play), PlayOn(play, c.point.control.ctx);
    forall rest ensures AgreesOn(c', rest) {
      assert AgreesOn(c, [step] + rest);
      ScriptGoesOn(c, c', step, rest);
      assert ([step] + rest)[1..] == rest;
      UnwindAgrees(r, c'.now.(script := rest), c.point.frames);
    }
  }

  lemma FailureGoesOn(f: Frame, w: World, woken: World)
    requires w.script != [] && woken == Sleep(w, DelayMs(f.backoffMs, f.failed + 1))
    ensures var g := Failed(f);
            AfterFailure(f, w) == ExecRetry(g.maxAttempts, g.backoffMs, g.inner, g.ctx, woken, g.failed + 1)
  {
  }

  /** Waking up is where the semantics' sleep ends. */
  lemma WokenInFrame(s: Shared, c: Caller, rest: seq<EnvStep>, woken: World)
    requires Rests(c.point, c.now.clock) && Awake(s, c)
    requires var f := c.point.frames[0];
             woken == Sleep(c.now.(script := [Brings(s, Play([], Returns))] + rest), DelayMs(f.backoffMs, f.failed + 1))
    ensures woken.clock == s.clock && woken.store == s.store && woken.script == rest
    ensures var f := c.point.frames[0];
            var (r, w) := Exec(f.inner, f.ctx, woken);
            Continue(c.point, c.now.(script := [Brings(s, Play([], Returns))] + rest)) ==
            Resume(r, w, [Failed(f)] + c.point.frames[1..])
  {
    var f, step := c.point.frames[0], Brings(s, Play([], Returns));
    assert ([step] + rest)[1..] == rest;
    FailureGoesOn(f, c.now.(script := [step] + rest), woken);
    AttemptInFrame(Failed(f), woken, c.point.frames[1..]);
  }

  lemma EndSleepAgrees(s: Shared, id: nat, c: Caller)
    requires Agrees(c) && Rests(c.point, c.now.clock) && Awake(s, c)
    ensures Agrees(EndSleep(s, id, c).0)
  {
    var c' := EndSleep(s, id, c).0;
    var f, step := c.point.frames[0], Brings(s, Play([], Returns));
    forall rest ensures AgreesOn(c', rest) {
      var woken := Sleep(c.now.(script := [step] + rest), DelayMs(f.backoffMs, f.failed + 1));
      assert AgreesOn(c, [step] + rest);
      ScriptGoesOn(c, c', step, rest);
      WokenInFrame(s, c, rest, woken);
      DescendAgrees(id, f.inner, f.ctx, s, [Failed(f)] + c.point.frames[1..], woken);
    }
  }

  lemma CancelAgrees(c: Caller)
    requires Agrees(c) && !c.point.control.Over?
    ensures Agrees(c.(point := Point(Over(Cancelled), [])))
  {
    CancelledStays(c.now.(script := []), c.point.frames);
    if c.point.control.Sleeping? && c.point.frames != [] {
      CancelledStays(c.now.(script := []), c.point.frames[1..]);
    }
  }

  // ----- How many bodies, and how long -----

  lemma {:induction false} ResumeRuns(r: Result, w: World, frames: seq<Frame>)
    ensures Resume(r, w, frames).1.bodies >= w.bodies
    decreases |frames|
  {
    if frames == [] {
    } else {
      var f := frames[0];
      var (r', w') := if Retryable(r) && f.failed + 1 < f.maxAttempts then AfterFailure(f, w) else (r, w);
      if Retryable(r) && f.failed + 1 < f.maxAttempts && w.script != [] {
        R.ExecRetryBodies(f.maxAttempts, f.backoffMs, f.inner, f.ctx,
                          Sleep(w, DelayMs(f.backoffMs, f.failed + 1)), f.failed + 2);
      }
      ResumeRuns(r', w', frames[1..]);
    }
  }

  /** A body that has begun is one of those that the stack's bound allows. */
  lemma BodyIsCounted(c: Caller, step: EnvStep)
    requires Agrees(c) && c.point.control.InBody? && c.first.bodies == 0
    ensures c.now.bodies + 1 <= R.BodyBound(c.deco)
  {
    var w := c.now.(script := [step]);
    assert AgreesOn(c, [step]);
    R.ExecBodies(c.deco, c.ctx, c.first.(script := c.script + [step]));
    var (r, w') := Exec(Body, c.point.control.ctx, w);
    ResumeRuns(r, w', c.point.frames);
  }

  /** The seconds that some sleeps take at least. */
  function Slept(naps: seq<int>): real {
    if naps == [] then 0.0 else Slept(naps[..|naps| - 1]) + Seconds(naps[|naps| - 1])
  }

  lemma {:induction false} SleptNaps(backoffMs: int, n: nat)
    ensures Slept(R.Naps(backoffMs, n)) == Seconds(backoffMs * (Pow2(n) - 1))
  {
    if n == 0 {
    } else {
      var before, delay := R.Naps(backoffMs, n - 1), DelayMs(backoffMs, n);
      SleptNaps(backoffMs, n - 1);
      assert (before + [delay])[..|before|] == before;
      R.BackoffGrows(backoffMs, n - 1);
      R.SameSign(backoffMs, n - 1);
      R.SecondsAdd(backoffMs * (Pow2(n - 1) - 1), delay);
    }
  }

  /** What holds of every coroutine at any time: its bodies stay within its stack's bound, and it has taken
      at least as long as its sleeps. */
  ghost predicate Stands(cfgs: Limiters, s: Shared, c: Caller) {
    && Agrees(c) && FramesUse(cfgs, c.point.frames) && Rests(c.point, c.now.clock)
    && c.first.bodies == 0 && c.first.naps == []
    && c.first.clock + Slept(c.now.naps) <= c.now.clock <= s.clock
    && c.now.bodies <= c.runs <= R.BodyBound(c.deco)
    && (c.point.control.InBody? ==> c.runs == c.now.bodies + 1)
    && (c.point.control.Sleeping? ==> c.runs == c.now.bodies)
  }

  lemma BeginStands(cfgs: Limiters, s: Shared, id: nat, deco: Deco, ctx: Context)
    requires LimitersInv(cfgs, s) && Uses(deco, cfgs)
    ensures var (c, s') := Begin(s, id, deco, ctx); Stands(cfgs, s', c) && SharedKept(cfgs, s, s', id)
  {
    var (c, s') := Begin(s, id, deco, ctx);
    DescendKeeps(cfgs, id, deco, ctx, s, []);
    DescendRests(cfgs, id, deco, ctx, s, []);
    BeginAgrees(s, id, deco, ctx);
    if c.point.control.InBody? {
      BodyIsCounted(c, Brings(s, Play([], Returns)));
    }
  }

  lemma EndBodyStands(cfgs: Limiters, s: Shared, c: Caller, play: Play)
    requires Stands(cfgs, s, c) && c.point.control.InBody?
    ensures Stands(cfgs, s, EndBody(s, c, play)) && !EndBody(s, c, play).point.control.InBody?
  {
    UnwindKeeps(cfgs, PlayOn(play, c.point.control.ctx), s.clock, c.point.frames);
    UnwindAwaits(PlayOn(play, c.point.control.ctx), s.clock, c.point.frames);
    EndBodyAgrees(s, c, play);
  }

  lemma {:induction false} UnwindAwaits(r: Result, clock: real, frames: seq<Frame>)
    ensures !Unwind(r, clock, frames).control.InBody?
  {
    if frames == [] {
    } else {
      UnwindAwaits(r, clock, frames[1..]);
    }
  }

  lemma EndSleepStands(cfgs: Limiters, s: Shared, id: nat, c: Caller)
    requires LimitersInv(cfgs, s) && Stands(cfgs, s, c) && Awake(s, c)
    ensures var (c', s') := EndSleep(s, id, c); Stands(cfgs, s', c') && SharedKept(cfgs, s, s', id)
  {
    var (c', s') := EndSleep(s, id, c);
    var f := c.point.frames[0];
    DescendKeeps(cfgs, id, f.inner, f.ctx, s, [Failed(f)] + c.point.frames[1..]);
    DescendRests(cfgs, id, f.inner, f.ctx, s, [Failed(f)] + c.point.frames[1..]);
    EndSleepAgrees(s, id, c);
    assert (c.now.naps + [DelayMs(f.backoffMs, f.failed + 1)])[..|c.now.naps|] == c.now.naps;
    if c'.point.control.InBody? {
      BodyIsCounted(c', Brings(s, Play([], Returns)));
    }
  }

  // ----- A retry loop around a limiter -----

  /** `@retry` directly outside `@rate_limit`. */
  predicate IsLoop(d: Deco) {
    d.Retry? && d.inner.RateLimit? && d.inner.inner.Body?
  }

  /** Every attempt of the loop was one call, every body begun an admitted one; there was at most one
      refusal, and it ended the loop; the sleeps are those between the attempts. */
  ghost predicate LoopInv(c: Caller, calls: nat, admitted: nat)
    requires IsLoop(c.deco)
  {
    var d := c.deco;
    if d.maxAttempts < 1 then
      calls == 0 && admitted == 0 && c.runs == 0 && c.point.control == Over(Raised(OtherError))
    else
      && 1 <= calls <= d.maxAttempts
      && c.runs == admitted <= calls <= admitted + 1
      && (calls == admitted + 1 ==> c.point.control == Over(Refusal(d.inner.blocking, c.ctx)))
      && (!c.point.control.Over? ==>
            calls == admitted && c.point.frames == [Frame(d.maxAttempts, d.backoffMs, d.inner, c.ctx, calls - 1)])
      && c.now.naps == R.Naps(d.backoffMs, calls - 1)
  }

  ghost predicate LoopStands(cfgs: Limiters, s: Shared, id: nat, c: Caller)
    requires LimitersInv(cfgs, s)
  {
    Uses(c.deco, cfgs) &&
    (IsLoop(c.deco) ==>
       var limiter := c.deco.inner.id;
       LimiterInv(cfgs, s, limiter) && LoopInv(c, Calls(s, limiter, id), Admissions(cfgs, s, limiter, id)))
  }

  lemma RefusalLeaves(blocking: bool, c: Context, clock: real, f: Frame)
    ensures Unwind(Refusal(blocking, c), clock, [f]) == Point(Over(Refusal(blocking, c)), [])
  {
    assert [f][1..] == [];
  }

  /** One attempt of the loop: one call, and then the body or the refusal. */
  lemma OneAttempt(me: nat, d: Deco, c: Context, s: Shared, f: Frame)
    requires d.RateLimit? && d.inner.Body?
    ensures var (s', admitted) := CallLimiter(me, d.id, d.cfg, RL.KeyOf(d.perTenant, c), s);
            Descend(me, d, c, s, [f]) ==
            (if admitted then Point(InBody(c), [f]) else Point(Over(Refusal(d.blocking, c)), []), s')
  {
    RefusalLeaves(d.blocking, c, CallLimiter(me, d.id, d.cfg, RL.KeyOf(d.perTenant, c), s).0.clock, f);
    RefusalLeaves(d.blocking, c, s.clock, f);
  }

  lemma AttemptCounts(cfgs: Limiters, me: nat, d: Deco, c: Context, s: Shared, f: Frame)
    requires LimitersInv(cfgs, s) && Uses(d, cfgs) && d.RateLimit? && d.inner.Body?
    ensures var (p, s') := Descend(me, d, c, s, [f]);
            && p == (if p.control.InBody? then Point(InBody(c), [f]) else Point(Over(Refusal(d.blocking, c)), []))
            && LimitersInv(cfgs, s')
            && LimiterInv(cfgs, s, d.id) && LimiterInv(cfgs, s', d.id)
            && Calls(s', d.id, me) == Calls(s, d.id, me) + 1
            && Admissions(cfgs, s', d.id, me) ==
               Admissions(cfgs, s, d.id, me) + (if p.control.InBody? then 1 else 0)
  {
    OneAttempt(me, d, c, s, f);
    CallKeeps(cfgs, me, d.id, RL.KeyOf(d.perTenant, c), s);
  }

  lemma BeginLoops(cfgs: Limiters, s: Shared, id: nat, deco: Deco, ctx: Context)
    requires LimitersInv(cfgs, s) && Uses(deco, cfgs)
    requires forall limiter: nat :: LimiterInv(cfgs, s, limiter) &&
               Calls(s, limiter, id) == 0 && Admissions(cfgs, s, limiter, id) == 0
    ensures var (c, s') := Begin(s, id, deco, ctx); LimitersInv(cfgs, s') && LoopStands(cfgs, s', id, c)
  {
    DescendKeeps(cfgs, id, deco, ctx, s, []);
    if IsLoop(deco) && deco.maxAttempts >= 1 {
      var f := Frame(deco.maxAttempts, deco.backoffMs, deco.inner, ctx, 0);
      assert [f] + [] == [f];
      assert Descend(id, deco, ctx, s, []) == Descend(id, deco.inner, ctx, s, [f]);
      AttemptCounts(cfgs, id, deco.inner, ctx, s, f);
    }
  }

  lemma EndBodyLoops(c: Caller, s: Shared, play: Play, calls: nat, admitted: nat)
    requires IsLoop(c.deco) && LoopInv(c, calls, admitted) && c.point.control.InBody?
    ensures LoopInv(EndBody(s, c, play), calls, admitted)
  {
    var f := c.point.frames[0];
    assert [f][1..] == [];
    UnwindAwaits(PlayOn(play, c.point.control.ctx), s.clock, c.point.frames);
  }

  lemma AttemptLoops(s: Shared, id: nat, c: Caller, calls: nat, admitted: nat)
    requires IsLoop(c.deco) && LoopInv(c, calls, admitted) && Rests(c.point, c.now.clock) && Awake(s, c)
    ensures var c' := EndSleep(s, id, c).0;
            LoopInv(c', calls + 1, admitted + (if c'.point.control.InBody? then 1 else 0))
  {
    var f := c.point.frames[0];
    assert [Failed(f)] + c.point.frames[1..] == [Failed(f)];
    OneAttempt(id, f.inner, f.ctx, s, Failed(f));
  }

  lemma EndSleepCounts(cfgs: Limiters, s: Shared, id: nat, c: Caller)
    requires LimitersInv(cfgs, s) && IsLoop(c.deco) && Uses(c.deco, cfgs)
    requires |c.point.frames| == 1 && c.point.frames[0].inner == c.deco.inner
    ensures var (c', s') := EndSleep(s, id, c);
            var limiter := c.deco.inner.id;
            && LimitersInv(cfgs, s') && LimiterInv(cfgs, s, limiter) && LimiterInv(cfgs, s', limiter)
            && Calls(s', limiter, id) == Calls(s, limiter, id) + 1
            && Admissions(cfgs, s', limiter, id) ==
               Admissions(cfgs, s, limiter, id) + (if c'.point.control.InBody? then 1 else 0)
  {
    var f := c.point.frames[0];
    assert [Failed(f)] + c.point.frames[1..] == [Failed(f)];
    AttemptCounts(cfgs, id, f.inner, f.ctx, s, Failed(f));
  }

  lemma EndSleepLoops(cfgs: Limiters, s: Shared, id: nat, c: Caller)
    requires LimitersInv(cfgs, s) && LoopStands(cfgs, s, id, c) && IsLoop(c.deco)
    requires Rests(c.point, c.now.clock) && Awake(s, c)
    ensures var (c', s') := EndSleep(s, id, c); LimitersInv(cfgs, s') && LoopStands(cfgs, s', id, c')
  {
    var limiter := c.deco.inner.id;
    AttemptLoops(s, id, c, Calls(s, limiter, id), Admissions(cfgs, s, limiter, id));
    EndSleepCounts(cfgs, s, id, c);
  }

  // ----- Every reachable state -----

  ghost predicate CallerInv(cfgs: Limiters, s: Shared, id: nat, c: Caller)
    requires LimitersInv(cfgs, s)
  {
    Stands(cfgs, s, c) && LoopStands(cfgs, s, id, c)
  }

  ghost predicate Inv(cfgs: Limiters, s: State) {
    && LimitersInv(cfgs, s.shared)
    && (forall id | id in s.callers :: CallerInv(cfgs, s.shared, id, s.callers[id]))
    && (forall id: nat, limiter: nat | id !in s.callers :: Calls(s.shared, limiter, id) == 0)
  }

  lemma {:induction false} AdmittedAtMostCalls(who: seq<nat>, decisions: seq<bool>, id: nat)
    requires |who| == |decisions|
    ensures AdmittedBy(who, decisions, id) <= CallsBy(who, id)
  {
    if who == [] {
    } else {
      AdmittedAtMostCalls(who[..|who| - 1], decisions[..|who| - 1], id);
    }
  }

  /** What one coroutine does keeps the invariant of another. */
  lemma OtherStands(cfgs: Limiters, s: Shared, s': Shared, me: nat, id: nat, c: Caller)
    requires LimitersInv(cfgs, s) && LimitersInv(cfgs, s') && s.clock <= s'.clock
    requires CountsKept(cfgs, s, s', me) && id != me && CallerInv(cfgs, s, id, c)
    ensures CallerInv(cfgs, s', id, c)
  {
    if IsLoop(c.deco) {
      var limiter := c.deco.inner.id;
      assert LimiterInv(cfgs, s', limiter);
      assert Calls(s', limiter, id) == Calls(s, limiter, id);
    }
  }

  /** So an event of coroutine `me` needs a check of that coroutine only. */
  lemma OneCallerKeeps(cfgs: Limiters, s: State, me: nat, c: Caller, shared: Shared)
    requires Inv(cfgs, s) && SharedKept(cfgs, s.shared, shared, me) && CallerInv(cfgs, shared, me, c)
    ensures Inv(cfgs, State(shared, s.callers[me := c]))
  {
    var s' := State(shared, s.callers[me := c]);
    forall id | id in s'.callers ensures CallerInv(cfgs, shared, id, s'.callers[id]) {
      if id != me {
        OtherStands(cfgs, s.shared, shared, me, id, s.callers[id]);
      }
    }
  }

  lemma TickKeeps(cfgs: Limiters, s: State, to: real)
    requires Inv(cfgs, s) && s.shared.clock <= to
    ensures Inv(cfgs, s.(shared := s.shared.(clock := to)))
  {
    var shared := s.shared.(clock := to);
    forall limiter: nat ensures LimiterInv(cfgs, shared, limiter) {
      assert LimiterInv(cfgs, s.shared, limiter);
    }
    forall id: nat, limiter: nat | id !in s.callers ensures Calls(shared, limiter, id) == 0 {
      assert Calls(s.shared, limiter, id) == 0;
    }
    forall id | id in s.callers ensures CallerInv(cfgs, shared, id, s.callers[id]) {
      OtherStands(cfgs, s.shared, shared, id + 1, id, s.callers[id]);
    }
  }

  lemma StartKeeps(cfgs: Limiters, s: State, id: nat, deco: Deco, ctx: Context)
    requires Inv(cfgs, s) && id !in s.callers && Uses(deco, cfgs)
    ensures var (c, shared) := Begin(s.shared, id, deco, ctx); Inv(cfgs, State(shared, s.callers[id := c]))
  {
    var (c, shared) := Begin(s.shared, id, deco, ctx);
    forall limiter: nat
      ensures LimiterInv(cfgs, s.shared, limiter)
      ensures Calls(s.shared, limiter, id) == 0 && Admissions(cfgs, s.shared, limiter, id) == 0
    {
      assert LimiterInv(cfgs, s.shared, limiter);
      var past := PastOf(s.shared, limiter);
      AdmittedAtMostCalls(past.who, RL.Decisions(cfgs(limiter), past.calls), id);
    }
    BeginStands(cfgs, s.shared, id, deco, ctx);
    BeginLoops(cfgs, s.shared, id, deco, ctx);
    OneCallerKeeps(cfgs, s, id, c, shared);
  }

  lemma FinishKeeps(cfgs: Limiters, s: State, id: nat, play: Play)
    requires Inv(cfgs, s) && id in s.callers && s.callers[id].point.control.InBody?
    ensures Inv(cfgs, s.(callers := s.callers[id := EndBody(s.shared, s.callers[id], play)]))
  {
    var c := s.callers[id];
    EndBodyStands(cfgs, s.shared, c, play);
    if IsLoop(c.deco) {
      var limiter := c.deco.inner.id;
      EndBodyLoops(c, s.shared, play, Calls(s.shared, limiter, id), Admissions(cfgs, s.shared, limiter, id));
    }
    OneCallerKeeps(cfgs, s, id, EndBody(s.shared, c, play), s.shared);
  }

  lemma WakeKeeps(cfgs: Limiters, s: State, id: nat)
    requires Inv(cfgs, s) && id in s.callers && Awake(s.shared, s.callers[id])
    ensures var (c, shared) := EndSleep(s.shared, id, s.callers[id]); Inv(cfgs, State(shared, s.callers[id := c]))
  {
    var c := s.callers[id];
    var (c', shared) := EndSleep(s.shared, id, c);
    EndSleepStands(cfgs, s.shared, id, c);
    if IsLoop(c.deco) {
      EndSleepLoops(cfgs, s.shared, id, c);
    }
    OneCallerKeeps(cfgs, s, id, c', shared);
  }

  lemma CancelStands(cfgs: Limiters, s: Shared, id: nat, c: Caller)
    requires LimitersInv(cfgs, s) && CallerInv(cfgs, s, id, c) && !c.point.control.Over?
    ensures CallerInv(cfgs, s, id, c.(point := Point(Over(Cancelled), [])))
  {
    CancelAgrees(c);
  }

  lemma CancelKeeps(cfgs: Limiters, s: State, id: nat)
    requires Inv(cfgs, s) && id in s.callers && !s.callers[id].point.control.Over?
    ensures Inv(cfgs, s.(callers := s.callers[id := s.callers[id].(point := Point(Over(Cancelled), []))]))
  {
    var c := s.callers[id];
    CancelStands(cfgs, s.shared, id, c);
    OneCallerKeeps(cfgs, s, id, c.(point := Point(Over(Cancelled), [])), s.shared);
  }

  /** Every step of the system keeps the invariant. */
  lemma StepKeeps(cfgs: Limiters, s: State, e: Event)
    requires Inv(cfgs, s) && Next(cfgs, s, e).Some?
    ensures Inv(cfgs, Next(cfgs, s, e).value)
  {
    match e
    case Tick(to) => TickKeeps(cfgs, s, to);
    case Start(id, deco, ctx) => StartKeeps(cfgs, s, id, deco, ctx);
    case Finish(id, play) => FinishKeeps(cfgs, s, id, play);
    case Wake(id) => WakeKeeps(cfgs, s, id);
    case Cancel(id) => CancelKeeps(cfgs, s, id);
  }

  lemma {:induction false} Reachable(cfgs: Limiters, clock: real, events: seq<Event>)
    requires Run(cfgs, clock, events).Some?
    ensures Inv(cfgs, Run(cfgs, clock, events).value)
  {
    if events == [] {
    } else {
      var before := events[..|events| - 1];
      Reachable(cfgs, clock, before);
      StepKeeps(cfgs, Run(cfgs, clock, before).value, events[|events| - 1]);
    }
  }

  // ----- What follows -----

  lemma RunGoesOn(cfgs: Limiters, clock: real, events: seq<Event>, e: Event)
    requires Run(cfgs, clock, events).Some?
    ensures Run(cfgs, clock, events + [e]) == Next(cfgs, Run(cfgs, clock, events).value, e)
  {
    assert (events + [e])[..|events|] == events;
  }

  /** No coroutine is ever stuck: a new one may start at any time, a body may end in any way, whoever sleeps
      wakes up once the time has come, and all who wait may be cancelled. */
  lemma NeverStuck(cfgs: Limiters, clock: real, events: seq<Event>, id: nat, deco: Deco, ctx: Context, play: Play)
    requires Run(cfgs, clock, events).Some?
    ensures var s := Run(cfgs, clock, events).value;
            && (id !in s.callers && Uses(deco, cfgs) ==> Run(cfgs, clock, events + [Start(id, deco, ctx)]).Some?)
            && (id in s.callers && !s.callers[id].point.control.Over? ==>
                  Run(cfgs, clock, events + [Cancel(id)]).Some?)
            && (id in s.callers && s.callers[id].point.control.InBody? ==>
                  Run(cfgs, clock, events + [Finish(id, play)]).Some?)
            && (id in s.callers && s.callers[id].point.control.Sleeping? ==>
                  var until := s.callers[id].point.control.until;
                  Run(cfgs, clock, events + [Tick(MaxReal(s.shared.clock, until))] + [Wake(id)]).Some?)
  {
    var s := Run(cfgs, clock, events).value;
    Reachable(cfgs, clock, events);
    RunGoesOn(cfgs, clock, events, Start(id, deco, ctx));
    RunGoesOn(cfgs, clock, events, Cancel(id));
    RunGoesOn(cfgs, clock, events, Finish(id, play));
    if id in s.callers && s.callers[id].point.control.Sleeping? {
      assert Stands(cfgs, s.shared, s.callers[id]);
      var tick := Tick(MaxReal(s.shared.clock, s.callers[id].point.control.until));
      RunGoesOn(cfgs, clock, events, tick);
      RunGoesOn(cfgs, clock, events + [tick], Wake(id));
    }
  }

  /** Whatever stacks run at once and however they interleave, every limiter keeps every key to its limit in
      every window, and decides every call as if it had kept the complete history. */
  lemma LimitersStayCapped(cfgs: Limiters, clock: real, events: seq<Event>, limiter: nat)
    requires Run(cfgs, clock, events).Some?
    ensures var calls := PastOf(Run(cfgs, clock, events).value.shared, limiter).calls;
            var d := RL.Decisions(cfgs(limiter), calls);
            RL.Capped(cfgs(limiter), calls, d) && d == RL.FullHistoryDecisions(cfgs(limiter), calls)
  {
    Reachable(cfgs, clock, events);
    var s := Run(cfgs, clock, events).value.shared;
    assert LimiterInv(cfgs, s, limiter);
    RL.WindowCap(cfgs(limiter), PastOf(s, limiter).calls);
    RL.EvictionRefinesFullHistory(cfgs(limiter), PastOf(s, limiter).calls);
  }

  /** At any time each coroutine is just where its stack's own semantics is in the environment it met, world
      and all: with the result if it is over, and cut short if it still waits. */
  lemma SystemRunsTheStacks(cfgs: Limiters, clock: real, events: seq<Event>, id: nat)
    requires Run(cfgs, clock, events).Some? && id in Run(cfgs, clock, events).value.callers
    ensures var c := Run(cfgs, clock, events).value.callers[id];
            Exec(c.deco, c.ctx, c.first.(script := c.script)) ==
            (if c.point.control.Over? then c.point.control.result else Cancelled, c.now)
  {
    Reachable(cfgs, clock, events);
    var c := Run(cfgs, clock, events).value.callers[id];
    assert Stands(cfgs, Run(cfgs, clock, events).value.shared, c);
    assert AgreesOn(c, []);
    assert c.script + [] == c.script;
    assert c.now.(script := []) == c.now;
    CancelledStays(c.now, c.point.frames);
    if c.point.control.Sleeping? {
      CancelledStays(c.now, c.point.frames[1..]);
    }
  }

  /** No coroutine has begun more bodies than its stack's nested loops allow, or gone on before its sleeps
      were over. */
  lemma StacksStayBounded(cfgs: Limiters, clock: real, events: seq<Event>, id: nat)
    requires Run(cfgs, clock, events).Some? && id in Run(cfgs, clock, events).value.callers
    ensures var s := Run(cfgs, clock, events).value;
            var c := s.callers[id];
            && c.runs <= R.BodyBound(c.deco)
            && s.shared.clock >= c.first.clock + Slept(c.now.naps)
  {
    Reachable(cfgs, clock, events);
  }

  lemma LoopHolds(cfgs: Limiters, s: Shared, id: nat, c: Caller)
    requires LimitersInv(cfgs, s) && CallerInv(cfgs, s, id, c) && IsLoop(c.deco)
    ensures LoopResult(cfgs, s, id, c)
  {
    var calls := Calls(s, c.deco.inner.id, id);
    if calls >= 1 {
      SleptNaps(c.deco.backoffMs, calls - 1);
    }
  }

  /** Bodies begun are exactly admitted calls and at most `max_attempts`; a refusal is the last call and what
      comes out; and the backoff of all attempts so far is over. */
  ghost predicate LoopResult(cfgs: Limiters, s: Shared, id: nat, c: Caller)
    requires LimitersInv(cfgs, s) && IsLoop(c.deco)
  {
    var d, limiter := c.deco, c.deco.inner.id;
    var calls := Calls(s, limiter, id);
    && LimiterInv(cfgs, s, limiter)
    && c.runs == Admissions(cfgs, s, limiter, id) <= RL.Max0(d.maxAttempts)
    && calls <= c.runs + 1
    && (calls > c.runs ==> c.point.control == Over(Refusal(d.inner.blocking, c.ctx)))
    && (calls >= 1 ==> s.clock >= c.first.clock + Seconds(d.backoffMs * (Pow2(calls - 1) - 1)))
  }

  /** `@retry` directly over `@rate_limit`, run by any number of coroutines among any others: bodies begun are
      exactly admitted calls, so they stay within `max_attempts` for each and within the window cap over all
      attempts of all; a refusal is a coroutine's last call; and no attempt starts before the backoff of all
      earlier ones is over. */
  lemma RetryOverRateLimit(cfgs: Limiters, clock: real, events: seq<Event>, id: nat)
    requires Run(cfgs, clock, events).Some? && id in Run(cfgs, clock, events).value.callers
    requires IsLoop(Run(cfgs, clock, events).value.callers[id].deco)
    ensures var s := Run(cfgs, clock, events).value;
            var c := s.callers[id];
            var limiter := c.deco.inner.id;
            && LimitersInv(cfgs, s.shared) && LoopResult(cfgs, s.shared, id, c)
            && RL.Capped(cfgs(limiter), PastOf(s.shared, limiter).calls,
                         RL.Decisions(cfgs(limiter), PastOf(s.shared, limiter).calls))
  {
    Reachable(cfgs, clock, events);
    var s := Run(cfgs, clock, events).value;
    LoopHolds(cfgs, s.shared, id, s.callers[id]);
    LimitersStayCapped(cfgs, clock, events, s.callers[id].deco.inner.id);
  }
}
